/** `direntv6_print_tree` as a function on values, and why its output is the hierarchy. */
module Trees {
  import opened Unixv6fs
  import opened Inodes
  import opened Files
  import opened Volumes
  import opened Directories
  import opened Hierarchy

  datatype Kind = DIR | FIL
  datatype Line = Line(kind: Kind, text: seq<Byte>)

  /** The entries a reader of directory n gets before it stops, and the code it stops with. */
  function RawEntries(v: Vol, n: int): (seq<Dirent>, int)
    requires OpenDir(v, n).0 == 0
  {
    var s := ReadFrom(v.disk, OpenDir(v, n).1, 0);
    (Entries(s.data), s.code)
  }

  /** The directories below n end after at most depth levels, and all of them can be read. */
  predicate Walkable(v: Vol, n: int, depth: nat)
    decreases depth, 1
  {
    DirDefined(v, n) && (OpenDir(v, n).0 == 0 ==> forall e :: e in RawEntries(v, n).0 ==> EntryWalkable(v, e.inr, depth))
  }

  predicate EntryWalkable(v: Vol, n: int, depth: nat)
    decreases depth, 0
  {
    OpenDir(v, n).0 == 0 ==> depth > 0 && Walkable(v, n, depth - 1)
  }

  lemma WalkIsDefined(v: Vol, n: int, depth: nat)
    requires Walkable(v, n, depth)
    ensures DirDefined(v, n)
  {
  }

  lemma OpenedStep(v: Vol, n: int, e: Dirent, depth: nat)
    requires Walkable(v, n, depth) && OpenDir(v, n).0 == 0 && e in RawEntries(v, n).0
    requires ReadInode(v, e.inr).0 == 0 && IsDir(ReadInode(v, e.inr).1)
    ensures depth > 0 && Walkable(v, e.inr, depth - 1)
  {
    hide RawEntries, InodeAt, Walkable, EntryWalkable;
    EntriesWalkable(v, n, e, depth);
    EntryStep(v, e.inr, depth);
  }

  lemma EntriesWalkable(v: Vol, n: int, e: Dirent, depth: nat)
    requires Walkable(v, n, depth) && OpenDir(v, n).0 == 0 && e in RawEntries(v, n).0
    ensures EntryWalkable(v, e.inr, depth)
  {
    hide RawEntries, OpenDir, EntryWalkable;
  }

  lemma EntryStep(v: Vol, n: int, depth: nat)
    requires EntryWalkable(v, n, depth) && OpenDir(v, n).0 == 0
    ensures depth > 0 && Walkable(v, n, depth - 1)
  {
    hide RawEntries, OpenDir, Walkable;
  }

  function DirLine(n: int, prefix: seq<Byte>): Line {
    Line(DIR, if n == ROOT_INUMBER then [SLASH] + prefix else prefix + [SLASH])
  }

  /** The return code and the lines printed before returning. */
  function TreeOf(v: Vol, n: int, prefix: seq<Byte>, depth: nat): (int, seq<Line>)
    requires Walkable(v, n, depth)
    decreases depth, 1, 0
  {
    var (c, _) := OpenDir(v, n);
    if c != 0 then (c, [])
    else
      var (es, end) := RawEntries(v, n);
      if es == [] && end < 0 then (end, [])
      else
        var (c1, ls) := TreeOfEntries(v, n, es, end, prefix, depth);
        (c1, [DirLine(n, prefix)] + ls)
  }

  function TreeOfEntries(v: Vol, n: int, es: seq<Dirent>, end: int, prefix: seq<Byte>, depth: nat): (int, seq<Line>)
    requires Walkable(v, n, depth) && OpenDir(v, n).0 == 0
    requires forall e :: e in es ==> e in RawEntries(v, n).0
    decreases depth, 0, |es|
  {
    if es == [] then (end, [])
    else
      var e := es[0];
      var (c, i) := ReadInode(v, e.inr);
      if c != 0 then (c, [])
      else
        var path := prefix + [SLASH] + e.name;
        if IsDir(i) then
          OpenedStep(v, n, e, depth);
          var (c1, ls1) := TreeOf(v, e.inr, path, depth - 1);
          if c1 != ERR_NONE then (c1, ls1)
          else
            var (c2, ls2) := TreeOfEntries(v, n, es[1..], end, prefix, depth);
            (c2, ls1 + ls2)
        else
          var (c2, ls2) := TreeOfEntries(v, n, es[1..], end, prefix, depth);
          (c2, [Line(FIL, path)] + ls2)
  }

  /** What one entry contributes: an error, a file's line, or a whole subtree. */
  function EntryTree(v: Vol, n: int, path: seq<Byte>, depth: nat): (int, seq<Line>)
    requires EntryWalkable(v, n, depth)
  {
    var (c, i) := ReadInode(v, n);
    if c != 0 then (c, [])
    else if IsDir(i) then TreeOf(v, n, path, depth - 1)
    else (ERR_NONE, [Line(FIL, path)])
  }

  /** The lines of some entries, one after the other. */
  function AllLines(v: Vol, es: seq<Dirent>, prefix: seq<Byte>, depth: nat): seq<Line>
    requires forall e :: e in es ==> EntryWalkable(v, e.inr, depth)
  {
    if es == [] then [] else EntryTree(v, es[0].inr, prefix + [47] + es[0].name, depth).1 + AllLines(v, es[1..], prefix, depth)
  }

  /** Entry k is the first one that fails. */
  predicate FailsAt(v: Vol, es: seq<Dirent>, prefix: seq<Byte>, depth: nat, k: nat)
    requires forall e :: e in es ==> EntryWalkable(v, e.inr, depth)
  {
    && k < |es| && EntryTree(v, es[k].inr, prefix + [47] + es[k].name, depth).0 != 0
    && forall j :: 0 <= j < k ==> EntryTree(v, es[j].inr, prefix + [47] + es[j].name, depth).0 == 0
  }

  /** The listing of the entries of one directory, sound or not: it prints their lines in
      order, up to and with the first one that fails, and answers as that one; if none fails
      it answers what ended the directory. */
  lemma {:induction false} EntriesListed(v: Vol, n: int, es: seq<Dirent>, end: int, prefix: seq<Byte>, depth: nat, k: nat)
    requires Walkable(v, n, depth) && OpenDir(v, n).0 == 0
    requires forall e :: e in es ==> e in RawEntries(v, n).0
    requires forall e :: e in es ==> EntryWalkable(v, e.inr, depth)
    ensures FailsAt(v, es, prefix, depth, k) ==>
      TreeOfEntries(v, n, es, end, prefix, depth) ==
        (EntryTree(v, es[k].inr, prefix + [47] + es[k].name, depth).0,
         AllLines(v, es[..k], prefix, depth) + EntryTree(v, es[k].inr, prefix + [47] + es[k].name, depth).1)
    ensures (forall j :: 0 <= j < |es| ==> EntryTree(v, es[j].inr, prefix + [47] + es[j].name, depth).0 == 0) ==>
      TreeOfEntries(v, n, es, end, prefix, depth) == (end, AllLines(v, es, prefix, depth))
    decreases |es|
  {
    hide RawEntries, TreeOf, InodeAt, OpenDir, Walkable, ReadInode, EntryTree;
    if es != [] {
      EntriesListed(v, n, es[1..], end, prefix, depth, if k > 0 then k - 1 else 0);
      OneListed(v, n, es, end, prefix, depth);
      var first := EntryTree(v, es[0].inr, prefix + [47] + es[0].name, depth);
      if FailsAt(v, es, prefix, depth, k) {
        if k == 0 {
          assert es[..0] == [] && [] + first.1 == first.1;
        } else {
          assert es[..k][0] == es[0] && es[..k][1..] == es[1..][..k - 1];
          assert FailsAt(v, es[1..], prefix, depth, k - 1) && es[1..][k - 1] == es[k];
          var last := EntryTree(v, es[k].inr, prefix + [47] + es[k].name, depth);
          var others := AllLines(v, es[1..][..k - 1], prefix, depth);
          assert AllLines(v, es[..k], prefix, depth) == first.1 + others;
          assert first.1 + (others + last.1) == first.1 + others + last.1;
        }
      }
    }
  }

  /** The first entry, and the rest if it does not fail. */
  lemma OneListed(v: Vol, n: int, es: seq<Dirent>, end: int, prefix: seq<Byte>, depth: nat)
    requires Walkable(v, n, depth) && OpenDir(v, n).0 == 0 && es != []
    requires forall e :: e in es ==> e in RawEntries(v, n).0
    requires EntryWalkable(v, es[0].inr, depth)
    ensures var (c1, ls1) := EntryTree(v, es[0].inr, prefix + [47] + es[0].name, depth);
      var (c2, ls2) := TreeOfEntries(v, n, es[1..], end, prefix, depth);
      TreeOfEntries(v, n, es, end, prefix, depth) == if c1 != 0 then (c1, ls1) else (c2, ls1 + ls2)
  {
    hide RawEntries, TreeOf, InodeAt;
    assert es[0] in es;
  }

  // ---------------------------------------------------------------- the hierarchy in preorder

  /** A place in the hierarchy: the names that lead to it from the root, and its inode. */
  datatype Node = Node(path: seq<seq<Byte>>, inr: int)

  ghost predicate RankFalls(v: Vol, rank: int -> nat)
    requires FilesOk(v)
  {
    forall n, e :: LiveDir(v, n) && e in DirEntries(v, n) && LiveDir(v, e.inr) ==> rank(e.inr) < rank(n)
  }

  /** Every well-formed volume has such a rank. */
  lemma VolumeHasRank(v: Vol) returns (rank: int -> nat)
    requires VolumeOk(v)
    ensures RankFalls(v, rank)
  {
    hide InodeAt, FilesOk, DirEntries, Allocated, DirOk;
    var r :| Ranked(v, r);
    rank := n => if 0 <= n < |r| then r[n] else 0;
  }

  ghost function Preorder(v: Vol, n: int, path: seq<seq<Byte>>, rank: int -> nat): (ns: seq<Node>)
    requires VolumeOk(v) && RankFalls(v, rank) && LiveDir(v, n)
    decreases rank(n), 1, 0
  {
    [Node(path, n)] + PreorderOf(v, n, DirEntries(v, n), path, rank)
  }

  ghost function PreorderOf(v: Vol, n: int, es: seq<Dirent>, path: seq<seq<Byte>>, rank: int -> nat): (ns: seq<Node>)
    requires VolumeOk(v) && RankFalls(v, rank) && LiveDir(v, n)
    requires forall e :: e in es ==> e in DirEntries(v, n)
    decreases rank(n), 0, |es|
  {
    if es == [] then []
    else
      (if LiveDir(v, es[0].inr) then Preorder(v, es[0].inr, path + [es[0].name], rank)
       else [Node(path + [es[0].name], es[0].inr)])
      + PreorderOf(v, n, es[1..], path, rank)
  }

  /** "/a/b" for the names a, b. */
  function PathText(cs: seq<seq<Byte>>): seq<Byte> {
    if cs == [] then [] else PathText(cs[..|cs| - 1]) + [SLASH] + cs[|cs| - 1]
  }

  /** The same text, first name first. */
  function Spelled(cs: seq<seq<Byte>>): seq<Byte> {
    if cs == [] then [] else [47] + cs[0] + Spelled(cs[1..])
  }

  lemma {:induction false} SpelledOut(cs: seq<seq<Byte>>)
    ensures PathText(cs) == Spelled(cs)
    decreases |cs|
  {
    if cs != [] {
      SpelledOut(cs[..|cs| - 1]);
      SpelledMore(cs[..|cs| - 1], cs[|cs| - 1]);
      assert cs == cs[..|cs| - 1] + [cs[|cs| - 1]];
    }
  }

  lemma {:induction false} SpelledMore(cs: seq<seq<Byte>>, name: seq<Byte>)
    ensures Spelled(cs + [name]) == Spelled(cs) + [47] + name
    decreases |cs|
  {
    if cs == [] {
      assert cs + [name] == [name] && [name][1..] == [];
    } else {
      assert (cs + [name])[1..] == cs[1..] + [name];
      SpelledMore(cs[1..], name);
    }
  }

  ghost function Render(v: Vol, node: Node): Line {
    if LiveDir(v, node.inr) then DirLine(node.inr, PathText(node.path)) else Line(FIL, PathText(node.path))
  }

  ghost function RenderAll(v: Vol, ns: seq<Node>): (ls: seq<Line>)
    ensures |ls| == |ns| && forall k :: 0 <= k < |ns| ==> ls[k] == Render(v, ns[k])
  {
    seq(|ns|, k requires 0 <= k < |ns| => Render(v, ns[k]))
  }

  lemma RenderConcat(v: Vol, a: seq<Node>, b: seq<Node>)
    ensures RenderAll(v, a + b) == RenderAll(v, a) + RenderAll(v, b)
  {
  }

  /** In a well-formed volume a directory opens and reads to its end. */
  lemma OpensFine(v: Vol, n: int)
    requires FilesOk(v)
    ensures OpenDir(v, n).0 == 0 <==> LiveDir(v, n)
    ensures LiveDir(v, n) ==> RawEntries(v, n) == (DirEntries(v, n), 0)
  {
    hide InodeAt, FindSector, Entries, Size, UsesSlot;
    if LiveDir(v, n) {
      LiveFilesReadable(v, n);
      StreamIsContent(v.disk, InodeAt(v, n), 0);
      assert Data(v, n)[0..] == Data(v, n);
    }
  }

  /** The rank of a directory bounds the walk below it. */
  lemma {:induction false} RankBoundsWalk(v: Vol, n: int, depth: nat, rank: int -> nat)
    requires VolumeOk(v) && RankFalls(v, rank) && rank(n) <= depth
    ensures Walkable(v, n, depth)
    decreases depth
  {
    hide VolumeOk, OpenDir, RawEntries, DirEntries, LiveDir, DirDefined;
    VolumeHasFiles(v);
    DirsDefined(v);
    OpensFine(v, n);
    if OpenDir(v, n).0 == 0 {
      forall e | e in RawEntries(v, n).0 ensures EntryWalkable(v, e.inr, depth) {
        OpensFine(v, e.inr);
        if OpenDir(v, e.inr).0 == 0 {
          RankBoundsWalk(v, e.inr, depth - 1, rank);
        }
      }
    }
  }

  /** The printed lines are the preorder, rendered. */
  lemma {:induction false} TreeIsPreorder(v: Vol, n: int, path: seq<seq<Byte>>, rank: int -> nat, depth: nat)
    requires VolumeOk(v) && RankFalls(v, rank) && Walkable(v, n, depth) && LiveDir(v, n)
    ensures TreeOf(v, n, PathText(path), depth) == (ERR_NONE, RenderAll(v, Preorder(v, n, path, rank)))
    decreases rank(n), 1, 0
  {
    hide VolumeOk, RankFalls, Walkable, LiveDir, DirEntries, OpenDir, RawEntries, PathText, TreeOfEntries, PreorderOf;
    VolumeHasFiles(v);
    OpensFine(v, n);
    var es := DirEntries(v, n);
    TreeIsPreorderOf(v, n, es, path, rank, depth);
    RenderConcat(v, [Node(path, n)], PreorderOf(v, n, es, path, rank));
    assert RenderAll(v, [Node(path, n)]) == [DirLine(n, PathText(path))];
  }

  lemma VolumeHasFiles(v: Vol)
    requires VolumeOk(v)
    ensures FilesOk(v)
  {
  }

  lemma {:induction false} TreeIsPreorderOf(v: Vol, n: int, es: seq<Dirent>, path: seq<seq<Byte>>, rank: int -> nat, depth: nat)
    requires VolumeOk(v) && RankFalls(v, rank) && Walkable(v, n, depth) && LiveDir(v, n)
    requires OpenDir(v, n).0 == 0 && RawEntries(v, n).0 == DirEntries(v, n)
    requires forall e :: e in es ==> e in DirEntries(v, n)
    ensures TreeOfEntries(v, n, es, 0, PathText(path), depth) == (ERR_NONE, RenderAll(v, PreorderOf(v, n, es, path, rank)))
    decreases rank(n), 0, |es|
  {
    hide InodeAt, FilesOk, DirEntries, OpenDir, RawEntries, Acyclic, TreeOf, Preorder, Walkable, Allocated, DistinctNames;
    if es != [] {
      var e := es[0];
      assert DirOk(v, n) && e in DirEntries(v, n);
      assert Live(v, e.inr);
      assert ReadInode(v, e.inr) == (ERR_NONE, InodeAt(v, e.inr));
      var p := path + [e.name];
      assert p[..|p| - 1] == path;
      assert PathText(p) == PathText(path) + [SLASH] + e.name;
      TreeIsPreorderOf(v, n, es[1..], path, rank, depth);
      if LiveDir(v, e.inr) {
        OpenedStep(v, n, e, depth);
        TreeIsPreorder(v, e.inr, p, rank, depth - 1);
        RenderConcat(v, Preorder(v, e.inr, p, rank), PreorderOf(v, n, es[1..], path, rank));
      } else {
        RenderConcat(v, [Node(p, e.inr)], PreorderOf(v, n, es[1..], path, rank));
        assert RenderAll(v, [Node(p, e.inr)]) == [Line(FIL, PathText(p))];
      }
    }
  }

  // ---------------------------------------------------------------- the preorder lists each place once

  /** A node lies below (n, path): its path goes on from there and resolves to its inode. */
  ghost predicate Below(v: Vol, n: int, path: seq<seq<Byte>>, node: Node) {
    path <= node.path && Resolve(v, n, node.path[|path|..]) == node.inr && node.inr >= 0
  }

  /** A node lies below one of the entries es of directory n. */
  ghost predicate BelowEntries(v: Vol, n: int, es: seq<Dirent>, path: seq<seq<Byte>>, node: Node) {
    && Below(v, n, path, node) && |node.path| > |path|
    && exists k :: 0 <= k < |es| && es[k].name == node.path[|path|]
  }

  /** In a directory with distinct names every entry is found by its own name. */
  lemma EntryIsFound(v: Vol, n: int, e: Dirent)
    requires VolumeOk(v) && LiveDir(v, n) && e in DirEntries(v, n)
    ensures DirFind(v, n, e.name) == e.inr && Live(v, e.inr) && GoodName(e.name)
  {
    hide InodeAt, FilesOk, Data, Entries, Allocated, OnDisk, Acyclic;
    assert DirOk(v, n);
    DirFindInEntries(v, n, e.name);
    var es := DirEntries(v, n);
    var k := FirstIndex(es, e.name);
    var j :| 0 <= j < |es| && es[j] == e;
    assert k <= j;
  }

  lemma {:induction false} PreorderIsBelow(v: Vol, n: int, path: seq<seq<Byte>>, rank: int -> nat, node: Node)
    requires VolumeOk(v) && RankFalls(v, rank) && LiveDir(v, n)
    requires node in Preorder(v, n, path, rank)
    ensures Below(v, n, path, node)
    decreases rank(n), 1, 0
  {
    hide VolumeOk, RankFalls, DirEntries, PreorderOf, InodeAt, Allocated;
    VolumeHasFiles(v);
    if node == Node(path, n) {
      assert path[|path|..] == [];
      LiveDirNumber(v, n);
    } else {
      PreorderOfIsBelow(v, n, DirEntries(v, n), path, rank, node);
    }
  }

  lemma LiveDirNumber(v: Vol, n: int)
    requires LiveDir(v, n)
    ensures n >= 0
  {
  }

  lemma {:induction false} PreorderOfIsBelow(v: Vol, n: int, es: seq<Dirent>, path: seq<seq<Byte>>, rank: int -> nat, node: Node)
    requires VolumeOk(v) && RankFalls(v, rank) && LiveDir(v, n)
    requires forall e :: e in es ==> e in DirEntries(v, n)
    requires node in PreorderOf(v, n, es, path, rank)
    ensures BelowEntries(v, n, es, path, node)
    decreases rank(n), 0, |es|
  {
    hide VolumeOk, InodeAt, DirEntries, Preorder, DirFind, Allocated, OnDisk;
    VolumeHasFiles(v);
    var e := es[0];
    var p := path + [e.name];
    EntryIsFound(v, n, e);
    if LiveDir(v, e.inr) && node in Preorder(v, e.inr, p, rank) {
      PreorderIsBelow(v, e.inr, p, rank, node);
      StepDown(v, n, path, e, node);
    } else if !LiveDir(v, e.inr) && node == Node(p, e.inr) {
      assert node.path[|p|..] == [];
      StepDown(v, n, path, e, node);
    } else {
      PreorderOfIsBelow(v, n, es[1..], path, rank, node);
      var k :| 0 <= k < |es[1..]| && es[1..][k].name == node.path[|path|];
      assert es[k + 1] == es[1..][k];
    }
  }

  lemma StepDown(v: Vol, n: int, path: seq<seq<Byte>>, e: Dirent, node: Node)
    requires DirFind(v, n, e.name) == e.inr && Below(v, e.inr, path + [e.name], node)
    ensures Below(v, n, path, node) && |node.path| > |path| && node.path[|path|] == e.name
  {
    hide DirFind;
    var p := path + [e.name];
    assert node.path == p + node.path[|p|..];
    var cs := node.path[|path|..];
    assert cs[0] == e.name && cs[1..] == node.path[|p|..];
  }

  /** Whatever resolves from directory n is listed below it. */
  lemma {:induction false} ResolvedIsListed(v: Vol, n: int, path: seq<seq<Byte>>, rank: int -> nat, cs: seq<seq<Byte>>)
    requires VolumeOk(v) && RankFalls(v, rank) && LiveDir(v, n) && Resolve(v, n, cs) >= 0
    ensures Node(path + cs, Resolve(v, n, cs)) in Preorder(v, n, path, rank)
    decreases |cs|
  {
    hide InodeAt, FilesOk, Data, Entries, Allocated, OnDisk, Acyclic, DirFind, PreorderOf, DistinctNames;
    if cs == [] {
      assert path + cs == path;
    } else {
      var es, r := DirEntries(v, n), DirFind(v, n, cs[0]);
      DirFindInEntries(v, n, cs[0]);
      assert DirOk(v, n);
      var k := FirstIndex(es, cs[0]);
      assert es[k] in es && es[k] == Dirent(r, cs[0]);
      var p := path + [cs[0]];
      assert path + cs == p + cs[1..];
      if LiveDir(v, r) {
        ResolvedIsListed(v, r, p, rank, cs[1..]);
      } else {
        FilesHaveNoChildren(v, r, cs[1..]);
        assert p + cs[1..] == p;
      }
      EntryIsListed(v, n, es, path, rank, k, Node(path + cs, Resolve(v, n, cs)));
    }
  }

  lemma FilesHaveNoChildren(v: Vol, n: int, cs: seq<seq<Byte>>)
    requires FilesOk(v) && !LiveDir(v, n) && Resolve(v, n, cs) >= 0
    ensures cs == []
  {
    hide DirFind, FilesOk, InodeAt, DirEntries, FirstMatch;
    if cs != [] {
      DirFindInEntries(v, n, cs[0]);
    }
  }

  lemma {:induction false} EntryIsListed(v: Vol, n: int, es: seq<Dirent>, path: seq<seq<Byte>>, rank: int -> nat, k: nat, node: Node)
    requires VolumeOk(v) && RankFalls(v, rank) && LiveDir(v, n)
    requires forall e :: e in es ==> e in DirEntries(v, n)
    requires k < |es|
    requires LiveDir(v, es[k].inr) ==> node in Preorder(v, es[k].inr, path + [es[k].name], rank)
    requires !LiveDir(v, es[k].inr) ==> node == Node(path + [es[k].name], es[k].inr)
    ensures node in PreorderOf(v, n, es, path, rank)
    decreases |es|
  {
    hide InodeAt, FilesOk, DirEntries, Preorder, Allocated, OnDisk, Acyclic, DirOk;
    if k > 0 {
      EntryIsListed(v, n, es[1..], path, rank, k - 1, node);
    }
  }

  ghost predicate DistinctPaths(ns: seq<Node>) {
    forall j, k :: 0 <= j < k < |ns| ==> ns[j].path != ns[k].path
  }

  lemma {:induction false} PreorderIsDistinct(v: Vol, n: int, path: seq<seq<Byte>>, rank: int -> nat)
    requires VolumeOk(v) && RankFalls(v, rank) && LiveDir(v, n)
    ensures DistinctPaths(Preorder(v, n, path, rank))
    decreases rank(n), 1, 0
  {
    hide InodeAt, FilesOk, Data, Entries, Allocated, OnDisk, Acyclic, PreorderOf, Below;
    var es := DirEntries(v, n);
    assert DirOk(v, n);
    PreorderOfIsDistinct(v, n, es, path, rank);
    forall node | node in PreorderOf(v, n, es, path, rank) ensures node.path != path {
      PreorderOfIsBelow(v, n, es, path, rank, node);
    }
  }

  lemma {:induction false} PreorderOfIsDistinct(v: Vol, n: int, es: seq<Dirent>, path: seq<seq<Byte>>, rank: int -> nat)
    requires VolumeOk(v) && RankFalls(v, rank) && LiveDir(v, n)
    requires DistinctNames(es) && forall e :: e in es ==> e in DirEntries(v, n)
    ensures DistinctPaths(PreorderOf(v, n, es, path, rank))
    decreases rank(n), 0, |es|
  {
    hide VolumeOk, InodeAt, DirEntries, Preorder, DirFind, Allocated, OnDisk, Below;
    VolumeHasFiles(v);
    if es != [] {
      var e, p := es[0], path + [es[0].name];
      var rest := PreorderOf(v, n, es[1..], path, rank);
      PreorderOfIsDistinct(v, n, es[1..], path, rank);
      forall node | node in rest ensures |node.path| > |path| && node.path[|path|] != e.name {
        PreorderOfIsBelow(v, n, es[1..], path, rank, node);
      }
      if LiveDir(v, e.inr) {
        var first := Preorder(v, e.inr, p, rank);
        PreorderIsDistinct(v, e.inr, p, rank);
        forall node | node in first ensures |node.path| > |path| && node.path[|path|] == e.name {
          PreorderIsBelow(v, e.inr, p, rank, node);
          PrefixAt(v, e.inr, path, e.name, node);
        }
      }
    }
  }

  lemma PrefixAt(v: Vol, n: int, path: seq<seq<Byte>>, name: seq<Byte>, node: Node)
    requires Below(v, n, path + [name], node)
    ensures |node.path| > |path| && node.path[|path|] == name
  {
    hide Resolve;
    assert (path + [name])[|path|] == name;
  }

  // ---------------------------------------------------------------- the order of the listing

  /** Of two places below directory n, p comes first: it lies above q, or where the paths
      part its name stands earlier in the directory. */
  ghost predicate Precedes(v: Vol, n: int, p: seq<seq<Byte>>, q: seq<seq<Byte>>)
    requires FilesOk(v)
    decreases |p|
  {
    if q == [] then false
    else if p == [] then true
    else if p[0] == q[0] then Precedes(v, DirFind(v, n, p[0]), p[1..], q[1..])
    else LiveDir(v, n) && EarlierName(DirEntries(v, n), p[0], q[0])
  }

  predicate EarlierName(es: seq<Dirent>, a: seq<Byte>, b: seq<Byte>) {
    exists j, k :: 0 <= j < k < |es| && es[j].name == a && es[k].name == b
  }

  /** The listing is in the order of the directories, each place before what lies below it. */
  lemma {:induction false} PreorderIsOrdered(v: Vol, n: int, path: seq<seq<Byte>>, rank: int -> nat, j: nat, k: nat)
    requires VolumeOk(v) && RankFalls(v, rank) && LiveDir(v, n)
    requires j < k < |Preorder(v, n, path, rank)|
    ensures FilesOk(v)
    ensures var ns := Preorder(v, n, path, rank);
      path <= ns[j].path && path <= ns[k].path && Precedes(v, n, ns[j].path[|path|..], ns[k].path[|path|..])
    decreases rank(n), 1, 0
  {
    hide InodeAt, FilesOk, Data, Entries, Allocated, OnDisk, Acyclic, PreorderOf, Below, DirFind, DistinctNames;
    VolumeHasFiles(v);
    var es, ns := DirEntries(v, n), Preorder(v, n, path, rank);
    var rest := PreorderOf(v, n, es, path, rank);
    assert ns == [Node(path, n)] + rest;
    assert ns[k] == rest[k - 1] && ns[k] in rest;
    PreorderOfIsBelow(v, n, es, path, rank, ns[k]);
    PathsBelow(v, n, path, ns[k]);
    if j == 0 {
      assert ns[0].path[|path|..] == [];
    } else {
      assert DirOk(v, n) && es[0..] == es;
      PreorderOfIsOrdered(v, n, 0, path, rank, j - 1, k - 1);
    }
  }

  lemma PathsBelow(v: Vol, n: int, path: seq<seq<Byte>>, node: Node)
    requires Below(v, n, path, node) && |node.path| > |path|
    ensures path <= node.path && node.path[|path|..] != []
  {
    hide Resolve;
  }

  lemma {:induction false} PreorderOfIsOrdered(v: Vol, n: int, m: nat, path: seq<seq<Byte>>, rank: int -> nat, j: nat, k: nat)
    requires VolumeOk(v) && RankFalls(v, rank) && LiveDir(v, n) && FilesOk(v) && m <= |DirEntries(v, n)|
    requires DistinctNames(DirEntries(v, n)) && forall e :: e in DirEntries(v, n)[m..] ==> e in DirEntries(v, n)
    requires j < k < |PreorderOf(v, n, DirEntries(v, n)[m..], path, rank)|
    ensures var ns := PreorderOf(v, n, DirEntries(v, n)[m..], path, rank);
      path <= ns[j].path && path <= ns[k].path && Precedes(v, n, ns[j].path[|path|..], ns[k].path[|path|..])
    decreases rank(n), 0, |DirEntries(v, n)| - m
  {
    hide VolumeOk, FilesOk, InodeAt, DirEntries, Preorder, DirFind, Allocated, OnDisk, Below, DistinctNames, Precedes;
    var all := DirEntries(v, n);
    var es := all[m..];
    var e, p := es[0], path + [es[0].name];
    assert all[m] == e && es[1..] == all[m + 1..];
    EntryIsFound(v, n, e);
    var first := if LiveDir(v, e.inr) then Preorder(v, e.inr, p, rank) else [Node(p, e.inr)];
    var rest := PreorderOf(v, n, es[1..], path, rank);
    var ns := PreorderOf(v, n, es, path, rank);
    assert ns == first + rest;
    if j >= |first| {
      PreorderOfIsOrdered(v, n, m + 1, path, rank, j - |first|, k - |first|);
    } else {
      FirstBelow(v, n, m, path, rank, ns[j]);
      if k < |first| {
        PreorderIsOrdered(v, e.inr, p, rank, j, k);
        FirstBelow(v, n, m, path, rank, ns[k]);
        SameFirstName(v, n, path, e, ns[j], ns[k]);
      } else {
        assert ns[k] in rest;
        PreorderOfIsBelow(v, n, es[1..], path, rank, ns[k]);
        PathsBelow(v, n, path, ns[k]);
        LaterName(v, n, m, path, ns[j], ns[k]);
      }
    }
  }

  /** What is listed for entry m starts with its name. */
  lemma FirstBelow(v: Vol, n: int, m: nat, path: seq<seq<Byte>>, rank: int -> nat, node: Node)
    requires VolumeOk(v) && RankFalls(v, rank) && LiveDir(v, n) && FilesOk(v) && m < |DirEntries(v, n)|
    requires var e := DirEntries(v, n)[m];
      if LiveDir(v, e.inr) then node in Preorder(v, e.inr, path + [e.name], rank) else node == Node(path + [e.name], e.inr)
    ensures |node.path| > |path| && path <= node.path && node.path[|path|] == DirEntries(v, n)[m].name
  {
    hide VolumeOk, InodeAt, DirEntries, Preorder, Allocated, OnDisk;
    var e := DirEntries(v, n)[m];
    if LiveDir(v, e.inr) {
      PreorderIsBelow(v, e.inr, path + [e.name], rank, node);
      PrefixAt(v, e.inr, path, e.name, node);
      BelowPrefix(v, e.inr, path, e.name, node);
    }
  }

  lemma BelowPrefix(v: Vol, n: int, path: seq<seq<Byte>>, name: seq<Byte>, node: Node)
    requires Below(v, n, path + [name], node)
    ensures path <= node.path && path + [name] <= node.path
  {
    hide Resolve;
    assert node.path[..|path| + 1] == path + [name];
  }

  lemma SameFirstName(v: Vol, n: int, path: seq<seq<Byte>>, e: Dirent, a: Node, b: Node)
    requires FilesOk(v) && DirFind(v, n, e.name) == e.inr
    requires |a.path| > |path| && |b.path| > |path| && a.path[|path|] == e.name == b.path[|path|]
    requires Precedes(v, e.inr, a.path[|path| + 1..], b.path[|path| + 1..])
    ensures Precedes(v, n, a.path[|path|..], b.path[|path|..])
  {
    hide DirFind, FilesOk;
    var p, q := a.path[|path|..], b.path[|path|..];
    assert p[1..] == a.path[|path| + 1..] && q[1..] == b.path[|path| + 1..];
  }

  lemma LaterName(v: Vol, n: int, m: nat, path: seq<seq<Byte>>, a: Node, b: Node)
    requires FilesOk(v) && LiveDir(v, n) && m < |DirEntries(v, n)| && DistinctNames(DirEntries(v, n))
    requires |a.path| > |path| && |b.path| > |path| && a.path[|path|] == DirEntries(v, n)[m].name
    requires BelowEntries(v, n, DirEntries(v, n)[m + 1..], path, b)
    ensures Precedes(v, n, a.path[|path|..], b.path[|path|..])
  {
    hide DirFind, FilesOk, DirEntries, InodeAt;
    var es := DirEntries(v, n);
    var k :| 0 <= k < |es[m + 1..]| && es[m + 1..][k].name == b.path[|path|];
    assert es[m + 1 + k] == es[m + 1..][k];
    assert EarlierName(es, a.path[|path|], b.path[|path|]);
  }

  // ---------------------------------------------------------------- the text of a path

  predicate GoodPath(cs: seq<seq<Byte>>) {
    forall c :: c in cs ==> GoodName(c)
  }

  lemma {:induction false} ComponentsOfText(cs: seq<seq<Byte>>)
    requires GoodPath(cs)
    ensures Components(PathText(cs)) == cs && Components(PathText(cs) + [SLASH]) == cs
    ensures TrailingSlashes(PathText(cs)) == 0
  {
    hide Tokens, TrailingSlashes;
    NoComponents();
    var t := PathText(cs);
    if cs == [] {
      NoTrailing();
    } else {
      var init, name := cs[..|cs| - 1], cs[|cs| - 1];
      assert cs == init + [name] && name in cs;
      ComponentsOfText(init);
      NameHasNoSlash(name);
      TokensJoin(PathText(init), name, []);
      assert t[|t| - 1] == name[|name| - 1];
      NameEndsSlashes(t, |t|);
      assert t[|t|..] == [];
      NoTrailing();
    }
    TokensJoin(t, [], []);
    assert t + [SLASH] + [] == t + [SLASH];
    assert cs + [] == cs;
  }

  lemma NoTrailing()
    ensures TrailingSlashes([]) == 0 && TrailingSlashes([SLASH]) == 1
  {
    assert [SLASH][..0] == [];
  }

  lemma {:induction false} NodeNamesAreGood(v: Vol, n: int, cs: seq<seq<Byte>>)
    requires VolumeOk(v) && Resolve(v, n, cs) >= 0
    ensures GoodPath(cs)
    decreases |cs|
  {
    hide InodeAt, FilesOk, Data, Entries, Allocated, OnDisk, Acyclic, DirFind, GoodName;
    if cs != [] {
      DirFindInEntries(v, n, cs[0]);
      assert DirOk(v, n);
      var es := DirEntries(v, n);
      assert es[FirstIndex(es, cs[0])] in es;
      NodeNamesAreGood(v, DirFind(v, n, cs[0]), cs[1..]);
      assert cs == [cs[0]] + cs[1..];
    }
  }

  /** The path an emitted line stands for: the root is "/", any other directory is printed
      with one more slash than its path has. */
  function LinePath(cs: seq<seq<Byte>>): seq<Byte> {
    if cs == [] then [SLASH] else PathText(cs)
  }

  lemma {:induction false} RanksFall(v: Vol, n: int, rank: int -> nat, cs: seq<seq<Byte>>)
    requires VolumeOk(v) && RankFalls(v, rank) && LiveDir(v, n) && cs != []
    requires Resolve(v, n, cs) >= 0 && LiveDir(v, Resolve(v, n, cs))
    ensures rank(Resolve(v, n, cs)) < rank(n)
    decreases |cs|
  {
    hide InodeAt, FilesOk, Data, Entries, Allocated, OnDisk, Acyclic, DirFind, GoodName;
    DirFindInEntries(v, n, cs[0]);
    assert DirOk(v, n);
    var es, r := DirEntries(v, n), DirFind(v, n, cs[0]);
    assert es[FirstIndex(es, cs[0])] in es;
    if cs[1..] != [] {
      if !LiveDir(v, r) {
        FilesHaveNoChildren(v, r, cs[1..]);
      }
      RanksFall(v, r, rank, cs[1..]);
    }
  }

  /** Listing agrees with lookup. On a well-formed volume the walk from the root ends and
      succeeds; each line stands for one path, which lookup resolves to the inode the line
      was printed for, and spells it out, with one slash behind it for a directory; every
      path that resolves at all is, up to its slashes, printed, and printed on exactly one
      line; and a directory's line, taken literally with the slash printed behind it, resolves
      only for the root. The lines stand in the order of the directories, each place before
      what lies below it. */
  lemma ListingAgreesWithLookup(v: Vol) returns (depth: nat, nodes: seq<Node>)
    requires VolumeOk(v)
    ensures Walkable(v, ROOT_INUMBER, depth)
    ensures TreeOf(v, ROOT_INUMBER, [], depth) == (ERR_NONE, RenderAll(v, nodes))
    ensures forall k :: 0 <= k < |nodes| ==>
      && Lookup(v, ROOT_INUMBER, LinePath(nodes[k].path)) == nodes[k].inr
      && Components(Render(v, nodes[k]).text) == nodes[k].path
      && (Render(v, nodes[k]).kind == DIR <==> LiveDir(v, nodes[k].inr))
      && Render(v, nodes[k]).text == Spelled(nodes[k].path) + (if LiveDir(v, nodes[k].inr) then [47] else [])
      && (Lookup(v, ROOT_INUMBER, Render(v, nodes[k]).text) ==
            if LiveDir(v, nodes[k].inr) && nodes[k].inr != ROOT_INUMBER then ERR_NO_SUCH_FILE else nodes[k].inr)
    ensures forall path :: Lookup(v, ROOT_INUMBER, path) >= 0 ==>
      exists k :: 0 <= k < |nodes| && nodes[k] == Node(Components(path), Lookup(v, ROOT_INUMBER, path))
    ensures forall j, k :: 0 <= j < k < |nodes| ==>
      nodes[j].path != nodes[k].path && Render(v, nodes[j]).text != Render(v, nodes[k]).text
    ensures forall j, k :: 0 <= j < k < |nodes| ==> Precedes(v, ROOT_INUMBER, nodes[j].path, nodes[k].path)
  {
    hide Lookup, Resolve, Components, Preorder, VolumeOk, TreeOf, RankFalls, Walkable, LiveDir, PathText, TrailingSlashes, Below, Precedes;
    VolumeHasFiles(v);
    RootIsDir(v);
    var rank := VolumeHasRank(v);
    depth := rank(ROOT_INUMBER);
    RankBoundsWalk(v, ROOT_INUMBER, depth, rank);
    nodes := Preorder(v, ROOT_INUMBER, [], rank);
    EmptyPathText();
    TreeIsPreorder(v, ROOT_INUMBER, [], rank, depth);
    PreorderIsDistinct(v, ROOT_INUMBER, [], rank);
    forall k | 0 <= k < |nodes|
      ensures Lookup(v, ROOT_INUMBER, LinePath(nodes[k].path)) == nodes[k].inr
      ensures Components(Render(v, nodes[k]).text) == nodes[k].path
      ensures Render(v, nodes[k]).kind == DIR <==> LiveDir(v, nodes[k].inr)
      ensures Render(v, nodes[k]).text == Spelled(nodes[k].path) + (if LiveDir(v, nodes[k].inr) then [47] else [])
      ensures Lookup(v, ROOT_INUMBER, Render(v, nodes[k]).text) ==
        if LiveDir(v, nodes[k].inr) && nodes[k].inr != ROOT_INUMBER then ERR_NO_SUCH_FILE else nodes[k].inr
    {
      PreorderIsBelow(v, ROOT_INUMBER, [], rank, nodes[k]);
      NodeLine(v, rank, nodes[k]);
    }
    forall j, k | 0 <= j < k < |nodes| ensures Precedes(v, ROOT_INUMBER, nodes[j].path, nodes[k].path) {
      PreorderIsOrdered(v, ROOT_INUMBER, [], rank, j, k);
      assert nodes[j].path[0..] == nodes[j].path && nodes[k].path[0..] == nodes[k].path;
    }
    forall path | Lookup(v, ROOT_INUMBER, path) >= 0
      ensures exists k :: 0 <= k < |nodes| && nodes[k] == Node(Components(path), Lookup(v, ROOT_INUMBER, path))
    {
      LookupIsFold(v, ROOT_INUMBER, path);
      ResolvedIsListed(v, ROOT_INUMBER, [], rank, Components(path));
      assert [] + Components(path) == Components(path);
    }
  }

  lemma RootIsDir(v: Vol)
    requires VolumeOk(v)
    ensures LiveDir(v, ROOT_INUMBER)
  {
  }

  lemma EmptyPathText()
    ensures PathText([]) == []
  {
  }

  lemma NodeLine(v: Vol, rank: int -> nat, node: Node)
    requires VolumeOk(v) && RankFalls(v, rank) && Below(v, ROOT_INUMBER, [], node)
    ensures Lookup(v, ROOT_INUMBER, LinePath(node.path)) == node.inr
    ensures Components(Render(v, node).text) == node.path
    ensures Render(v, node).text == Spelled(node.path) + (if LiveDir(v, node.inr) then [47] else [])
    ensures Lookup(v, ROOT_INUMBER, Render(v, node).text) ==
      if LiveDir(v, node.inr) && node.inr != ROOT_INUMBER then ERR_NO_SUCH_FILE else node.inr
  {
    hide Lookup, Resolve, Components, VolumeOk, RankFalls, LiveDir, PathText, TrailingSlashes;
    var cs := node.path;
    assert cs[0..] == cs;
    SpelledOut(cs);
    NodeNamesAreGood(v, ROOT_INUMBER, cs);
    ComponentsOfText(cs);
    RootIsDir(v);
    NoTrailing();
    LookupIsFold(v, ROOT_INUMBER, PathText(cs));
    LookupIsFold(v, ROOT_INUMBER, PathText(cs) + [SLASH]);
    JoinParts(PathText(cs), []);
    assert PathText(cs) + [SLASH] + [] == PathText(cs) + [SLASH];
    if cs == [] {
      EmptyPathText();
      ResolveNothing(v, ROOT_INUMBER);
      assert [SLASH] + PathText(cs) == [SLASH] && PathText(cs) + [SLASH] == [SLASH];
    } else if LiveDir(v, node.inr) {
      RanksFall(v, ROOT_INUMBER, rank, cs);
    }
  }
}
