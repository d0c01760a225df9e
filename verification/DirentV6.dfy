/** direntv6.c as functions on values: directory entries, path lookup, and the split of a
    path into parent and last name. */
module Directories {
  import opened Unixv6fs
  import opened Inodes
  import opened Files

  // ---------------------------------------------------------------- entries

  /** A directory entry: 2 bytes of inode number, then a name of at most 14 bytes that is
      NUL-terminated only when it is shorter. */
  datatype Dirent = Dirent(inr: U16, name: seq<Byte>)

  function UpToNul(b: seq<Byte>): (s: seq<Byte>)
    ensures |s| <= |b| && s == b[..|s|] && 0 !in s
    ensures |s| < |b| ==> b[|s|] == 0
  {
    if b == [] || b[0] == 0 then [] else [b[0]] + UpToNul(b[1..])
  }

  function DecodeDirent(b: seq<Byte>): (e: Dirent)
    requires |b| == DIRENT_SIZE
    ensures |e.name| <= DIRENT_MAXLEN && 0 !in e.name
  {
    Dirent(Word(b, 0), UpToNul(b[2..]))
  }

  /** `struct direntv6` as `create_dirent` fills it: zeroed, then the name copied in. */
  function EncodeDirent(e: Dirent): (b: seq<Byte>)
    requires |e.name| <= DIRENT_MAXLEN
    ensures |b| == DIRENT_SIZE
  {
    BytesOf([e.inr]) + e.name + seq(DIRENT_MAXLEN - |e.name|, _ => 0)
  }

  /** Where each field of `struct direntv6` lies in the 16 bytes. */
  lemma DirentLayout(e: Dirent)
    requires |e.name| <= DIRENT_MAXLEN
    ensures var b := EncodeDirent(e);
      && Word(b, 0) == e.inr
      && forall k :: 0 <= k < DIRENT_MAXLEN ==> b[2 + k] == if k < |e.name| then e.name[k] else 0
  {
    hide BytesOf;
    BytesOfAt([e.inr], 0);
  }

  lemma DirentRoundTrip(e: Dirent)
    requires |e.name| <= DIRENT_MAXLEN && 0 !in e.name
    ensures DecodeDirent(EncodeDirent(e)) == e
  {
    var pad := seq(DIRENT_MAXLEN - |e.name|, _ => 0);
    assert EncodeDirent(e)[2..] == e.name + pad;
    UpToNulOfPadded(e.name, pad);
  }

  lemma {:induction false} UpToNulOfPadded(s: seq<Byte>, pad: seq<Byte>)
    requires 0 !in s && (pad == [] || pad[0] == 0)
    ensures UpToNul(s + pad) == s
  {
    if s == [] {
      assert s + pad == pad;
    } else {
      assert (s + pad)[1..] == s[1..] + pad;
      UpToNulOfPadded(s[1..], pad);
    }
  }

  /** The entries packed in a run of bytes; a fragment shorter than an entry is ignored. */
  function Entries(data: seq<Byte>): (es: seq<Dirent>)
    ensures |es| == |data| / DIRENT_SIZE
  {
    seq(|data| / DIRENT_SIZE, j requires 0 <= j < |data| / DIRENT_SIZE =>
      DecodeDirent(data[DIRENT_SIZE * j..DIRENT_SIZE * j + DIRENT_SIZE]))
  }

  lemma EntriesConcat(a: seq<Byte>, b: seq<Byte>)
    requires |a| % DIRENT_SIZE == 0
    ensures Entries(a + b) == Entries(a) + Entries(b)
  {
    hide DecodeDirent;
    var n := |a| / DIRENT_SIZE;
    forall j | 0 <= j < n + |b| / DIRENT_SIZE ensures Entries(a + b)[j] == (Entries(a) + Entries(b))[j] {
      var at := DIRENT_SIZE * j;
      if j < n {
        assert (a + b)[at..at + DIRENT_SIZE] == a[at..at + DIRENT_SIZE];
      } else {
        assert (a + b)[at..at + DIRENT_SIZE] == b[at - |a|..at - |a| + DIRENT_SIZE];
      }
    }
  }

  /** Adding an encoded entry at the end of a directory adds exactly that entry. */
  lemma EntriesAppend(data: seq<Byte>, e: Dirent)
    requires |data| % DIRENT_SIZE == 0 && |e.name| <= DIRENT_MAXLEN && 0 !in e.name
    ensures Entries(data + EncodeDirent(e)) == Entries(data) + [e]
  {
    hide EncodeDirent, DecodeDirent;
    var b := EncodeDirent(e);
    EntriesConcat(data, b);
    DirentRoundTrip(e);
    assert b[0..DIRENT_SIZE] == b;
  }

  // ---------------------------------------------------------------- searching one directory

  /** The position of the first entry called name, or the length. */
  function FirstIndex(es: seq<Dirent>, name: seq<Byte>): (k: nat)
    ensures k <= |es| && forall j :: 0 <= j < k ==> es[j].name != name
    ensures k < |es| ==> es[k].name == name
  {
    if es == [] || es[0].name == name then 0 else 1 + FirstIndex(es[1..], name)
  }

  /** The inode number of the first entry called name, or -1. */
  function FirstMatch(es: seq<Dirent>, name: seq<Byte>): int {
    var k := FirstIndex(es, name);
    if k < |es| then es[k].inr else -1
  }

  lemma FirstMatchAppend(es: seq<Dirent>, e: Dirent, name: seq<Byte>)
    ensures FirstMatch(es + [e], name) ==
      if FirstMatch(es, name) != -1 then FirstMatch(es, name) else if e.name == name then e.inr else -1
  {
    var k, m := FirstIndex(es, name), FirstIndex(es + [e], name);
    assert forall j :: 0 <= j < |es| ==> (es + [e])[j] == es[j];
    assert m >= k && (es + [e])[|es|] == e;
    if k < |es| {
      assert (es + [e])[k].name == name;
    }
  }

  /** `direntv6_opendir`: the code and the inode. */
  function OpenDir(v: Vol, n: int): (r: (int, Inode))
    ensures r.0 <= 0
    ensures r.0 == 0 <==> OnDisk(v, n) && Allocated(InodeAt(v, n)) && IsDir(InodeAt(v, n))
    ensures r.0 == 0 ==> r.1 == InodeAt(v, n)
  {
    var (c, i) := ReadInode(v, n);
    if c < 0 then (c, i)
    else if !IsDir(i) then (ERR_INVALID_DIRECTORY_INODE, i)
    else (ERR_NONE, i)
  }

  /** The scan of directory n for a name: the entry's inode number, or a code. Entries that
      come before an unreadable block are still found. */
  function DirFind(v: Vol, n: int, name: seq<Byte>): int {
    var (c, i) := OpenDir(v, n);
    if c != 0 then c
    else
      var s := ReadFrom(v.disk, i, 0);
      var r := FirstMatch(Entries(s.data), name);
      if r != -1 then r
      else if s.code == 0 then ERR_NO_SUCH_FILE
      else s.code
  }

  /** The directory sizes for which the reader's cache never runs dry inside an entry. */
  predicate ReaderDefined(i: Inode) {
    Size(i) % SECTOR_SIZE == 0 || Size(i) % SECTOR_SIZE >= DIRENT_SIZE
  }

  /** If n opens as a directory, it can be read entry by entry. */
  predicate DirDefined(v: Vol, n: int) {
    OpenDir(v, n).0 == 0 ==> ReaderDefined(OpenDir(v, n).1)
  }

  // ---------------------------------------------------------------- paths

  function LeadingSlashes(p: seq<Byte>): (k: nat)
    ensures k <= |p| && forall j :: 0 <= j < k ==> p[j] == SLASH
    ensures k < |p| ==> p[k] != SLASH
  {
    if p == [] || p[0] != SLASH then 0 else 1 + LeadingSlashes(p[1..])
  }

  function LeadingName(p: seq<Byte>): (k: nat)
    ensures k <= |p| && forall j :: 0 <= j < k ==> p[j] != SLASH
    ensures k < |p| ==> p[k] == SLASH
  {
    if p == [] || p[0] == SLASH then 0
    else 1 + LeadingName(p[1..])
  }

  /** `direntv6_dirlookup_core`, the (address, length) pair read as a sequence. */
  function Lookup(v: Vol, n: int, path: seq<Byte>): int
    decreases |path|
  {
    if path == [] then n
    else if n == ROOT_INUMBER && path == [SLASH] then n
    else
      var s := LeadingSlashes(path);
      if s == |path| then ERR_NO_SUCH_FILE
      else
        var l := LeadingName(path[s..]);
        var r := DirFind(v, n, path[s..s + l]);
        if r < 0 then r else Lookup(v, r, path[s + l..])
  }

  /** Every directory that the lookup searches can be read. */
  predicate LookupDefined(v: Vol, n: int, path: seq<Byte>)
    decreases |path|
  {
    path == [] || (n == ROOT_INUMBER && path == [SLASH]) ||
    var s := LeadingSlashes(path);
    s == |path| ||
    var l := LeadingName(path[s..]);
    DirDefined(v, n) && var r := DirFind(v, n, path[s..s + l]); r >= 0 ==> LookupDefined(v, r, path[s + l..])
  }

  lemma {:induction false} AllDefined(v: Vol, n: int, path: seq<Byte>)
    requires forall m :: DirDefined(v, m)
    ensures LookupDefined(v, n, path)
    decreases |path|
  {
    hide DirFind, DirDefined;
    var s, l := PathShape(path);
    if s < |path| {
      LookupRound(v, n, path, s, l);
      AllDefined(v, DirFind(v, n, path[s..s + l]), path[s + l..]);
    } else {
      LookupBase(v, n, path);
    }
  }

  /** The non-empty runs of bytes between slashes, read one byte at a time. */
  function Tokens(p: seq<Byte>, current: seq<Byte>): seq<seq<Byte>>
    decreases |p|
  {
    if p == [] then (if current == [] then [] else [current])
    else if p[0] == SLASH then (if current == [] then [] else [current]) + Tokens(p[1..], [])
    else Tokens(p[1..], current + [p[0]])
  }

  function Components(p: seq<Byte>): seq<seq<Byte>> {
    Tokens(p, [])
  }

  function TrailingSlashes(p: seq<Byte>): (k: nat)
    ensures k <= |p|
  {
    if p == [] || p[|p| - 1] != SLASH then 0 else 1 + TrailingSlashes(p[..|p| - 1])
  }

  /** The reference meaning of a path: a left fold of one-directory searches. */
  function Resolve(v: Vol, n: int, cs: seq<seq<Byte>>): int
    decreases |cs|
  {
    if cs == [] then n
    else
      var r := DirFind(v, n, cs[0]);
      if r < 0 then r else Resolve(v, r, cs[1..])
  }

  /** What becomes of a resolved path that still has t slashes at its end. */
  function AfterSlashes(r: int, t: nat): int {
    if r < 0 || t == 0 || (r == ROOT_INUMBER && t == 1) then r else ERR_NO_SUCH_FILE
  }

  lemma {:induction false} TokensOfName(p: seq<Byte>, current: seq<Byte>)
    requires SLASH !in p
    ensures Tokens(p, current) == if current + p == [] then [] else [current + p]
    decreases |p|
  {
    if p == [] {
      assert current + p == current;
    } else {
      TokensOfName(p[1..], current + [p[0]]);
      assert current + [p[0]] + p[1..] == current + p;
    }
  }

  /** A slash ends a token, so tokens of a join are the tokens of the parts. */
  lemma {:induction false} TokensJoin(p: seq<Byte>, q: seq<Byte>, current: seq<Byte>)
    ensures Tokens(p + [SLASH] + q, current) == Tokens(p, current) + Components(q)
    decreases |p|
  {
    if p == [] {
      assert p + [SLASH] + q == [SLASH] + q;
      assert ([SLASH] + q)[1..] == q;
    } else {
      assert (p + [SLASH] + q)[1..] == p[1..] + [SLASH] + q;
      if p[0] == SLASH {
        TokensJoin(p[1..], q, []);
      } else {
        TokensJoin(p[1..], q, current + [p[0]]);
      }
    }
  }

  /** p is s slashes, then a name of l bytes, then the end or another slash. */
  predicate StartsWithName(p: seq<Byte>, s: nat, l: nat) {
    && l > 0 && s + l <= |p|
    && (forall j :: 0 <= j < s ==> p[j] == SLASH)
    && (forall j :: s <= j < s + l ==> p[j] != SLASH)
    && (s + l < |p| ==> p[s + l] == SLASH)
  }

  /** One round of the lookup consumes one component. */
  lemma FirstComponent(p: seq<Byte>, s: nat, l: nat)
    requires StartsWithName(p, s, l)
    ensures Components(p) == [p[s..s + l]] + Components(p[s + l..])
    ensures TrailingSlashes(p) == TrailingSlashes(p[s + l..])
  {
    hide Components, TrailingSlashes;
    CutAt(p, s);
    SlashesAddNothing(p[..s], p[s..]);
    CutAt(p[s..], l);
    assert p[s..][..l] == p[s..s + l] && p[s..][l..] == p[s + l..];
    NameThenRest(p[s..s + l], p[s + l..]);
    NameEndsSlashes(p, s + l);
  }

  lemma {:induction false} LeadingSlashesAre(p: seq<Byte>, k: nat)
    requires k <= |p| && (forall j :: 0 <= j < k ==> p[j] == SLASH) && (k < |p| ==> p[k] != SLASH)
    ensures LeadingSlashes(p) == k
  {
  }

  lemma {:induction false} LeadingNameIs(p: seq<Byte>, k: nat)
    requires k <= |p| && (forall j :: 0 <= j < k ==> p[j] != SLASH) && (k < |p| ==> p[k] == SLASH)
    ensures LeadingName(p) == k
  {
  }

  /** The lookup of a path that is only slashes, or starts with a name. */
  lemma LookupBase(v: Vol, n: int, path: seq<Byte>)
    requires forall j :: 0 <= j < |path| ==> path[j] == SLASH
    ensures Lookup(v, n, path) == if path == [] || (n == ROOT_INUMBER && |path| == 1) then n else ERR_NO_SUCH_FILE
    ensures LookupDefined(v, n, path)
  {
    hide DirFind;
    LeadingSlashesAre(path, |path|);
    assert |path| == 1 ==> path == [SLASH];
  }

  lemma LookupRound(v: Vol, n: int, path: seq<Byte>, s: nat, l: nat)
    requires StartsWithName(path, s, l)
    ensures var r := DirFind(v, n, path[s..s + l]);
      && Lookup(v, n, path) == (if r < 0 then r else Lookup(v, r, path[s + l..]))
      && (LookupDefined(v, n, path) <==> DirDefined(v, n) && (r >= 0 ==> LookupDefined(v, r, path[s + l..])))
  {
    hide DirFind, DirDefined, LeadingName, LeadingSlashes;
    LeadingSlashesAre(path, s);
    LeadingNameIs(path[s..], l);
    assert path[s] != SLASH;
  }

  /** Every path is only slashes, or starts with a name. */
  lemma PathShape(p: seq<Byte>) returns (s: nat, l: nat)
    ensures (s == |p| && forall j :: 0 <= j < |p| ==> p[j] == SLASH) || StartsWithName(p, s, l)
  {
    s, l := LeadingSlashes(p), 0;
    if s < |p| {
      l := LeadingName(p[s..]);
      assert p[s..][0] == p[s];
      forall j | s <= j < s + l ensures p[j] != SLASH {
        assert p[j] == p[s..][j - s];
      }
    }
  }

  lemma NameEndsSlashes(p: seq<Byte>, k: nat)
    requires 0 < k <= |p| && p[k - 1] != SLASH
    ensures TrailingSlashes(p) == TrailingSlashes(p[k..])
  {
    hide TrailingSlashes;
    assert p == p[..k] + p[k..];
    TrailingOfConcat(p[..k], p[k..]);
  }

  lemma NameThenRest(name: seq<Byte>, rest: seq<Byte>)
    requires name != [] && (forall j :: 0 <= j < |name| ==> name[j] != SLASH) && (rest == [] || rest[0] == SLASH)
    ensures Components(name + rest) == [name] + Components(rest)
  {
    TokensOfName(name, []);
    assert [] + name == name;
    if rest == [] {
      assert name + rest == name;
    } else {
      TokensJoin(name, rest[1..], []);
      assert name + rest == name + [SLASH] + rest[1..];
      assert Components(rest) == Components(rest[1..]);
    }
  }

  lemma {:induction false} TrailingOfConcat(p: seq<Byte>, q: seq<Byte>)
    requires p != [] && p[|p| - 1] != SLASH
    ensures TrailingSlashes(p + q) == TrailingSlashes(q)
    decreases |q|
  {
    if q == [] {
      assert p + q == p;
    } else if q[|q| - 1] == SLASH {
      assert (p + q)[..|p + q| - 1] == p + q[..|q| - 1];
      TrailingOfConcat(p, q[..|q| - 1]);
    }
  }

  lemma {:induction false} AllSlashes(p: seq<Byte>)
    ensures TrailingSlashes(p) == |p| <==> forall j :: 0 <= j < |p| ==> p[j] == SLASH
  {
    if p != [] {
      var q, c := p[..|p| - 1], p[|p| - 1];
      assert forall j :: 0 <= j < |q| ==> q[j] == p[j];
      AllSlashes(q);
    }
  }

  lemma {:induction false} OnlySlashes(p: seq<Byte>)
    requires forall j :: 0 <= j < |p| ==> p[j] == SLASH
    ensures TrailingSlashes(p) == |p| && Components(p) == []
  {
    AllSlashes(p);
    SlashesAddNothing(p, []);
    assert p + [] == p;
  }

  /** Path lookup is the fold over the components, and what it does with trailing slashes
      is exactly this: none are harmless, one is tolerated on inode 1, and otherwise the
      file is said not to exist. */
  lemma {:induction false} LookupIsFold(v: Vol, n: int, path: seq<Byte>)
    requires n >= 0
    ensures Lookup(v, n, path) == AfterSlashes(Resolve(v, n, Components(path)), TrailingSlashes(path))
    decreases |path|
  {
    hide DirFind, Lookup, Components, TrailingSlashes;
    var s, l := PathShape(path);
    if s == |path| {
      OnlySlashes(path);
      LookupBase(v, n, path);
      ResolveNothing(v, n);
    } else {
      FirstComponent(path, s, l);
      LookupRound(v, n, path, s, l);
      var name, rest := path[s..s + l], path[s + l..];
      var r := DirFind(v, n, name);
      assert ([name] + Components(rest))[1..] == Components(rest);
      if r >= 0 {
        LookupIsFold(v, r, rest);
      }
    }
  }

  lemma {:induction false} ResolveConcat(v: Vol, n: int, cs: seq<seq<Byte>>, ds: seq<seq<Byte>>)
    requires n >= 0
    ensures Resolve(v, n, cs + ds) == if Resolve(v, n, cs) < 0 then Resolve(v, n, cs) else Resolve(v, Resolve(v, n, cs), ds)
    decreases |cs|
  {
    hide DirFind;
    if cs == [] {
      assert cs + ds == ds;
    } else {
      assert (cs + ds)[1..] == cs[1..] + ds;
      var r := DirFind(v, n, cs[0]);
      if r >= 0 {
        ResolveConcat(v, r, cs[1..], ds);
      }
    }
  }

  lemma {:induction false} TrailingOfJoin(q: seq<Byte>)
    ensures TrailingSlashes([SLASH] + q) == if TrailingSlashes(q) == |q| then |q| + 1 else TrailingSlashes(q)
    decreases |q|
  {
    var p := [SLASH] + q;
    if q == [] {
      assert p[..|p| - 1] == [];
    } else if q[|q| - 1] == SLASH {
      assert p[..|p| - 1] == [SLASH] + q[..|q| - 1];
      TrailingOfJoin(q[..|q| - 1]);
    }
  }

  /** Components and trailing slashes of p "/" q. */
  lemma JoinParts(p: seq<Byte>, q: seq<Byte>)
    requires TrailingSlashes(p) == 0
    ensures Components(p + [SLASH] + q) == Components(p) + Components(q)
    ensures TrailingSlashes(p + [SLASH] + q) == if TrailingSlashes(q) == |q| then |q| + 1 else TrailingSlashes(q)
  {
    hide Tokens;
    TokensJoin(p, q, []);
    assert p + [SLASH] + q == p + ([SLASH] + q);
    TrailingOfJoin(q);
    if p == [] {
      assert p + ([SLASH] + q) == [SLASH] + q;
    } else {
      TrailingOfConcat(p, [SLASH] + q);
    }
  }

  /** Looking up p "/" q is looking up q from where p leads, except exactly when q is empty
      and p does not lead to the root, or q is a single slash and p leads to the root. */
  lemma LookupOfJoin(v: Vol, n: int, p: seq<Byte>, q: seq<Byte>)
    requires n >= 0 && TrailingSlashes(p) == 0 && Lookup(v, n, p) >= 0
    ensures var r := Lookup(v, n, p);
      Lookup(v, n, p + [SLASH] + q) == Lookup(v, r, q) <==>
      !((q == [] && r != ROOT_INUMBER) || (q == [SLASH] && r == ROOT_INUMBER))
  {
    hide Lookup, Resolve, Components, TrailingSlashes;
    var r := Lookup(v, n, p);
    LookupIsFold(v, n, p);
    LookupIsFold(v, r, q);
    LookupIsFold(v, n, p + [SLASH] + q);
    JoinParts(p, q);
    ResolveConcat(v, n, Components(p), Components(q));
    AllSlashes(q);
    ResolveNothing(v, r);
    if TrailingSlashes(q) == |q| {
      OnlySlashes(q);
      assert |q| == 1 ==> q == [SLASH];
    }
  }

  /** A lookup leads to a number of 16 bits. */
  lemma {:induction false} LookupFits(v: Vol, n: int, path: seq<Byte>)
    requires n < 0x1_0000
    ensures Lookup(v, n, path) < 0x1_0000
    decreases |path|
  {
    hide FirstIndex, Entries, ReadFrom, OpenDir;
    var s, l := PathShape(path);
    if s < |path| {
      LookupRound(v, n, path, s, l);
      LookupFits(v, DirFind(v, n, path[s..s + l]), path[s + l..]);
    } else {
      LookupBase(v, n, path);
    }
  }

  lemma ResolveNothing(v: Vol, n: int)
    ensures Resolve(v, n, []) == n
  {
  }

  // ---------------------------------------------------------------- parent and last name

  /** What follows the last slash. */
  function RelativeName(entry: seq<Byte>): (r: seq<Byte>)
    ensures |r| <= |entry|
  {
    if entry == [] || entry[|entry| - 1] == SLASH then []
    else RelativeName(entry[..|entry| - 1]) + [entry[|entry| - 1]]
  }

  function WithoutTrailing(p: seq<Byte>): (r: seq<Byte>)
    ensures |r| <= |p|
  {
    if p == [] || p[|p| - 1] != SLASH then p else WithoutTrailing(p[..|p| - 1])
  }

  /** What comes before the last name, its trailing slashes removed. */
  function AbsoluteName(entry: seq<Byte>): seq<Byte> {
    WithoutTrailing(entry[..|entry| - |RelativeName(entry)|])
  }

  /** `split_name_direntv6_create`: code, relative name, absolute name. */
  function SplitName(entry: seq<Byte>): (int, seq<Byte>, seq<Byte>) {
    if |RelativeName(entry)| > DIRENT_MAXLEN then (ERR_FILENAME_TOO_LONG, [], [])
    else (ERR_NONE, RelativeName(entry), AbsoluteName(entry))
  }

  predicate AllSlash(p: seq<Byte>) {
    forall j :: 0 <= j < |p| ==> p[j] == SLASH
  }

  predicate EndsInSlash(p: seq<Byte>) {
    p != [] && p[|p| - 1] == SLASH
  }

  lemma {:induction false} RelativeNameIsSuffix(entry: seq<Byte>)
    ensures var r := RelativeName(entry);
      && (forall j :: 0 <= j < |r| ==> r[j] == entry[|entry| - |r| + j] != SLASH)
      && (|r| < |entry| ==> entry[|entry| - |r| - 1] == SLASH)
  {
    if entry != [] && entry[|entry| - 1] != SLASH {
      var init := entry[..|entry| - 1];
      var r, r' := RelativeName(entry), RelativeName(init);
      RelativeNameIsSuffix(init);
      forall j | 0 <= j < |r| ensures r[j] == entry[|entry| - |r| + j] != SLASH {
        assert j < |r'| ==> r[j] == r'[j] == init[|init| - |r'| + j];
      }
    }
  }

  lemma {:induction false} WithoutTrailingIsPrefix(p: seq<Byte>)
    ensures var r := WithoutTrailing(p);
      && (forall j :: 0 <= j < |r| ==> r[j] == p[j])
      && !EndsInSlash(r)
      && (forall j :: |r| <= j < |p| ==> p[j] == SLASH)
  {
    if EndsInSlash(p) {
      WithoutTrailingIsPrefix(p[..|p| - 1]);
    }
  }

  /** The split is a decomposition: parent, slashes, last name. */
  lemma SplitDecomposes(entry: seq<Byte>) returns (slashes: seq<Byte>)
    ensures entry == AbsoluteName(entry) + slashes + RelativeName(entry)
    ensures AllSlash(slashes) && !EndsInSlash(AbsoluteName(entry)) && SLASH !in RelativeName(entry)
    ensures slashes == [] <==> SLASH !in entry
    ensures slashes == [] ==> AbsoluteName(entry) == []
  {
    hide RelativeName, WithoutTrailing;
    var rel, a := RelativeName(entry), AbsoluteName(entry);
    slashes := entry[|a|..|entry| - |rel|];
    RelativeNameIsSuffix(entry);
    WithoutTrailingIsPrefix(entry[..|entry| - |rel|]);
    assert entry == a + slashes + rel;
    if slashes != [] {
      assert entry[|a|] == SLASH;
    }
    if SLASH in entry {
      var k :| 0 <= k < |entry| && entry[k] == SLASH;
      assert k < |entry| - |rel|;
    }
  }

  /** Decompositions with these properties are unique, so the split is the only one. */
  lemma SplitIsUnique(entry: seq<Byte>, a: seq<Byte>, slashes: seq<Byte>, r: seq<Byte>)
    requires entry == a + slashes + r && AllSlash(slashes) && !EndsInSlash(a) && SLASH !in r
    requires slashes == [] ==> a == []
    ensures r == RelativeName(entry) && a == AbsoluteName(entry)
  {
    RelativeNameOf(a + slashes, r);
    assert entry[..|entry| - |r|] == a + slashes;
    WithoutTrailingOf(a, slashes);
  }

  lemma {:induction false} RelativeNameOf(p: seq<Byte>, r: seq<Byte>)
    requires SLASH !in r && (p == [] || EndsInSlash(p))
    ensures RelativeName(p + r) == r
    decreases |r|
  {
    if r == [] {
      assert p + r == p;
    } else {
      assert (p + r)[|p + r| - 1] == r[|r| - 1];
      assert (p + r)[..|p + r| - 1] == p + r[..|r| - 1];
      RelativeNameOf(p, r[..|r| - 1]);
    }
  }

  lemma {:induction false} WithoutTrailingOf(a: seq<Byte>, slashes: seq<Byte>)
    requires !EndsInSlash(a) && AllSlash(slashes)
    ensures WithoutTrailing(a + slashes) == a
    decreases |slashes|
  {
    if slashes == [] {
      assert a + slashes == a;
    } else {
      assert (a + slashes)[..|a + slashes| - 1] == a + slashes[..|slashes| - 1];
      WithoutTrailingOf(a, slashes[..|slashes| - 1]);
    }
  }

  lemma {:induction false} SlashesAddNothing(slashes: seq<Byte>, rest: seq<Byte>)
    requires AllSlash(slashes)
    ensures Components(slashes + rest) == Components(rest)
  {
    if slashes == [] {
      assert slashes + rest == rest;
    } else {
      assert (slashes + rest)[1..] == slashes[1..] + rest;
      SlashesAddNothing(slashes[1..], rest);
    }
  }

  lemma NameHasNoSlash(name: seq<Byte>)
    requires name != [] && SLASH !in name
    ensures Components(name) == [name] && TrailingSlashes(name) == 0
  {
    TokensOfName(name, []);
    assert [] + name == name;
    assert name[|name| - 1] in name;
  }

  lemma JoinedComponents(a: seq<Byte>, slashes: seq<Byte>, rel: seq<Byte>)
    requires AllSlash(slashes) && rel != [] && SLASH !in rel && (slashes == [] ==> a == [])
    ensures Components(a + slashes + rel) == Components(a) + [rel]
  {
    hide Tokens;
    NameHasNoSlash(rel);
    if slashes == [] {
      NoComponents();
      assert a + slashes + rel == rel;
    } else {
      assert a + slashes + rel == a + [SLASH] + (slashes[1..] + rel);
      TokensJoin(a, slashes[1..] + rel, []);
      SlashesAddNothing(slashes[1..], rel);
    }
  }

  /** The last name is the last component. */
  lemma SplitComponents(entry: seq<Byte>)
    requires RelativeName(entry) != []
    ensures Components(entry) == Components(AbsoluteName(entry)) + [RelativeName(entry)]
    ensures TrailingSlashes(entry) == 0 && TrailingSlashes(AbsoluteName(entry)) == 0
  {
    hide Components, RelativeName, AbsoluteName;
    var slashes := SplitDecomposes(entry);
    var rel := RelativeName(entry);
    JoinedComponents(AbsoluteName(entry), slashes, rel);
    assert entry[|entry| - 1] == rel[|rel| - 1];
  }

  lemma NoComponents()
    ensures Components([]) == []
  {
  }

  /** Lookup respects the split: a path with a last name leads where the last name leads
      from where the parent path leads. */
  lemma LookupOfSplit(v: Vol, n: int, entry: seq<Byte>)
    requires n >= 0 && RelativeName(entry) != []
    ensures var r := Lookup(v, n, AbsoluteName(entry));
      Lookup(v, n, entry) == if r < 0 then r else Lookup(v, r, RelativeName(entry))
    ensures var r := Lookup(v, n, AbsoluteName(entry));
      r >= 0 ==> Lookup(v, n, entry) == DirFind(v, r, RelativeName(entry))
  {
    hide RelativeName, AbsoluteName, Components, Lookup, DirFind;
    var rel, a := RelativeName(entry), AbsoluteName(entry);
    SplitComponents(entry);
    var slashes := SplitDecomposes(entry);
    LookupIsFold(v, n, entry);
    LookupIsFold(v, n, a);
    ResolveConcat(v, n, Components(a), [rel]);
    NameHasNoSlash(rel);
    var r := Lookup(v, n, a);
    if r >= 0 {
      LookupIsFold(v, r, rel);
      ResolveOne(v, r, rel);
    }
  }

  lemma ResolveOne(v: Vol, n: int, name: seq<Byte>)
    ensures Resolve(v, n, [name]) == DirFind(v, n, name)
  {
    hide DirFind;
    assert [name][1..] == [];
  }
}
