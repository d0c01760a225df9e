/** bmblock.c: a bitmap over the integers of [min, max], packed in 64-bit words,
    with a cursor that remembers the word of the last search. */
module BmBlock {
  import opened Unixv6fs

  const BITS_PER_VECTOR := 64
  const ALL_ONES: bv64 := 0xFFFF_FFFF_FFFF_FFFF

  // ---------------------------------------------------------------- single words

  function Mask(k: bv6): bv64 {
    (1 as bv64) << k
  }

  predicate BitOn(w: bv64, k: bv6) {
    (w >> k) & 1 == 1
  }

  lemma SetBitOn(w: bv64, j: bv6, k: bv6)
    ensures BitOn(w | Mask(j), k) == (j == k || BitOn(w, k))
  {
  }

  lemma BitOnIsMasked(w: bv64, k: bv6)
    ensures BitOn(w, k) <==> w & Mask(k) != 0
  {
  }

  lemma MasksDisjoint(j: bv6, k: bv6)
    requires j != k
    ensures Mask(j) & Mask(k) == 0
  {
  }

  lemma AndNotMask(w: bv64, m: bv64, n: bv64)
    ensures (w & !m) & m == 0
    ensures m & n == 0 ==> (w & !m) & n == w & n
  {
  }

  lemma ClearBitOn(w: bv64, j: bv6, k: bv6)
    ensures BitOn(w & !Mask(j), k) == (j != k && BitOn(w, k))
  {
    BitOnIsMasked(w, k);
    BitOnIsMasked(w & !Mask(j), k);
    AndNotMask(w, Mask(j), Mask(k));
    if j != k {
      MasksDisjoint(j, k);
    }
  }

  lemma ZeroWord(k: bv6)
    ensures !BitOn(0, k)
  {
  }

  lemma FullWord(k: bv6)
    ensures BitOn(ALL_ONES, k)
  {
  }

  function Shift(j: int): bv6
    requires 0 <= j < BITS_PER_VECTOR
  {
    j as bv6
  }

  lemma ShiftBack(j: nat)
    requires j < BITS_PER_VECTOR
    ensures Shift(j) as nat == j
  {
  }

  lemma ShiftsDiffer(j: nat, k: nat)
    requires j < BITS_PER_VECTOR && k < BITS_PER_VECTOR && j != k
    ensures Shift(j) != Shift(k)
  {
    ShiftBack(j);
    ShiftBack(k);
  }

  // ---------------------------------------------------------------- vectors of words

  /** Bit p of a vector: bit p % 64 of word p / 64. */
  predicate On(ws: seq<bv64>, p: nat)
    requires p / BITS_PER_VECTOR < |ws|
  {
    BitOn(ws[p / BITS_PER_VECTOR], Shift(p % BITS_PER_VECTOR))
  }

  /** The vector after `bm[p / 64] |= 1 << (p % 64)`. */
  function TurnOn(ws: seq<bv64>, p: nat): (vs: seq<bv64>)
    requires p / BITS_PER_VECTOR < |ws|
    ensures |vs| == |ws|
  {
    ws[p / BITS_PER_VECTOR := ws[p / BITS_PER_VECTOR] | Mask(Shift(p % BITS_PER_VECTOR))]
  }

  /** The vector after `bm[p / 64] &= ~(1 << (p % 64))`. */
  function TurnOff(ws: seq<bv64>, p: nat): (vs: seq<bv64>)
    requires p / BITS_PER_VECTOR < |ws|
    ensures |vs| == |ws|
  {
    ws[p / BITS_PER_VECTOR := ws[p / BITS_PER_VECTOR] & !Mask(Shift(p % BITS_PER_VECTOR))]
  }

  lemma SetAt(w: bv64, j: nat, k: nat, a: bv6, b: bv6)
    requires j < BITS_PER_VECTOR && k < BITS_PER_VECTOR && a == Shift(j) && b == Shift(k)
    ensures BitOn(w | Mask(a), b) == (j == k || BitOn(w, b))
  {
    if j != k {
      ShiftsDiffer(j, k);
    }
    SetBitOn(w, a, b);
  }

  lemma ClearAt(w: bv64, j: nat, k: nat, a: bv6, b: bv6)
    requires j < BITS_PER_VECTOR && k < BITS_PER_VECTOR && a == Shift(j) && b == Shift(k)
    ensures BitOn(w & !Mask(a), b) == (j != k && BitOn(w, b))
  {
    if j != k {
      ShiftsDiffer(j, k);
    }
    ClearBitOn(w, a, b);
  }

  lemma OnAfterTurnOn(ws: seq<bv64>, p: nat, q: nat)
    requires p / BITS_PER_VECTOR < |ws| && q / BITS_PER_VECTOR < |ws|
    ensures On(TurnOn(ws, p), q) == (p == q || On(ws, q))
  {
    hide BitOn, Mask, Shift;
    var i, j, k := p / BITS_PER_VECTOR, p % BITS_PER_VECTOR, q % BITS_PER_VECTOR;
    if q / BITS_PER_VECTOR == i {
      SetAt(ws[i], j, k, Shift(j), Shift(k));
    }
  }

  lemma OnAfterTurnOff(ws: seq<bv64>, p: nat, q: nat)
    requires p / BITS_PER_VECTOR < |ws| && q / BITS_PER_VECTOR < |ws|
    ensures On(TurnOff(ws, p), q) == (p != q && On(ws, q))
  {
    hide BitOn, Mask, Shift;
    var i, j, k := p / BITS_PER_VECTOR, p % BITS_PER_VECTOR, q % BITS_PER_VECTOR;
    if q / BITS_PER_VECTOR == i {
      ClearAt(ws[i], j, k, Shift(j), Shift(k));
    }
  }

  // ---------------------------------------------------------------- the abstract value

  /** What a bitmap means: a subset `marks` of [min, max] and a word cursor. */
  datatype Bits = Bits(min: int, max: int, cursor: int, marks: set<int>)
  {
    predicate Ok() {
      0 <= min <= max && 0 <= cursor < Length()
    }

    function Length(): int {
      (max - min) / BITS_PER_VECTOR + 1
    }

    predicate Free(x: int) {
      min <= x <= max && x !in marks
    }

    function WordOf(x: int): int {
      (x - min) / BITS_PER_VECTOR
    }

    /** Position of x in the cyclic order that starts at the cursor's word. */
    function Distance(x: int): int {
      x - min - BITS_PER_VECTOR * cursor + if WordOf(x) < cursor then BITS_PER_VECTOR * Length() else 0
    }

    /** r is the first free number met when walking cyclically from the cursor's word. */
    ghost predicate IsNextFree(r: int) {
      Free(r) && forall y :: Free(y) ==> Distance(r) <= Distance(y)
    }

    ghost predicate Full() {
      forall y :: min <= y <= max ==> y in marks
    }
  }

  lemma NextFreeUnique(b: Bits, r: int, s: int)
    requires b.Ok() && b.IsNextFree(r) && b.IsNextFree(s)
    ensures r == s
  {
  }

  lemma {:induction false} NextFreeFrom(b: Bits, r: int, k: int) returns (best: int)
    requires b.Ok() && b.Free(r)
    requires b.Distance(r) >= k
    requires forall y :: b.Free(y) ==> b.Distance(y) >= k
    ensures b.IsNextFree(best)
    decreases b.Distance(r) - k
  {
    if exists y :: b.Free(y) && b.Distance(y) == k {
      best :| b.Free(best) && b.Distance(best) == k;
    } else {
      best := NextFreeFrom(b, r, k + 1);
    }
  }

  lemma NextFreeExists(b: Bits)
    requires b.Ok() && !b.Full()
    ensures exists r :: b.IsNextFree(r)
  {
    var r :| b.min <= r <= b.max && r !in b.marks;
    assert b.Free(r);
    forall y | b.Free(y) ensures b.Distance(y) >= 0 {
    }
    var best := NextFreeFrom(b, r, 0);
  }

  /** The number `bm_find_next` hands out. */
  ghost function NextFree(b: Bits): (r: int)
    requires b.Ok()
    ensures b.Full() ==> r == ERR_BITMAP_FULL
    ensures !b.Full() ==> b.IsNextFree(r)
  {
    if b.Full() then ERR_BITMAP_FULL
    else
      NextFreeExists(b);
      var r :| b.IsNextFree(r);
      r
  }

  /** The bitmap after a search: only the cursor moved, to the word of the last look. */
  ghost function AfterSearch(b: Bits): (c: Bits)
    requires b.Ok()
    ensures c.Ok() && c.marks == b.marks && c.min == b.min && c.max == b.max
  {
    if b.Full() then b.(cursor := if b.cursor == 0 then b.Length() - 1 else b.cursor - 1)
    else b.(cursor := b.WordOf(NextFree(b)))
  }

  lemma SearchFinds(b: Bits, r: int)
    requires b.Ok() && b.IsNextFree(r)
    ensures NextFree(b) == r && AfterSearch(b) == b.(cursor := b.WordOf(r))
  {
    assert b.Free(r);
    NextFreeUnique(b, r, NextFree(b));
  }

  lemma SearchFails(b: Bits)
    requires b.Ok() && forall y :: b.Free(y) ==> b.Distance(y) >= BITS_PER_VECTOR * b.Length()
    ensures b.Full()
  {
    forall y | b.min <= y <= b.max ensures y in b.marks {
      assert b.Distance(y) < BITS_PER_VECTOR * b.Length();
      assert b.Free(y) || y in b.marks;
    }
  }

  /** Searching again without marking anything hands out the same number. */
  lemma SearchIsIdempotent(b: Bits)
    requires b.Ok()
    ensures NextFree(AfterSearch(b)) == NextFree(b)
    ensures !b.Full() ==> AfterSearch(AfterSearch(b)) == AfterSearch(b)
  {
    var c := AfterSearch(b);
    if !b.Full() {
      var r := NextFree(b);
      assert c.Free(r);
      forall y | c.Free(y) ensures c.Distance(r) <= c.Distance(y) {
        assert b.Free(y);
        assert b.Distance(r) <= b.Distance(y);
      }
      NextFreeUnique(c, r, NextFree(c));
    }
  }

  /** Right after allocation the cursor is 0, so the smallest free number is found. */
  lemma FreshSearchFindsSmallest(b: Bits, x: int)
    requires b.Ok() && b.cursor == 0 && b.Free(x)
    ensures b.Free(NextFree(b)) && NextFree(b) <= x
    ensures forall y :: b.min <= y < NextFree(b) ==> y in b.marks
  {
    var r := NextFree(b);
    assert b.Distance(r) <= b.Distance(x);
    forall y | b.Free(y) ensures r <= y {
      assert b.Distance(r) <= b.Distance(y);
    }
    assert forall y :: b.min <= y < r && y !in b.marks ==> b.Free(y);
  }

  /** What a search answers, said without distances: the smallest free number from the
      cursor's word on, or, if there is none, the smallest of all; then the cursor is the
      word of the answer. A search that fails leaves the cursor one word back. */
  lemma SearchOrder(b: Bits)
    requires b.Ok()
    ensures var r, from := NextFree(b), b.min + 64 * b.cursor;
      if forall y :: b.min <= y <= b.max ==> y in b.marks then
        r == -118 && AfterSearch(b).cursor == (b.cursor + b.Length() - 1) % b.Length()
      else
        && b.Free(r) && AfterSearch(b).cursor == (r - b.min) / 64
        && (if exists y :: b.Free(y) && y >= from then r >= from && forall y :: b.Free(y) && y >= from ==> r <= y
            else forall y :: b.Free(y) ==> r <= y)
  {
    var r, from := NextFree(b), b.min + 64 * b.cursor;
    if b.Full() {
      WrapOnce(b.cursor + b.Length() - 1, b.Length());
    } else {
      assert b.IsNextFree(r);
      forall y | b.Free(y) ensures b.Distance(r) <= b.Distance(y) && (b.WordOf(y) < b.cursor <==> y < from) {
      }
    }
  }

  // ---------------------------------------------------------------- the bitmap in memory

  class Bitmap {
    var cursor: nat
    const min: nat
    const max: nat
    const length: nat
    const bm: array<bv64>

    ghost predicate Valid()
      reads this
    {
      && min <= max
      && length == (max - min) / BITS_PER_VECTOR + 1
      && bm.Length == length
      && cursor < length
    }

    predicate IsSet(x: int)
      requires Valid() && min <= x <= max
      reads this, bm
    {
      On(bm[..], x - min)
    }

    ghost function Marks(): (s: set<int>)
      requires Valid()
      reads this, bm
      ensures forall x :: x in s <==> min <= x <= max && IsSet(x)
    {
      set x | min <= x <= max && IsSet(x)
    }

    ghost function View(): (b: Bits)
      requires Valid()
      reads this, bm
      ensures b.Ok()
    {
      Bits(min, max, cursor, Marks())
    }

    /** What `bm_alloc` fills in. */
    constructor (min: nat, max: nat)
      requires min <= max
      ensures Valid() && fresh(bm)
      ensures View() == Bits(min, max, 0, {})
    {
      this.cursor := 0;
      this.min := min;
      this.max := max;
      this.length := (max - min) / BITS_PER_VECTOR + 1;
      this.bm := new bv64[(max - min) / BITS_PER_VECTOR + 1](_ => 0);
      new;
      forall x | min <= x <= max ensures !IsSet(x) {
        ZeroWord(Shift((x - min) % BITS_PER_VECTOR));
      }
    }

    function Get(x: int): (r: int)
      requires Valid()
      reads this, bm
      ensures r == if min <= x <= max then (if x in Marks() then 1 else 0) else ERR_BAD_PARAMETER
    {
      if x < min || x > max then ERR_BAD_PARAMETER
      else if IsSet(x) then 1 else 0
    }

    /** Marks x; a number outside [min, max] is ignored. */
    method Set(x: int)
      requires Valid()
      modifies bm
      ensures Valid()
      ensures View() == old(View()).(marks := old(Marks()) + if min <= x <= max then {x} else {})
    {
      hide BitOn, Mask, Shift, On;
      ghost var ws, before := bm[..], Marks();
      if x <= max && x >= min {
        bm[(x - min) / BITS_PER_VECTOR] := bm[(x - min) / BITS_PER_VECTOR] | Mask(Shift((x - min) % BITS_PER_VECTOR));
        assert bm[..] == TurnOn(ws, x - min);
        forall y | min <= y <= max ensures y in Marks() <==> y == x || y in before {
          OnAfterTurnOn(ws, x - min, y - min);
          assert y in before <==> On(ws, y - min);
        }
      }
      assert Marks() == before + if min <= x <= max then {x} else {};
    }

    /** Unmarks x; a number outside [min, max] is ignored. */
    method Clear(x: int)
      requires Valid()
      modifies bm
      ensures Valid()
      ensures View() == old(View()).(marks := old(Marks()) - {x})
    {
      hide BitOn, Mask, Shift, On;
      ghost var ws, before := bm[..], Marks();
      if x <= max && x >= min {
        bm[(x - min) / BITS_PER_VECTOR] := bm[(x - min) / BITS_PER_VECTOR] & !Mask(Shift((x - min) % BITS_PER_VECTOR));
        assert bm[..] == TurnOff(ws, x - min);
        forall y | min <= y <= max ensures y in Marks() <==> y != x && y in before {
          OnAfterTurnOff(ws, x - min, y - min);
          assert y in before <==> On(ws, y - min);
        }
      }
      forall y ensures y in Marks() <==> y in before - {x} {
      }
      assert Marks() == before - {x};
    }

    lemma WordIsMarked(x: int)
      requires Valid()
      requires min <= x <= max && bm[(x - min) / BITS_PER_VECTOR] == ALL_ONES
      ensures x in Marks()
    {
      FullWord(Shift((x - min) % BITS_PER_VECTOR));
    }

    method FindNext() returns (r: int)
      requires Valid()
      modifies this`cursor
      ensures Valid()
      ensures r == AsInt32(NextFree(old(View())))
      ensures View() == AfterSearch(old(View()))
    {
      hide BitOn, Mask, Shift, On, AsInt32;
      ghost var b := View();
      var start := cursor;
      var i := 0;
      while i < length
        invariant 0 <= i <= length && cursor < length
        invariant Marks() == b.marks
        invariant i > 0 ==> cursor == if start + i - 1 < length then start + i - 1 else start + i - 1 - length
        invariant forall y :: b.Free(y) ==> b.Distance(y) >= BITS_PER_VECTOR * i
      {
        var newCursor := (start + i) % length;
        assert newCursor == if start + i < length then start + i else start + i - length by {
          WrapOnce(start + i, length);
        }
        cursor := newCursor;
        if bm[newCursor] != ALL_ONES {
          var j := 0;
          while j < BITS_PER_VECTOR
            invariant 0 <= j <= BITS_PER_VECTOR
            invariant forall y :: b.Free(y) ==> b.Distance(y) >= BITS_PER_VECTOR * i + j
          {
            var bit := newCursor * BITS_PER_VECTOR + j + min;
            if Get(bit) == 0 {
              assert b.Free(bit) && b.Distance(bit) == BITS_PER_VECTOR * i + j;
              SearchFinds(b, bit);
              return AsInt32(bit);
            }
            forall y | b.Free(y) ensures b.Distance(y) >= BITS_PER_VECTOR * i + j + 1 {
              assert b.Distance(y) == BITS_PER_VECTOR * i + j ==> y == bit;
            }
            j := j + 1;
          }
        } else {
          forall y | b.Free(y) ensures b.Distance(y) >= BITS_PER_VECTOR * (i + 1) {
            if b.WordOf(y) == newCursor {
              WordIsMarked(y);
            }
          }
        }
        i := i + 1;
      }
      SearchFails(b);
      CastKeepsSmall(ERR_BITMAP_FULL);
      return ERR_BITMAP_FULL;
    }
  }

  /** `bm_alloc`: null when the bounds are the wrong way round. */
  method BmAlloc(min: nat, max: nat) returns (b: Bitmap?)
    ensures b == null <==> min > max
    ensures b != null ==> fresh(b) && fresh(b.bm) && b.Valid() && b.View() == Bits(min, max, 0, {})
  {
    if min > max {
      return null;
    }
    b := new Bitmap(min, max);
  }

  /** A bitmap whose numbers a C `int` can carry answers its searches unchanged. */
  lemma SearchFitsInt(b: Bits)
    requires b.Ok() && b.max < 0x8000_0000
    ensures AsInt32(NextFree(b)) == NextFree(b)
  {
    hide AsInt32;
    CastKeepsSmall(NextFree(b));
  }

  lemma WrapOnce(a: nat, n: nat)
    requires 0 < n && a < 2 * n
    ensures a % n == if a < n then a else a - n
  {
    if a >= n {
      assert a == 1 * n + (a - n);
      assert (a - n) % n == a - n;
      ModAddOne(a - n, n);
    }
  }

  lemma ModAddOne(a: nat, n: nat)
    requires a < n
    ensures (a + n) % n == a
  {
    assert (a + n) / n == 1 by {
      assert n * 1 <= a + n < n * 2;
    }
  }

  // ---------------------------------------------------------------- runs of allocations

  /** One allocation as `inode_alloc` performs it: search, then mark what was found. */
  ghost function Alloc(b: Bits): (c: Bits)
    requires b.Ok()
    ensures c.Ok() && c.min == b.min && c.max == b.max
  {
    var c := AfterSearch(b);
    if b.Full() then c else c.(marks := b.marks + {NextFree(b)})
  }

  /** The numbers handed out by n allocations in a row. */
  ghost function AllocRun(b: Bits, n: nat): (rs: seq<int>)
    requires b.Ok()
    ensures |rs| == n
    decreases n
  {
    if n == 0 then [] else [NextFree(b)] + AllocRun(Alloc(b), n - 1)
  }

  function Interval(min: int, max: int): (s: set<int>)
    ensures forall x :: x in s <==> min <= x <= max
    ensures |s| == if min <= max then max - min + 1 else 0
    decreases max - min
  {
    if min > max then {} else {min} + Interval(min + 1, max)
  }

  ghost function FreeSet(b: Bits): (s: set<int>) {
    Interval(b.min, b.max) - b.marks
  }

  lemma AllocTakesOne(b: Bits)
    requires b.Ok() && !b.Full()
    ensures NextFree(b) in FreeSet(b)
    ensures FreeSet(Alloc(b)) == FreeSet(b) - {NextFree(b)}
    ensures |FreeSet(Alloc(b))| == |FreeSet(b)| - 1
  {
    assert FreeSet(Alloc(b)) == FreeSet(b) - {NextFree(b)};
  }

  lemma AllocTakesNone(b: Bits)
    requires b.Ok() && b.Full()
    ensures FreeSet(Alloc(b)) == FreeSet(b)
  {
  }

  lemma FullIffNoneFree(b: Bits)
    requires b.Ok()
    ensures b.Full() <==> |FreeSet(b)| == 0
  {
    if b.Full() {
      assert FreeSet(b) == {};
    } else {
      NextFreeExists(b);
      var r :| b.IsNextFree(r);
      assert r in FreeSet(b);
    }
  }

  /** A run of allocations succeeds exactly while free numbers remain; the numbers
      handed out are free ones, all different; afterwards every call says "full". */
  lemma {:induction false} AllocRunExact(b: Bits, n: nat)
    requires b.Ok()
    ensures forall k :: 0 <= k < n ==> (AllocRun(b, n)[k] == ERR_BITMAP_FULL <==> k >= |FreeSet(b)|)
    ensures forall k :: 0 <= k < n && k < |FreeSet(b)| ==> AllocRun(b, n)[k] in FreeSet(b)
    ensures forall j, k :: 0 <= j < k < n && k < |FreeSet(b)| ==> AllocRun(b, n)[j] != AllocRun(b, n)[k]
    decreases n
  {
    hide Alloc, NextFree, FreeSet, Interval;
    FullIffNoneFree(b);
    if n > 0 {
      AllocRunExact(Alloc(b), n - 1);
      var rest := AllocRun(Alloc(b), n - 1);
      assert forall k :: 0 < k < n ==> AllocRun(b, n)[k] == rest[k - 1];
      if b.Full() {
        AllocTakesNone(b);
      } else {
        AllocTakesOne(b);
      }
    }
  }

  /** The same count in the caller's terms: capacity minus what was marked at the start. */
  lemma FreeCount(b: Bits)
    requires b.Ok() && b.marks <= Interval(b.min, b.max)
    ensures |FreeSet(b)| == b.max - b.min + 1 - |b.marks|
  {
    assert Interval(b.min, b.max) == FreeSet(b) + b.marks;
  }
}
