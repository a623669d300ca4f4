/**
 `bitvec`: a growable array of 64-bit words with a one-word inline form.

 A vector of one word keeps it in `data`; a longer one keeps its words in the buffer `ptr`.
 Every operation is specified on the set of naturals the vector denotes, so the two forms,
 the length of the buffer and stale words past `size` are all invisible to callers.
 */
module BitVecs {
  import opened Common
  import opened Words
  import opened BitSets

  /** `size_t` values are words too. */
  type SizeT = Word

  ghost predicate Within(lo: nat, hi: nat, i: nat) {
    lo <= i < hi
  }

  ghost function Interval(lo: nat, hi: nat): set<nat> {
    set i: nat | i < hi && Within(lo, hi, i)
  }

  /** The capacity `expand` really allocates: never less than what was asked for. */
  function RoundedSize(newsize: nat): (r: nat)
    ensures newsize <= r
  {
    var m := newsize / 8;
    if m == 0 then newsize else
      var m := BitOr(m, m / 2);
      var m := BitOr(m, m / 4);
      var m := BitOr(m, m / 16);
      var m := BitOr(m, m / 256);
      var m := BitOr(m, m / 65536);
      RoundUp(newsize, m, 0);
      AndNot(newsize + m, m)
  }

  /** `a & ~b`. */
  function AndNot(a: nat, b: nat): nat {
    if a == 0 then 0 else 2 * AndNot(a / 2, b / 2) + Digit(a % 2 == 1 && b % 2 == 0)
  }

  /** Adding a mask and then clearing its digits never loses anything. */
  lemma {:induction false} RoundUp(n: nat, m: nat, carry: nat)
    requires carry <= 1
    ensures AndNot(n + m + carry, m) >= n + carry
    decreases n + m + carry
  {
    if n + m > 0 {
      var c := (n % 2 + m % 2 + carry) / 2;
      assert (n + m + carry) / 2 == n / 2 + m / 2 + c;
      RoundUp(n / 2, m / 2, c);
    }
  }

  /** Word by word, what `setrange` writes across a word border. */
  lemma RangeFilled(after: seq<Word>, before: seq<Word>, lo: nat, hi: nat)
    requires |after| == |before| && lo / BITS < hi / BITS && hi <= BITS * |before|
    requires after[lo / BITS] == Or(before[lo / BITS], From(lo % BITS))
    requires forall k :: lo / BITS < k < hi / BITS ==> after[k] == ONES
    requires hi / BITS < |before| ==> after[hi / BITS] == Or(before[hi / BITS], Below(hi % BITS))
    requires forall k :: 0 <= k < |before| && (k < lo / BITS || hi / BITS < k) ==> after[k] == before[k]
    ensures Elems(after) == Elems(before) + Interval(lo, hi)
  {
    OnesBits();
    ZeroHasNoBits();
    forall i: nat ensures Has(after, i) == (Has(before, i) || Within(lo, hi, i)) {
      var k := i / BITS;
      if k == lo / BITS {
      } else if lo / BITS < k < hi / BITS {
        assert WordAt(after, k) == ONES;
      } else if k == hi / BITS {
      } else {
        assert WordAt(after, k) == WordAt(before, k);
      }
    }
  }

  /** ... and within one word. */
  lemma RangeFilledInWord(after: seq<Word>, before: seq<Word>, lo: nat, sz: nat)
    requires sz >= 1 && lo / BITS == (lo + sz - 1) / BITS < |before|
    requires after == before[lo / BITS := Or(before[lo / BITS], Shl(FirstBits(sz), lo % BITS))]
    ensures Elems(after) == Elems(before) + Interval(lo, lo + sz)
  {
    forall i: nat ensures Has(after, i) == (Has(before, i) || Within(lo, lo + sz, i)) {
    }
  }

  /** Word by word, what `clrrange` writes across a word border; the range may run off the end. */
  lemma RangeCleared(after: seq<Word>, before: seq<Word>, lo: nat, hi: nat)
    requires |after| == |before| && lo / BITS < hi / BITS && lo / BITS < |before|
    requires after[lo / BITS] == And(before[lo / BITS], Not(From(lo % BITS)))
    requires forall k :: lo / BITS < k < hi / BITS && k < |before| ==> after[k] == 0
    requires hi / BITS < |before| ==> after[hi / BITS] == And(before[hi / BITS], Not(Below(hi % BITS)))
    requires forall k :: 0 <= k < |before| && (k < lo / BITS || hi / BITS < k) ==> after[k] == before[k]
    ensures Elems(after) == Elems(before) - Interval(lo, hi)
  {
    ZeroHasNoBits();
    forall i: nat ensures Has(after, i) == (Has(before, i) && !Within(lo, hi, i)) {
      var k := i / BITS;
      if k == lo / BITS {
      } else if lo / BITS < k < hi / BITS {
        assert WordAt(after, k) == 0;
      } else if k == hi / BITS {
      } else {
        assert WordAt(after, k) == WordAt(before, k);
      }
    }
  }

  lemma RangeClearedInWord(after: seq<Word>, before: seq<Word>, lo: nat, sz: nat)
    requires sz >= 1 && lo / BITS == (lo + sz - 1) / BITS < |before|
    requires after == before[lo / BITS := And(before[lo / BITS], Not(Shl(FirstBits(sz), lo % BITS)))]
    ensures Elems(after) == Elems(before) - Interval(lo, lo + sz)
  {
    forall i: nat ensures Has(after, i) == (Has(before, i) && !Within(lo, lo + sz, i)) {
    }
  }

  lemma InlineCleared(w: Word, lo: nat, sz: nat)
    requires sz >= 1 && lo + sz <= BITS
    ensures Elems([And(w, Not(Shl(FirstBits(sz), lo)))]) == Elems([w]) - Interval(lo, lo + sz)
  {
    ZeroHasNoBits();
    var after := [And(w, Not(Shl(FirstBits(sz), lo)))];
    forall i: nat ensures Has(after, i) == (Has([w], i) && !Within(lo, lo + sz, i)) {
    }
  }

  lemma InlineTailCleared(w: Word, lo: nat, hi: nat)
    requires lo < BITS <= hi
    ensures Elems([And(w, Not(From(lo)))]) == Elems([w]) - Interval(lo, hi)
  {
    ZeroHasNoBits();
    var after := [And(w, Not(From(lo)))];
    forall i: nat ensures Has(after, i) == (Has([w], i) && !Within(lo, hi, i)) {
    }
  }

  /** Past the last word there is nothing to clear. */
  lemma ClampedInterval(ws: seq<Word>, lo: nat, hi: nat, hi': nat)
    requires BITS * |ws| <= hi && BITS * |ws| <= hi'
    ensures Elems(ws) - Interval(lo, hi) == Elems(ws) - Interval(lo, hi')
  {
    ZeroHasNoBits();
    forall i: nat | Has(ws, i) ensures Within(lo, hi, i) == Within(lo, hi', i) {
    }
  }

  /** r is the least element above idx, or -1 when there is none. */
  ghost predicate IsNext(s: set<nat>, idx: int, r: int) {
    if r == -1 then forall i :: i in s ==> i <= idx
    else idx < r && r >= 0 && r as nat in s && forall i :: i in s ==> i <= idx || r <= i
  }

  /** r is the greatest element below idx, or -1 when there is none. */
  ghost predicate IsPrev(s: set<nat>, idx: int, r: int) {
    if r == -1 then forall i :: i in s ==> i >= idx
    else 0 <= r < idx && r as nat in s && forall i :: i in s ==> i >= idx || i <= r
  }

  /** A word cut off below `start` and found empty rules out the rest of that word. */
  lemma NothingFrom(ws: seq<Word>, start: nat)
    requires Shr(WordAt(ws, start / BITS), start % BITS) == 0
    ensures forall i: nat :: start <= i < (start / BITS + 1) * BITS ==> !Has(ws, i)
  {
    ZeroHasNoBits();
    var w := WordAt(ws, start / BITS);
    forall i: nat | start <= i < (start / BITS + 1) * BITS ensures !Has(ws, i) {
      assert i / BITS == start / BITS;
      assert Bit(Shr(w, start % BITS), i - start) == Bit(w, i % BITS);
    }
  }

  lemma FirstFrom(ws: seq<Word>, start: nat, w: Word, k: nat, c: nat)
    requires w == WordAt(ws, start / BITS) && k == start % BITS && Shr(w, k) != 0 && c == Ctz(Shr(w, k))
    ensures Has(ws, start + c)
    ensures forall i: nat :: start <= i < start + c ==> !Has(ws, i)
  {
    LowestFrom(w, k, Shr(w, k), c);
    FirstInWord(ws, start, c + k, start + c);
  }

  lemma LowestFrom(w: Word, k: nat, v: Word, c: nat)
    requires v == Shr(w, k) && Bit(v, c) && forall j: nat :: j < c ==> !Bit(v, j)
    ensures c + k < BITS && Bit(w, c + k)
    ensures forall j: nat :: k <= j < c + k ==> !Bit(w, j)
  {
    WordBits(w);
    assert Bit(w, c + k);
    forall j: nat | k <= j < c + k ensures !Bit(w, j) {
      assert !Bit(v, j - k);
    }
  }

  lemma FirstInWord(ws: seq<Word>, start: nat, low: nat, r: nat)
    requires start % BITS <= low < BITS && r == start + (low - start % BITS) && Bit(WordAt(ws, start / BITS), low)
    requires forall j: nat :: start % BITS <= j < low ==> !Bit(WordAt(ws, start / BITS), j)
    ensures Has(ws, r)
    ensures forall i: nat :: start <= i < r ==> !Has(ws, i)
  {
    SameWordUp(start, r);
    forall i: nat | start <= i < r ensures !Has(ws, i) {
      SameWordUp(start, i);
    }
  }

  lemma SameWordUp(start: nat, i: nat)
    requires start <= i < start + (BITS - start % BITS)
    ensures i / BITS == start / BITS && i % BITS == start % BITS + (i - start)
  {
  }

  lemma NothingUpTo(ws: seq<Word>, last: nat)
    requires Shl(WordAt(ws, last / BITS), BITS - 1 - last % BITS) == 0
    ensures forall i: nat :: last / BITS * BITS <= i <= last ==> !Has(ws, i)
  {
    NoneBelow(WordAt(ws, last / BITS), BITS - 1 - last % BITS);
    forall i: nat | last / BITS * BITS <= i <= last ensures !Has(ws, i) {
      assert i / BITS == last / BITS && i % BITS <= last % BITS;
    }
  }

  lemma LastUpTo(ws: seq<Word>, last: nat, w: Word, k: nat, r: int)
    requires w == WordAt(ws, last / BITS) && k == BITS - 1 - last % BITS
    requires Shl(w, k) != 0 && r == last - Clz(Shl(w, k))
    ensures r >= 0 && Has(ws, r)
    ensures forall i: nat :: r < i <= last ==> !Has(ws, i)
  {
    TopBelow(w, k);
    LastInWord(ws, last, BITS - 1 - k - Clz(Shl(w, k)), r);
  }

  lemma LastInWord(ws: seq<Word>, last: nat, top: int, r: int)
    requires 0 <= top <= last % BITS && r == last - (last % BITS - top) && Bit(WordAt(ws, last / BITS), top)
    requires forall j: nat :: top < j <= last % BITS ==> !Bit(WordAt(ws, last / BITS), j)
    ensures r >= 0 && Has(ws, r)
    ensures forall i: nat :: r < i <= last ==> !Has(ws, i)
  {
    SameWord(last, r);
    forall i: nat | r < i <= last ensures !Has(ws, i) {
      SameWord(last, i);
    }
  }

  lemma SameWord(last: nat, i: int)
    requires last - last % BITS <= i <= last
    ensures i >= 0 && i / BITS == last / BITS && i % BITS == last % BITS - (last - i)
  {
  }

  // ---------------------------------------------------------------- numbers and intervals

  /** The set after writing the sz low digits of v at idx. */
  ghost function Patched(s: set<nat>, idx: nat, sz: nat, v: nat): set<nat> {
    (s - Interval(idx, idx + sz)) + Block(v, idx, sz)
  }

  /** Reading back what was written gives the value modulo 2^sz; everything else is as before. */
  lemma ReadAfterWrite(s: set<nat>, idx: nat, sz: nat, v: nat)
    ensures Number(Patched(s, idx, sz, v), idx, sz) == v % Pow2(sz)
    ensures forall i :: i < idx || idx + sz <= i ==> (i in Patched(s, idx, sz, v) <==> i in s)
  {
    forall i: nat ensures Bit(v % Pow2(sz), i) == (i < sz && idx + i in Patched(s, idx, sz, v)) {
      ModBit(v, sz, i);
      assert InBlock(v, idx, sz, idx + i) == (i < sz && Bit(v, i));
      assert Within(idx, idx + sz, idx + i) == (i < sz);
    }
    NumberFromBits(v % Pow2(sz), Patched(s, idx, sz, v), idx, sz);
  }

  /** The digits of rv below n are the members of ws from idx on; the others are clear. */
  ghost predicate Gathered(rv: Word, ws: seq<Word>, idx: nat, n: nat) {
    forall i: nat :: i < BITS ==> Bit(rv, i) == (i < n && Has(ws, idx + i))
  }

  lemma GatherFirst(ws: seq<Word>, idx: nat)
    ensures Gathered(Shr(WordAt(ws, idx / BITS), idx % BITS), ws, idx, BITS - idx % BITS)
  {
    var w, s := WordAt(ws, idx / BITS), idx % BITS;
    WordBits(w);
    forall i: nat | i < BITS ensures Bit(Shr(w, s), i) == (i < BITS - s && Has(ws, idx + i)) {
      if i < BITS - s { assert (idx + i) / BITS == idx / BITS && (idx + i) % BITS == s + i; }
    }
  }

  lemma GatherNext(rv: Word, ws: seq<Word>, idx: nat, n: nat, k: nat)
    requires n < BITS && idx + n == k * BITS && Gathered(rv, ws, idx, n)
    ensures Gathered(Or(rv, Shl(WordAt(ws, k), n)), ws, idx, n + BITS)
  {
    var w := WordAt(ws, k);
    var r := Or(rv, Shl(w, n));
    forall i: nat | i < BITS ensures Bit(r, i) == Has(ws, idx + i) {
      if i >= n { assert (idx + i) / BITS == k && (idx + i) % BITS == i - n; }
    }
  }

  /** Bit i once the words below position `done` have been patched. */
  ghost predicate PatchedBit(before: seq<Word>, idx: nat, sz: nat, v: Word, done: nat, i: nat) {
    if Within(idx, idx + sz, i) && i < done then Bit(v, i - idx) else Has(before, i)
  }

  ghost predicate PatchedBelow(ws: seq<Word>, before: seq<Word>, idx: nat, sz: nat, v: Word, done: nat) {
    forall i: nat :: Has(ws, i) == PatchedBit(before, idx, sz, v, done, i)
  }

  lemma PatchFirstBit(ws: seq<Word>, idx: nat, sz: nat, v: Word, mask: Word, k: nat, shift: nat, w: Word, i: nat)
    requires 1 <= sz <= BITS && k < |ws| && idx == k * BITS + shift && shift < BITS
    requires i % BITS >= shift ==> Bit(mask, i % BITS - shift) == (i % BITS - shift < sz)
    requires i % BITS >= shift && Bit(v, i % BITS - shift) ==> i % BITS - shift < sz
    requires Bit(w, i % BITS) ==
               if i % BITS < shift then Bit(ws[k], i % BITS)
               else (Bit(ws[k], i % BITS) && !Bit(mask, i % BITS - shift)) || Bit(v, i % BITS - shift)
    ensures Has(ws[k := w], i) == PatchedBit(ws, idx, sz, v, (k + 1) * BITS, i)
  {
    if i / BITS == k {
      assert i == k * BITS + i % BITS;
      assert i % BITS >= shift ==> i - idx == i % BITS - shift;
    } else {
      assert Has(ws[k := w], i) == Has(ws, i);
    }
  }

  lemma PatchFirstWord(ws: seq<Word>, idx: nat, sz: nat, v: Word, mask: Word)
    requires 1 <= sz <= BITS && idx / BITS < |ws|
    requires forall i: nat :: Bit(mask, i) == (i < sz)
    requires forall i: nat :: Bit(v, i) ==> i < sz
    ensures var k := idx / BITS;
            var w := Or(And(ws[k], Not(Shl(mask, idx % BITS))), Shl(v, idx % BITS));
            PatchedBelow(ws[k := w], ws, idx, sz, v, (k + 1) * BITS)
  {
    var k, shift := idx / BITS, idx % BITS;
    var w := Or(And(ws[k], Not(Shl(mask, shift))), Shl(v, shift));
    var after := ws[k := w];
    forall i: nat ensures Has(after, i) == PatchedBit(ws, idx, sz, v, (k + 1) * BITS, i) {
      PatchFirstBit(ws, idx, sz, v, mask, k, shift, w, i);
    }
  }

  lemma PatchNextBit(ws: seq<Word>, before: seq<Word>, idx: nat, sz: nat, v: Word, mask: Word, k: nat, shift: nat, w: Word, i: nat)
    requires 1 <= sz <= BITS && k < |ws| && idx + shift == k * BITS && shift > 0
    requires Bit(mask, i % BITS + shift) == (i % BITS + shift < sz)
    requires Bit(v, i % BITS + shift) ==> i % BITS + shift < sz
    requires Has(ws, i) == PatchedBit(before, idx, sz, v, k * BITS, i)
    requires Bit(w, i % BITS) == ((Bit(ws[k], i % BITS) && !Bit(mask, i % BITS + shift)) || Bit(v, i % BITS + shift))
    ensures Has(ws[k := w], i) == PatchedBit(before, idx, sz, v, (k + 1) * BITS, i)
  {
    if i / BITS == k {
      assert i - idx == i % BITS + shift;
    }
  }

  lemma PatchNextWord(ws: seq<Word>, before: seq<Word>, idx: nat, sz: nat, v: Word, mask: Word, k: nat, shift: nat)
    requires 1 <= sz <= BITS && k < |ws| && idx + shift == k * BITS && shift > 0
    requires forall i: nat :: Bit(mask, i) == (i < sz)
    requires forall i: nat :: Bit(v, i) ==> i < sz
    requires PatchedBelow(ws, before, idx, sz, v, k * BITS)
    ensures var w := Or(And(ws[k], Not(Shr(mask, shift))), Shr(v, shift));
            PatchedBelow(ws[k := w], before, idx, sz, v, (k + 1) * BITS)
  {
    var w := Or(And(ws[k], Not(Shr(mask, shift))), Shr(v, shift));
    var after := ws[k := w];
    forall i: nat ensures Has(after, i) == PatchedBit(before, idx, sz, v, (k + 1) * BITS, i) {
      assert Has(ws, i) == PatchedBit(before, idx, sz, v, k * BITS, i);
      PatchNextBit(ws, before, idx, sz, v, mask, k, shift, w, i);
    }
  }

  lemma PatchDone(after: seq<Word>, before: seq<Word>, idx: nat, sz: nat, v: Word, v': Word, done: nat)
    requires idx + sz <= done && PatchedBelow(after, before, idx, sz, v', done)
    requires forall i: nat :: i < sz ==> Bit(v', i) == Bit(v, i)
    ensures Elems(after) == Patched(Elems(before), idx, sz, v)
  {
    forall i: nat ensures i in Elems(after) <==> i in Patched(Elems(before), idx, sz, v) {
      assert Has(after, i) == PatchedBit(before, idx, sz, v', done, i);
      assert InBlock(v, idx, sz, i) == (Within(idx, idx + sz, i) && Bit(v, i - idx));
    }
  }

  lemma {:induction false} IntervalSize(lo: nat, hi: nat)
    requires lo <= hi
    ensures |Interval(lo, hi)| == hi - lo
    decreases hi
  {
    if lo == hi {
      assert Interval(lo, hi) == {};
    } else {
      IntervalSize(lo, hi - 1);
      assert Interval(lo, hi) == Interval(lo, hi - 1) + {hi - 1} by {
        forall i: nat ensures Within(lo, hi, i) == (Within(lo, hi - 1, i) || i == hi - 1) {
        }
      }
    }
  }

  /** A set with least element lo and greatest hi is an interval exactly when its size says so. */
  lemma IntervalBySize(s: set<nat>, lo: nat, hi: nat)
    requires lo in s && hi in s && forall i :: i in s ==> lo <= i <= hi
    ensures hi - lo + 1 == |s| <==> exists a: nat, b: nat :: a < b && s == Interval(a, b)
  {
    var whole := Interval(lo, hi + 1);
    forall i | i in s ensures i in whole { assert Within(lo, hi + 1, i); }
    IntervalSize(lo, hi + 1);
    SubsetSize(s, whole);
    if hi - lo + 1 == |s| {
      assert lo < hi + 1 && s == Interval(lo, hi + 1);
    }
    if exists a: nat, b: nat :: a < b && s == Interval(a, b) {
      var a: nat, b: nat :| a < b && s == Interval(a, b);
      IntervalSize(a, b);
      assert Within(a, b, a) && Within(a, b, b - 1);
      assert Within(a, b, lo) && Within(a, b, hi);
      assert a in s && b - 1 in s;
    }
  }

  // ---------------------------------------------------------------- shifting and rotating sets

  ghost predicate FromBelow(s: set<nat>, count: nat, i: nat) {
    i >= count && i - count in s
  }

  ghost predicate FromAbove(s: set<nat>, count: nat, i: nat) {
    i + count in s
  }

  /** Some natural above every member. */
  ghost function Bound(s: set<nat>): (b: nat)
    ensures forall i :: i in s ==> i < b
  {
    if s == {} then 0 else
      var x :| x in s;
      var b := Bound(s - {x});
      assert forall i :: i in s ==> i == x || i in s - {x};
      Max(x + 1, b)
  }

  ghost function ShiftUp(s: set<nat>, count: nat): set<nat> {
    set i: nat | i < Bound(s) + count && FromBelow(s, count, i)
  }

  ghost function ShiftDown(s: set<nat>, count: nat): set<nat> {
    set i: nat | i < Bound(s) && FromAbove(s, count, i)
  }

  lemma ShiftUpMembers(s: set<nat>, count: nat)
    ensures forall i: nat :: i in ShiftUp(s, count) <==> i >= count && i - count in s
  {
    forall i: nat ensures i in ShiftUp(s, count) <==> i >= count && i - count in s {
      assert FromBelow(s, count, i) == (i >= count && i - count in s);
    }
  }

  lemma ShiftDownMembers(s: set<nat>, count: nat)
    ensures forall i: nat :: i in ShiftDown(s, count) <==> i + count in s
  {
    forall i: nat ensures i in ShiftDown(s, count) <==> i + count in s {
      assert FromAbove(s, count, i) == (i + count in s);
    }
  }

  /** Rotation of the stretch [start, end) that brings position rot to start. */
  ghost function Rotated(s: set<nat>, start: nat, rot: nat, end: nat): set<nat>
    requires start <= rot < end
  {
    (s - Interval(start, end)) + RotatedPart(s, start, rot, end)
  }

  ghost function RotatedPart(s: set<nat>, start: nat, rot: nat, end: nat): set<nat>
    requires start <= rot < end
  {
    ShiftDown(s * Interval(rot, end), rot - start) + ShiftUp(s * Interval(start, rot), end - rot)
  }

  /** Shifting the stretch both ways and masking is rotation. */
  lemma RotationByMask(s: set<nat>, start: nat, rot: nat, end: nat,
                       mask: set<nat>, section: set<nat>, down: nat, up: nat, both: set<nat>)
    requires start <= rot < end && down == rot - start && up == end - rot
    requires mask == Interval(start, end) && section == s * mask
    requires both == ShiftDown(section, down) + ShiftUp(section, up)
    ensures both * mask == RotatedPart(s, start, rot, end)
  {
    IntervalMembers(start, end);
    IntervalMembers(start, rot);
    IntervalMembers(rot, end);
    ShiftDownMembers(section, down);
    ShiftUpMembers(section, up);
    ShiftDownMembers(s * Interval(rot, end), down);
    ShiftUpMembers(s * Interval(start, rot), up);
  }

  /** Rotation is cyclic inside the stretch and does nothing outside it. */
  lemma RotatedAt(s: set<nat>, start: nat, rot: nat, end: nat, i: nat)
    requires start <= rot < end
    ensures i < start || end <= i ==> (i in Rotated(s, start, rot, end) <==> i in s)
    ensures start <= i < end ==>
              (i in Rotated(s, start, rot, end) <==> start + (i - start + (rot - start)) % (end - start) in s)
  {
    var n, d := end - start, rot - start;
    ShiftDownMembers(s * Interval(rot, end), d);
    ShiftUpMembers(s * Interval(start, rot), end - rot);
    assert i in Interval(start, end) <==> Within(start, end, i);
    assert i + d in Interval(rot, end) <==> Within(rot, end, i + d);
    if i >= end - rot {
      assert i - (end - rot) in Interval(start, rot) <==> Within(start, rot, i - (end - rot));
    }
    if start <= i < end {
      var j := i - start + d;
      if j >= n { ModOnce(j, n); } else { ModNone(j, n); }
    }
  }

  lemma ModNone(j: nat, n: nat)
    requires j < n
    ensures j % n == j
  {
    RemainderUnique(j, n, 0, j);
  }

  lemma ModOnce(j: nat, n: nat)
    requires n <= j < 2 * n
    ensures j % n == j - n
  {
    RemainderUnique(j, n, 1, j - n);
  }

  lemma ShiftUpMore(s: set<nat>, x: nat, count: nat)
    requires x !in s
    ensures ShiftUp(s + {x}, count) == ShiftUp(s, count) + {x + count} && x + count !in ShiftUp(s, count)
  {
    ShiftUpMembers(s, count);
    ShiftUpMembers(s + {x}, count);
  }

  lemma {:induction false} ShiftUpSize(s: set<nat>, count: nat)
    ensures |ShiftUp(s, count)| == |s|
  {
    if s == {} {
      ShiftUpMembers(s, count);
      assert ShiftUp(s, count) == {};
    } else {
      var x :| x in s;
      ShiftUpSize(s - {x}, count);
      ShiftUpMore(s - {x}, x, count);
      assert s - {x} + {x} == s;
    }
  }

  lemma ShiftDownSize(s: set<nat>, count: nat)
    requires forall i :: i in s ==> i >= count
    ensures |ShiftDown(s, count)| == |s|
  {
    ShiftUpSize(ShiftDown(s, count), count);
    ShiftDownMembers(s, count);
    ShiftUpMembers(ShiftDown(s, count), count);
    assert ShiftUp(ShiftDown(s, count), count) == s;
  }

  lemma IntervalMembers(lo: nat, hi: nat)
    ensures forall i: nat :: i in Interval(lo, hi) <==> lo <= i < hi
  {
    forall i: nat ensures i in Interval(lo, hi) <==> lo <= i < hi { assert Within(lo, hi, i) == (lo <= i < hi); }
  }

  lemma DisjointSize(a: set<nat>, b: set<nat>, m: int)
    requires forall i :: i in a ==> i < m
    requires forall i :: i in b ==> i >= m
    ensures |a + b| == |a| + |b|
  {
    assert a !! b;
  }

  /** The rotated stretch stays in the stretch and keeps its size. */
  lemma RotatedPartSize(s: set<nat>, start: nat, rot: nat, end: nat)
    requires start <= rot < end
    ensures forall i :: i in RotatedPart(s, start, rot, end) ==> start <= i < end
    ensures |RotatedPart(s, start, rot, end)| == |s * Interval(rot, end)| + |s * Interval(start, rot)|
  {
    IntervalMembers(start, rot);
    IntervalMembers(rot, end);
    RotateHalves(s * Interval(rot, end), s * Interval(start, rot), start, rot, end);
  }

  lemma RotateHalves(hi: set<nat>, lo: set<nat>, start: nat, rot: nat, end: nat)
    requires start <= rot < end
    requires forall i :: i in hi ==> rot <= i < end
    requires forall i :: i in lo ==> start <= i < rot
    ensures var r := ShiftDown(hi, rot - start) + ShiftUp(lo, end - rot);
            |r| == |hi| + |lo| && forall i :: i in r ==> start <= i < end
  {
    ShiftDownSize(hi, rot - start);
    ShiftUpSize(lo, end - rot);
    ShiftDownMembers(hi, rot - start);
    ShiftUpMembers(lo, end - rot);
    DisjointSize(ShiftDown(hi, rot - start), ShiftUp(lo, end - rot), start + (end - rot));
  }

  lemma SplitSize(s: set<nat>, start: nat, rot: nat, end: nat)
    requires start <= rot < end
    ensures |s| == |s - Interval(start, end)| + |s * Interval(rot, end)| + |s * Interval(start, rot)|
  {
    IntervalMembers(start, end);
    IntervalMembers(start, rot);
    IntervalMembers(rot, end);
    var hi, lo := s * Interval(rot, end), s * Interval(start, rot);
    assert |hi + lo| == |hi| + |lo| by { assert hi !! lo; }
    assert s * Interval(start, end) == hi + lo;
    assert s == (s - Interval(start, end)) + s * Interval(start, end);
  }

  /** Rotation preserves the number of set bits. */
  lemma RotatedSize(s: set<nat>, start: nat, rot: nat, end: nat)
    requires start <= rot < end
    ensures |Rotated(s, start, rot, end)| == |s|
  {
    SplitSize(s, start, rot, end);
    RotatedPartSize(s, start, rot, end);
    IntervalMembers(start, end);
    assert s - Interval(start, end) !! RotatedPart(s, start, rot, end);
  }

  /** Word k of `before >> (off * 64 + c)`, as `>>=` computes it. */
  ghost function WordShiftedRight(before: seq<Word>, off: nat, c: nat, k: nat): Word
    requires c < BITS
  {
    if k + off < |before| then
      if c != 0 && k + off + 1 < |before|
      then Or(Shr(before[k + off], c), Shl(before[k + off + 1], BITS - c))
      else Shr(before[k + off], c)
    else 0
  }

  lemma BitShiftedRight(before: seq<Word>, off: nat, c: nat, k: nat, b: nat)
    requires c < BITS && b < BITS
    ensures Bit(WordShiftedRight(before, off, c, k), b) ==
              if b + c < BITS then Bit(WordAt(before, k + off), b + c) else Bit(WordAt(before, k + off + 1), b + c - BITS)
  {
    ZeroHasNoBits();
    WordBits(WordAt(before, k + off));
  }

  lemma ShiftedRight(after: seq<Word>, before: seq<Word>, count: nat)
    requires |after| == |before|
    requires forall k :: 0 <= k < |after| ==> after[k] == WordShiftedRight(before, count / BITS, count % BITS, k)
    ensures Elems(after) == ShiftDown(Elems(before), count)
  {
    ShiftDownMembers(Elems(before), count);
    ZeroHasNoBits();
    var off, c := count / BITS, count % BITS;
    forall i: nat ensures Has(after, i) == Has(before, i + count) {
      var k, b := i / BITS, i % BITS;
      BitShiftedRight(before, off, c, k, b);
      if b + c < BITS {
        assert (i + count) / BITS == k + off && (i + count) % BITS == b + c;
      } else {
        assert (i + count) / BITS == k + off + 1 && (i + count) % BITS == b + c - BITS;
      }
    }
  }

  /** Word k of `before << (off * 64 + c)`, as `<<=` computes it. */
  ghost function WordShiftedLeft(before: seq<Word>, off: nat, c: nat, k: nat): Word
    requires k < |before| && c < BITS
  {
    if k >= off then
      if c != 0 && k > off
      then Or(Shl(before[k - off], c), Shr(before[k - off - 1], BITS - c))
      else Shl(before[k - off], c)
    else 0
  }

  lemma BitShiftedLeft(before: seq<Word>, off: nat, c: nat, k: nat, b: nat)
    requires k < |before| && c < BITS && b < BITS
    ensures Bit(WordShiftedLeft(before, off, c, k), b) ==
              if k < off || (k == off && b < c) then false
              else if b >= c then Bit(before[k - off], b - c)
              else Bit(before[k - off - 1], b - c + BITS)
  {
    ZeroHasNoBits();
    if k > off { WordBits(before[k - off - 1]); }
  }

  lemma ShiftedLeft(after: seq<Word>, before: seq<Word>, count: nat)
    requires |after| == |before|
    requires forall i :: i in Elems(before) ==> i + count < BITS * |before|
    requires forall k :: 0 <= k < |after| ==> after[k] == WordShiftedLeft(before, count / BITS, count % BITS, k)
    ensures Elems(after) == ShiftUp(Elems(before), count)
  {
    ShiftUpMembers(Elems(before), count);
    ZeroHasNoBits();
    var off, c := count / BITS, count % BITS;
    forall i: nat ensures Has(after, i) == (i >= count && Has(before, i - count)) {
      var k, b := i / BITS, i % BITS;
      if k < |after| {
        BitShiftedLeft(before, off, c, k, b);
        if i >= count {
          ShiftedPosition(i, count);
        } else {
          assert k < off || (k == off && b < c);
        }
      } else if i >= count {
        assert i - count !in Elems(before);
      }
    }
  }

  lemma ShiftedPosition(i: nat, count: nat)
    requires i >= count
    ensures i % BITS >= count % BITS ==>
              (i - count) / BITS == i / BITS - count / BITS && (i - count) % BITS == i % BITS - count % BITS
    ensures i % BITS < count % BITS ==>
              (i - count) / BITS == i / BITS - count / BITS - 1 && (i - count) % BITS == i % BITS - count % BITS + BITS
  {
  }

  lemma InlineShiftedRight(w: Word, count: nat)
    ensures count >= BITS ==> Elems([0]) == ShiftDown(Elems([w]), count)
    ensures count < BITS ==> Elems([Shr(w, count)]) == ShiftDown(Elems([w]), count)
  {
    ShiftDownMembers(Elems([w]), count);
    ZeroHasNoBits();
    WordBits(w);
    if count < BITS {
      forall i: nat ensures Has([Shr(w, count)], i) == Has([w], i + count) {
      }
    }
  }

  lemma InlineShiftedLeft(w: Word, count: nat)
    requires forall i :: i in Elems([w]) ==> i + count < BITS
    ensures Elems([Shl(w, count)]) == ShiftUp(Elems([w]), count)
  {
    var before, after := [w], [Shl(w, count)];
    ShiftUpMembers(Elems(before), count);
    ZeroHasNoBits();
    forall i: nat ensures Has(after, i) == (i >= count && Has(before, i - count)) {
      if i >= count {
        assert i - count in Elems(before) ==> i < BITS;
        if i < BITS { assert (i - count) / BITS == 0 && (i - count) % BITS == i - count; }
      }
    }
  }

  // ---------------------------------------------------------------- order and inclusion by words

  lemma MembersBelow(ws: seq<Word>)
    ensures forall i :: i in Elems(ws) ==> i < BITS * |ws|
  {
    ZeroHasNoBits();
  }

  lemma NotContained(ws: seq<Word>, other: seq<Word>, k: nat)
    requires And(WordAt(ws, k), WordAt(other, k)) != WordAt(other, k)
    ensures !(Elems(other) <= Elems(ws))
  {
    var x, y := WordAt(ws, k), WordAt(other, k);
    if Elems(other) <= Elems(ws) {
      WordBits(y);
      forall i: nat ensures Bit(And(x, y), i) == Bit(y, i) {
        if i < BITS {
          var j := BITS * k + i;
          assert j / BITS == k && j % BITS == i;
          assert j in Elems(other) ==> j in Elems(ws);
        }
      }
      Extensional(And(x, y), y);
    }
  }

  function Max(a: nat, b: nat): nat {
    if a > b then a else b
  }

  /** r says whether a spells a smaller number than b, at every width from `bound` up. */
  ghost predicate OrderedAs(a: set<nat>, b: set<nat>, bound: nat, r: bool) {
    forall n: nat :: n >= bound ==> r == (Number(a, 0, n) < Number(b, 0, n))
  }

  /** The numbers spelled by words k .. top - 1 agree. */
  ghost predicate SameFrom(a: seq<Word>, b: seq<Word>, k: nat, top: nat) {
    k <= top && Number(Elems(a), BITS * k, BITS * (top - k)) == Number(Elems(b), BITS * k, BITS * (top - k))
  }

  ghost predicate Smaller(a: seq<Word>, b: seq<Word>, top: nat) {
    Number(Elems(a), 0, BITS * top) < Number(Elems(b), 0, BITS * top)
  }

  /** Changing the front and then zeroing the tail changes a vector when either step does. */
  lemma WithZeroTail(before: seq<Word>, mid: seq<Word>, after: seq<Word>, from: nat)
    requires |before| == |mid| == |after| && from <= |mid|
    requires forall k :: 0 <= k < from ==> after[k] == mid[k]
    requires forall k :: from <= k < |mid| ==> mid[k] == before[k]
    ensures mid != before || after != mid <==> after != before
  {
    if after == before {
      assert mid == before;
    }
  }

  /** With equal words above k, word k decides. */
  lemma LessByWord(a: seq<Word>, b: seq<Word>, k: nat, top: nat, bits: nat)
    requires bits == BITS && k < top && SameFrom(a, b, k + 1, top)
    ensures WordAt(a, k) < WordAt(b, k) ==> Smaller(a, b, top)
    ensures WordAt(a, k) == WordAt(b, k) ==> SameFrom(a, b, k, top)
  {
    WordIsNumber(a, k, bits);
    WordIsNumber(b, k, bits);
    StretchDecides(Elems(a), Elems(b), BITS * k, bits, BITS * (k + 1), BITS * (top - (k + 1)), BITS * (top - k), BITS * top);
  }

  lemma LessAtAnyWidth(a: seq<Word>, b: seq<Word>, top: nat, r: bool)
    requires |a| <= top && |b| <= top
    requires r == Smaller(a, b, top)
    ensures OrderedAs(Elems(a), Elems(b), BITS * Max(|a|, |b|), r)
  {
    MembersBelow(a);
    MembersBelow(b);
    var m := BITS * Max(|a|, |b|);
    forall n: nat | n >= m ensures r == (Number(Elems(a), 0, n) < Number(Elems(b), 0, n)) {
      NumberStable(Elems(a), 0, m, n - m);
      NumberStable(Elems(b), 0, m, n - m);
      NumberStable(Elems(a), 0, m, BITS * top - m);
      NumberStable(Elems(b), 0, m, BITS * top - m);
    }
  }

  /** The loop of `|=` over two buffers. */
  method OrBuffers(p: array<Word>, q: array<Word>, n: nat) returns (rv: bool)
    requires n <= p.Length && n <= q.Length
    modifies p
    ensures forall k :: 0 <= k < n ==> p[k] == Or(old(p[k]), old(q[k]))
    ensures forall k :: n <= k < p.Length ==> p[k] == old(p[k])
    ensures rv <==> p[..] != old(p[..])
  {
    rv := false;
    ghost var w := 0;
    var i := 0;
    while i < n
      invariant 0 <= i <= n
      invariant forall k :: 0 <= k < i ==> p[k] == Or(old(p[k]), old(q[k]))
      invariant forall k :: i <= k < p.Length ==> p[k] == old(p[k])
      invariant rv ==> 0 <= w < i && p[w] != old(p[w])
      invariant !rv ==> forall k :: 0 <= k < i ==> p[k] == old(p[k])
    {
      var v := Or(p[i], q[i]);
      if v != p[i] { rv, w := true, i; }
      p[i] := v;
      i := i + 1;
    }
    assert rv ==> p[..][w] != old(p[..])[w];
  }

  /** The loop of `-=` over two buffers. */
  method AndNotBuffers(p: array<Word>, q: array<Word>, n: nat) returns (rv: bool)
    requires n <= p.Length && n <= q.Length
    modifies p
    ensures forall k :: 0 <= k < n ==> p[k] == And(old(p[k]), Not(old(q[k])))
    ensures forall k :: n <= k < p.Length ==> p[k] == old(p[k])
    ensures rv <==> p[..] != old(p[..])
  {
    rv := false;
    ghost var w := 0;
    var i := 0;
    while i < n
      invariant 0 <= i <= n
      invariant forall k :: 0 <= k < i ==> p[k] == And(old(p[k]), Not(old(q[k])))
      invariant forall k :: i <= k < p.Length ==> p[k] == old(p[k])
      invariant rv ==> 0 <= w < i && p[w] != old(p[w])
      invariant !rv ==> forall k :: 0 <= k < i ==> p[k] == old(p[k])
    {
      var v := And(p[i], Not(q[i]));
      if v != p[i] { rv, w := true, i; }
      p[i] := v;
      i := i + 1;
    }
    assert rv ==> p[..][w] != old(p[..])[w];
  }

  /** The loop of `&=` over two buffers. */
  method AndBuffers(p: array<Word>, q: array<Word>, n: nat) returns (rv: bool)
    requires n <= p.Length && n <= q.Length
    modifies p
    ensures forall k :: 0 <= k < n ==> p[k] == And(old(p[k]), old(q[k]))
    ensures forall k :: n <= k < p.Length ==> p[k] == old(p[k])
    ensures rv <==> p[..] != old(p[..])
  {
    rv := false;
    ghost var w := 0;
    var i := 0;
    while i < n
      invariant 0 <= i <= n
      invariant forall k :: 0 <= k < i ==> p[k] == And(old(p[k]), old(q[k]))
      invariant forall k :: i <= k < p.Length ==> p[k] == old(p[k])
      invariant rv ==> 0 <= w < i && p[w] != old(p[w])
      invariant !rv ==> forall k :: 0 <= k < i ==> p[k] == old(p[k])
    {
      var v := And(p[i], q[i]);
      if v != p[i] { rv, w := true, i; }
      p[i] := v;
      i := i + 1;
    }
    assert rv ==> p[..][w] != old(p[..])[w];
  }

  class BitVec {
    var size: nat
    var data: Word
    var ptr: array<Word>

    ghost predicate Valid()
      reads this
    {
      size >= 1 && (size > 1 ==> size <= ptr.Length)
    }

    ghost function Words(): seq<Word>
      requires Valid()
      reads this, ptr
    {
      if size > 1 then ptr[..size] else [data]
    }

    /** The set this vector denotes. */
    ghost function Set(): set<nat>
      requires Valid()
      reads this, ptr
    {
      Elems(Words())
    }

    /** `word(i)`. */
    function WordOf(i: nat): (w: Word)
      requires Valid()
      reads this, ptr
      ensures w == WordAt(Words(), i)
    {
      if i < size then if size > 1 then ptr[i] else data else 0
    }

    constructor ()
      ensures Valid() && fresh(ptr)
      ensures Set() == {}
    {
      size, data, ptr := 1, 0, new Word[0];
      new;
      ZeroHasNoBits();
    }

    constructor FromWord(v: Word)
      ensures Valid() && fresh(ptr)
      ensures size == 1 && Set() == Elems([v])
    {
      size, data, ptr := 1, v, new Word[0];
    }

    constructor Copy(a: BitVec)
      requires a.Valid()
      ensures Valid() && fresh(ptr)
      ensures Words() == a.Words() && Set() == a.Set()
    {
      size, data, ptr := a.size, a.data, new Word[0];
      new;
      if size > 1 {
        ptr := new Word[size](i requires 0 <= i && a.Valid() && i < a.size && a.size > 1 reads a, a.ptr => a.ptr[i]);
        assert ptr[..size] == a.ptr[..size];
      }
    }

    /** `bitvec(lo, cnt)`. */
    constructor Range(lo: SizeT, cnt: SizeT)
      requires lo + cnt < MODULUS
      ensures Valid() && fresh(ptr)
      ensures Set() == Interval(lo, lo + cnt)
    {
      size, data, ptr := 1, 0, new Word[0];
      new;
      ZeroHasNoBits();
      assert Set() == {};
      SetRange(lo, cnt);
    }

    method Expand(newsize: nat)
      requires Valid() && newsize > size
      modifies this
      ensures Valid() && fresh(ptr)
      ensures size == RoundedSize(newsize) && size > 1
      ensures forall k: nat :: WordAt(Words(), k) == WordAt(old(Words()), k)
      ensures Set() == old(Set())
    {
      ghost var before := Words();
      var n := RoundedSize(newsize);
      var buffer := new Word[n];
      var i := 0;
      while i < n
        invariant 0 <= i <= n
        invariant forall k :: 0 <= k < i ==> buffer[k] == WordAt(before, k)
        invariant Valid() && Words() == before
      {
        buffer[i] := if i < size then if size > 1 then ptr[i] else data else 0;
        i := i + 1;
      }
      ptr := buffer;
      size := n;
      ElemsFromWords(Words(), before);
    }

    method SetBit(idx: SizeT) returns (r: bool)
      requires Valid()
      modifies this, ptr
      ensures Valid() && (ptr == old(ptr) || fresh(ptr))
      ensures r && Set() == old(Set()) + {idx as nat}
    {
      if idx >= size * BITS { Expand(1 + idx / BITS); }
      ghost var before := Words();
      OneBits();
      if size > 1 {
        ptr[idx / BITS] := Or(ptr[idx / BITS], Shl(1, idx % BITS));
      } else {
        data := Or(data, Shl(1, idx));
      }
      forall i: nat ensures Has(Words(), i) == (Has(before, i) || i == idx) {
      }
      r := true;
    }

    method ClrBit(idx: SizeT) returns (r: bool)
      requires Valid()
      modifies this, ptr
      ensures Valid() && ptr == old(ptr) && size == old(size)
      ensures !r && Set() == old(Set()) - {idx as nat}
    {
      ZeroHasNoBits();
      if idx >= size * BITS { return false; }
      ghost var before := Words();
      OneBits();
      if size > 1 {
        ptr[idx / BITS] := And(ptr[idx / BITS], Not(Shl(1, idx % BITS)));
      } else {
        data := And(data, Not(Shl(1, idx)));
      }
      forall i: nat ensures Has(Words(), i) == (Has(before, i) && i != idx) {
      }
      r := false;
    }

    method GetBit(idx: SizeT) returns (r: bool)
      requires Valid()
      ensures r <==> idx as nat in Set()
    {
      OneBits();
      var w := And(Shr(WordOf(idx / BITS), idx % BITS), 1);
      assert Bit(w, 0) == Has(Words(), idx);
      forall i: nat | i > 0 ensures !Bit(w, i) {
      }
      BelowFromBits(w, 1);
      r := w != 0;
    }

    method SetInWord(idx: SizeT, sz: SizeT)
      requires Valid() && sz > 0 && idx + sz < MODULUS && idx + sz <= size * BITS && idx / BITS == (idx + sz - 1) / BITS
      modifies this`data, ptr
      ensures Set() == old(Set()) + Interval(idx, idx + sz)
    {
      ghost var before := Words();
      if size == 1 {
        data := Or(data, Shl(FirstBits(sz), idx));
      } else {
        ptr[idx / BITS] := Or(ptr[idx / BITS], Shl(FirstBits(sz), idx % BITS));
        assert Words() == before[idx / BITS := ptr[idx / BITS]];
      }
      RangeFilledInWord(Words(), before, idx, sz);
    }

    method SetRange(idx: SizeT, sz: SizeT)
      requires Valid() && idx + sz < MODULUS
      modifies this, ptr
      ensures Valid() && (ptr == old(ptr) || fresh(ptr))
      ensures Set() == old(Set()) + Interval(idx, idx + sz)
    {
      if sz == 0 { return; }
      if idx + sz > size * BITS { Expand(1 + (idx + sz - 1) / BITS); }
      if size == 1 || idx / BITS == (idx + sz - 1) / BITS {
        SetInWord(idx, sz);
      } else {
        SetAcross(idx, idx + sz);
      }
    }

    /** The branch of `setrange` for a range that crosses a word border. */
    method SetAcross(idx: SizeT, end: SizeT)
      requires Valid() && size > 1 && idx / BITS < end / BITS && end <= BITS * size
      modifies ptr
      ensures Set() == old(Set()) + Interval(idx, end)
    {
      ghost var before := Words();
      var i := idx / BITS;
      ptr[i] := Or(ptr[i], From(idx % BITS));
      i := i + 1;
      while i < end / BITS
        invariant idx / BITS < i <= end / BITS
        invariant ptr[idx / BITS] == Or(before[idx / BITS], From(idx % BITS))
        invariant forall k :: idx / BITS < k < i ==> ptr[k] == ONES
        invariant forall k :: 0 <= k < size && (k < idx / BITS || i <= k) ==> ptr[k] == before[k]
      {
        ptr[i] := ONES;
        i := i + 1;
      }
      if i < size {
        ptr[i] := Or(ptr[i], Below(end % BITS));
      }
      RangeFilled(Words(), before, idx, end);
    }

    method ClrInWord(idx: SizeT, sz: SizeT)
      requires Valid() && size > 1 && sz > 0 && idx < size * BITS && idx / BITS == (idx + sz - 1) / BITS
      modifies ptr
      ensures Set() == old(Set()) - Interval(idx, idx + sz)
    {
      ghost var before := Words();
      ptr[idx / BITS] := And(ptr[idx / BITS], Not(Shl(FirstBits(sz), idx % BITS)));
      assert Words() == before[idx / BITS := ptr[idx / BITS]];
      RangeClearedInWord(Words(), before, idx, sz);
    }

    /** `size_t` sums are computed modulo 2^64; none of them wraps here. */
    method ClrRange(idx: SizeT, sz: SizeT)
      requires Valid() && size < 0x100_0000_0000_0000
      modifies this, ptr
      ensures Valid() && ptr == old(ptr) && size == old(size)
      ensures Set() == old(Set()) - Interval(idx, idx + sz)
    {
      ghost var before := Words();
      if sz == 0 {
        assert Interval(idx, idx) == {};
        return;
      }
      var sz' := sz;
      if size < sz / BITS {
        sz' := size * BITS;
        ClampedInterval(before, idx, idx + sz, idx + sz');
      }
      if idx >= size * BITS {
        ClampedInterval(before, idx, idx + sz, idx);
        assert Interval(idx, idx) == {};
        return;
      }
      var end := (idx + sz') % MODULUS;
      if size == 1 {
        ClrInline(idx, sz', end);
      } else if idx / BITS == (end - 1) / BITS {
        ClrInWord(idx, sz');
      } else {
        ClrAcross(idx, end);
      }
    }

    /** The branch of `clrrange` for the inline form. */
    method ClrInline(idx: SizeT, sz: SizeT, end: SizeT)
      requires Valid() && size == 1 && idx < BITS && sz > 0 && end == idx + sz
      modifies this
      ensures size == 1 && ptr == old(ptr)
      ensures Set() == old(Set()) - Interval(idx, end)
    {
      if end < BITS {
        InlineCleared(data, idx, sz);
        data := And(data, Not(Shl(FirstBits(sz), idx)));
      } else {
        InlineTailCleared(data, idx, end);
        data := And(data, Not(From(idx)));
      }
    }

    /** The branch of `clrrange` for a range that crosses a word border. */
    method ClrAcross(idx: SizeT, end: SizeT)
      requires Valid() && size > 1 && idx / BITS < end / BITS && idx < BITS * size
      modifies ptr
      ensures Set() == old(Set()) - Interval(idx, end)
    {
      ghost var before := Words();
      var i := idx / BITS;
      ptr[i] := And(ptr[i], Not(From(idx % BITS)));
      i := i + 1;
      while i < end / BITS && i < size
        invariant idx / BITS < i <= end / BITS && i <= size
        invariant ptr[idx / BITS] == And(before[idx / BITS], Not(From(idx % BITS)))
        invariant forall k :: idx / BITS < k < i ==> ptr[k] == 0
        invariant forall k :: 0 <= k < size && (k < idx / BITS || i <= k) ==> ptr[k] == before[k]
      {
        ptr[i] := 0;
        i := i + 1;
      }
      if i < size {
        ptr[i] := And(ptr[i], Not(Below(end % BITS)));
      }
      RangeCleared(Words(), before, idx, end);
    }

    // -------------------------------------------------------------- set algebra

    /** `|=` into a buffer. */
    method OrIntoBuffer(a: BitVec) returns (rv: bool)
      requires Valid() && a.Valid() && size > 1 && a.size <= size && (a == this || a.ptr != ptr)
      modifies ptr
      ensures forall k :: 0 <= k < a.size ==> Words()[k] == Or(old(Words()[k]), old(a.Words()[k]))
      ensures forall k :: a.size <= k < size ==> Words()[k] == old(Words()[k])
      ensures rv <==> Words() != old(Words())
    {
      ghost var before := Words();
      if a.size > 1 {
        rv := OrBuffers(ptr, a.ptr, a.size);
        assert !rv ==> Words() == before;
      } else {
        rv := Or(ptr[0], a.data) != ptr[0];
        ptr[0] := Or(ptr[0], a.data);
        assert Words() == before[0 := ptr[0]];
      }
    }

    method UnionWith(a: BitVec) returns (rv: bool)
      requires Valid() && a.Valid() && (a == this || a.ptr != ptr)
      modifies this, ptr
      ensures Valid() && (ptr == old(ptr) || fresh(ptr))
      ensures Set() == old(Set()) + old(a.Set())
      ensures rv <==> Set() != old(Set())
    {
      ghost var other := a.Words();
      if size < a.size { Expand(a.size); }
      ghost var before := Words();
      if size > 1 {
        rv := OrIntoBuffer(a);
      } else {
        rv := Or(data, a.data) != data;
        data := Or(data, a.data);
        assert Words() == [data] && before == [before[0]];
      }
      UnionWords(Words(), before, other);
    }

    /** The loop of `^=` over two buffers. */
    method XorBuffers(a: BitVec)
      requires Valid() && a.Valid() && size > 1 && a.size > 1 && a.size <= size
      requires a == this || a.ptr != ptr
      modifies ptr
      ensures forall k :: 0 <= k < a.size ==> ptr[k] == Xor(old(ptr[k]), old(a.ptr[k]))
      ensures forall k :: a.size <= k < size ==> ptr[k] == old(ptr[k])
    {
      var i := 0;
      while i < a.size
        invariant 0 <= i <= a.size
        invariant forall k :: 0 <= k < i ==> ptr[k] == Xor(old(ptr[k]), old(a.ptr[k]))
        invariant forall k :: i <= k < ptr.Length ==> ptr[k] == old(ptr[k])
      {
        ptr[i] := Xor(ptr[i], a.ptr[i]);
        i := i + 1;
      }
    }

    method XorWith(a: BitVec)
      requires Valid() && a.Valid() && (a == this || a.ptr != ptr)
      modifies this, ptr
      ensures Valid() && (ptr == old(ptr) || fresh(ptr))
      ensures Set() == (old(Set()) - old(a.Set())) + (old(a.Set()) - old(Set()))
    {
      ghost var other := a.Words();
      if size < a.size { Expand(a.size); }
      ghost var before := Words();
      if size > 1 {
        if a.size > 1 {
          XorBuffers(a);
        } else {
          ptr[0] := Xor(ptr[0], a.data);
        }
      } else {
        data := Xor(data, a.data);
      }
      SymmetricDifferenceWords(Words(), before, other);
    }

    /** `-=` from a buffer. */
    method AndNotIntoBuffer(a: BitVec) returns (rv: bool)
      requires Valid() && a.Valid() && size > 1 && (a == this || a.ptr != ptr)
      modifies ptr
      ensures forall k :: 0 <= k < size && k < a.size ==> Words()[k] == And(old(Words()[k]), Not(old(a.Words()[k])))
      ensures forall k :: a.size <= k < size ==> Words()[k] == old(Words()[k])
      ensures rv <==> Words() != old(Words())
    {
      ghost var before := Words();
      if a.size > 1 {
        rv := AndNotBuffers(ptr, a.ptr, if size < a.size then size else a.size);
        assert !rv ==> Words() == before;
      } else {
        rv := And(ptr[0], Not(a.data)) != ptr[0];
        ptr[0] := And(ptr[0], Not(a.data));
        assert Words() == before[0 := ptr[0]];
      }
    }

    method SubtractAll(a: BitVec) returns (rv: bool)
      requires Valid() && a.Valid() && (a == this || a.ptr != ptr)
      modifies this, ptr
      ensures Valid() && ptr == old(ptr) && size == old(size)
      ensures Set() == old(Set()) - old(a.Set())
      ensures rv <==> Set() != old(Set())
    {
      ghost var before, other := Words(), a.Words();
      if size > 1 {
        rv := AndNotIntoBuffer(a);
      } else if a.size > 1 {
        rv := And(data, Not(a.ptr[0])) != data;
        data := And(data, Not(a.ptr[0]));
      } else {
        rv := And(data, Not(a.data)) != data;
        data := And(data, Not(a.data));
      }
      assert rv <==> Words() != before;
      DifferenceWords(Words(), before, other);
    }

    /** The end of `&=` on a buffer longer than the other vector: the excess words are dropped. */
    method ZeroTail(from: nat, changed: bool) returns (rv: bool)
      requires Valid() && size > 1 && from < size
      modifies ptr
      ensures forall k :: 0 <= k < from ==> ptr[k] == old(ptr[k])
      ensures forall k :: from <= k < size ==> ptr[k] == 0
      ensures rv <==> changed || Words() != old(Words())
    {
      rv := changed;
      var i := from;
      while i < size && !rv
        invariant from <= i <= size
        invariant changed ==> rv
        invariant rv && !changed ==> from <= i - 1 && ptr[i - 1] != 0
        invariant !rv ==> forall k :: from <= k < i ==> ptr[k] == 0
      {
        if ptr[i] != 0 { rv := true; }
        i := i + 1;
      }
      ghost var w := i - 1;
      i := from;
      while i < size
        invariant from <= i <= size
        invariant forall k :: from <= k < i ==> ptr[k] == 0
        invariant forall k :: 0 <= k < size && (k < from || i <= k) ==> ptr[k] == old(ptr[k])
      {
        ptr[i] := 0;
        i := i + 1;
      }
      assert rv && !changed ==> Words()[w] != old(Words()[w]);
    }

    /** `&=` into a buffer. */
    method AndIntoBuffer(a: BitVec) returns (rv: bool)
      requires Valid() && a.Valid() && size > 1 && (a == this || a.ptr != ptr)
      modifies ptr
      ensures forall k :: 0 <= k < size && k < a.size ==> Words()[k] == And(old(Words()[k]), old(a.Words()[k]))
      ensures forall k :: a.size <= k < size ==> Words()[k] == 0
      ensures rv <==> Words() != old(Words())
    {
      ghost var before := Words();
      if a.size > 1 {
        rv := AndBuffers(ptr, a.ptr, if size < a.size then size else a.size);
      } else {
        rv := And(ptr[0], a.data) != ptr[0];
        ptr[0] := And(ptr[0], a.data);
        assert Words() == before[0 := ptr[0]];
      }
      if size > a.size {
        ghost var mid := Words();
        rv := ZeroTail(a.size, rv);
        WithZeroTail(before, mid, Words(), a.size);
      }
    }

    method IntersectWith(a: BitVec) returns (rv: bool)
      requires Valid() && a.Valid() && (a == this || a.ptr != ptr)
      modifies this, ptr
      ensures Valid() && ptr == old(ptr) && size == old(size)
      ensures Set() == old(Set()) * old(a.Set())
      ensures rv <==> Set() != old(Set())
    {
      ghost var before, other := Words(), a.Words();
      if size > 1 {
        rv := AndIntoBuffer(a);
      } else if a.size > 1 {
        rv := And(data, a.ptr[0]) != data;
        data := And(data, a.ptr[0]);
      } else {
        rv := And(data, a.data) != data;
        data := And(data, a.data);
      }
      assert rv <==> Words() != before;
      IntersectionWords(Words(), before, other);
    }

    // -------------------------------------------------------------- searching

    /** `bitref::operator++`. */
    method Next(idx: int) returns (r: int)
      requires Valid() && idx >= -1
      ensures IsNext(Set(), idx, r)
    {
      ZeroHasNoBits();
      var i := idx + 1;
      while i < size * BITS
        invariant i > idx
        invariant forall j :: j in Set() && j < i ==> j <= idx
        decreases size * BITS - i
      {
        var w := Shr(WordOf(i / BITS), i % BITS);
        if w != 0 {
          FirstFrom(Words(), i, WordAt(Words(), i / BITS), i % BITS, Ctz(w));
          return i + Ctz(w);
        }
        NothingFrom(Words(), i);
        i := i / BITS * BITS + BITS;
      }
      r := -1;
    }

    /** The last set bit at or below a position, within its word; -1 when there is none. */
    method LastInWordUpTo(i: nat) returns (r: int)
      requires Valid()
      ensures r >= 0 ==> r <= i && Has(Words(), r) && forall j: nat :: r < j <= i ==> !Has(Words(), j)
      ensures r < 0 ==> forall j: nat :: i / BITS * BITS <= j <= i ==> !Has(Words(), j)
    {
      var k := BITS - 1 - i % BITS;
      var w := Shl(WordOf(i / BITS), k);
      if w != 0 {
        LastUpTo(Words(), i, WordAt(Words(), i / BITS), k, i - Clz(w));
        return i - Clz(w);
      }
      NothingUpTo(Words(), i);
      r := -1;
    }

    /** `bitref::operator--`; a negative index starts from past the last word. */
    method Prev(idx: int) returns (r: int)
      requires Valid()
      ensures IsPrev(Set(), if idx < 0 then size * BITS else idx, r)
    {
      ghost var ws := Words();
      MembersBelow(ws);
      var top := if idx < 0 then size * BITS else idx;
      r := top - 1;
      while r >= 0
        invariant -1 <= r < top
        invariant forall j: nat :: Has(ws, j) ==> j <= r || j >= top
      {
        var last := LastInWordUpTo(r);
        assert Words() == ws;
        if last >= 0 { return last; }
        r := r / BITS * BITS - 1;
      }
    }

    /** `ffs`: the first set bit at or after start. */
    method Ffs(start: nat) returns (r: int)
      requires Valid()
      ensures IsNext(Set(), start - 1, r)
    {
      ZeroHasNoBits();
      OnesBits();
      var idx := start / BITS;
      var val: Word := And(Shl(ONES, start % BITS), WordOf(idx));
      assert forall i: nat :: i < BITS ==> Bit(val, i) == (i >= start % BITS && Bit(WordOf(idx), i));
      while idx < size && val == 0
        invariant idx >= start / BITS
        invariant forall i: nat :: i < BITS ==>
                    Bit(val, i) == (idx * BITS + i >= start && Bit(WordOf(idx), i))
        invariant forall j :: j in Set() && j < idx * BITS ==> j < start
        decreases size - idx
      {
        forall j: nat | Has(Words(), j) && j < (idx + 1) * BITS ensures j < start {
          if j >= idx * BITS {
            assert j / BITS == idx && !Bit(val, j % BITS);
          } else {
            assert j in Set();
          }
        }
        idx := idx + 1;
        val := And(ONES, WordOf(idx));
      }
      if idx >= size {
        return -1;
      }
      r := idx * BITS + Ctz(val);
      assert r / BITS == idx && r % BITS == Ctz(val);
      assert Has(Words(), r);
      forall j: nat | start <= j < r ensures !Has(Words(), j) {
        if j >= idx * BITS {
          assert j / BITS == idx && !Bit(val, j % BITS);
        } else {
          assert j in Set() ==> j < start;
        }
      }
    }

    /** `ffz`: the first clear bit at or after start; every bit past the end is clear. */
    method Ffz(start: nat) returns (r: nat)
      requires Valid()
      ensures r >= start && r !in Set() && forall j :: start <= j < r ==> j in Set()
    {
      ZeroHasNoBits();
      OnesBits();
      var idx := start / BITS;
      var val := Or(Not(Shl(Not(0), start % BITS)), WordOf(idx));
      while Not(val) == 0
        invariant idx >= start / BITS
        invariant forall i: nat :: i < BITS ==>
                    Bit(val, i) == (idx * BITS + i < start || Bit(WordOf(idx), i))
        invariant forall j: nat :: start <= j < idx * BITS ==> Has(Words(), j)
        decreases start / BITS + size - idx
      {
        forall j: nat | start <= j < (idx + 1) * BITS ensures Has(Words(), j) {
          if j >= idx * BITS {
            assert j / BITS == idx && !Bit(Not(val), j % BITS);
          }
        }
        assert idx < size by {
          assert Has(Words(), (idx + 1) * BITS - 1);
        }
        idx := idx + 1;
        val := Or(0, WordOf(idx));
      }
      var c := Ctz(Not(val));
      r := idx * BITS + c;
      assert r / BITS == idx && r % BITS == c && !Bit(val, c);
      forall j: nat | start <= j < r ensures Has(Words(), j) {
        if j >= idx * BITS {
          assert j / BITS == idx && !Bit(Not(val), j % BITS);
        }
      }
    }

    // -------------------------------------------------------------- ranges as numbers

    method GetRange(idx: SizeT, sz: nat) returns (r: Word)
      requires Valid() && 1 <= sz <= BITS
      ensures r == Number(Set(), idx, sz)
    {
      ZeroHasNoBits();
      if idx >= size * BITS {
        r := 0;
      } else if size > 1 {
        var rv := GatherBits(idx, sz);
        r := And(rv, FirstBits(sz));
      } else {
        r := And(Shr(data, idx), FirstBits(sz));
        WordBits(data);
      }
      forall i: nat ensures Bit(r, i) == (i < sz && Has(Words(), idx + i)) {
      }
      NumberFromBits(r, Set(), idx, sz);
    }

    /** The loop of `getrange` over a buffer. */
    method GatherBits(idx: SizeT, sz: nat) returns (rv: Word)
      requires Valid() && size > 1 && 1 <= sz <= BITS && idx < size * BITS
      ensures forall i: nat :: i < sz ==> Bit(rv, i) == Has(Words(), idx + i)
    {
      ghost var ws := Words();
      var k := idx / BITS;
      rv := Shr(ptr[k], idx % BITS);
      var shift := BITS - idx % BITS;
      GatherFirst(ws, idx);
      while shift < sz
        invariant k < size && shift == (k + 1) * BITS - idx
        invariant Gathered(rv, ws, idx, shift)
        decreases size - k
      {
        k := k + 1;
        if k >= size { break; }
        GatherNext(rv, ws, idx, shift, k);
        rv := Or(rv, Shl(ptr[k], shift));
        shift := shift + BITS;
      }
      ZeroHasNoBits();
    }

    method PutRange(idx: SizeT, sz: nat, v: Word)
      requires Valid() && 1 <= sz <= BITS && idx + sz < MODULUS
      modifies this, ptr
      ensures Valid() && (ptr == old(ptr) || fresh(ptr))
      ensures Set() == Patched(old(Set()), idx, sz, v)
    {
      OnesBits();
      var mask := Shr(ONES, BITS - sz);
      var v' := And(v, mask);
      if idx + sz > size * BITS { Expand(1 + (idx + sz - 1) / BITS); }
      ghost var before := Words();
      if size == 1 {
        PutInline(idx, sz, v', mask);
      } else {
        PutInBuffer(idx, sz, v', mask);
      }
      PatchDone(Words(), before, idx, sz, v, v', size * BITS);
    }

    /** The branch of `putrange` for the inline form. */
    method PutInline(idx: SizeT, sz: nat, v: Word, mask: Word)
      requires Valid() && size == 1 && 1 <= sz && idx + sz <= BITS
      requires forall i: nat :: Bit(mask, i) == (i < sz)
      requires forall i: nat :: Bit(v, i) ==> i < sz
      modifies this
      ensures size == 1 && ptr == old(ptr)
      ensures PatchedBelow(Words(), old(Words()), idx, sz, v, size * BITS)
    {
      PatchFirstWord([data], idx, sz, v, mask);
      data := And(data, Not(Shl(mask, idx)));
      data := Or(data, Shl(v, idx));
    }

    /** The branch of `putrange` for a buffer. */
    method PutInBuffer(idx: SizeT, sz: nat, v: Word, mask: Word)
      requires Valid() && size > 1 && 1 <= sz <= BITS && idx + sz <= size * BITS
      requires forall i: nat :: Bit(mask, i) == (i < sz)
      requires forall i: nat :: Bit(v, i) ==> i < sz
      modifies ptr
      ensures PatchedBelow(Words(), old(Words()), idx, sz, v, size * BITS)
    {
      ghost var before := Words();
      var shift, k := idx % BITS, idx / BITS;
      PatchFirstWord(before, idx, sz, v, mask);
      ptr[k] := And(ptr[k], Not(Shl(mask, shift)));
      ptr[k] := Or(ptr[k], Shl(v, shift));
      assert Words() == before[k := ptr[k]];
      shift := BITS - shift;
      while shift < sz
        invariant k < size && shift == (k + 1) * BITS - idx
        invariant PatchedBelow(Words(), before, idx, sz, v, (k + 1) * BITS)
        decreases size - k
      {
        k := k + 1;
        ghost var ws := Words();
        PatchNextWord(ws, before, idx, sz, v, mask, k, shift);
        ptr[k] := And(ptr[k], Not(Shr(mask, shift)));
        ptr[k] := Or(ptr[k], Shr(v, shift));
        assert Words() == ws[k := ptr[k]];
        shift := shift + BITS;
      }
      forall i: nat ensures Has(Words(), i) == PatchedBit(before, idx, sz, v, size * BITS, i) {
        assert Has(Words(), i) == PatchedBit(before, idx, sz, v, (k + 1) * BITS, i);
      }
    }

    // -------------------------------------------------------------- comparisons

    method Empty() returns (r: bool)
      requires Valid()
      ensures r <==> Set() == {}
    {
      ZeroHasNoBits();
      var i := 0;
      while i < size
        invariant 0 <= i <= size
        invariant forall k: nat :: k < i ==> WordAt(Words(), k) == 0
      {
        if WordOf(i) != 0 {
          if Set() == {} { WordsFromElems(Words(), []); }
          return false;
        }
        i := i + 1;
      }
      ElemsFromWords(Words(), []);
      r := true;
    }

    method Equals(a: BitVec) returns (r: bool)
      requires Valid() && a.Valid()
      ensures r <==> Set() == a.Set()
    {
      var i := 0;
      while i < size || i < a.size
        invariant 0 <= i
        invariant forall k: nat :: k < i ==> WordAt(Words(), k) == WordAt(a.Words(), k)
        decreases size + a.size - i
      {
        if WordOf(i) != a.WordOf(i) {
          if Set() == a.Set() { WordsFromElems(Words(), a.Words()); }
          return false;
        }
        i := i + 1;
      }
      ElemsFromWords(Words(), a.Words());
      r := true;
    }

    /** `<` is the order of the numbers the two sets spell, at any width that holds both. */
    method Less(a: BitVec) returns (r: bool)
      requires Valid() && a.Valid()
      ensures OrderedAs(Set(), a.Set(), BITS * Max(size, a.size), r)
    {
      ghost var ws, other := Words(), a.Words();
      var i := Max(size, a.size);
      ghost var top := i;
      while i > 0
        invariant 0 <= i <= top && SameFrom(ws, other, i, top)
      {
        i := i - 1;
        LessByWord(ws, other, i, top, BITS);
        if WordOf(i) < a.WordOf(i) {
          LessAtAnyWidth(ws, other, top, true);
          return true;
        }
        if WordOf(i) > a.WordOf(i) {
          LessByWord(other, ws, i, top, BITS);
          LessAtAnyWidth(ws, other, top, false);
          return false;
        }
      }
      LessAtAnyWidth(ws, other, top, false);
      r := false;
    }

    method Intersects(a: BitVec) returns (r: bool)
      requires Valid() && a.Valid()
      ensures r <==> Set() * a.Set() != {}
    {
      ZeroHasNoBits();
      var i := 0;
      while i < size && i < a.size
        invariant 0 <= i <= size && i <= a.size
        invariant forall j: nat :: j < BITS * i ==> !(Has(Words(), j) && Has(a.Words(), j))
      {
        var w := And(WordOf(i), a.WordOf(i));
        if w != 0 {
          var b := Ctz(w);
          assert (BITS * i + b) / BITS == i && (BITS * i + b) % BITS == b;
          assert Has(Words(), BITS * i + b) && Has(a.Words(), BITS * i + b);
          assert BITS * i + b in Set() * a.Set();
          return true;
        }
        forall j: nat | BITS * i <= j < BITS * (i + 1) ensures !(Has(Words(), j) && Has(a.Words(), j)) {
          assert j / BITS == i && !Bit(w, j % BITS);
        }
        i := i + 1;
      }
      r := false;
    }

    method Contains(a: BitVec) returns (r: bool)
      requires Valid() && a.Valid()
      ensures r <==> a.Set() <= Set()
    {
      var i := 0;
      while i < size && i < a.size
        invariant 0 <= i <= size && i <= a.size
        invariant forall k: nat :: k < i ==> And(WordAt(Words(), k), WordAt(a.Words(), k)) == WordAt(a.Words(), k)
      {
        if And(WordOf(i), a.WordOf(i)) != a.WordOf(i) {
          NotContained(Words(), a.Words(), i);
          return false;
        }
        i := i + 1;
      }
      ZeroHasNoBits();
      i := size;
      while i < a.size
        invariant size <= i
        invariant forall k: nat :: size <= k < i ==> WordAt(a.Words(), k) == 0
      {
        if a.WordOf(i) != 0 {
          NotContained(Words(), a.Words(), i);
          return false;
        }
        i := i + 1;
      }
      forall j: nat | Has(a.Words(), j) ensures Has(Words(), j) {
        assert j / BITS < size;
        assert Bit(And(WordAt(Words(), j / BITS), WordAt(a.Words(), j / BITS)), j % BITS);
      }
      r := true;
    }

    method Count() returns (rv: nat)
      requires Valid()
      ensures rv == |Set()|
    {
      rv := 0;
      ZeroHasNoBits();
      var i := 0;
      assert Elems(Words()[..0]) == {};
      while i < size
        invariant 0 <= i <= size
        invariant rv == |Elems(Words()[..i])|
      {
        OneMoreWord(Words()[..i], WordOf(i), BITS);
        assert Words()[..i + 1] == Words()[..i] + [WordOf(i)];
        rv := rv + PopCount(WordOf(i));
        i := i + 1;
      }
      assert Words()[..size] == Words();
    }

    method IsContiguous() returns (r: bool)
      requires Valid()
      ensures r <==> exists lo: nat, hi: nat :: lo < hi && Set() == Interval(lo, hi)
    {
      var e := Empty();
      if e {
        forall lo: nat, hi: nat | lo < hi ensures Set() != Interval(lo, hi) {
          assert Within(lo, hi, lo) && lo in Interval(lo, hi);
        }
        return false;
      }
      var hi := Prev(size * BITS);
      var lo := Ffs(0);
      var n := Count();
      MembersBelow(Words());
      assert exists i :: i in Set();
      IntervalBySize(Set(), lo, hi);
      r := hi - lo + 1 == n;
    }

    // -------------------------------------------------------------- shifts

    method ShiftRightBy(count: nat)
      requires Valid()
      modifies this, ptr
      ensures Valid() && ptr == old(ptr) && size <= old(size)
      ensures Set() == ShiftDown(old(Set()), count)
      ensures size > 1 ==> Words()[size - 1] != 0
    {
      ghost var before := Words();
      if size == 1 {
        if count >= BITS {
          data := 0;
        } else {
          data := Shr(data, count);
        }
        InlineShiftedRight(before[0], count);
        return;
      }
      ShiftBufferRight(count / BITS, count % BITS);
      ShiftedRight(Words(), before, count);
      DropZeroWords();
    }

    /** The end of `>>=`: zero words are dropped from the top, down to the inline form. */
    method DropZeroWords()
      requires Valid() && size > 1
      modifies this
      ensures Valid() && ptr == old(ptr) && size <= old(size)
      ensures Set() == old(Set())
      ensures size > 1 ==> Words()[size - 1] != 0
    {
      ghost var before := Words();
      while size > 1 && ptr[size - 1] == 0
        invariant 1 <= size <= |before| && ptr == old(ptr)
        invariant forall k :: size <= k < |before| ==> before[k] == 0
      {
        size := size - 1;
      }
      if size == 1 {
        data := ptr[0];
      }
      ElemsFromWords(Words(), before);
    }

    /** The loop of `>>=` over the buffer, in place and upwards. */
    method ShiftBufferRight(off: nat, c: nat)
      requires Valid() && size > 1 && c < BITS
      modifies ptr
      ensures forall k :: 0 <= k < size ==> ptr[k] == WordShiftedRight(old(Words()), off, c, k)
    {
      ghost var before := Words();
      var i := 0;
      while i < size
        invariant 0 <= i <= size
        invariant forall k :: 0 <= k < i ==> ptr[k] == WordShiftedRight(before, off, c, k)
        invariant forall k :: i <= k < size ==> ptr[k] == before[k]
      {
        if i + off < size {
          ptr[i] := Shr(ptr[i + off], c);
          if c != 0 && i + off + 1 < size {
            ptr[i] := Or(ptr[i], Shl(ptr[i + off + 1], BITS - c));
          }
        } else {
          ptr[i] := 0;
        }
        i := i + 1;
      }
    }

    method ShiftLeftBy(count: nat)
      requires Valid()
      modifies this, ptr
      ensures Valid() && (ptr == old(ptr) || fresh(ptr))
      ensures Set() == ShiftUp(old(Set()), count)
    {
      var max := Prev(size * BITS);
      MembersBelow(Words());
      var needsize := (max + count + BITS) / BITS;
      if needsize > size { Expand(needsize); }
      ghost var before := Words();
      assert forall i :: i in Elems(before) ==> i + count < BITS * size;
      if size == 1 {
        data := Shl(data, count);
        InlineShiftedLeft(before[0], count);
        return;
      }
      ShiftBufferLeft(count / BITS, count % BITS);
      ShiftedLeft(Words(), before, count);
    }

    /** The loop of `<<=` over the buffer, in place and downwards. */
    method ShiftBufferLeft(off: nat, c: nat)
      requires Valid() && size > 1 && c < BITS
      modifies ptr
      ensures forall k :: 0 <= k < size ==> ptr[k] == WordShiftedLeft(old(Words()), off, c, k)
    {
      ghost var before := Words();
      var i := size;
      while i > 0
        invariant 0 <= i <= size
        invariant forall k :: i <= k < size ==> ptr[k] == WordShiftedLeft(before, off, c, k)
        invariant forall k :: 0 <= k < i ==> ptr[k] == before[k]
      {
        i := i - 1;
        if i >= off {
          ptr[i] := Shl(ptr[i - off], c);
          if c != 0 && i > off {
            ptr[i] := Or(ptr[i], Shr(ptr[i - off - 1], BITS - c));
          }
        } else {
          ptr[i] := 0;
        }
      }
    }

    // -------------------------------------------------------------- rotation

    /** `*this & a`: the shorter operand is copied. */
    method Intersection(a: BitVec) returns (rv: BitVec)
      requires Valid() && a.Valid()
      ensures rv.Valid() && fresh(rv) && fresh(rv.ptr)
      ensures rv.Set() == Set() * a.Set()
    {
      if size <= a.size {
        rv := new BitVec.Copy(this);
        var _ := rv.IntersectWith(a);
      } else {
        rv := new BitVec.Copy(a);
        var _ := rv.IntersectWith(this);
      }
    }

    /** `*this | a`. */
    method Union(a: BitVec) returns (rv: BitVec)
      requires Valid() && a.Valid()
      ensures rv.Valid() && fresh(rv) && fresh(rv.ptr)
      ensures rv.Set() == Set() + a.Set()
    {
      rv := new BitVec.Copy(this);
      var _ := rv.UnionWith(a);
    }

    /** `*this - a`. */
    method Difference(a: BitVec) returns (rv: BitVec)
      requires Valid() && a.Valid()
      ensures rv.Valid() && fresh(rv) && fresh(rv.ptr)
      ensures rv.Set() == Set() - a.Set()
    {
      rv := new BitVec.Copy(this);
      var _ := rv.SubtractAll(a);
    }

    /** `*this >> count`. */
    method ShiftedRightBy(count: nat) returns (rv: BitVec)
      requires Valid()
      ensures rv.Valid() && fresh(rv) && fresh(rv.ptr)
      ensures rv.Set() == ShiftDown(Set(), count)
    {
      rv := new BitVec.Copy(this);
      rv.ShiftRightBy(count);
    }

    /** `*this << count`. */
    method ShiftedLeftBy(count: nat) returns (rv: BitVec)
      requires Valid()
      ensures rv.Valid() && fresh(rv) && fresh(rv.ptr)
      ensures rv.Set() == ShiftUp(Set(), count)
    {
      rv := new BitVec.Copy(this);
      rv.ShiftLeftBy(count);
    }

    method RotateRightHelper(start: SizeT, rot: SizeT, end: SizeT) returns (rv: BitVec)
      requires Valid() && start <= rot < end
      ensures rv.Valid() && fresh(rv) && fresh(rv.ptr)
      ensures rv.Set() == RotatedPart(Set(), start, rot, end)
    {
      var mask := new BitVec.Range(start, end - start);
      ghost var m := mask.Set();
      var section := Intersection(mask);
      ghost var sec := section.Set();
      var down := rot - start;
      var up := end - start - down;
      var both := section.ShiftedBothWays(down, up);
      RotationByMask(Set(), start, rot, end, m, sec, down, up, both.Set());
      rv := both.Intersection(mask);
    }

    /** `(section >> down) | (section << up)`. */
    method ShiftedBothWays(down: nat, up: nat) returns (rv: BitVec)
      requires Valid()
      ensures rv.Valid() && fresh(rv) && fresh(rv.ptr)
      ensures rv.Set() == ShiftDown(Set(), down) + ShiftUp(Set(), up)
    {
      var low := ShiftedRightBy(down);
      var high := ShiftedLeftBy(up);
      rv := low.Union(high);
    }

    method RotateRight(start: SizeT, rot: SizeT, end: SizeT)
      requires Valid() && start <= rot < end && size < 0x100_0000_0000_0000
      modifies this, ptr
      ensures Valid() && (ptr == old(ptr) || fresh(ptr))
      ensures Set() == Rotated(old(Set()), start, rot, end)
    {
      var section := RotateRightHelper(start, rot, end);
      ClrRange(start, end - start);
      var _ := UnionWith(section);
    }

    method RotateRightCopy(start: SizeT, rot: SizeT, end: SizeT) returns (rv: BitVec)
      requires Valid() && start <= rot < end
      ensures rv.Valid() && fresh(rv) && fresh(rv.ptr)
      ensures rv.Set() == Rotated(Set(), start, rot, end)
    {
      var section := RotateRightHelper(start, rot, end);
      ghost var part := section.Set();
      var mask := new BitVec.Range(start, end - start);
      assert mask.Set() == Interval(start, end);
      var rest := Difference(mask);
      ghost var outside := rest.Set();
      rv := section.Union(rest);
      assert rv.Set() == outside + part;
    }
  }
}
