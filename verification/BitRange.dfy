/**
 `bitranges`: iteration over the runs of set bits of a bit vector.
 */
module BitRanges {
  import opened Words
  import opened BitVecs

  /** [lo, hi] is a run of s that cannot be extended on either side. */
  ghost predicate MaximalRun(s: set<nat>, lo: int, hi: int) {
    && 0 <= lo <= hi
    && (forall i: nat :: lo <= i <= hi ==> i in s)
    && (lo > 0 ==> lo - 1 !in s)
    && hi + 1 !in s
  }

  ghost predicate InRuns(runs: seq<(int, int)>, i: int) {
    exists k :: 0 <= k < |runs| && runs[k].0 <= i <= runs[k].1
  }

  /** The runs so far are maximal and ascending, and cover exactly the members up to `upTo`. */
  ghost predicate RunsUpTo(s: set<nat>, runs: seq<(int, int)>, upTo: int) {
    && (forall k :: 0 <= k < |runs| ==> MaximalRun(s, runs[k].0, runs[k].1) && runs[k].1 <= upTo)
    && (forall k :: 0 < k < |runs| ==> runs[k - 1].1 + 1 < runs[k].0)
    && (forall i: nat :: i in s && i <= upTo ==> InRuns(runs, i))
  }

  /** p starts a run of s, or is -1. */
  ghost predicate RunStart(s: set<nat>, p: int) {
    p == -1 || (p >= 0 && p in s && (p > 0 ==> p - 1 !in s))
  }

  /** [lo, hi] is a maximal run and next is the first member past it. */
  ghost predicate RunThen(s: set<nat>, lo: int, hi: int, next: int) {
    MaximalRun(s, lo, hi) && IsNext(s, hi, next)
  }

  lemma RunEnds(s: set<nat>, lo: int, hi: int, next: int)
    requires lo >= 0 && RunStart(s, lo) && lo <= hi && IsNext(s, hi, next) && next != hi + 1
    requires forall i: nat :: lo <= i <= hi ==> i in s
    ensures RunThen(s, lo, hi, next) && RunStart(s, next)
  {
    assert hi + 1 !in s;
  }

  /** `bitranges::iter`. */
  class Iter {
    const bits: BitVec
    var valid: bool
    var ptr: int
    var range: (int, int)

    /** Where the iterator stands: at the start of a run, or past the last one. */
    ghost predicate Valid()
      reads this, bits, bits.ptr
    {
      bits.Valid() && RunStart(bits.Set(), ptr)
    }

    /** `iter(p)`: the constructor advances once, onto the run that starts at p. */
    constructor (bits: BitVec, p: int)
      requires bits.Valid() && RunStart(bits.Set(), p)
      ensures this.bits == bits && Valid()
      ensures valid <==> p != -1
      ensures p != -1 ==> range.0 == p && RunThen(bits.Set(), range.0, range.1, ptr)
      ensures p == -1 ==> ptr == -1
    {
      this.bits := bits;
      valid, ptr, range := true, p, (0, 0);
      new;
      Advance();
    }

    /** `operator++`. */
    method Advance()
      requires Valid()
      modifies this
      ensures Valid()
      ensures valid <==> old(valid) && old(ptr) != -1
      ensures old(ptr) != -1 ==> range.0 == old(ptr) && RunThen(bits.Set(), range.0, range.1, ptr)
      ensures old(ptr) == -1 ==> ptr == -1
    {
      if ptr >= 0 {
        var last, next := RunFrom(bits, ptr);
        ptr, range := next, (ptr, last);
      } else {
        valid := false;
      }
    }
  }

  /** The inner loop of `operator++`: where the run that starts at `first` ends, and what follows. */
  method RunFrom(bits: BitVec, first: nat) returns (last: int, next: int)
    requires bits.Valid() && RunStart(bits.Set(), first)
    ensures RunThen(bits.Set(), first, last, next) && RunStart(bits.Set(), next)
  {
    ghost var s := bits.Set();
    last := first;
    next := bits.Next(first);
    MemberBound(bits);
    while next >= 0 && last + 1 == next
      invariant first <= last && last in s && IsNext(s, last, next)
      invariant forall i: nat :: first <= i <= last ==> i in s
      decreases bits.size * BITS - last
    {
      last := last + 1;
      next := bits.Next(next);
    }
    RunEnds(s, first, last, next);
  }

  lemma MemberBound(v: BitVec)
    requires v.Valid()
    ensures forall i :: i in v.Set() ==> i < v.size * BITS
  {
    MembersBelow(v.Words());
  }

  /** What the loop over the runs knows: the current run [lo, hi], or that it is done. */
  ghost predicate Collecting(s: set<nat>, runs: seq<(int, int)>, valid: bool, lo: int, hi: int, next: int) {
    if valid then
      && RunThen(s, lo, hi, next) && RunsUpTo(s, runs, lo - 1)
      && (|runs| > 0 ==> runs[|runs| - 1].1 + 1 < lo)
    else
      next == -1 && exists top :: RunsUpTo(s, runs, top) && forall i :: i in s ==> i <= top
  }

  lemma CollectOne(s: set<nat>, runs: seq<(int, int)>, lo: int, hi: int, next: int, hi': int, next': int)
    requires Collecting(s, runs, true, lo, hi, next)
    requires next != -1 ==> RunThen(s, next, hi', next')
    ensures Collecting(s, runs + [(lo, hi)], next != -1, next, hi', if next == -1 then -1 else next')
  {
    OneMoreRun(s, runs, lo, hi);
    var all := runs + [(lo, hi)];
    if next == -1 {
      assert RunsUpTo(s, all, hi);
    } else {
      assert next != hi + 1;
      forall i: nat | i in s && i <= next - 1 ensures InRuns(all, i) { assert i <= hi; }
    }
  }

  /** `for (auto r : bitranges(bits))`: the runs, in the order the loop sees them. */
  method Runs(bits: BitVec) returns (runs: seq<(int, int)>)
    requires bits.Valid()
    ensures forall k :: 0 <= k < |runs| ==> MaximalRun(bits.Set(), runs[k].0, runs[k].1)
    ensures forall k :: 0 < k < |runs| ==> runs[k - 1].1 + 1 < runs[k].0
    ensures forall i: nat :: i in bits.Set() <==> InRuns(runs, i)
  {
    ghost var s, top := bits.Set(), bits.size * BITS;
    MemberBound(bits);
    var first := bits.Ffs(0);
    var it := new Iter(bits, first);
    runs := [];
    assert RunsUpTo(s, [], first - 1);
    while it.valid || it.ptr != -1
      invariant it.bits == bits && it.Valid() && fresh(it)
      invariant Collecting(s, runs, it.valid, it.range.0, it.range.1, it.ptr)
      invariant it.valid ==> it.range.0 < top
      decreases if it.valid then 1 + top - it.range.0 else 0
    {
      ghost var before, lo, hi, next := runs, it.range.0, it.range.1, it.ptr;
      runs := runs + [it.range];
      it.Advance();
      CollectOne(s, before, lo, hi, next, it.range.1, it.ptr);
    }
    AllRuns(s, runs);
  }

  lemma AllRuns(s: set<nat>, runs: seq<(int, int)>)
    requires exists top :: RunsUpTo(s, runs, top) && forall i :: i in s ==> i <= top
    ensures forall k :: 0 <= k < |runs| ==> MaximalRun(s, runs[k].0, runs[k].1)
    ensures forall k :: 0 < k < |runs| ==> runs[k - 1].1 + 1 < runs[k].0
    ensures forall i: nat :: i in s <==> InRuns(runs, i)
  {
    forall i: nat | InRuns(runs, i) ensures i in s {
      var k :| 0 <= k < |runs| && runs[k].0 <= i <= runs[k].1;
    }
  }

  lemma OneMoreRun(s: set<nat>, runs: seq<(int, int)>, lo: int, hi: int)
    requires MaximalRun(s, lo, hi) && RunsUpTo(s, runs, lo - 1)
    requires |runs| > 0 ==> runs[|runs| - 1].1 + 1 < lo
    ensures RunsUpTo(s, runs + [(lo, hi)], hi)
  {
    var all := runs + [(lo, hi)];
    forall i: nat | i in s && i <= hi ensures InRuns(all, i) {
      if i >= lo {
        assert all[|runs|].0 <= i <= all[|runs|].1;
      } else {
        var k :| 0 <= k < |runs| && runs[k].0 <= i <= runs[k].1;
        assert all[k] == runs[k];
      }
    }
  }
}
