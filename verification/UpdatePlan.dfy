/**
 FlexPlan's feasibility checks on an update plan (synthesis mode, incremental off).

 A plan is a chain of states; a state says for every changing component whether it already
 runs its new version.  The emitted code measures every state in wrapping machine arithmetic
 (32-bit RESOURCE and REAL, 8-bit CURR), folds the transitions into DIFF, and accepts the
 plan when all checks hold.  A transition is make-before-break: while it runs, the components
 being switched occupy both their old and their new resources.
 */
module UpdatePlan {

  /** One line of the resource file: what the old version frees and what the new one takes. */
  datatype Cost = Cost(before: nat, after: nat)

  type State = seq<bool>

  const MOD32: nat := 0x1_0000_0000
  const MOD8: nat := 0x100
  const CAP: nat := 1000000

  /** The P4 operators `+` and `-` on bit<32> and bit<8>. */
  function Add(a: nat, b: nat, m: nat): nat
    requires m > 0
  {
    (a + b) % m
  }

  function Sub(a: nat, b: nat, m: nat): nat
    requires m > 0
  {
    (a - b) % m
  }

  // ---------------------------------------------------------------- exact sums

  /** Resources taken by the new versions among the first k components. */
  ghost function Taken(costs: seq<Cost>, s: State, k: nat): nat
    requires k <= |costs| == |s|
  {
    if k == 0 then 0 else Taken(costs, s, k - 1) + if s[k - 1] then costs[k - 1].after else 0
  }

  /** Resources freed by the old versions among the first k components. */
  ghost function Freed(costs: seq<Cost>, s: State, k: nat): nat
    requires k <= |costs| == |s|
  {
    if k == 0 then 0 else Freed(costs, s, k - 1) + if s[k - 1] then costs[k - 1].before else 0
  }

  ghost function Changes(s: State, k: nat): nat
    requires k <= |s|
  {
    if k == 0 then 0 else Changes(s, k - 1) + if s[k - 1] then 1 else 0
  }

  ghost function New(costs: seq<Cost>, s: State): nat
    requires |s| == |costs|
  {
    Taken(costs, s, |costs|)
  }

  ghost function Old(costs: seq<Cost>, s: State): nat
    requires |s| == |costs|
  {
    Freed(costs, s, |costs|)
  }

  /** Headroom left in a settled state. */
  ghost function Headroom(costs: seq<Cost>, constraint: nat, s: State): int
    requires |s| == |costs|
  {
    constraint + Old(costs, s) - New(costs, s)
  }

  /** Headroom left while switching from s to t with both versions of the switched components loaded. */
  ghost function Slack(costs: seq<Cost>, constraint: nat, s: State, t: State): int
    requires |s| == |t| == |costs|
  {
    Headroom(costs, constraint, s) - (New(costs, t) - New(costs, s))
  }

  /** What such a switch uses above the usage before the update started. */
  ghost function Usage(costs: seq<Cost>, s: State, t: State): int
    requires |s| == |t| == |costs|
  {
    New(costs, t) - Old(costs, s)
  }

  ghost predicate Within(s: State, t: State) {
    |s| == |t| && forall k :: 0 <= k < |s| && s[k] ==> t[k]
  }

  ghost predicate AllChanged(s: State) {
    forall k :: 0 <= k < |s| ==> s[k]
  }

  lemma {:induction false} SumsGrow(costs: seq<Cost>, s: State, t: State, k: nat)
    requires Within(s, t) && k <= |costs| == |s|
    ensures Taken(costs, s, k) <= Taken(costs, t, k)
    ensures Freed(costs, s, k) <= Freed(costs, t, k)
    ensures Changes(s, k) <= Changes(t, k)
    ensures Changes(s, k) == Changes(t, k) <==> s[..k] == t[..k]
  {
    if k == 0 {
    } else {
      SumsGrow(costs, s, t, k - 1);
      assert s[..k] == s[..k - 1] + [s[k - 1]] && t[..k] == t[..k - 1] + [t[k - 1]];
    }
  }

  lemma {:induction false} ChangesCount(s: State, k: nat)
    requires k <= |s|
    ensures Changes(s, k) <= k
    ensures Changes(s, k) == k <==> forall i :: 0 <= i < k ==> s[i]
    ensures Changes(s, k) == 0 <==> forall i :: 0 <= i < k ==> !s[i]
  {
    if k == 0 {
    } else {
      ChangesCount(s, k - 1);
    }
  }

  lemma {:induction false} NothingChanged(costs: seq<Cost>, s: State, k: nat)
    requires k <= |costs| == |s| && forall i :: 0 <= i < |s| ==> !s[i]
    ensures Taken(costs, s, k) == 0 && Freed(costs, s, k) == 0 && Changes(s, k) == 0
  {
    if k == 0 {
    } else {
      NothingChanged(costs, s, k - 1);
    }
  }

  // ---------------------------------------------------------------- what the emitted code measures

  datatype Meta = Meta(resource: nat, curr: nat, room: nat)

  /** The measurements are the exact sums modulo the field widths. */
  ghost predicate Measures(costs: seq<Cost>, constraint: nat, s: State, m: Meta)
    requires |s| == |costs|
  {
    && m.resource == New(costs, s) % MOD32
    && m.curr == Changes(s, |s|) % MOD8
    && m.room == Headroom(costs, constraint, s) % MOD32
  }

  lemma AddWraps(a: int, b: int)
    ensures (a % MOD32 + b % MOD32) % MOD32 == (a + b) % MOD32
  {
    var r := a % MOD32 + b % MOD32;
    assert a + b == (a / MOD32 + b / MOD32 + r / MOD32) * MOD32 + r % MOD32;
  }

  lemma SubWraps(a: int, b: int)
    ensures (a % MOD32 - b % MOD32) % MOD32 == (a - b) % MOD32
  {
    var r := a % MOD32 - b % MOD32;
    assert a - b == (a / MOD32 - b / MOD32 + r / MOD32) * MOD32 + r % MOD32;
  }

  lemma CountWraps(n: nat)
    ensures Add(n % MOD8, 1, MOD8) == (n + 1) % MOD8
  {
    var r := n % MOD8 + 1;
    assert n + 1 == (n / MOD8 + r / MOD8) * MOD8 + r % MOD8;
  }

  lemma WrapsTogether(x: nat, after: nat, n: nat, h: int, before: nat)
    ensures Add(x % MOD32, after % MOD32, MOD32) == (x + after) % MOD32
    ensures Add(n % MOD8, 1, MOD8) == (n + 1) % MOD8
    ensures Sub(Add(h % MOD32, before % MOD32, MOD32), after % MOD32, MOD32) == (h + before - after) % MOD32
  {
    AddWraps(x, after);
    CountWraps(n);
    AddWraps(h, before);
    SubWraps(h + before, after);
  }

  /** REAL as the emitted code leaves it after the first k components. */
  function RunningRoom(costs: seq<Cost>, constraint: nat, s: State, k: nat): nat
    requires k <= |costs| == |s|
  {
    if k == 0 then constraint % MOD32
    else
      var room := RunningRoom(costs, constraint, s, k - 1);
      if s[k - 1] then Sub(Add(room, costs[k - 1].before % MOD32, MOD32), costs[k - 1].after % MOD32, MOD32) else room
  }

  method Measure(costs: seq<Cost>, constraint: nat, s: State) returns (m: Meta)
    requires |s| == |costs|
    ensures Measures(costs, constraint, s, m) && m.room == RunningRoom(costs, constraint, s, |costs|)
  {
    var resource, curr, room := 0, 0, constraint % MOD32;
    var k := 0;
    while k < |costs|
      invariant 0 <= k <= |costs|
      invariant resource == Taken(costs, s, k) % MOD32
      invariant curr == Changes(s, k) % MOD8
      invariant room == RunningRoom(costs, constraint, s, k)
    {
      if s[k] {
        WrapsTogether(Taken(costs, s, k), costs[k].after, Changes(s, k), constraint, costs[k].before);
        resource := Add(resource, costs[k].after % MOD32, MOD32);
        curr := Add(curr, 1, MOD8);
        room := Sub(Add(room, costs[k].before % MOD32, MOD32), costs[k].after % MOD32, MOD32);
      }
      k := k + 1;
    }
    RunningRoomWraps(costs, constraint, s, |costs|);
    m := Meta(resource, curr, room);
  }

  // ---------------------------------------------------------------- REAL while a state is measured

  /** Headroom once the first k components of a state have been accounted for. */
  ghost function PartialHeadroom(costs: seq<Cost>, constraint: nat, s: State, k: nat): int
    requires k <= |costs| == |s|
  {
    constraint + Freed(costs, s, k) - Taken(costs, s, k)
  }

  lemma {:induction false} RunningRoomWraps(costs: seq<Cost>, constraint: nat, s: State, k: nat)
    requires k <= |costs| == |s|
    ensures RunningRoom(costs, constraint, s, k) == PartialHeadroom(costs, constraint, s, k) % MOD32
  {
    if k == 0 {
      assert PartialHeadroom(costs, constraint, s, 0) == constraint;
    } else {
      RunningRoomWraps(costs, constraint, s, k - 1);
      WrapsTogether(0, costs[k - 1].after, 0, PartialHeadroom(costs, constraint, s, k - 1), costs[k - 1].before);
    }
  }

  lemma ExactModulo(h: int)
    ensures h % MOD32 == h <==> 0 <= h < MOD32
  {
  }

  /** Every value that REAL takes while a state is measured is the exact headroom at that point. */
  ghost predicate NeverWraps(costs: seq<Cost>, constraint: nat, s: State)
    requires |s| == |costs|
  {
    forall k :: 0 <= k <= |costs| ==> RunningRoom(costs, constraint, s, k) == PartialHeadroom(costs, constraint, s, k)
  }

  ghost predicate RoomFits(costs: seq<Cost>, constraint: nat, s: State, k: nat)
    requires k <= |costs| == |s|
  {
    Taken(costs, s, k) <= constraint + Freed(costs, s, k) < Taken(costs, s, k) + MOD32
  }

  /** The components are accounted for one by one, so REAL stays exact exactly when after each of them
      the headroom fits the field.  The checks on a plan speak of whole states only and do not imply this. */
  lemma NeverWrapsExactly(costs: seq<Cost>, constraint: nat, s: State)
    requires |s| == |costs|
    ensures NeverWraps(costs, constraint, s) <==> forall k :: 0 <= k <= |costs| ==> RoomFits(costs, constraint, s, k)
  {
    forall k | 0 <= k <= |costs|
      ensures RunningRoom(costs, constraint, s, k) == PartialHeadroom(costs, constraint, s, k) <==> RoomFits(costs, constraint, s, k)
    {
      RunningRoomWraps(costs, constraint, s, k);
      ExactModulo(PartialHeadroom(costs, constraint, s, k));
    }
    if NeverWraps(costs, constraint, s) {
      forall k | 0 <= k <= |costs| ensures RoomFits(costs, constraint, s, k) {
        assert RunningRoom(costs, constraint, s, k) == PartialHeadroom(costs, constraint, s, k);
      }
    }
  }

  /** When the sums fit, only an underflow can happen: some initial part of the components takes more
      than the constraint and what that part frees. */
  lemma NeverUnderflowsExactly(costs: seq<Cost>, constraint: nat, s: State)
    requires |s| == |costs| && constraint + Old(costs, s) < MOD32
    ensures NeverWraps(costs, constraint, s) <==> forall k :: 0 <= k <= |costs| ==> PartialHeadroom(costs, constraint, s, k) >= 0
  {
    NeverWrapsExactly(costs, constraint, s);
    forall k | 0 <= k <= |costs|
      ensures RoomFits(costs, constraint, s, k) <==> PartialHeadroom(costs, constraint, s, k) >= 0
    {
      FreedGrows(costs, s, k, |costs|);
    }
    if !NeverWraps(costs, constraint, s) {
      var k :| 0 <= k <= |costs| && !RoomFits(costs, constraint, s, k);
      assert PartialHeadroom(costs, constraint, s, k) < 0;
    } else {
      forall k | 0 <= k <= |costs| ensures PartialHeadroom(costs, constraint, s, k) >= 0 {
        assert RoomFits(costs, constraint, s, k);
      }
    }
  }

  lemma {:induction false} FreedGrows(costs: seq<Cost>, s: State, k: nat, n: nat)
    requires k <= n <= |costs| == |s|
    ensures Freed(costs, s, k) <= Freed(costs, s, n)
    decreases n
  {
    if k == n {
    } else {
      FreedGrows(costs, s, k, n - 1);
    }
  }

  /** What the first k components need on top of what they free, counting those that grow. */
  ghost function Growth(costs: seq<Cost>, k: nat): nat
    requires k <= |costs|
  {
    if k == 0 then 0
    else Growth(costs, k - 1) + if costs[k - 1].after > costs[k - 1].before then costs[k - 1].after - costs[k - 1].before else 0
  }

  /** The state that switches exactly the components that grow. */
  ghost function Growing(costs: seq<Cost>): State {
    seq(|costs|, k requires 0 <= k < |costs| => costs[k].after > costs[k].before)
  }

  lemma {:induction false} GrowthBounds(costs: seq<Cost>, s: State, k: nat)
    requires k <= |costs| == |s|
    ensures Taken(costs, s, k) - Freed(costs, s, k) <= Growth(costs, k) <= Growth(costs, |costs|)
    ensures Taken(costs, Growing(costs), k) - Freed(costs, Growing(costs), k) == Growth(costs, k)
  {
    GrowthGrows(costs, k, |costs|);
    if k == 0 {
    } else {
      GrowthBounds(costs, s, k - 1);
    }
  }

  lemma {:induction false} GrowthGrows(costs: seq<Cost>, k: nat, n: nat)
    requires k <= n <= |costs|
    ensures Growth(costs, k) <= Growth(costs, n)
    decreases n
  {
    if k == n {
    } else {
      GrowthGrows(costs, k, n - 1);
    }
  }

  /** From the resource file alone: REAL stays exact in every state exactly when the constraint covers
      the growth of all components that grow. */
  lemma NeverWrapsAnywhere(costs: seq<Cost>, constraint: nat)
    requires constraint + Old(costs, seq(|costs|, _ => true)) < MOD32
    ensures (forall s: State :: |s| == |costs| ==> NeverWraps(costs, constraint, s)) <==> constraint >= Growth(costs, |costs|)
  {
    forall s: State | |s| == |costs| && constraint >= Growth(costs, |costs|) ensures NeverWraps(costs, constraint, s) {
      BoundedSums(costs, s);
      forall k | 0 <= k <= |costs| ensures PartialHeadroom(costs, constraint, s, k) >= 0 {
        GrowthBounds(costs, s, k);
      }
      NeverUnderflowsExactly(costs, constraint, s);
    }
    var worst := Growing(costs);
    BoundedSums(costs, worst);
    NeverUnderflowsExactly(costs, constraint, worst);
    GrowthBounds(costs, worst, |costs|);
    if NeverWraps(costs, constraint, worst) {
      assert PartialHeadroom(costs, constraint, worst, |costs|) >= 0;
    }
  }

  // ---------------------------------------------------------------- the plan as a whole

  /** The old program, the intermediate states (at least one), the new program. */
  ghost predicate IsPlan(costs: seq<Cost>, plan: seq<State>) {
    |plan| >= 3 && forall j :: 0 <= j < |plan| ==> |plan[j]| == |costs|
  }

  ghost predicate Measured(costs: seq<Cost>, constraint: nat, plan: seq<State>, metas: seq<Meta>)
    requires IsPlan(costs, plan)
  {
    |metas| == |plan| && forall j :: 0 <= j < |plan| ==> Measures(costs, constraint, plan[j], metas[j])
  }

  /** The right-hand side of the emitted update of DIFF for one transition. */
  function WrappedSlack(a: Meta, b: Meta): nat {
    Add(Sub(a.room, b.resource, MOD32), a.resource, MOD32)
  }

  /** The two emitted comparisons of one transition. */
  predicate TransitionOk(a: Meta, b: Meta, total: nat) {
    && Sub(b.resource, a.resource, MOD32) <= a.room
    && (Sub(b.curr, a.curr, MOD8) >= 1 || b.curr == total % MOD8)
  }

  /** diff is the least of CAP and the wrapped slacks of the first n transitions. */
  ghost predicate IsDiff(metas: seq<Meta>, n: nat, diff: nat)
    requires n < |metas|
  {
    && diff <= CAP
    && (forall j :: 0 < j <= n ==> diff <= WrappedSlack(metas[j - 1], metas[j]))
    && (diff == CAP || exists j :: 0 < j <= n && diff == WrappedSlack(metas[j - 1], metas[j]))
  }

  ghost predicate Accepted(plan: seq<State>, metas: seq<Meta>, total: nat, diff: nat)
    requires |plan| == |metas|
  {
    && (forall j :: 0 < j < |plan| ==> Within(plan[j - 1], plan[j]))
    && (forall j :: 0 < j < |plan| ==> TransitionOk(metas[j - 1], metas[j], total))
    && diff > 0
  }

  /** The property the checks stand for, in unbounded integers. */
  ghost predicate Feasible(costs: seq<Cost>, constraint: nat, plan: seq<State>)
    requires IsPlan(costs, plan)
  {
    && (forall j :: 0 < j < |plan| ==> Within(plan[j - 1], plan[j]))
    && (forall j :: 0 < j < |plan| ==> plan[j] != plan[j - 1] || AllChanged(plan[j]))
    && (forall j :: 0 < j < |plan| ==> Slack(costs, constraint, plan[j - 1], plan[j]) > 0)
  }

  /** All sums fit the fields they are kept in, and the plan starts from the old program. */
  ghost predicate Fits(costs: seq<Cost>, constraint: nat, plan: seq<State>)
    requires IsPlan(costs, plan)
  {
    var all := seq(|costs|, _ => true);
    && New(costs, all) < MOD32
    && constraint + Old(costs, all) < MOD32
    && |costs| < MOD8
    && forall k :: 0 <= k < |costs| ==> !plan[0][k]
  }

  /** The emitted program for one plan: `bug` says whether it reaches `bug()`. */
  method Run(costs: seq<Cost>, constraint: nat, plan: seq<State>) returns (bug: bool, diff: nat, metas: seq<Meta>)
    requires IsPlan(costs, plan)
    ensures Measured(costs, constraint, plan, metas)
    ensures IsDiff(metas, |plan| - 1, diff)
    ensures bug <==> Accepted(plan, metas, |costs|, diff)
    ensures Fits(costs, constraint, plan) ==> (bug <==> Feasible(costs, constraint, plan))
  {
    metas := MeasureAll(costs, constraint, plan);
    diff := LeastSlack(metas);
    var ok := TransitionsOk(costs, plan, metas);
    bug := ok && diff > 0;
    if Fits(costs, constraint, plan) { AcceptedMeansFeasible(costs, constraint, plan, metas, diff); }
  }

  method MeasureAll(costs: seq<Cost>, constraint: nat, plan: seq<State>) returns (metas: seq<Meta>)
    requires IsPlan(costs, plan)
    ensures Measured(costs, constraint, plan, metas)
  {
    metas := [];
    while |metas| < |plan|
      invariant |metas| <= |plan|
      invariant forall j :: 0 <= j < |metas| ==> Measures(costs, constraint, plan[j], metas[j])
    {
      var m := Measure(costs, constraint, plan[|metas|]);
      metas := metas + [m];
    }
  }

  /** The emitted updates of DIFF, one for every transition. */
  method LeastSlack(metas: seq<Meta>) returns (diff: nat)
    requires |metas| > 0
    ensures IsDiff(metas, |metas| - 1, diff)
  {
    diff := CAP;
    var j := 1;
    while j < |metas|
      invariant 1 <= j <= |metas|
      invariant IsDiff(metas, j - 1, diff)
    {
      var slack := WrappedSlack(metas[j - 1], metas[j]);
      if diff > slack { diff := slack; }
      j := j + 1;
    }
  }

  method TransitionsOk(costs: seq<Cost>, plan: seq<State>, metas: seq<Meta>) returns (ok: bool)
    requires IsPlan(costs, plan) && |metas| == |plan|
    ensures ok <==> forall j :: 0 < j < |plan| ==>
                      Within(plan[j - 1], plan[j]) && TransitionOk(metas[j - 1], metas[j], |costs|)
  {
    ok := true;
    var j := 1;
    while j < |plan|
      invariant 1 <= j <= |plan|
      invariant ok <==> forall i :: 0 < i < j ==>
                          Within(plan[i - 1], plan[i]) && TransitionOk(metas[i - 1], metas[i], |costs|)
    {
      var within := NothingUndone(plan[j - 1], plan[j]);
      if !within || !TransitionOk(metas[j - 1], metas[j], |costs|) { ok := false; }
      j := j + 1;
    }
  }

  /** The emitted comparison of two version vectors, component by component. */
  method NothingUndone(s: State, t: State) returns (ok: bool)
    requires |s| == |t|
    ensures ok <==> Within(s, t)
  {
    ok := true;
    var k := 0;
    while k < |s|
      invariant 0 <= k <= |s|
      invariant ok <==> forall i :: 0 <= i < k && s[i] ==> t[i]
    {
      if s[k] && !t[k] { ok := false; }
      k := k + 1;
    }
  }

  // ---------------------------------------------------------------- wrapping arithmetic is exact

  lemma BoundedSums(costs: seq<Cost>, s: State)
    requires |s| == |costs|
    ensures var all := seq(|costs|, _ => true);
            New(costs, s) <= New(costs, all) && Old(costs, s) <= Old(costs, all)
  {
    SumsGrow(costs, s, seq(|costs|, _ => true), |costs|);
  }

  lemma WrappedDifference(x: nat, y: nat, m: nat)
    requires x <= y < m
    ensures Sub(y % m, x % m, m) == y - x
  {
    SmallModulus(x, m);
    SmallModulus(y, m);
    SmallModulus(y - x, m);
  }

  lemma SmallModulus(x: nat, m: nat)
    requires x < m
    ensures x % m == x
  {
  }

  lemma WrappedSlackExact(h: nat, x: nat, y: nat)
    requires h < MOD32 && x <= y < MOD32 && y - x <= h
    ensures Add(Sub(h, y, MOD32), x, MOD32) == h - (y - x)
  {
  }

  /** One transition, from a state whose headroom is not negative. */
  lemma TransitionExact(costs: seq<Cost>, constraint: nat, s: State, t: State, a: Meta, b: Meta)
    requires Within(s, t) && |s| == |costs| < MOD8
    requires New(costs, t) < MOD32 && constraint + Old(costs, t) < MOD32
    requires Measures(costs, constraint, s, a) && Measures(costs, constraint, t, b)
    requires Headroom(costs, constraint, s) >= 0
    ensures Sub(b.resource, a.resource, MOD32) <= a.room <==> Slack(costs, constraint, s, t) >= 0
    ensures Slack(costs, constraint, s, t) >= 0 ==> WrappedSlack(a, b) == Slack(costs, constraint, s, t)
    ensures Sub(b.curr, a.curr, MOD8) >= 1 || b.curr == |costs| % MOD8 <==> t != s || AllChanged(t)
    ensures Slack(costs, constraint, s, t) >= 0 ==> 0 <= Headroom(costs, constraint, t) < MOD32
  {
    SumsGrow(costs, s, t, |costs|);
    var x, y, h := New(costs, s), New(costs, t), Headroom(costs, constraint, s);
    WrappedDifference(x, y, MOD32);
    SmallModulus(h, MOD32);
    SmallModulus(x, MOD32);
    SmallModulus(y, MOD32);
    if y - x <= h { WrappedSlackExact(h, x, y); }
    ProgressExact(costs, s, t, a.curr, b.curr);
  }

  lemma ProgressExact(costs: seq<Cost>, s: State, t: State, a: nat, b: nat)
    requires Within(s, t) && |s| == |costs| < MOD8
    requires a == Changes(s, |s|) % MOD8 && b == Changes(t, |t|) % MOD8
    ensures Sub(b, a, MOD8) >= 1 || b == |costs| % MOD8 <==> t != s || AllChanged(t)
  {
    SumsGrow(costs, s, t, |costs|);
    ChangesCount(t, |t|);
    assert s[..|s|] == s && t[..|t|] == t;
    WrappedDifference(Changes(s, |s|), Changes(t, |t|), MOD8);
    SmallModulus(Changes(t, |t|), MOD8);
    SmallModulus(|costs|, MOD8);
  }

  /** Along accepted transitions the settled REAL of every state, the value compared by the checks, is
      the exact headroom and not negative. */
  lemma {:induction false} HeadroomHolds(costs: seq<Cost>, constraint: nat, plan: seq<State>, metas: seq<Meta>, j: nat)
    requires IsPlan(costs, plan) && Fits(costs, constraint, plan) && Measured(costs, constraint, plan, metas)
    requires j < |plan|
    requires forall i :: 0 < i < |plan| ==> Within(plan[i - 1], plan[i])
    requires (forall i :: 0 < i < |plan| ==> TransitionOk(metas[i - 1], metas[i], |costs|))
          || (forall i :: 0 < i < |plan| ==> Slack(costs, constraint, plan[i - 1], plan[i]) >= 0)
    ensures 0 <= Headroom(costs, constraint, plan[j]) < MOD32
    ensures metas[j].room == Headroom(costs, constraint, plan[j])
  {
    if j == 0 {
      NothingChanged(costs, plan[0], |costs|);
    } else {
      HeadroomHolds(costs, constraint, plan, metas, j - 1);
      BoundedSums(costs, plan[j]);
      TransitionExact(costs, constraint, plan[j - 1], plan[j], metas[j - 1], metas[j]);
      assert TransitionOk(metas[j - 1], metas[j], |costs|) || Slack(costs, constraint, plan[j - 1], plan[j]) >= 0;
    }
    ExactModulo(Headroom(costs, constraint, plan[j]));
  }

  /** The checks accept exactly the feasible plans. */
  lemma AcceptedMeansFeasible(costs: seq<Cost>, constraint: nat, plan: seq<State>, metas: seq<Meta>, diff: nat)
    requires IsPlan(costs, plan) && Fits(costs, constraint, plan) && Measured(costs, constraint, plan, metas)
    requires IsDiff(metas, |plan| - 1, diff)
    ensures Accepted(plan, metas, |costs|, diff) <==> Feasible(costs, constraint, plan)
  {
    if Accepted(plan, metas, |costs|, diff) || Feasible(costs, constraint, plan) {
      forall j | 0 < j < |plan|
        ensures TransitionOk(metas[j - 1], metas[j], |costs|) <==>
                  Slack(costs, constraint, plan[j - 1], plan[j]) >= 0 && (plan[j] != plan[j - 1] || AllChanged(plan[j]))
        ensures Slack(costs, constraint, plan[j - 1], plan[j]) >= 0 ==>
                  WrappedSlack(metas[j - 1], metas[j]) == Slack(costs, constraint, plan[j - 1], plan[j])
      {
        HeadroomHolds(costs, constraint, plan, metas, j - 1);
        BoundedSums(costs, plan[j]);
        TransitionExact(costs, constraint, plan[j - 1], plan[j], metas[j - 1], metas[j]);
      }
    }
  }

  /** From s to t no component goes back, some component changes unless all are changed in t, and the new
      versions in t stay strictly below the constraint plus what the old versions have freed in s. */
  ghost predicate StepFine(costs: seq<Cost>, constraint: nat, s: State, t: State)
    requires |s| == |t| == |costs|
  {
    && (forall k :: 0 <= k < |s| && s[k] ==> t[k])
    && ((exists k :: 0 <= k < |s| && s[k] != t[k]) || forall k :: 0 <= k < |t| ==> t[k])
    && New(costs, t) < constraint + Old(costs, s)
  }

  lemma StepFineIs(costs: seq<Cost>, constraint: nat, s: State, t: State)
    requires |s| == |t| == |costs|
    ensures StepFine(costs, constraint, s, t) <==>
              Within(s, t) && (t != s || AllChanged(t)) && Slack(costs, constraint, s, t) > 0
  {
    if forall k :: 0 <= k < |s| ==> s[k] == t[k] { assert s == t; }
  }

  /** Acceptance written out, transition by transition. */
  lemma AcceptedInFull(costs: seq<Cost>, constraint: nat, plan: seq<State>, metas: seq<Meta>, diff: nat)
    requires IsPlan(costs, plan) && Fits(costs, constraint, plan) && Measured(costs, constraint, plan, metas)
    requires IsDiff(metas, |plan| - 1, diff)
    ensures Accepted(plan, metas, |costs|, diff) <==> forall j :: 0 < j < |plan| ==> StepFine(costs, constraint, plan[j - 1], plan[j])
  {
    AcceptedMeansFeasible(costs, constraint, plan, metas, diff);
    forall j | 0 < j < |plan|
      ensures StepFine(costs, constraint, plan[j - 1], plan[j]) <==>
                && Within(plan[j - 1], plan[j]) && (plan[j] != plan[j - 1] || AllChanged(plan[j]))
                && Slack(costs, constraint, plan[j - 1], plan[j]) > 0
    {
      StepFineIs(costs, constraint, plan[j - 1], plan[j]);
    }
  }

  // ---------------------------------------------------------------- what DIFF means

  /** x is the least slack of the transitions of a plan. */
  ghost predicate IsLeastSlack(costs: seq<Cost>, constraint: nat, plan: seq<State>, x: int)
    requires IsPlan(costs, plan)
  {
    && (forall j :: 0 < j < |plan| ==> x <= Slack(costs, constraint, plan[j - 1], plan[j]))
    && exists j :: 0 < j < |plan| && x == Slack(costs, constraint, plan[j - 1], plan[j])
  }

  /** x is the highest usage, above the usage before the update, that any transition reaches. */
  ghost predicate IsPeak(costs: seq<Cost>, plan: seq<State>, x: int)
    requires IsPlan(costs, plan)
  {
    && (forall j :: 0 < j < |plan| ==> Usage(costs, plan[j - 1], plan[j]) <= x)
    && exists j :: 0 < j < |plan| && x == Usage(costs, plan[j - 1], plan[j])
  }

  /** For an accepted plan DIFF is the least slack, capped; below the cap the reported
      spike, constraint minus DIFF, is the peak usage. */
  lemma DiffIsLeastSlack(costs: seq<Cost>, constraint: nat, plan: seq<State>, metas: seq<Meta>, diff: nat)
    requires IsPlan(costs, plan) && Fits(costs, constraint, plan) && Measured(costs, constraint, plan, metas)
    requires IsDiff(metas, |plan| - 1, diff) && Accepted(plan, metas, |costs|, diff)
    ensures forall j :: 0 < j < |plan| ==> diff <= Slack(costs, constraint, plan[j - 1], plan[j])
    ensures diff < CAP ==> IsLeastSlack(costs, constraint, plan, diff)
    ensures diff < CAP ==> IsPeak(costs, plan, constraint - diff)
  {
    AcceptedMeansFeasible(costs, constraint, plan, metas, diff);
    forall j | 0 < j < |plan|
      ensures WrappedSlack(metas[j - 1], metas[j]) == Slack(costs, constraint, plan[j - 1], plan[j])
      ensures Usage(costs, plan[j - 1], plan[j]) == constraint - Slack(costs, constraint, plan[j - 1], plan[j])
    {
      HeadroomHolds(costs, constraint, plan, metas, j - 1);
      BoundedSums(costs, plan[j]);
      TransitionExact(costs, constraint, plan[j - 1], plan[j], metas[j - 1], metas[j]);
    }
  }

  /** DIFF is the least slack, cut off at a million. */
  lemma DiffCapped(costs: seq<Cost>, constraint: nat, plan: seq<State>, metas: seq<Meta>, diff: nat, x: int)
    requires IsPlan(costs, plan) && Fits(costs, constraint, plan) && Measured(costs, constraint, plan, metas)
    requires IsDiff(metas, |plan| - 1, diff) && Accepted(plan, metas, |costs|, diff) && IsLeastSlack(costs, constraint, plan, x)
    ensures diff == if x <= 1000000 then x else 1000000
  {
    DiffIsLeastSlack(costs, constraint, plan, metas, diff);
  }

  /** A plan with one more state put in before position p. */
  ghost function Refined(plan: seq<State>, p: nat, mid: State): seq<State>
    requires p < |plan|
  {
    plan[..p] + [mid] + plan[p..]
  }

  /** Splitting a transition through a state between its two ends never lowers the least slack
      and never raises the peak, for any plan at all. */
  lemma SplittingHelps(costs: seq<Cost>, constraint: nat, plan: seq<State>, p: nat, mid: State, x: int, y: int)
    requires IsPlan(costs, plan) && 0 < p < |plan|
    requires Within(plan[p - 1], mid) && Within(mid, plan[p])
    requires IsLeastSlack(costs, constraint, plan, x)
    requires IsPlan(costs, Refined(plan, p, mid)) && IsLeastSlack(costs, constraint, Refined(plan, p, mid), y)
    ensures x <= y
    ensures IsPeak(costs, plan, constraint - x) && IsPeak(costs, Refined(plan, p, mid), constraint - y)
  {
    var finer := Refined(plan, p, mid);
    SumsGrow(costs, plan[p - 1], mid, |costs|);
    SumsGrow(costs, mid, plan[p], |costs|);
    forall j | 0 < j < |finer|
      ensures x <= Slack(costs, constraint, finer[j - 1], finer[j])
    {
      if j < p {
        assert finer[j - 1] == plan[j - 1] && finer[j] == plan[j];
      } else if j == p || j == p + 1 {
        assert x <= Slack(costs, constraint, plan[p - 1], plan[p]);
      } else {
        assert finer[j - 1] == plan[j - 2] && finer[j] == plan[j - 1];
      }
    }
    SlackIsPeak(costs, constraint, plan, x);
    SlackIsPeak(costs, constraint, finer, y);
  }

  lemma SlackIsPeak(costs: seq<Cost>, constraint: nat, plan: seq<State>, x: int)
    requires IsPlan(costs, plan) && IsLeastSlack(costs, constraint, plan, x)
    ensures IsPeak(costs, plan, constraint - x)
  {
    forall j | 0 < j < |plan|
      ensures Usage(costs, plan[j - 1], plan[j]) == constraint - Slack(costs, constraint, plan[j - 1], plan[j])
    {
    }
  }

  /** The added state is a step forward on both sides, or everything is changed already. */
  ghost predicate Progresses(plan: seq<State>, p: nat, mid: State)
    requires 0 < p < |plan|
  {
    && (mid != plan[p - 1] || AllChanged(mid))
    && (mid != plan[p] || AllChanged(mid))
  }

  /** The transitions of a refined plan: each is one of the plan's, or one half of the split one. */
  lemma RefinedTransitions(costs: seq<Cost>, constraint: nat, plan: seq<State>, p: nat, mid: State, j: nat)
    requires IsPlan(costs, plan) && 0 < p < |plan| && 0 < j < |plan| + 1
    requires Within(plan[p - 1], mid) && Within(mid, plan[p])
    requires forall i :: 0 < i < |plan| ==> Within(plan[i - 1], plan[i])
    ensures var finer := Refined(plan, p, mid);
            && |finer[j - 1]| == |finer[j]| == |costs| && Within(finer[j - 1], finer[j])
            && exists i :: 0 < i < |plan| && Slack(costs, constraint, plan[i - 1], plan[i]) <= Slack(costs, constraint, finer[j - 1], finer[j])
    ensures j < p ==> Refined(plan, p, mid)[j - 1] == plan[j - 1] && Refined(plan, p, mid)[j] == plan[j]
    ensures j == p ==> Refined(plan, p, mid)[j - 1] == plan[p - 1] && Refined(plan, p, mid)[j] == mid
    ensures j == p + 1 ==> Refined(plan, p, mid)[j - 1] == mid && Refined(plan, p, mid)[j] == plan[p]
    ensures j > p + 1 ==> Refined(plan, p, mid)[j - 1] == plan[j - 2] && Refined(plan, p, mid)[j] == plan[j - 1]
  {
    SumsGrow(costs, plan[p - 1], mid, |costs|);
    SumsGrow(costs, mid, plan[p], |costs|);
    var i := if j < p then j else if j > p + 1 then j - 1 else p;
    assert 0 < i < |plan|;
    assert Within(plan[i - 1], plan[i]);
  }

  /** A feasible plan stays feasible when a transition is split, exactly when the new state progresses. */
  lemma SplittingKeepsFeasible(costs: seq<Cost>, constraint: nat, plan: seq<State>, p: nat, mid: State)
    requires IsPlan(costs, plan) && 0 < p < |plan| && Feasible(costs, constraint, plan)
    requires Within(plan[p - 1], mid) && Within(mid, plan[p])
    ensures IsPlan(costs, Refined(plan, p, mid))
    ensures Feasible(costs, constraint, Refined(plan, p, mid)) <==> Progresses(plan, p, mid)
  {
    var finer := Refined(plan, p, mid);
    assert finer[p - 1] == plan[p - 1] && finer[p] == mid && finer[p + 1] == plan[p];
    forall j | 0 < j < |finer|
      ensures Within(finer[j - 1], finer[j]) && Slack(costs, constraint, finer[j - 1], finer[j]) > 0
      ensures Progresses(plan, p, mid) ==> finer[j] != finer[j - 1] || AllChanged(finer[j])
    {
      RefinedTransitions(costs, constraint, plan, p, mid, j);
    }
  }

  /** A plan that only moves forward and never runs out of room in a transition. */
  ghost predicate Roomy(costs: seq<Cost>, constraint: nat, plan: seq<State>)
    requires IsPlan(costs, plan)
  {
    forall i :: 0 < i < |plan| ==> Within(plan[i - 1], plan[i]) && Slack(costs, constraint, plan[i - 1], plan[i]) >= 0
  }

  /** In such a plan the emitted slack of every transition is the exact one. */
  lemma SlacksExact(costs: seq<Cost>, constraint: nat, plan: seq<State>, metas: seq<Meta>, j: nat)
    requires IsPlan(costs, plan) && Fits(costs, constraint, plan) && Measured(costs, constraint, plan, metas)
    requires Roomy(costs, constraint, plan) && 0 < j < |plan|
    ensures WrappedSlack(metas[j - 1], metas[j]) == Slack(costs, constraint, plan[j - 1], plan[j])
  {
    HeadroomHolds(costs, constraint, plan, metas, j - 1);
    BoundedSums(costs, plan[j]);
    TransitionExact(costs, constraint, plan[j - 1], plan[j], metas[j - 1], metas[j]);
  }

  /** Splitting a transition never lowers the emitted DIFF of a plan whose slacks are not negative; an
      accepted plan stays accepted exactly when the new state progresses. */
  lemma SplittingRaisesDiff(costs: seq<Cost>, constraint: nat, plan: seq<State>, metas: seq<Meta>, diff: nat,
                            p: nat, mid: State, metas': seq<Meta>, diff': nat)
    requires IsPlan(costs, plan) && Fits(costs, constraint, plan) && Measured(costs, constraint, plan, metas)
    requires Roomy(costs, constraint, plan) && IsDiff(metas, |plan| - 1, diff)
    requires 0 < p < |plan| && Within(plan[p - 1], mid) && Within(mid, plan[p])
    requires IsPlan(costs, Refined(plan, p, mid)) && Measured(costs, constraint, Refined(plan, p, mid), metas')
    requires IsDiff(metas', |plan|, diff')
    ensures diff <= diff' && Roomy(costs, constraint, Refined(plan, p, mid))
    ensures Accepted(plan, metas, |costs|, diff) ==>
              (Accepted(Refined(plan, p, mid), metas', |costs|, diff') <==> Progresses(plan, p, mid))
  {
    var finer := Refined(plan, p, mid);
    assert finer[0] == plan[0];
    forall i | 0 < i < |plan| ensures diff <= Slack(costs, constraint, plan[i - 1], plan[i]) {
      SlacksExact(costs, constraint, plan, metas, i);
    }
    forall j | 0 < j < |finer|
      ensures Within(finer[j - 1], finer[j]) && Slack(costs, constraint, finer[j - 1], finer[j]) >= diff
    {
      RefinedTransitions(costs, constraint, plan, p, mid, j);
    }
    forall j | 0 < j < |finer| ensures WrappedSlack(metas'[j - 1], metas'[j]) >= diff {
      SlacksExact(costs, constraint, finer, metas', j);
    }
    if Accepted(plan, metas, |costs|, diff) {
      AcceptedMeansFeasible(costs, constraint, plan, metas, diff);
      SplittingKeepsFeasible(costs, constraint, plan, p, mid);
      AcceptedMeansFeasible(costs, constraint, finer, metas', diff');
    }
  }

  /** The emitted slack is the exact one modulo 2^32, for any two states. */
  lemma WrappedSlackIs(costs: seq<Cost>, constraint: nat, s: State, t: State, a: Meta, b: Meta)
    requires |s| == |t| == |costs| && Measures(costs, constraint, s, a) && Measures(costs, constraint, t, b)
    ensures WrappedSlack(a, b) == Slack(costs, constraint, s, t) % MOD32
  {
    var h, x, y := Headroom(costs, constraint, s), New(costs, s), New(costs, t);
    SubWraps(h, y);
    AddWraps(h - y, x);
  }

  lemma SlackBounds(costs: seq<Cost>, constraint: nat, plan: seq<State>, s: State, t: State)
    requires IsPlan(costs, plan) && Fits(costs, constraint, plan) && |s| == |t| == |costs|
    ensures 0 < Slack(costs, constraint, s, t) + MOD32 < 2 * MOD32
  {
    BoundedSums(costs, s);
    BoundedSums(costs, t);
  }

  /** Splitting lowers the emitted DIFF exactly when the whole transition does not fit and a half of it
      does, with less slack than DIFF; the other transitions do not matter. */
  lemma SplittingLowersDiff(costs: seq<Cost>, constraint: nat, plan: seq<State>, metas: seq<Meta>, diff: nat,
                            p: nat, mid: State, metas': seq<Meta>, diff': nat)
    requires IsPlan(costs, plan) && Fits(costs, constraint, plan) && Measured(costs, constraint, plan, metas)
    requires IsDiff(metas, |plan| - 1, diff)
    requires 0 < p < |plan| && Within(plan[p - 1], mid) && Within(mid, plan[p])
    requires IsPlan(costs, Refined(plan, p, mid)) && Measured(costs, constraint, Refined(plan, p, mid), metas')
    requires IsDiff(metas', |plan|, diff')
    ensures diff' < diff <==>
              && Slack(costs, constraint, plan[p - 1], plan[p]) < 0
              && (0 <= Slack(costs, constraint, plan[p - 1], mid) < diff || 0 <= Slack(costs, constraint, mid, plan[p]) < diff)
  {
    var finer := Refined(plan, p, mid);
    forall j | 0 < j < |finer| && j != p && j != p + 1 ensures diff <= WrappedSlack(metas'[j - 1], metas'[j]) {
      KeptSlack(costs, constraint, plan, metas, p, mid, metas', j);
    }
    WrappedSlackIs(costs, constraint, plan[p - 1], plan[p], metas[p - 1], metas[p]);
    assert finer[p - 1] == plan[p - 1] && finer[p] == mid && finer[p + 1] == plan[p];
    WrappedSlackIs(costs, constraint, plan[p - 1], mid, metas'[p - 1], metas'[p]);
    WrappedSlackIs(costs, constraint, mid, plan[p], metas'[p], metas'[p + 1]);
    var whole, first, second := Slack(costs, constraint, plan[p - 1], plan[p]), Slack(costs, constraint, plan[p - 1], mid), Slack(costs, constraint, mid, plan[p]);
    SlackBounds(costs, constraint, plan, plan[p - 1], plan[p]);
    SlackBounds(costs, constraint, plan, plan[p - 1], mid);
    SlackBounds(costs, constraint, plan, mid, plan[p]);
    SumsGrow(costs, plan[p - 1], mid, |costs|);
    SumsGrow(costs, mid, plan[p], |costs|);
    HalvesAgainst(whole, first, diff);
    HalvesAgainst(whole, second, diff);
    LeastOfHalves(metas', |plan|, p, diff, diff');
  }

  /** A transition that is not split has the same emitted slack in both plans. */
  lemma KeptSlack(costs: seq<Cost>, constraint: nat, plan: seq<State>, metas: seq<Meta>, p: nat, mid: State, metas': seq<Meta>, j: nat)
    requires IsPlan(costs, plan) && Measured(costs, constraint, plan, metas) && 0 < p < |plan| && |mid| == |costs|
    requires IsPlan(costs, Refined(plan, p, mid)) && Measured(costs, constraint, Refined(plan, p, mid), metas')
    requires 0 < j <= |plan| && j != p && j != p + 1
    ensures var i := if j < p then j else j - 1;
            0 < i < |plan| && WrappedSlack(metas'[j - 1], metas'[j]) == WrappedSlack(metas[i - 1], metas[i])
  {
    var finer := Refined(plan, p, mid);
    var i := if j < p then j else j - 1;
    assert finer[j - 1] == plan[i - 1] && finer[j] == plan[i];
    WrappedSlackIs(costs, constraint, finer[j - 1], finer[j], metas'[j - 1], metas'[j]);
    WrappedSlackIs(costs, constraint, plan[i - 1], plan[i], metas[i - 1], metas[i]);
  }

  /** A half with at least the slack of the whole is below DIFF only by not wrapping where the whole does. */
  lemma HalvesAgainst(whole: int, half: int, diff: nat)
    requires 0 < whole + MOD32 && whole <= half < MOD32 && diff <= whole % MOD32
    ensures half % MOD32 < diff <==> whole < 0 <= half < diff
  {
    Wrapped(whole);
    Wrapped(half);
  }

  lemma Wrapped(x: int)
    requires 0 < x + MOD32 < 2 * MOD32
    ensures x % MOD32 == if x < 0 then x + MOD32 else x
  {
  }

  lemma LeastOfHalves(metas: seq<Meta>, n: nat, p: nat, diff: nat, diff': nat)
    requires 0 < p < n < |metas| && IsDiff(metas, n, diff') && diff <= CAP
    requires forall j :: 0 < j <= n && j != p && j != p + 1 ==> diff <= WrappedSlack(metas[j - 1], metas[j])
    ensures diff' < diff <==> WrappedSlack(metas[p - 1], metas[p]) < diff || WrappedSlack(metas[p], metas[p + 1]) < diff
  {
    var q := p + 1;
    assert WrappedSlack(metas[q - 1], metas[q]) >= diff';
  }

  /** With a negative slack the emitted DIFF can fall: the wrapped slack of the transition that does not
      fit is above the cap, and a half of it that fits is not. */
  lemma NegativeSlackFalls(costs: seq<Cost>, plan: seq<State>, mid: State, metas: seq<Meta>, metas': seq<Meta>)
    requires costs == [Cost(0, 3), Cost(0, 3)] && plan == [[false, false], [true, true], [true, true]] && mid == [true, false]
    requires metas == [Meta(0, 0, 5), Meta(6, 2, MOD32 - 1), Meta(6, 2, MOD32 - 1)]
    requires metas' == [Meta(0, 0, 5), Meta(3, 1, 2), Meta(6, 2, MOD32 - 1), Meta(6, 2, MOD32 - 1)]
    ensures IsPlan(costs, plan) && Fits(costs, 5, plan) && !Roomy(costs, 5, plan)
    ensures Measured(costs, 5, plan, metas) && IsDiff(metas, 2, CAP)
    ensures Within(plan[0], mid) && Within(mid, plan[1])
    ensures IsPlan(costs, Refined(plan, 1, mid)) && Measured(costs, 5, Refined(plan, 1, mid), metas') && IsDiff(metas', 3, 2)
  {
    NegativeSlackMeasured(costs, plan[0], metas[0]);
    NegativeSlackMeasured(costs, mid, metas'[1]);
    NegativeSlackMeasured(costs, plan[1], metas[1]);
    assert Refined(plan, 1, mid) == [plan[0], mid, plan[1], plan[1]];
    assert Slack(costs, 5, plan[0], plan[1]) == -1;
    TwoComponents(costs, seq(2, _ => true));
    assert WrappedSlack(metas[0], metas[1]) == MOD32 - 1 && WrappedSlack(metas[1], metas[2]) == MOD32 - 1;
    assert WrappedSlack(metas'[0], metas'[1]) == 2 && WrappedSlack(metas'[1], metas'[2]) == MOD32 - 1;
    assert WrappedSlack(metas'[2], metas'[3]) == MOD32 - 1;
  }

  lemma NegativeSlackMeasured(costs: seq<Cost>, s: State, m: Meta)
    requires costs == [Cost(0, 3), Cost(0, 3)]
    requires (s == [false, false] && m == Meta(0, 0, 5)) || (s == [true, false] && m == Meta(3, 1, 2)) ||
             (s == [true, true] && m == Meta(6, 2, MOD32 - 1))
    ensures Measures(costs, 5, s, m) && New(costs, s) == m.resource && Old(costs, s) == 0
  {
    TwoComponents(costs, s);
  }

  /** The same on the emitted programs of the two plans. */
  method RunSplit(costs: seq<Cost>, constraint: nat, plan: seq<State>, p: nat, mid: State)
      returns (bug: bool, diff: nat, bug': bool, diff': nat)
    requires IsPlan(costs, plan) && Fits(costs, constraint, plan)
    requires 0 < p < |plan| && Within(plan[p - 1], mid) && Within(mid, plan[p])
    ensures bug <==> Feasible(costs, constraint, plan)
    ensures bug ==> 0 < diff <= diff' && (bug' <==> Progresses(plan, p, mid))
  {
    var metas, metas';
    bug, diff, metas := Run(costs, constraint, plan);
    var finer := plan[..p] + [mid] + plan[p..];
    assert finer == Refined(plan, p, mid);
    bug', diff', metas' := Run(costs, constraint, finer);
    if bug {
      AcceptedMeansFeasible(costs, constraint, plan, metas, diff);
      SplittingRaisesDiff(costs, constraint, plan, metas, diff, p, mid, metas', diff');
    }
  }

  lemma FreeingPlan(costs: seq<Cost>, plan: seq<State>)
    requires costs == [Cost(0, 10), Cost(10, 0)]
    requires plan == [[false, false], [false, true], [true, true]]
    ensures IsPlan(costs, plan) && Fits(costs, 5, plan) && Feasible(costs, 5, plan)
  {
    forall s: State | |s| == 2
      ensures New(costs, s) == (if s[0] then 10 else 0) && Old(costs, s) == (if s[1] then 10 else 0)
    {
      TwoComponents(costs, s);
    }
  }

  /** An accepted plan in whose last state REAL wraps while the state is measured: the component that
      takes is accounted for before the one that frees. */
  lemma RunningRealWraps(costs: seq<Cost>, plan: seq<State>, metas: seq<Meta>, diff: nat)
    requires costs == [Cost(0, 10), Cost(10, 0)]
    requires plan == [[false, false], [false, true], [true, true]]
    requires Measured(costs, 5, plan, metas) && IsDiff(metas, 2, diff)
    ensures Fits(costs, 5, plan) && Accepted(plan, metas, 2, diff)
    ensures RunningRoom(costs, 5, plan[2], 1) == MOD32 - 5 && !NeverWraps(costs, 5, plan[2])
  {
    FreeingPlan(costs, plan);
    AcceptedMeansFeasible(costs, 5, plan, metas, diff);
    FirstPartWraps(costs, plan[2]);
  }

  lemma FirstPartWraps(costs: seq<Cost>, s: State)
    requires costs == [Cost(0, 10), Cost(10, 0)] && s == [true, true]
    ensures RunningRoom(costs, 5, s, 1) == MOD32 - 5 && !NeverWraps(costs, 5, s)
  {
    RunningRoomWraps(costs, 5, s, 1);
    assert Taken(costs, s, 0) == 0 && Freed(costs, s, 0) == 0;
    assert PartialHeadroom(costs, 5, s, 1) == -5;
  }

  lemma TwoComponents(costs: seq<Cost>, s: State)
    requires |costs| == |s| == 2
    ensures New(costs, s) == (if s[0] then costs[0].after else 0) + if s[1] then costs[1].after else 0
    ensures Old(costs, s) == (if s[0] then costs[0].before else 0) + if s[1] then costs[1].before else 0
    ensures Changes(s, 2) == (if s[0] then 1 else 0) + if s[1] then 1 else 0
  {
    assert Taken(costs, s, 1) == Taken(costs, s, 0) + if s[0] then costs[0].after else 0;
    assert Freed(costs, s, 1) == Freed(costs, s, 0) + if s[0] then costs[0].before else 0;
    assert Changes(s, 1) == Changes(s, 0) + if s[0] then 1 else 0;
  }

  /** Without the bound on the sums the checks say nothing: two versions that need 2^31 units each add
      up to zero, and a plan that loads both on top of everything else is accepted. */
  lemma WrappedSumAccepted(costs: seq<Cost>, plan: seq<State>, metas: seq<Meta>)
    requires costs == [Cost(0, MOD32 / 2), Cost(0, MOD32 / 2)] && plan == [[false, false], [true, true], [true, true]]
    requires metas == [Meta(0, 0, 1), Meta(0, 2, 1), Meta(0, 2, 1)]
    ensures IsPlan(costs, plan) && Measured(costs, 1, plan, metas) && IsDiff(metas, 2, 1)
    ensures Accepted(plan, metas, 2, 1) && !Feasible(costs, 1, plan)
  {
    TwoComponents(costs, plan[0]);
    TwoComponents(costs, plan[1]);
    assert Measures(costs, 1, plan[0], metas[0]) && Measures(costs, 1, plan[1], metas[1]);
    assert WrappedSlack(metas[0], metas[1]) == 1 && WrappedSlack(metas[1], metas[2]) == 1;
    assert Slack(costs, 1, plan[0], plan[1]) == 1 - MOD32;
  }
}
