/**
 `PassManager::apply_visitor`: running a list of passes with backtracking.

 What a pass does is arbitrary: every application of a pass is answered by an `Outcome`, and
 a thrown trigger says which passes would agree to backtrack.  A run is any finite list of
 outcomes.  The log records the applications and the resumptions in the order they happen.
 */
module PassManagers {
  import opened Common

  /** What applying one pass leads to. */
  datatype Outcome<P> =
    | Returned(after: Option<P>, errors: bool, earlyExit: bool)
    | Threw(accepting: set<nat>)

  datatype Event<P> =
    | Applied(pos: nat, input: P, after: Option<P>)
    | Failed(pos: nat, input: P)
    | Resumed(thrower: nat, pos: nat, input: P)

  datatype Ending<P> =
    | Completed(program: P)
    | StoppedOnErrors(program: P)
    | NoProgram
    | EarlyExit(program: P)
    | Rethrown
    | StillRunning

  // ---------------------------------------------------------------- the intended behaviour, without a stack

  /** The latest pass before `it` that can backtrack and agrees to. */
  ghost function Latest(backtracking: seq<bool>, accepting: set<nat>, it: nat): (r: Option<nat>)
    requires it <= |backtracking|
    ensures r.Some? ==> r.value < it && backtracking[r.value] && r.value in accepting
  {
    if it == 0 then None
    else if backtracking[it - 1] && it - 1 in accepting then Some(it - 1)
    else Latest(backtracking, accepting, it - 1)
  }

  /** A run, as the programs of its current timeline and how it ended. */
  datatype Run<P> = Run(timeline: seq<P>, ending: Ending<P>)

  ghost function Settle<P>(n: nat, timeline: seq<P>): Run<P>
    requires timeline != []
  {
    Run(timeline, if |timeline| == n + 1 then Completed(timeline[n]) else StillRunning)
  }

  /** One more outcome: a program extends the timeline; a trigger cuts it back to the latest
      pass that agrees to backtrack, or ends the run. */
  ghost function Extend<P>(backtracking: seq<bool>, stopOnError: bool, r: Run<P>, outcome: Outcome<P>): Run<P>
    requires 0 < |r.timeline| <= |backtracking| + 1
  {
    var it := |r.timeline| - 1;
    if !r.ending.StillRunning? || it == |backtracking| then r
    else
      match outcome
      case Returned(after, errors, earlyExit) =>
        if stopOnError && errors then r.(ending := StoppedOnErrors(r.timeline[it]))
        else if after.None? then r.(ending := NoProgram)
        else if earlyExit then Run(r.timeline + [after.value], EarlyExit(after.value))
        else Settle(|backtracking|, r.timeline + [after.value])
      case Threw(accepting) =>
        match Latest(backtracking, accepting, it)
        case None => r.(ending := Rethrown)
        case Some(at) => Run(r.timeline[..at + 1], StillRunning)
  }

  ghost function Ideal<P>(start: P, backtracking: seq<bool>, stopOnError: bool, outcomes: seq<Outcome<P>>): (r: Run<P>)
    ensures 0 < |r.timeline| <= |backtracking| + 1
  {
    if outcomes == [] then Settle(|backtracking|, [start])
    else
      var k := |outcomes| - 1;
      Extend(backtracking, stopOnError, Ideal(start, backtracking, stopOnError, outcomes[..k]), outcomes[k])
  }

  lemma IdealStep<P>(start: P, backtracking: seq<bool>, stopOnError: bool, outcomes: seq<Outcome<P>>, k: nat)
    requires k < |outcomes|
    ensures Ideal(start, backtracking, stopOnError, outcomes[..k + 1]) ==
              Extend(backtracking, stopOnError, Ideal(start, backtracking, stopOnError, outcomes[..k]), outcomes[k])
  {
    assert outcomes[..k + 1][..k] == outcomes[..k];
  }

  /** Latest, told by its result. */
  lemma {:induction false} LatestFound(backtracking: seq<bool>, accepting: set<nat>, it: nat, at: nat)
    requires at < it <= |backtracking| && backtracking[at] && at in accepting
    requires forall k :: at < k < it && backtracking[k] ==> k !in accepting
    ensures Latest(backtracking, accepting, it) == Some(at)
  {
    if at < it - 1 { LatestFound(backtracking, accepting, it - 1, at); }
  }

  lemma {:induction false} LatestMissing(backtracking: seq<bool>, accepting: set<nat>, it: nat)
    requires it <= |backtracking| && forall k :: 0 <= k < it && backtracking[k] ==> k !in accepting
    ensures Latest(backtracking, accepting, it) == None
  {
    if it == 0 {
    } else {
      LatestMissing(backtracking, accepting, it - 1);
    }
  }

  /** Once a run has ended, nothing changes any more. */
  lemma {:induction false} EndedStays<P>(start: P, backtracking: seq<bool>, stopOnError: bool, outcomes: seq<Outcome<P>>, k: nat)
    requires k <= |outcomes|
    requires !Ideal(start, backtracking, stopOnError, outcomes[..k]).ending.StillRunning?
    ensures Ideal(start, backtracking, stopOnError, outcomes) == Ideal(start, backtracking, stopOnError, outcomes[..k])
  {
    if k == |outcomes| {
      assert outcomes[..k] == outcomes;
    } else {
      var shorter := outcomes[..|outcomes| - 1];
      assert shorter[..k] == outcomes[..k];
      EndedStays(start, backtracking, stopOnError, shorter, k);
    }
  }

  // ---------------------------------------------------------------- the log

  /** The last application of pass k in the log, if any. */
  ghost function LastApplication<P>(log: seq<Event<P>>, k: nat): Option<Event<P>> {
    if log == [] then None
    else
      var e := log[|log| - 1];
      if !e.Resumed? && e.pos == k then Some(e) else LastApplication(log[..|log| - 1], k)
  }

  lemma LastApplicationGrows<P>(log: seq<Event<P>>, e: Event<P>, k: nat)
    ensures LastApplication(log + [e], k) ==
              if !e.Resumed? && e.pos == k then Some(e) else LastApplication(log, k)
  {
    assert (log + [e])[..|log|] == log;
  }

  /** The programs of the current timeline: timeline[k] is what pass k was last given. */
  ghost predicate Chained<P>(log: seq<Event<P>>, timeline: seq<P>) {
    forall k :: 0 <= k < |timeline| - 1 ==>
      LastApplication(log, k) == Some(Applied(k, timeline[k], Some(timeline[k + 1])))
  }

  /** Every resumption goes strictly before the pass that threw, to the program that pass was
      last given, and pass and program are what runs next. */
  ghost predicate ResumedProperly<P>(log: seq<Event<P>>, i: nat)
    requires i < |log| && log[i].Resumed?
  {
    var e := log[i];
    && e.pos < e.thrower
    && LastApplication(log[..i], e.pos).Some? && LastApplication(log[..i], e.pos).value.Applied?
    && LastApplication(log[..i], e.pos).value.input == e.input
    && i > 0 && log[i - 1].Failed? && log[i - 1].pos == e.thrower
    && (i + 1 < |log| ==> !log[i + 1].Resumed? && log[i + 1].pos == e.pos && log[i + 1].input == e.input)
  }

  ghost predicate AllResumedProperly<P>(log: seq<Event<P>>) {
    forall i :: 0 <= i < |log| && log[i].Resumed? ==> ResumedProperly(log, i)
  }

  /** The applications in the log, without the resumptions. */
  function Applications<P>(log: seq<Event<P>>): seq<Event<P>> {
    if log == [] then []
    else
      var e := log[|log| - 1];
      if e.Resumed? then Applications(log[..|log| - 1]) else Applications(log[..|log| - 1]) + [e]
  }

  lemma ApplicationsGrow<P>(log: seq<Event<P>>, e: Event<P>)
    ensures Applications(log + [e]) == if e.Resumed? then Applications(log) else Applications(log) + [e]
  {
    assert (log + [e])[..|log|] == log;
  }

  /** The applications are the outcomes used so far, one by one. */
  ghost predicate Answered<P>(log: seq<Event<P>>, outcomes: seq<Outcome<P>>, n: nat)
    requires n <= |outcomes|
  {
    var calls := Applications(log);
    && |calls| == n
    && forall i :: 0 <= i < n ==>
         (if outcomes[i].Returned? then calls[i].Applied? && calls[i].after == outcomes[i].after else calls[i].Failed?)
  }

  lemma AnsweredMore<P>(log: seq<Event<P>>, outcomes: seq<Outcome<P>>, n: nat, e: Event<P>)
    requires n < |outcomes| && Answered(log, outcomes, n) && !e.Resumed?
    requires if outcomes[n].Returned? then e.Applied? && e.after == outcomes[n].after else e.Failed?
    ensures Answered(log + [e], outcomes, n + 1)
    ensures Applications(log + [e])[n] == e
  {
    ApplicationsGrow(log, e);
  }

  /** One turn answers one outcome, with or without a resumption after it. */
  lemma TurnAnswered<P>(log: seq<Event<P>>, outcomes: seq<Outcome<P>>, n: nat, e: Event<P>, log': seq<Event<P>>)
    requires n < |outcomes| && Answered(log, outcomes, n) && !e.Resumed?
    requires if outcomes[n].Returned? then e.Applied? && e.after == outcomes[n].after else e.Failed?
    requires log' == log + [e] || (log' != [] && log'[|log'| - 1].Resumed? && log' == log + [e] + [log'[|log'| - 1]])
    ensures Answered(log', outcomes, n + 1) && Applications(log')[n] == e
  {
    AnsweredMore(log, outcomes, n, e);
    if log' != log + [e] {
      AnsweredResumed(log + [e], outcomes, n + 1, log'[|log'| - 1]);
      ApplicationsGrow(log + [e], log'[|log'| - 1]);
    }
  }

  lemma AnsweredResumed<P>(log: seq<Event<P>>, outcomes: seq<Outcome<P>>, n: nat, e: Event<P>)
    requires n <= |outcomes| && Answered(log, outcomes, n) && e.Resumed?
    ensures Answered(log + [e], outcomes, n)
  {
    ApplicationsGrow(log, e);
  }

  /** An outcome after which no further pass is applied. */
  predicate Stops<P>(stopOnError: bool, o: Outcome<P>) {
    o.Returned? && ((stopOnError && o.errors) || o.after.None? || o.earlyExit)
  }

  /** How a run ends, by the last outcome it used and the application that outcome answered. */
  ghost predicate EndsWith<P>(stopOnError: bool, backtracking: seq<bool>, o: Outcome<P>, e: Event<P>, ending: Ending<P>) {
    if o.Threw? then
      && ending == Rethrown && e.pos < |backtracking|
      && forall k :: 0 <= k < e.pos && backtracking[k] ==> k !in o.accepting
    else if stopOnError && o.errors then ending == StoppedOnErrors(e.input)
    else if o.after.None? then ending == NoProgram
    else o.earlyExit && ending == EarlyExit(o.after.value)
  }

  // ---------------------------------------------------------------- the invariant of the loop

  type Snapshot<P> = (nat, P)

  /** Positions on the backup stack never decrease and never pass the current one, and every
      snapshot is the program its pass was given in the current timeline. */
  ghost predicate StackOk<P>(backup: seq<Snapshot<P>>, timeline: seq<P>) {
    && (forall i, j :: 0 <= i < j < |backup| ==> backup[i].0 <= backup[j].0)
    && (forall i :: 0 <= i < |backup| ==> backup[i].0 < |timeline| && backup[i].1 == timeline[backup[i].0])
  }

  ghost predicate Saved<P>(backup: seq<Snapshot<P>>, k: nat) {
    exists i :: 0 <= i < |backup| && backup[i].0 == k
  }

  /** The stack holds a snapshot of every pass before the current one that can backtrack. */
  ghost predicate StackComplete<P>(backtracking: seq<bool>, backup: seq<Snapshot<P>>, it: nat) {
    && it <= |backtracking|
    && (forall i :: 0 <= i < |backup| ==> backup[i].0 < |backtracking| && backtracking[backup[i].0])
    && forall k :: 0 <= k < it && backtracking[k] ==> Saved(backup, k)
  }

  ghost predicate Inv<P>(start: P, it: nat, program: P, backup: seq<Snapshot<P>>, timeline: seq<P>, log: seq<Event<P>>) {
    && |timeline| == it + 1 && timeline[0] == start && timeline[it] == program
    && StackOk(backup, timeline)
    && Chained(log, timeline)
    && AllResumedProperly(log)
    && (log != [] && log[|log| - 1].Resumed? ==> log[|log| - 1].pos == it && log[|log| - 1].input == program)
    && (log != [] ==> !log[|log| - 1].Failed?)
  }

  /** Appending an application of the current pass keeps the record of resumptions. */
  lemma ApplicationKeepsResumptions<P>(log: seq<Event<P>>, e: Event<P>)
    requires AllResumedProperly(log) && !e.Resumed?
    requires log != [] && log[|log| - 1].Resumed? ==> e.pos == log[|log| - 1].pos && e.input == log[|log| - 1].input
    ensures AllResumedProperly(log + [e])
  {
    var log' := log + [e];
    forall i | 0 <= i < |log'| && log'[i].Resumed? ensures ResumedProperly(log', i) {
      assert ResumedProperly(log, i);
      assert log'[..i] == log[..i];
    }
  }

  lemma PassReturned<P>(start: P, it: nat, program: P, backup: seq<Snapshot<P>>, timeline: seq<P>, log: seq<Event<P>>, after: P)
    requires Inv(start, it, program, backup, timeline, log)
    ensures Inv(start, it + 1, after, backup, timeline + [after], log + [Applied(it, program, Some(after))])
  {
    var e := Applied(it, program, Some(after));
    var timeline' := timeline + [after];
    ApplicationKeepsResumptions(log, e);
    forall k | 0 <= k < |timeline'| - 1
      ensures LastApplication(log + [e], k) == Some(Applied(k, timeline'[k], Some(timeline'[k + 1])))
    {
      LastApplicationGrows(log, e, k);
    }
  }

  lemma PassPushed<P>(start: P, it: nat, program: P, backup: seq<Snapshot<P>>, timeline: seq<P>, log: seq<Event<P>>)
    requires Inv(start, it, program, backup, timeline, log)
    ensures Inv(start, it, program, backup + [(it, program)], timeline, log)
  {
  }

  lemma PushedComplete<P>(backtracking: seq<bool>, backup: seq<Snapshot<P>>, it: nat, program: P)
    requires it < |backtracking| && StackComplete(backtracking, backup, it)
    ensures !backtracking[it] ==> StackComplete(backtracking, backup, it + 1)
    ensures backtracking[it] ==> StackComplete(backtracking, backup + [(it, program)], it + 1)
  {
    if backtracking[it] {
      var backup' := backup + [(it, program)];
      assert backup'[|backup|].0 == it;
      forall k | 0 <= k < it && backtracking[k] ensures Saved(backup', k) {
        assert Saved(backup, k);
        var i :| 0 <= i < |backup| && backup[i].0 == k;
        assert backup'[i] == backup[i];
      }
    }
  }

  /** Resuming from a snapshot below the throwing pass cuts the timeline back to it. */
  lemma PassResumed<P>(start: P, it: nat, program: P, backup: seq<Snapshot<P>>, timeline: seq<P>, log: seq<Event<P>>, n: nat)
    requires Inv(start, it, program, backup, timeline, log)
    requires 0 < n <= |backup| && backup[n - 1].0 < it
    ensures var (at, p) := backup[n - 1];
            Inv(start, at, p, backup[..n], timeline[..at + 1], log + [Failed(it, program), Resumed(it, at, p)])
  {
    var (at, p) := backup[n - 1];
    var failed, resumed := Failed(it, program), Resumed(it, at, p);
    var log1 := log + [failed];
    var log2 := log1 + [resumed];
    assert log2 == log + [failed, resumed];
    var timeline' := timeline[..at + 1];
    ApplicationKeepsResumptions(log, failed);
    forall k | 0 <= k < it
      ensures LastApplication(log2, k) == Some(Applied(k, timeline[k], Some(timeline[k + 1])))
    {
      LastApplicationGrows(log, failed, k);
      LastApplicationGrows(log1, resumed, k);
    }
    forall i | 0 <= i < |log2| && log2[i].Resumed? ensures ResumedProperly(log2, i) {
      if i < |log1| {
        assert ResumedProperly(log1, i);
        assert log2[..i] == log1[..i];
      } else {
        assert log2[..i] == log1;
        LastApplicationGrows(log, failed, at);
        assert LastApplication(log1, at) == Some(Applied(at, p, Some(timeline[at + 1])));
      }
    }
  }

  // ---------------------------------------------------------------- the loops

  /** The handler of a trigger thrown at position it: pop snapshots until a pass agrees. */
  method Unwind<P>(it: nat, backup: seq<Snapshot<P>>, accepting: set<nat>) returns (found: bool, kept: seq<Snapshot<P>>)
    requires forall i, j :: 0 <= i < j < |backup| ==> backup[i].0 <= backup[j].0
    requires forall i :: 0 <= i < |backup| ==> backup[i].0 <= it
    ensures kept <= backup && (found <==> kept != [])
    ensures found ==> kept[|kept| - 1].0 < it && kept[|kept| - 1].0 in accepting
    ensures forall i :: |kept| <= i < |backup| && backup[i].0 < it ==> backup[i].0 !in accepting
  {
    kept := backup;
    var at := it;
    while kept != []
      invariant kept <= backup && at <= it
      invariant forall i :: 0 <= i < |kept| ==> kept[i].0 <= at
      invariant forall i :: |kept| <= i < |backup| ==> at <= backup[i].0
      invariant forall i :: |kept| <= i < |backup| && backup[i].0 < it ==> backup[i].0 !in accepting
      invariant at < it ==> at !in accepting
      decreases |kept|, at
    {
      var top := kept[|kept| - 1];
      if top.0 == at {
        kept := kept[..|kept| - 1];
        continue;
      }
      at := top.0;
      if at in accepting {
        return true, kept;
      }
    }
    found := false;
  }

  /** With a complete stack, popping finds the latest pass that agrees. */
  lemma UnwindFindsLatest<P>(backtracking: seq<bool>, it: nat, backup: seq<Snapshot<P>>, accepting: set<nat>, kept: seq<Snapshot<P>>)
    requires StackComplete(backtracking, backup, it) && kept <= backup
    requires forall i, j :: 0 <= i < j < |backup| ==> backup[i].0 <= backup[j].0
    requires kept != [] ==> kept[|kept| - 1].0 < it && kept[|kept| - 1].0 in accepting
    requires forall i :: |kept| <= i < |backup| && backup[i].0 < it ==> backup[i].0 !in accepting
    ensures Latest(backtracking, accepting, it) == if kept == [] then None else Some(kept[|kept| - 1].0)
    ensures forall k :: (if kept == [] then -1 else kept[|kept| - 1].0) < k < it && backtracking[k] ==> k !in accepting
    ensures kept != [] ==> StackComplete(backtracking, kept, kept[|kept| - 1].0)
  {
    if kept == [] {
      forall k | 0 <= k < it && backtracking[k] ensures k !in accepting {
        assert Saved(backup, k);
      }
      LatestMissing(backtracking, accepting, it);
    } else {
      var at := kept[|kept| - 1].0;
      forall k | at < k < it && backtracking[k] ensures k !in accepting {
        assert Saved(backup, k);
        var i :| 0 <= i < |backup| && backup[i].0 == k;
        assert i >= |kept|;
      }
      LatestFound(backtracking, accepting, it, at);
      forall k | 0 <= k < at && backtracking[k] ensures Saved(kept, k) {
        assert Saved(backup, k);
        var i :| 0 <= i < |backup| && backup[i].0 == k;
        assert i < |kept| && kept[i] == backup[i];
      }
    }
  }

  /** The catch clause: resume from the snapshot found, or rethrow. */
  method Catch<P>(ghost start: P, it: nat, program: P, backup: seq<Snapshot<P>>, log: seq<Event<P>>, ghost timeline: seq<P>,
                  accepting: set<nat>, ghost backtracking: seq<bool>, ghost stopOnError: bool)
      returns (found: bool, it': nat, program': P, backup': seq<Snapshot<P>>, log': seq<Event<P>>, ghost timeline': seq<P>)
    requires Inv(start, it, program, backup, timeline, log) && StackComplete(backtracking, backup, it + 1)
    requires it < |backtracking|
    ensures found ==> it' < it && Inv(start, it', program', backup', timeline', log')
    ensures found ==> StackComplete(backtracking, backup', it') && timeline' == timeline[..it' + 1]
    ensures Extend(backtracking, stopOnError, Settle(|backtracking|, timeline), Threw(accepting)) ==
              if found then Settle(|backtracking|, timeline') else Run(timeline', Rethrown)
    ensures !found ==> it' == it && timeline' == timeline && log' == log + [Failed(it, program)]
    ensures !found ==> Chained(log', timeline') && AllResumedProperly(log')
    ensures found ==> log' == log + [Failed(it, program)] + [Resumed(it, it', program')]
    ensures found ==> backtracking[it'] && it' in accepting
    ensures forall k :: (if found then it' else -1) < k < it && backtracking[k] ==> k !in accepting
  {
    var kept;
    found, kept := Unwind(it, backup, accepting);
    UnwindFindsLatest(backtracking, it, backup, accepting, kept);
    it', program', backup', timeline' := it, program, kept, timeline;
    log' := log + [Failed(it, program)];
    assert kept == backup[..|kept|];
    if found {
      assert kept[|kept| - 1] == backup[|kept| - 1];
      PassResumed(start, it, program, backup, timeline, log, |kept|);
      it', program' := kept[|kept| - 1].0, kept[|kept| - 1].1;
      log' := log + [Failed(it, program)] + [Resumed(it, it', program')];
      assert log' == log + [Failed(it, program), Resumed(it, it', program')];
      timeline' := timeline[..it' + 1];
    } else {
      StoppedHere(start, it, program, backup, timeline, log, None);
    }
  }

  /** What follows a pass that returned: stop, or go on with its program. */
  method AfterPass<P>(ghost start: P, it: nat, program: P, ghost backup: seq<Snapshot<P>>, log: seq<Event<P>>, ghost timeline: seq<P>,
                      ghost backtracking: seq<bool>, stopOnError: bool, outcome: Outcome<P>)
      returns (going: bool, ending: Ending<P>, log': seq<Event<P>>, ghost timeline': seq<P>)
    requires Inv(start, it, program, backup, timeline, log) && it < |backtracking| && outcome.Returned?
    ensures |timeline'| > 0 && timeline'[0] == start && Chained(log', timeline') && AllResumedProperly(log')
    ensures Extend(backtracking, stopOnError, Settle(|backtracking|, timeline), outcome) ==
              if going then Settle(|backtracking|, timeline') else Run(timeline', ending)
    ensures going ==> outcome.after.Some? && Inv(start, it + 1, outcome.after.value, backup, timeline', log')
    ensures going <==> !Stops(stopOnError, outcome)
    ensures stopOnError && outcome.errors ==> ending == StoppedOnErrors(program)
    ensures !(stopOnError && outcome.errors) && outcome.after.None? ==> ending == NoProgram
    ensures !(stopOnError && outcome.errors) && outcome.after.Some? && outcome.earlyExit ==> ending == EarlyExit(outcome.after.value)
    ensures log' == log + [Applied(it, program, outcome.after)]
  {
    log', timeline', going, ending := log + [Applied(it, program, outcome.after)], timeline, false, NoProgram;
    StoppedHere(start, it, program, backup, timeline, log, outcome.after);
    if stopOnError && outcome.errors {
      ending := StoppedOnErrors(program);
    } else if outcome.after.Some? {
      PassReturned(start, it, program, backup, timeline, log, outcome.after.value);
      timeline' := timeline + [outcome.after.value];
      if outcome.earlyExit {
        ending := EarlyExit(outcome.after.value);
      } else {
        going := true;
      }
    }
  }

  /** What an outcome puts in the log for the application it answers. */
  function Answer<P>(it: nat, program: P, o: Outcome<P>): Event<P> {
    if o.Returned? then Applied(it, program, o.after) else Failed(it, program)
  }

  /** One turn of the main loop. */
  method Turn<P>(ghost start: P, it: nat, program: P, backup: seq<Snapshot<P>>, log: seq<Event<P>>, ghost timeline: seq<P>,
                 backtracking: seq<bool>, stopOnError: bool, o: Outcome<P>)
      returns (going: bool, ending: Ending<P>, it': nat, program': P, backup': seq<Snapshot<P>>, log': seq<Event<P>>, ghost timeline': seq<P>)
    requires Inv(start, it, program, backup, timeline, log) && StackComplete(backtracking, backup, it) && it < |backtracking|
    ensures |timeline'| > 0 && timeline'[0] == start && Chained(log', timeline') && AllResumedProperly(log')
    ensures Extend(backtracking, stopOnError, Settle(|backtracking|, timeline), o) ==
              if going then Settle(|backtracking|, timeline') else Run(timeline', ending)
    ensures going ==> it' <= |backtracking| && Inv(start, it', program', backup', timeline', log') && StackComplete(backtracking, backup', it')
    ensures going ==> !Stops(stopOnError, o)
    ensures going ==> log' == log + [Answer(it, program, o)] || (o.Threw? && log' == log + [Answer(it, program, o)] + [Resumed(it, it', program')])
    ensures !going ==> log' == log + [Answer(it, program, o)] && EndsWith(stopOnError, backtracking, o, Answer(it, program, o), ending)
  {
    it', program', backup' := it, program, backup;
    PushedComplete(backtracking, backup, it, program);
    if backtracking[it] {
      PassPushed(start, it, program, backup, timeline, log);
      backup' := backup + [(it, program)];
    }
    match o {
      case Returned(after, errors, earlyExit) =>
        going, ending, log', timeline' := AfterPass(start, it, program, backup', log, timeline, backtracking, stopOnError, o);
        if going { it', program' := it + 1, after.value; }
      case Threw(accepting) =>
        ending := Rethrown;
        going, it', program', backup', log', timeline' := Catch(start, it, program, backup', log, timeline, accepting, backtracking, stopOnError);
    }
  }

  /** What is known of a run by its outcomes: all that were used but the last let it go on, and the last
      one decides how it ends. */
  ghost predicate EndedBy<P>(stopOnError: bool, backtracking: seq<bool>, outcomes: seq<Outcome<P>>, used: nat, log: seq<Event<P>>, ending: Ending<P>) {
    && used <= |outcomes| && Answered(log, outcomes, used)
    && (forall i :: 0 <= i < used - 1 ==> !Stops(stopOnError, outcomes[i]))
    && (ending.StillRunning? ==> used == |outcomes|)
    && (if ending.Completed? || ending.StillRunning? then used > 0 ==> !Stops(stopOnError, outcomes[used - 1])
        else used > 0 && EndsWith(stopOnError, backtracking, outcomes[used - 1], Applications(log)[used - 1], ending))
  }

  /** The main loop, run against a list of outcomes; `backtracking` says which passes can backtrack. */
  method ApplyVisitor<P>(start: P, backtracking: seq<bool>, stopOnError: bool, outcomes: seq<Outcome<P>>)
      returns (ending: Ending<P>, log: seq<Event<P>>, used: nat, ghost timeline: seq<P>)
    ensures Run(timeline, ending) == Ideal(start, backtracking, stopOnError, outcomes)
    ensures AllResumedProperly(log)
    ensures |timeline| > 0 && timeline[0] == start && Chained(log, timeline)
    ensures ending.Completed? ==> |timeline| == |backtracking| + 1 && ending.program == timeline[|backtracking|]
    ensures ending.StillRunning? ==> |timeline| <= |backtracking|
    ensures EndedBy(stopOnError, backtracking, outcomes, used, log, ending)
  {
    var it: nat, program := 0, start;
    var backup: seq<Snapshot<P>> := [];
    log, timeline := [], [start];
    used := 0;
    while it < |backtracking| && used < |outcomes|
      invariant 0 <= used <= |outcomes| && 0 <= it <= |backtracking|
      invariant Inv(start, it, program, backup, timeline, log) && StackComplete(backtracking, backup, it)
      invariant Ideal(start, backtracking, stopOnError, outcomes[..used]) == Settle(|backtracking|, timeline)
      invariant Answered(log, outcomes, used)
      invariant forall i :: 0 <= i < used ==> !Stops(stopOnError, outcomes[i])
      decreases |outcomes| - used
    {
      IdealStep(start, backtracking, stopOnError, outcomes, used);
      ghost var before, e := log, Answer(it, program, outcomes[used]);
      var going;
      going, ending, it, program, backup, log, timeline :=
        Turn(start, it, program, backup, log, timeline, backtracking, stopOnError, outcomes[used]);
      TurnAnswered(before, outcomes, used, e, log);
      used := used + 1;
      if !going {
        EndedStays(start, backtracking, stopOnError, outcomes, used);
        return;
      }
    }
    ending := if it == |backtracking| then Completed(program) else StillRunning;
    if it == |backtracking| {
      EndedStays(start, backtracking, stopOnError, outcomes, used);
    } else {
      assert outcomes[..used] == outcomes;
    }
  }

  /** The endings one by one, as an outcome or its absence brings them about. */
  lemma EndingsExactly<P>(stopOnError: bool, backtracking: seq<bool>, outcomes: seq<Outcome<P>>, used: nat, log: seq<Event<P>>, ending: Ending<P>, o: Outcome<P>)
    requires EndedBy(stopOnError, backtracking, outcomes, used, log, ending) && used > 0 && o == outcomes[used - 1]
    ensures ending.StoppedOnErrors? <==> o.Returned? && stopOnError && o.errors
    ensures ending.StoppedOnErrors? ==> ending.program == Applications(log)[used - 1].input
    ensures ending.NoProgram? <==> o.Returned? && !(stopOnError && o.errors) && o.after.None?
    ensures ending.EarlyExit? <==> o.Returned? && !(stopOnError && o.errors) && o.after.Some? && o.earlyExit
    ensures ending.EarlyExit? ==> ending.program == o.after.value
    ensures ending.Rethrown? ==> o.Threw? && Applications(log)[used - 1].Failed?
    ensures !stopOnError ==> !ending.StoppedOnErrors?
  {
  }

  /** With `stop_on_error`, the first application that reports errors is the last one of the run. */
  lemma ErrorsStop<P>(backtracking: seq<bool>, outcomes: seq<Outcome<P>>, used: nat, log: seq<Event<P>>, ending: Ending<P>, i: nat)
    requires EndedBy(true, backtracking, outcomes, used, log, ending)
    requires i < used && outcomes[i].Returned? && outcomes[i].errors
    ensures i == used - 1 && |Applications(log)| == i + 1 && ending == StoppedOnErrors(Applications(log)[i].input)
  {
    assert Stops(true, outcomes[i]);
  }

  /** A run that stops at pass it leaves the chain of the passes before it in the log. */
  lemma StoppedHere<P>(start: P, it: nat, program: P, backup: seq<Snapshot<P>>, timeline: seq<P>, log: seq<Event<P>>, after: Option<P>)
    requires Inv(start, it, program, backup, timeline, log)
    ensures Chained(log + [Applied(it, program, after)], timeline) && AllResumedProperly(log + [Applied(it, program, after)])
    ensures Chained(log + [Failed(it, program)], timeline) && AllResumedProperly(log + [Failed(it, program)])
  {
    ApplicationKeepsResumptions(log, Applied(it, program, after));
    ApplicationKeepsResumptions(log, Failed(it, program));
    forall k | 0 <= k < it
      ensures LastApplication(log + [Applied(it, program, after)], k) == LastApplication(log, k)
      ensures LastApplication(log + [Failed(it, program)], k) == LastApplication(log, k)
    {
      LastApplicationGrows(log, Applied(it, program, after), k);
      LastApplicationGrows(log, Failed(it, program), k);
    }
  }
}
