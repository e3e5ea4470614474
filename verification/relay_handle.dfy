/**
  Handles of one relay, counted by a shared atomic counter. A clone adds one and then
  builds the new handle, keeping the one it copies borrowed until it has; a drop takes
  one off and shuts the relay down when the value it took from was one. Threads may
  interleave anywhere between these steps.
*/
module RelayHandles {
  type Handle = nat

  datatype System = System(
    counter: nat,
    live: set<Handle>,
    /** the handle each clone in progress will become, with the one it borrows */
    cloning: map<Handle, Handle>,
    /** handles whose drop has started and not yet taken its one off */
    dropping: set<Handle>,
    /** handles whose drop saw the counter at one and has not yet called the shutdown */
    closing: set<Handle>,
    shutdowns: nat)

  datatype Step =
    | CloneCounts(source: Handle, copy: Handle)
    | CloneBuilds(copy: Handle)
    | DropStarts(h: Handle)
    | DropCounts(h: Handle)
    | DropShutsDown(h: Handle)

  predicate Enabled(s: System, step: Step) {
    match step
    case CloneCounts(source, copy) => source in s.live && copy !in s.live + s.cloning.Keys + s.dropping + s.closing
    case CloneBuilds(copy) => copy in s.cloning
    case DropStarts(h) => h in s.live && h !in s.cloning.Values
    case DropCounts(h) => h in s.dropping && s.counter > 0
    case DropShutsDown(h) => h in s.closing
  }

  function Apply(s: System, step: Step): System
    requires Enabled(s, step)
  {
    match step
    case CloneCounts(source, copy) => s.(counter := s.counter + 1, cloning := s.cloning[copy := source])
    case CloneBuilds(copy) => s.(live := s.live + {copy}, cloning := s.cloning - {copy})
    case DropStarts(h) => s.(live := s.live - {h}, dropping := s.dropping + {h})
    case DropCounts(h) =>
      s.(counter := s.counter - 1, dropping := s.dropping - {h},
         closing := if s.counter == 1 then s.closing + {h} else s.closing)
    case DropShutsDown(h) => s.(closing := s.closing - {h}, shutdowns := s.shutdowns + 1)
  }

  /** A new relay has one handle. */
  function New(h: Handle): System { System(1, {h}, map[], {}, {}, 0) }

  ghost predicate Reaches(s: System, steps: seq<Step>, s': System)
    decreases |steps|
  {
    if steps == [] then s == s'
    else Enabled(s, steps[0]) && Reaches(Apply(s, steps[0]), steps[1..], s')
  }

  /** No handle is left, nor one about to be. */
  predicate AllGone(s: System) { s.live == {} && s.cloning == map[] && s.dropping == {} }

  /** Every handle is in one stage of its life, and what a clone borrows is live. */
  ghost predicate Apart(s: System) {
    && s.live !! s.cloning.Keys && s.live !! s.dropping && s.cloning.Keys !! s.dropping
    && (forall c :: c in s.cloning ==> s.cloning[c] in s.live)
  }

  ghost predicate Counted(s: System) { s.counter == |s.live| + |s.cloning| + |s.dropping| }

  ghost predicate ClosedOnce(s: System) { s.shutdowns + |s.closing| == if AllGone(s) then 1 else 0 }

  ghost predicate Inv(s: System) { Apart(s) && Counted(s) && ClosedOnce(s) }

  lemma CountUp(s: set<Handle>, h: Handle)
    ensures h !in s ==> |s + {h}| == |s| + 1
    ensures h in s ==> |s - {h}| == |s| - 1
  {
    if h in s {
      assert s == (s - {h}) + {h};
    }
  }

  lemma GoneIffZero(s: System)
    ensures AllGone(s) <==> |s.live| + |s.cloning| + |s.dropping| == 0
  {
    assert s.cloning == map[] <==> s.cloning.Keys == {};
    assert |s.cloning| == |s.cloning.Keys|;
  }

  lemma CountsStep(s: System, source: Handle, copy: Handle)
    requires Inv(s)
    ensures Enabled(s, CloneCounts(source, copy)) ==> Inv(Apply(s, CloneCounts(source, copy)))
  {
    hide Counted, ClosedOnce;
    CountsStepCounts(s, source, copy);
  }

  lemma CountsStepCounts(s: System, source: Handle, copy: Handle)
    ensures Enabled(s, CloneCounts(source, copy)) && Counted(s) && ClosedOnce(s) ==>
            Counted(Apply(s, CloneCounts(source, copy))) && ClosedOnce(Apply(s, CloneCounts(source, copy)))
  {
    if Enabled(s, CloneCounts(source, copy)) {
      OneMoreClone(s.cloning, copy, source);
      assert source in s.live && !AllGone(s) && !AllGone(Apply(s, CloneCounts(source, copy)));
    }
  }

  lemma OneMoreClone(m: map<Handle, Handle>, copy: Handle, source: Handle)
    requires copy !in m
    ensures |m[copy := source]| == |m| + 1 && m[copy := source].Keys == m.Keys + {copy}
  {
    assert m[copy := source].Keys == m.Keys + {copy};
  }

  lemma BuildsStep(s: System, step: Step)
    requires Inv(s) && Enabled(s, step) && step.CloneBuilds?
    ensures Inv(Apply(s, step))
  {
    var s' := Apply(s, step);
    assert s'.cloning.Keys == s.cloning.Keys - {step.copy};
    CountUp(s.cloning.Keys, step.copy);
    assert |s.cloning| == |s.cloning.Keys| && |s'.cloning| == |s'.cloning.Keys|;
    assert |s'.live| == |s.live| + 1;
    assert step.copy in s'.live;
  }

  lemma DropStep(s: System, step: Step)
    requires Inv(s) && Enabled(s, step) && !step.CloneCounts? && !step.CloneBuilds?
    ensures Inv(Apply(s, step))
  {
    var s' := Apply(s, step);
    GoneIffZero(s');
    GoneIffZero(s);
    CountUp(s.live, step.h);
    CountUp(s.dropping, step.h);
    CountUp(s.closing, step.h);
    if step.DropStarts? {
      forall c | c in s'.cloning
        ensures s'.cloning[c] in s'.live
      {
        assert s.cloning[c] in s.cloning.Values;
      }
    }
    if step.DropCounts? && s.counter == 1 {
      assert !AllGone(s);
      assert s.closing == {};
    }
  }

  lemma {:induction false} ReachableInv(s: System, steps: seq<Step>, s': System)
    requires Inv(s) && Reaches(s, steps, s')
    ensures Inv(s')
    decreases |steps|
  {
    if steps != [] {
      if steps[0].CloneCounts? {
        CountsStep(s, steps[0].source, steps[0].copy);
      } else if steps[0].CloneBuilds? {
        BuildsStep(s, steps[0]);
      } else {
        DropStep(s, steps[0]);
      }
      ReachableInv(Apply(s, steps[0]), steps[1..], s');
    }
  }

  lemma NewInv(h: Handle)
    ensures Inv(New(h))
  {
  }

  /** The counter is the number of handles there are, counting those being made and those being dropped. */
  lemma CounterCountsHandles(h: Handle, steps: seq<Step>, s: System)
    requires Reaches(New(h), steps, s)
    ensures s.counter == |s.live| + |s.cloning| + |s.dropping|
    ensures forall c :: c in s.cloning ==> s.cloning[c] in s.live
  {
    NewInv(h);
    ReachableInv(New(h), steps, s);
  }

  /**
    A relay with a handle left has not been shut down and is not about to be; one without is
    shut down exactly once.
  */
  lemma ShutDownExactlyOnce(h: Handle, steps: seq<Step>, s: System)
    requires Reaches(New(h), steps, s)
    ensures s.live != {} || s.cloning != map[] || s.dropping != {} ==> s.shutdowns == 0 && s.closing == {}
    ensures AllGone(s) ==> s.shutdowns == (if s.closing == {} then 1 else 0) && |s.closing| <= 1
  {
    NewInv(h);
    ReachableInv(New(h), steps, s);
    if s.closing != {} {
      var c :| c in s.closing;
      CountUp(s.closing, c);
    }
  }

  /** Every drop that has started can go on to the end: the counter never runs out under it. */
  lemma DropsNeverUnderflow(h: Handle, steps: seq<Step>, s: System, d: Handle)
    requires Reaches(New(h), steps, s) && d in s.dropping
    ensures Enabled(s, DropCounts(d))
    ensures Apply(s, DropCounts(d)).closing != {} <==> s.live == {} && s.cloning == map[] && s.dropping == {d}
  {
    NewInv(h);
    ReachableInv(New(h), steps, s);
    CountUp(s.dropping, d);
    assert |s.cloning| == |s.cloning.Keys|;
    assert |s.closing| == 0 && s.closing == {};
    if |s.dropping| == 1 {
      assert s.dropping - {d} == {};
    }
    if s.counter == 1 {
      assert s.cloning.Keys == {};
    }
  }
}
