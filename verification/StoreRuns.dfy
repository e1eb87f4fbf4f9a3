/** States that runs reach, and steps between them. */
module StoreRuns {
  import opened PageIds
  import opened FreeListSpec
  import opened Store
  import opened StoreInvariant

  ghost predicate Reachable(s: State) {
    exists states, steps :: Run(states, steps) && states[|steps|] == s
  }

  /** `steps` carry the store from one state to another. */
  ghost predicate Leads(from: State, to: State, steps: seq<Step>) {
    exists states :: IsTrace(states, steps) && states[0] == from && states[|steps|] == to
  }

  ghost predicate IsTrace(states: seq<State>, steps: seq<Step>) {
    && |states| == |steps| + 1
    && forall i :: 0 <= i < |steps| ==> Next(states[i], states[i + 1], steps[i])
  }

  lemma LeadsOnce(from: State, to: State, step: Step)
    requires Next(from, to, step)
    ensures Leads(from, to, [step])
  {
    assert IsTrace([from, to], [step]);
  }

  lemma TraceExtends(states: seq<State>, steps: seq<Step>, to: State, step: Step)
    requires IsTrace(states, steps) && Next(states[|steps|], to, step)
    ensures IsTrace(states + [to], steps + [step])
  {
    var all, moves := states + [to], steps + [step];
    forall i | 0 <= i < |moves| ensures Next(all[i], all[i + 1], moves[i]) {
      assert i < |steps| ==> Next(states[i], states[i + 1], steps[i]);
    }
  }

  lemma LeadsOn(from: State, s: State, steps: seq<Step>, to: State, step: Step)
    requires Leads(from, s, steps) && Next(s, to, step)
    ensures Leads(from, to, steps + [step])
  {
    var states :| IsTrace(states, steps) && states[0] == from && states[|steps|] == s;
    TraceExtends(states, steps, to, step);
    assert (states + [to])[0] == from && (states + [to])[|steps| + 1] == to;
  }

  lemma InitReachable(s: State)
    requires Init(s)
    ensures Reachable(s)
  {
    assert Run([s], []);
  }

  lemma StepReachable(s: State, s': State, step: Step)
    requires Reachable(s) && Next(s, s', step)
    ensures Reachable(s')
  {
    var states, steps :| Run(states, steps) && states[|steps|] == s;
    assert IsTrace(states, steps);
    TraceExtends(states, steps, s', step);
    assert Run(states + [s'], steps + [step]);
    assert (states + [s'])[|steps| + 1] == s';
  }

  lemma {:induction false} TraceReachable(states: seq<State>, steps: seq<Step>, i: nat)
    requires IsTrace(states, steps) && Reachable(states[0]) && i <= |steps|
    ensures Reachable(states[i])
  {
    if i > 0 {
      TraceReachable(states, steps, i - 1);
      StepReachable(states[i - 1], states[i], steps[i - 1]);
    }
  }

  lemma LeadsReachable(from: State, to: State, steps: seq<Step>)
    requires Reachable(from) && Leads(from, to, steps)
    ensures Reachable(to)
  {
    var states :| IsTrace(states, steps) && states[0] == from && states[|steps|] == to;
    TraceReachable(states, steps, |steps|);
  }

  lemma ReachableInv(s: State)
    requires Reachable(s)
    ensures Inv(s)
  {
    var states, steps :| Run(states, steps) && states[|steps|] == s;
    RunKeeps(states, steps, |steps|);
  }

  // ----- Pages on disk -----

  /** Every page below the committed mark is on disk, and below a writer's own mark on disk or taken. */
  ghost predicate Backed(s: State) {
    && Readable(s)
    && Universe(Committed(s).total) <= s.disk.Keys
    && (s.writer.Some? ==>
          var w := s.writer.value;
          && (Unswitched(w) ==> Universe(w.meta.total) <= s.disk.Keys + w.taken)
          && (w.phase == MetaWritten ==> Universe(w.base.meta.total) <= s.disk.Keys))
  }

  lemma TakesBacked(f: FreeState, total: nat, n: nat, start: nat, f': FreeState, total': nat)
    requires total >= 2 && Takes(f, total, n, start, f', total')
    ensures Universe(total') <= Universe(total) + Span(start, n)
  {
  }

  lemma AllocBacked(s: State, s': State, n: nat, start: nat)
    requires Inv(s) && Backed(s) && AllocSpan(s, s', n, start)
    ensures Backed(s')
  {
    var w := s.writer.value;
    assert w.meta.total >= 2;
    TakesBacked(s.free, w.meta.total, n, start, s'.free, s'.writer.value.meta.total);
  }

  lemma PrepareBacked(s: State, s': State, mid: FreeState, n: nat, start: nat, listed: seq<nat>)
    requires Inv(s) && Backed(s) && Prepare(s, s', mid, n, start, listed)
    ensures Backed(s')
  {
    var w := s.writer.value;
    assert w.meta.total >= 2;
    TakesBacked(mid, w.meta.total, n, start, s'.free, s'.writer.value.meta.total);
  }

  lemma WriteMetaBacked(s: State, s': State)
    requires Inv(s) && Backed(s) && WriteMeta(s, s')
    ensures Backed(s')
  {
    WriteMetaKeeps(s, s');
    var w := s.writer.value;
    assert w.taken <= s.disk.Keys && w.base.meta == Committed(s);
  }

  lemma CrashBacked(s: State, s': State, lost: bool)
    requires Inv(s) && Backed(s) && Crash(s, s', lost)
    ensures Backed(s')
  {
    SurvivorsComplete(s, lost);
  }

  lemma StepBacked(s: State, s': State, step: Step)
    requires Inv(s) && Backed(s) && Next(s, s', step)
    ensures Backed(s')
  {
    hide Inv, AllocSpan, Prepare, WriteMeta, Crash, Universe, Closed, Releases, Frees, RestoresFrom, IsMinReader;
    match step
    case DoAllocate(n, start) => AllocBacked(s, s', n, start);
    case DoPrepare(mid, n, start, listed) => PrepareBacked(s, s', mid, n, start, listed);
    case DoWriteMeta => WriteMetaBacked(s, s');
    case DoCrash(lost) => CrashBacked(s, s', lost);
    case _ =>
  }

  lemma {:induction false} RunBacked(states: seq<State>, steps: seq<Step>, i: nat)
    requires Run(states, steps) && i < |states|
    ensures Backed(states[i])
  {
    hide Run, Inv, Next, Backed;
    RunShape(states, steps);
    if i == 0 {
      InitBacked(states[0]);
    } else {
      RunBacked(states, steps, i - 1);
      RunKeeps(states, steps, i - 1);
      RunStep(states, steps, i - 1);
      StepBacked(states[i - 1], states[i], steps[i - 1]);
    }
  }

  lemma InitBacked(s: State)
    requires Init(s)
    ensures Backed(s)
  {
  }

  lemma ReachableBacked(s: State)
    requires Reachable(s)
    ensures Backed(s)
  {
    hide Next, Backed;
    var states, steps :| Run(states, steps) && states[|steps|] == s;
    RunBacked(states, steps, |steps|);
  }
}
