/** What the free list's index misses between two rebuilds: pages freed and not handed out since. */
module StoreIndex {
  import opened Common
  import opened PageIds
  import opened FreeListSpec
  import opened Store
  import opened StoreInvariant
  import opened StoreFaults

  /** Pages the index does not mark although the free list owns them. */
  ghost function Unmarked(f: FreeState): set<nat> {
    Owned(f) - Marked(f.cache)
  }

  ghost function OldList(s: State): set<nat> {
    if Readable(s) then ListSpan(s.disk, Committed(s).freelist) else {}
  }

  /** How a step changes what was freed since the last rebuild and not handed out since. */
  ghost function MissingAfter(s: State, step: Step, missing: set<nat>): set<nat> {
    match step
    case DoFree(start, overflow) => missing + Span(start, overflow + 1)
    case DoAllocate(n, start) => missing - Span(start, n)
    case DoPrepare(_, n, start, _) => missing + OldList(s) - Span(start, n)
    case DoRollback => {}
    case DoCrash(_) => {}
    case _ => missing
  }

  ghost function Missing(states: seq<State>, steps: seq<Step>, i: nat): set<nat>
    requires i <= |steps| && i <= |states|
  {
    if i == 0 then {} else MissingAfter(states[i - 1], steps[i - 1], Missing(states, steps, i - 1))
  }

  lemma SoundFree(s: State)
    requires Inv(s)
    ensures WellFormed(s.free) && Marked(s.free.cache) <= Owned(s.free)
  {
  }

  lemma FreeMisses(s: State, s': State, start: nat, overflow: nat)
    requires Inv(s) && FreeSpan(s, s', start, overflow)
    ensures Unmarked(s'.free) == Unmarked(s.free) + Span(start, overflow + 1)
  {
    var span := Span(start, overflow + 1);
    assert start in span;
    FreesKeeps(s.free, s.writer.value.meta.txid, start, overflow, s'.free);
    assert Marked(s.free.cache) <= Owned(s.free) && span !! Owned(s.free);
  }

  lemma TakeMisses(f: FreeState, total: nat, n: nat, start: nat, f': FreeState, total': nat, work: set<nat>)
    requires WellFormed(f) && total >= 2 && Partition(f, work, total) && Takes(f, total, n, start, f', total')
    ensures Unmarked(f') == Unmarked(f) - Span(start, n)
  {
    if start < total {
      AllocatesKeeps(f, n, start, f');
      assert Marked(f'.cache) == Marked(f.cache) - Span(start, n);
    } else {
      assert forall p :: p in Owned(f) ==> p in Universe(total);
    }
  }

  lemma AllocMisses(s: State, s': State, n: nat, start: nat)
    requires Inv(s) && AllocSpan(s, s', n, start)
    ensures Unmarked(s'.free) == Unmarked(s.free) - Span(start, n)
  {
    var w := s.writer.value;
    assert 2 <= w.meta.total && Partition(s.free, w.work, w.meta.total);
    TakeMisses(s.free, w.meta.total, n, start, s'.free, s'.writer.value.meta.total, w.work);
  }

  lemma PrepareMisses(s: State, s': State, mid: FreeState, n: nat, start: nat, listed: seq<nat>)
    requires Inv(s) && Prepare(s, s', mid, n, start, listed)
    ensures Unmarked(s'.free) == Unmarked(s.free) + OldList(s) - Span(start, n)
  {
    var w, c := s.writer.value, Committed(s);
    var span := ListSpan(s.disk, c.freelist);
    OldListFreed(s, mid);
    OldListMisses(s, mid);
    assert 2 <= w.meta.total;
    hide Inv, WellFormed, Frees, Owned, Marked;
    TakeMisses(mid, w.meta.total, n, start, s'.free, s'.writer.value.meta.total, w.work - span);
  }

  lemma OldListMisses(s: State, mid: FreeState)
    requires Inv(s) && s.writer.Some? && s.writer.value.phase == Editing
    requires var c := Committed(s);
             Frees(s.free, s.writer.value.meta.txid, c.freelist, s.disk[c.freelist].overflow, mid)
    ensures Unmarked(mid) == Unmarked(s.free) + OldList(s)
  {
    var w, c := s.writer.value, Committed(s);
    assert c.freelist in ListSpan(s.disk, c.freelist);
    assert ListSpan(s.disk, c.freelist) !! Owned(s.free);
    FreesKeeps(s.free, w.meta.txid, c.freelist, s.disk[c.freelist].overflow, mid);
  }

  lemma BeginMisses(s: State, s': State, minId: nat)
    requires Inv(s) && BeginWriter(s, s', minId)
    ensures Unmarked(s'.free) == Unmarked(s.free)
  {
    hide Inv, WellFormed, Owned, Marked, IsMinReader, GetMeta;
    SoundFree(s);
    if minId > 0 {
      ReleasesKeeps(s.free, minId - 1, s'.free);
    }
  }

  lemma CrashMisses(s: State, s': State, lost: bool)
    requires Inv(s) && Crash(s, s', lost)
    ensures Unmarked(s'.free) == {}
  {
    SurvivorsComplete(s, lost);
    SortIncreasing(s.disk[Committed(s').freelist].ids);
    assert Pages(s'.free.pending) == {};
  }

  lemma StepMisses(s: State, s': State, step: Step, missing: set<nat>)
    requires Inv(s) && Next(s, s', step) && Unmarked(s.free) == missing
    ensures Unmarked(s'.free) == MissingAfter(s, step, missing)
  {
    hide Inv, BeginWriter, FreeSpan, AllocSpan, Prepare, Rollback, Crash, Unmarked, OldList;
    match step
    case DoBeginWriter(minId) => BeginMisses(s, s', minId);
    case DoFree(start, overflow) => FreeMisses(s, s', start, overflow);
    case DoAllocate(n, start) => AllocMisses(s, s', n, start);
    case DoPrepare(mid, n, start, listed) => PrepareMisses(s, s', mid, n, start, listed);
    case DoRollback => RollbackMisses(s, s');
    case DoCrash(lost) => CrashMisses(s, s', lost);
    case _ =>
  }

  lemma RollbackMisses(s: State, s': State)
    requires Inv(s) && Rollback(s, s')
    ensures Unmarked(s'.free) == {}
  {
    hide Inv;
    RollbackRestores(s, s');
  }

  lemma NothingMissing(s: State)
    requires Init(s)
    ensures Unmarked(s.free) == {}
  {
    assert Owned(s.free) == {};
  }

  /** In every state the index misses exactly the pages freed since the last rebuild and not handed out since. */
  lemma {:induction false} IndexMisses(states: seq<State>, steps: seq<Step>, i: nat)
    requires Run(states, steps) && i < |states|
    ensures Unmarked(states[i].free) == Missing(states, steps, i)
  {
    hide Run, Inv, Next, Unmarked, MissingAfter;
    RunShape(states, steps);
    if i == 0 {
      NothingMissing(states[0]);
    } else {
      IndexMisses(states, steps, i - 1);
      RunKeeps(states, steps, i - 1);
      RunStep(states, steps, i - 1);
      StepMisses(states[i - 1], states[i], steps[i - 1], Missing(states, steps, i - 1));
    }
  }

  /** So it is complete if and only if nothing is missing, and the already-freed assertion catches a page that is free
      or pending if and only if it is not missing. */
  lemma IndexCompleteIff(states: seq<State>, steps: seq<Step>, i: nat)
    requires Run(states, steps) && i < |states|
    ensures Marked(states[i].free.cache) == Owned(states[i].free) <==> Missing(states, steps, i) == {}
    ensures forall p :: p in Owned(states[i].free) ==>
                          (p in Marked(states[i].free.cache) <==> p !in Missing(states, steps, i))
  {
    hide Inv, WellFormed, Owned, Marked, Run, Missing;
    RunShape(states, steps);
    IndexMisses(states, steps, i);
    RunKeeps(states, steps, i);
    SoundFree(states[i]);
    SameUnlessMissing(Owned(states[i].free), Marked(states[i].free.cache), Missing(states, steps, i));
  }

  lemma SameUnlessMissing(owned: set<nat>, marked: set<nat>, missing: set<nat>)
    requires marked <= owned && owned - marked == missing
    ensures marked == owned <==> missing == {}
    ensures forall p :: p in owned ==> (p in marked <==> p !in missing)
  {
    assert forall p :: p in owned && p !in marked ==> p in owned - marked;
  }

  /** A page just freed is not marked: freeing it again would not be noticed. */
  lemma IndexMissesFreedPage()
    ensures var (states, _) := Ruin();
            && |states| >= 4
            && Run(states[..4], [DoBeginReader(0), DoBeginWriter(1), DoFree(3, 0)])
            && 3 in Owned(states[3].free) && 3 !in Marked(states[3].free.cache)
  {
    var (states, _) := Ruin();
    RuinBegins();
    RuinFrees();
    RuinEnds();
    assert |states| == 14;
    assert Holds(states[3].free.pending, 2, 3);
    hide Ruin, Init, BeginReader, BeginWriter, FreeSpan;
    var run, steps := states[..4], [DoBeginReader(0), DoBeginWriter(1), DoFree(3, 0)];
    assert Next(run[0], run[1], steps[0]) && Next(run[1], run[2], steps[1]) && Next(run[2], run[3], steps[2]);
  }
}
