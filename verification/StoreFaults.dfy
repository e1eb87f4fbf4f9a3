/** Commits that fail after the switch to the new list page: the rollback then rereads that page. */
module StoreFaults {
  import opened Common
  import opened PageIds
  import opened FreeListSpec
  import opened Store
  import opened StoreInvariant
  import opened StoreTheorems

  /** Past the switch to the new list page, and not done. */
  ghost predicate Late(w: Writer) {
    w.phase in {Writing, Synced, MetaWritten}
  }

  /** The file could not grow, or a page write, a sync or the meta write failed. */
  ghost predicate LateRollback(s: State, s': State) {
    && s.writer.Some? && Late(s.writer.value)
    && RestoresFrom(s, s.writer.value, s'.free)
    && s' == s.(free := s'.free, writer := Some(s.writer.value.(phase := RolledBack)))
  }

  /** Apart from what other transactions hold back, the reread page lists just the pages outside the committed store. */
  ghost predicate RereadsFree(s: State) {
    && Readable(s) && s.writer.Some?
    && var w := s.writer.value;
       var held := Pages(s.free.pending - {w.meta.txid});
    && w.meta.freelist in s.disk && s.disk[w.meta.freelist].List?
    && Elems(s.disk[w.meta.freelist].ids) - held == Universe(Committed(s).total) - s.live - held
  }

  /** No open reader needs a page that this transaction freed. */
  ghost predicate ReadersSpared(s: State) {
    s.writer.Some? &&
    forall r :: r in s.readers ==> s.readers[r].image.Keys !! Elems(ListOf(s.free.pending, s.writer.value.meta.txid))
  }

  /** When a late rollback does no harm: before the meta write it must happen to reread what was free when the writer
      began; once the meta is written the reread list is the right one, but what it frees at once must not be needed. */
  ghost predicate LateSafe(s: State) {
    s.writer.Some? && if s.writer.value.phase == MetaWritten then ReadersSpared(s) else RereadsFree(s)
  }

  lemma HeldElsewhere(s: State)
    requires Inv(s) && s.writer.Some? && Unswitched(s.writer.value)
    ensures var held := Pages(s.free.pending - {s.writer.value.meta.txid});
            held !! s.live && held <= Universe(Committed(s).total)
  {
  }

  lemma RereadRestores(s: State, f': FreeState)
    requires Inv(s) && s.writer.Some? && Unswitched(s.writer.value) && RestoresFrom(s, s.writer.value, f')
    ensures f'.pending == s.writer.value.begun.pending
    ensures f'.ids == s.writer.value.begun.ids <==> RereadsFree(s)
    ensures f'.ids == s.writer.value.begun.ids <==> Owned(f') == Universe(Committed(s).total) - s.live
  {
    HeldElsewhere(s);
    var w := s.writer.value;
    assert BegunOk(s, w);
    if Elems(f'.ids) == Elems(w.begun.ids) {
      IncreasingUnique(f'.ids, w.begun.ids);
    }
  }

  lemma RolledBackOwns(s: State)
    requires Inv(s) && s.writer.Some? && s.writer.value.phase == RolledBack
    ensures Owned(s.free) == Universe(Committed(s).total) - s.live
  {
    assert Idle(s);
  }

  lemma LateRestored(s: State, s': State)
    requires LateRollback(s, s') && Unswitched(s.writer.value)
    requires s'.free.ids == s.writer.value.begun.ids && s'.free.pending == s.writer.value.begun.pending
    ensures Restored(s, s')
  {
  }

  lemma RestoredSafeIff(s: State, s': State)
    requires Inv(s) && LateRollback(s, s') && Unswitched(s.writer.value)
    ensures Inv(s') <==> RereadsFree(s)
    ensures s'.free.ids == s.writer.value.begun.ids <==> RereadsFree(s)
    ensures s'.free.pending == s.writer.value.begun.pending
  {
    RereadRestores(s, s'.free);
    assert Readable(s) && Committed(s') == Committed(s);
    if Inv(s') {
      RolledBackOwns(s');
    }
    hide Inv, RestoresFrom, RereadsFree, Owned;
    if s'.free.ids == s.writer.value.begun.ids {
      LateRestored(s, s');
      RestoredKeeps(s, s');
    }
  }

  /** After the meta write: the new store keeps its lists. */
  lemma SwitchedLists(s: State, s': State)
    requires Inv(s) && LateRollback(s, s') && s.writer.value.phase == MetaWritten
    ensures WellFormed(s'.free) && Readable(s') && Idle(s')
  {
    var w, listed := s.writer.value, s.disk[s.writer.value.meta.freelist].ids;
    assert MetaWrittenOk(s, w) && Elems(listed) == Universe(w.meta.total) - s.live;
    forall p | p in listed ensures 2 <= p {
      assert p in Elems(listed);
    }
    RollsBackKeeps(s.free, w.meta.txid, listed, s'.free);
    PagesSplitOff(s.free.pending, w.meta.txid);
  }

  lemma HeldOnlyWithout(f: FreeState, tid: nat, after: nat, p: nat)
    requires WellFormed(f)
    ensures p in ListOf(f.pending, tid) ==> !PendingAfter(f.pending - {tid}, after, p)
    ensures p !in ListOf(f.pending, tid) && PendingAfter(f.pending, after, p) ==> PendingAfter(f.pending - {tid}, after, p)
  {
    if p in ListOf(f.pending, tid) {
      assert Holds(f.pending, tid, p);
      if t: nat :| t > after && Holds(f.pending - {tid}, t, p) {
        assert Holds(f.pending, t, p);
      }
    } else if t: nat :| t > after && Holds(f.pending, t, p) {
      assert Holds(f.pending - {tid}, t, p);
    }
  }

  lemma FreedNotLive(s: State, p: nat)
    requires Inv(s) && s.writer.Some? && s.writer.value.phase == MetaWritten
    requires p in ListOf(s.free.pending, s.writer.value.meta.txid)
    ensures p !in s.live
  {
    ListOfInPages(s.free.pending, s.writer.value.meta.txid);
    assert p in Elems(ListOf(s.free.pending, s.writer.value.meta.txid)) && p in Owned(s.free) && Idle(s);
  }

  lemma ReaderParts(s: State, r: nat)
    requires Inv(s) && r in s.readers
    ensures WellFormed(s.free) && Readable(s) && ReaderSafe(s, s.readers[r])
  {
  }

  lemma SparedReader(s: State, s': State, r: nat)
    requires Inv(s) && LateRollback(s, s') && s.writer.value.phase == MetaWritten && r in s.readers
    ensures Readable(s')
    ensures ReaderSafe(s', s.readers[r]) <==>
            s.readers[r].image.Keys !! Elems(ListOf(s.free.pending, s.writer.value.meta.txid))
  {
    hide Inv, WellFormed, PendingAfter, Closed, Intact;
    var tid, reader := s.writer.value.meta.txid, s.readers[r];
    ReaderParts(s, r);
    assert s'.free.pending == s.free.pending - {tid};
    forall p | p in reader.image
      ensures p in s.live || PendingAfter(s'.free.pending, reader.meta.txid, p) <==> p !in ListOf(s.free.pending, tid)
    {
      HeldOnlyWithout(s.free, tid, reader.meta.txid, p);
      if p in ListOf(s.free.pending, tid) {
        FreedNotLive(s, p);
      }
    }
  }

  lemma SwitchedSafeIff(s: State, s': State)
    requires Inv(s) && LateRollback(s, s') && s.writer.value.phase == MetaWritten
    ensures Inv(s') <==> ReadersSpared(s)
  {
    SwitchedLists(s, s');
    forall r | r in s.readers
      ensures ReaderSafe(s', s.readers[r]) <==>
              s.readers[r].image.Keys !! Elems(ListOf(s.free.pending, s.writer.value.meta.txid))
    {
      SparedReader(s, s', r);
    }
    hide ReaderSafe, Recoverable, WellFormed, Idle, RestoresFrom, MetaWrittenOk;
  }

  /** A late rollback keeps the store sound if and only if it does no harm. */
  lemma LateRollbackSafeIff(s: State, s': State)
    requires Inv(s) && LateRollback(s, s')
    ensures Inv(s') <==> LateSafe(s)
    ensures Unswitched(s.writer.value) ==>
              && s'.free.pending == s.writer.value.begun.pending
              && (s'.free.ids == s.writer.value.begun.ids <==> RereadsFree(s))
  {
    hide Inv, RereadsFree, ReadersSpared, RestoresFrom;
    if s.writer.value.phase == MetaWritten {
      SwitchedSafeIff(s, s');
    } else {
      RestoredSafeIff(s, s');
    }
  }

  /** The new list page is on disk. */
  ghost predicate ListWritten(s: State, w: Writer) {
    && w.meta.freelist in w.buffers && w.meta.freelist in s.disk
    && s.disk[w.meta.freelist] == w.buffers[w.meta.freelist]
  }

  lemma WrittenListFrees(s: State, w: Writer, f': FreeState)
    requires Inv(s) && s.writer == Some(w) && w.phase in {Writing, Synced}
    requires RestoresFrom(s, w, f') && ListWritten(s, w)
    ensures Elems(f'.ids) == Elems(s.free.ids) + Elems(ListOf(s.free.pending, w.meta.txid))
    ensures Committed(s).freelist in f'.ids && Committed(s).freelist in s.live
    ensures !RereadsFree(s)
  {
    var c := Committed(s);
    var listed := s.disk[w.meta.freelist].ids;
    assert Elems(listed) == Universe(w.meta.total) - w.work == Owned(s.free);
    PagesSplitOff(s.free.pending, w.meta.txid);
    OwnedParts(s.free);
    PendingApart(s.free, w.meta.txid);
    assert c.freelist in Elems(ListOf(s.free.pending, w.meta.txid));
    assert c.freelist in Elems(f'.ids);
    HeldElsewhere(s);
  }

  /** A rollback gives the lists of before exactly when the page it rereads lists what was free then. Before the
      switch it always does. After the switch it never does once the new list page is on disk: exactly the pages
      this transaction freed come back as free, the committed list page among them. */
  lemma RollbackRestoresIffBeforeSwitch(states: seq<State>, steps: seq<Step>, i: nat, f': FreeState)
    requires Run(states, steps) && i < |states|
    requires states[i].writer.Some? && Unswitched(states[i].writer.value)
    requires RestoresFrom(states[i], states[i].writer.value, f')
    ensures var w := states[i].writer.value;
            && ((f'.ids == w.begun.ids && f'.pending == w.begun.pending) <==> RereadsFree(states[i]))
            && (w.phase == Editing ==> RereadsFree(states[i]))
    ensures var s, w := states[i], states[i].writer.value;
            w.phase != Editing && ListWritten(s, w) ==>
              && !RereadsFree(s)
              && Elems(f'.ids) == Elems(s.free.ids) + Elems(ListOf(s.free.pending, w.meta.txid))
              && Readable(s) && Committed(s).freelist in f'.ids && Committed(s).freelist in s.live
  {
    RunKeeps(states, steps, i);
    var s, w := states[i], states[i].writer.value;
    RereadRestores(s, f');
    if w.phase == Editing {
      RollbackRestores(s, s.(free := f', writer := Some(w.(phase := RolledBack))));
    } else if ListWritten(s, w) {
      WrittenListFrees(s, w, f');
    }
  }

  lemma PagesSplitOff(pending: map<nat, seq<nat>>, tid: nat)
    ensures Pages(pending) == Pages(pending - {tid}) + Elems(ListOf(pending, tid))
  {
    forall p ensures p in Pages(pending) <==> p in Pages(pending - {tid}) + Elems(ListOf(pending, tid)) {
      InPages(pending, p);
      InPages(pending - {tid}, p);
      assert forall t: nat :: Holds(pending, t, p) <==> Holds(pending - {tid}, t, p) || (t == tid && p in ListOf(pending, tid));
    }
  }

  lemma PendingApart(f: FreeState, tid: nat)
    requires WellFormed(f)
    ensures Pages(f.pending - {tid}) !! Elems(ListOf(f.pending, tid))
  {
    forall p | p in Pages(f.pending - {tid}) ensures p !in ListOf(f.pending, tid) {
      InPages(f.pending - {tid}, p);
      var t: nat :| Holds(f.pending - {tid}, t, p);
      assert Holds(f.pending, t, p);
      assert p in ListOf(f.pending, tid) ==> Holds(f.pending, tid, p);
    }
  }

  // ----- Runs with late rollbacks -----

  datatype FaultStep = Regular(step: Step) | Fallen

  ghost predicate FaultNext(s: State, s': State, step: FaultStep) {
    match step
    case Regular(step) => Next(s, s', step)
    case Fallen => LateRollback(s, s')
  }

  ghost predicate FaultRun(states: seq<State>, steps: seq<FaultStep>) {
    && |states| == |steps| + 1
    && Init(states[0])
    && forall i :: 0 <= i < |steps| ==> FaultNext(states[i], states[i + 1], steps[i])
  }

  /** Every late rollback among the first `n` steps does no harm. */
  ghost predicate Harmless(states: seq<State>, steps: seq<FaultStep>, n: nat) {
    forall i :: 0 <= i < n && i < |steps| && i < |states| && steps[i] == Fallen ==> LateSafe(states[i])
  }

  ghost predicate SoundUpto(states: seq<State>, n: nat) {
    forall i :: 0 <= i <= n && i < |states| ==> Inv(states[i])
  }

  /** All states of a run are sound if and only if every late rollback in it does no harm. */
  lemma {:induction false} FaultRunSafeIff(states: seq<State>, steps: seq<FaultStep>, n: nat)
    requires FaultRun(states, steps) && n <= |steps|
    ensures SoundUpto(states, n) <==> Harmless(states, steps, n)
  {
    hide Inv, Next, LateRollback, LateSafe;
    if n == 0 {
      InitHolds(states[0]);
    } else {
      FaultRunSafeIff(states, steps, n - 1);
      assert FaultNext(states[n - 1], states[n], steps[n - 1]);
      if SoundUpto(states, n - 1) {
        FaultStepSafeIff(states[n - 1], states[n], steps[n - 1]);
      }
    }
  }

  lemma FaultStepSafeIff(s: State, s': State, step: FaultStep)
    requires Inv(s) && FaultNext(s, s', step)
    ensures Inv(s') <==> (step == Fallen ==> LateSafe(s))
  {
    hide Inv, Next, LateRollback, LateSafe;
    if step == Fallen {
      LateRollbackSafeIff(s, s');
    } else {
      StepKeeps(s, s', step.step);
    }
  }

  /** Crashes stay safe through late rollbacks that do no harm. */
  lemma FaultRunCrash(states: seq<State>, steps: seq<FaultStep>, i: nat, lost: bool)
    requires FaultRun(states, steps) && i <= |steps| && Harmless(states, steps, i)
    ensures CrashSafe(states[i], lost)
  {
    FaultRunSafeIff(states, steps, i);
    CrashRecovers(states[i], lost);
  }

  // ----- A run into it -----

  /** With a reader open a writer replaces the root and commits, writes its list page and fails; the next writer is
      given the committed root and list page, and its page writes overwrite both. */
  function Ruin(): (seq<State>, seq<FaultStep>) {
    var empty, c := Meta(MAGIC, VERSION, 0, 3, 2, 4, 0), Meta(MAGIC, VERSION, 0, 3, 2, 4, 1);
    var none := FreeState([], map[], map[]);
    var disk := map[2 := List([], 0), 3 := Tree([], [])];
    var late := disk[5 := List([2, 3], 0)];
    var both := FreeState([2, 3], map[], map[2 := true, 3 := true]);
    var w := Writer(c.(txid := 2), Editing, {2, 3}, {}, map[], none, Snapshot(c, disk), c);
    var w4 := w.(meta := w.meta.(total := 5), work := {2, 4}, taken := {4});
    var w5 := w4.(meta := Meta(MAGIC, VERSION, 0, 4, 5, 6, 2), phase := Writing, work := {4, 5}, taken := {4, 5},
                  buffers := map[4 := Tree([], [1]), 5 := List([2, 3], 0)]);
    var w10 := w.(begun := both, taken := {2, 3});
    var w11 := w10.(meta := Meta(MAGIC, VERSION, 0, 3, 4, 5, 2), phase := Writing, work := {3, 4}, taken := {2, 3, 4},
                    buffers := map[2 := Tree([], [8]), 3 := Tree([], [9]), 4 := List([2], 0)]);
    var s0 := State(empty, c, disk, {2, 3}, none, map[], None);
    var s1 := s0.(readers := map[0 := Snapshot(c, disk)]);
    var s2 := s1.(writer := Some(w));
    var s3 := s2.(free := FreeState([], map[2 := [3]], map[]), writer := Some(w.(work := {2})));
    var s4 := s3.(writer := Some(w4));
    var s5 := s4.(free := FreeState([], map[2 := [3, 2]], map[]), writer := Some(w5));
    var s6 := s5.(disk := late);
    var s7 := s6.(free := both, writer := Some(w5.(phase := RolledBack)));
    var s8 := s7.(writer := None);
    var s9 := s8.(writer := Some(w.(begun := both)));
    var s10 := s9.(free := none, writer := Some(w10));
    var s11 := s10.(free := FreeState([], map[2 := [2]], map[]), writer := Some(w11));
    var s12 := s11.(disk := late[3 := Tree([], [9])]);
    var s13 := s12.(disk := late[3 := Tree([], [9])][2 := Tree([], [8])]);
    ([s0, s1, s2, s3, s4, s5, s6, s7, s8, s9, s10, s11, s12, s13],
     [Regular(DoBeginReader(0)), Regular(DoBeginWriter(1)), Regular(DoFree(3, 0)), Regular(DoAllocate(1, 4)),
      Regular(DoPrepare(FreeState([], map[2 := [3, 2]], map[]), 1, 5, [2, 3])), Regular(DoPutPage(5, List([2, 3], 0))),
      Fallen, Regular(DoCloseWriter), Regular(DoBeginWriter(1)), Regular(DoAllocate(2, 2)),
      Regular(DoPrepare(FreeState([], map[2 := [2]], map[]), 1, 4, [2])), Regular(DoPutPage(3, Tree([], [9]))),
      Regular(DoPutPage(2, Tree([], [8])))])
  }

  lemma SmallSpans()
    ensures Span(2, 1) == {2} && Span(3, 1) == {3} && Span(4, 1) == {4} && Span(5, 1) == {5} && Span(2, 2) == {2, 3}
    ensures SpanSeq(2, 1) == [2] && SpanSeq(3, 1) == [3]
    ensures Elems([]) == {} && Elems([2]) == {2} && Elems([2, 3]) == {2, 3}
  {
    forall p: nat ensures p in Span(2, 2) <==> p == 2 || p == 3 {
    }
    forall a: nat, p: nat ensures p in Span(a, 1) <==> p == a {
    }
    assert SpanSeq(2, 1) == [2] && SpanSeq(3, 1) == [3];
  }

  lemma OnePending(list: seq<nat>)
    ensures Pages(map[2 := list]) == Elems(list) && Pages(map[]) == {}
  {
    assert forall p :: p in list ==> Holds(map[2 := list], 2, p);
  }

  lemma NoRun(n: nat)
    requires 1 <= n
    ensures forall p: nat :: !RunAt([], p, n)
  {
    forall p: nat ensures !RunAt([], p, n) {
      assert p in Span(p, n);
    }
  }

  lemma RuinBegins()
    ensures var (states, _) := Ruin(); BeginReader(states[0], states[1], 0) && BeginWriter(states[1], states[2], 1)
  {
    var (states, _) := Ruin();
    assert Restrict(states[0].disk, {2, 3}) == states[0].disk;
    assert 0 in states[1].readers;
    assert Upto(map[], 0) == map[] && Later(map[], 0) == map[] && Pages(map[]) == {};
    assert Releases(states[1].free, 0, states[2].free);
  }

  lemma RuinBeginsAgain()
    ensures var (states, _) := Ruin(); BeginWriter(states[8], states[9], 1)
  {
    var (states, _) := Ruin();
    assert Restrict(states[8].disk, {2, 3}) == states[0].disk;
    assert 0 in states[8].readers;
    assert Upto(map[], 0) == map[] && Later(map[], 0) == map[] && Pages(map[]) == {};
    assert Releases(states[8].free, 0, states[9].free);
  }

  lemma RuinFrees()
    ensures var (states, _) := Ruin(); FreeSpan(states[2], states[3], 3, 0)
  {
    var (states, _) := Ruin();
    SmallSpans();
    var f, f' := states[2].free, states[3].free;
    assert ListOf(f.pending, 2) + SpanSeq(3, 1) == [3] && f.pending[2 := [3]] == f'.pending;
    assert ListSpan(states[2].disk, 2) == {2} && {2, 3} - {3} == {2};
  }

  lemma RuinAllocates()
    ensures var (states, _) := Ruin(); AllocSpan(states[3], states[4], 1, 4)
  {
    var (states, _) := Ruin();
    SmallSpans();
    NoRun(1);
    var f := states[3].free;
    assert Takes(f, 4, 1, 4, f, 5);
    assert {2} + {4} == {2, 4} && {} + {4} == {4};
  }

  lemma RuinListed()
    ensures var f, f' := FreeState([], map[2 := [3]], map[]), FreeState([], map[2 := [3, 2]], map[]);
            Frees(f, 2, 2, 0, f') && Owned(f') == {2, 3} && Takes(f', 5, 1, 5, f', 6)
  {
    SmallSpans();
    NoRun(1);
    OnePending([3, 2]);
    var f, f' := FreeState([], map[2 := [3]], map[]), FreeState([], map[2 := [3, 2]], map[]);
    assert ListOf(f.pending, 2) + SpanSeq(2, 1) == [3, 2];
    assert f.pending[2 := [3, 2]] == f'.pending;
    assert Elems([3, 2]) == {2, 3};
  }

  lemma RuinPrepares()
    ensures var (states, _) := Ruin();
            Prepare(states[4], states[5], FreeState([], map[2 := [3, 2]], map[]), 1, 5, [2, 3])
  {
    RuinListed();
    hide Frees, Takes, Owned;
    var (states, _) := Ruin();
    SmallSpans();
    hide Elems;
    assert |{2, 3}| == 2 && SerialSize(2) / PAGE_SIZE == 0;
    assert ListSpan(states[4].disk, 2) == {2} && {2, 4} - {2} + {5} == {4, 5} && {4} + {5} == {4, 5};
  }

  lemma RuinRollsBack()
    ensures var (states, _) := Ruin();
            && PutPage(states[5], states[6], 5, List([2, 3], 0))
            && LateRollback(states[6], states[7]) && CloseWriter(states[7], states[8])
  {
    var (states, _) := Ruin();
    SmallSpans();
    OnePending([3, 2]);
    assert states[6].free.pending - {2} == map[];
    assert Marked(map[2 := true, 3 := true]) == {2, 3};
  }

  lemma RuinTakes()
    ensures var (states, _) := Ruin(); AllocSpan(states[9], states[10], 2, 2)
  {
    var (states, _) := Ruin();
    SmallSpans();
    var f, f' := states[9].free, states[10].free;
    assert f.cache - {2, 3} == map[];
    forall p: nat | RunAt(f.ids, p, 2) ensures 2 <= p {
      assert p in Span(p, 2);
    }
    assert Takes(f, 4, 2, 2, f', 4);
    assert {2, 3} + {2, 3} == {2, 3} && {} + {2, 3} == {2, 3};
  }

  lemma RuinListedAgain()
    ensures var f, f' := FreeState([], map[], map[]), FreeState([], map[2 := [2]], map[]);
            Frees(f, 2, 2, 0, f') && Owned(f') == {2} && Takes(f', 4, 1, 4, f', 5)
  {
    SmallSpans();
    NoRun(1);
    OnePending([2]);
    var f, f' := FreeState([], map[], map[]), FreeState([], map[2 := [2]], map[]);
    assert ListOf(f.pending, 2) + SpanSeq(2, 1) == [2];
    assert f.pending[2 := [2]] == f'.pending;
  }

  lemma RuinPreparesAgain()
    ensures var (states, _) := Ruin();
            Prepare(states[10], states[11], FreeState([], map[2 := [2]], map[]), 1, 4, [2])
  {
    RuinListedAgain();
    hide Frees, Takes, Owned;
    var (states, _) := Ruin();
    SmallSpans();
    hide Elems;
    assert |{2}| == 1 && SerialSize(1) / PAGE_SIZE == 0;
    assert ListSpan(states[10].disk, 2) == {2} && {2, 3} - {2} + {4} == {3, 4} && {2, 3} + {4} == {2, 3, 4};
  }

  lemma RuinEnds()
    ensures var (states, _) := Ruin();
            Init(states[0]) && PutPage(states[11], states[12], 3, Tree([], [9])) &&
            PutPage(states[12], states[13], 2, Tree([], [8]))
  {
  }

  lemma RuinStep(i: nat)
    requires i < |Ruin().1| && i < |Ruin().0| - 1
    ensures FaultNext(Ruin().0[i], Ruin().0[i + 1], Ruin().1[i])
  {
    RuinBegins();
    RuinBeginsAgain();
    RuinFrees();
    RuinAllocates();
    RuinPrepares();
    RuinRollsBack();
    RuinTakes();
    RuinPreparesAgain();
    RuinEnds();
    hide Init, BeginReader, BeginWriter, FreeSpan, AllocSpan, Prepare, PutPage, LateRollback, CloseWriter;
  }

  lemma RuinRuns()
    ensures var (states, steps) := Ruin(); FaultRun(states, steps)
  {
    RuinEnds();
    var (states, steps) := Ruin();
    assert |states| == 14 && |steps| == 13;
    hide Ruin, Init, FaultNext;
    forall i | 0 <= i < |steps| ensures FaultNext(states[i], states[i + 1], steps[i]) {
      RuinStep(i);
    }
  }

  /** The late rollback gives the committed root and list page away, and then neither the open reader nor a reopened
      store finds them. */
  lemma LateRollbackRuinsStore()
    ensures var (states, steps) := Ruin();
            && FaultRun(states, steps) && steps[6] == Fallen
            && 2 in states[7].free.ids && 3 in states[7].free.ids && states[7].live == {2, 3}
            && var s := states[13];
               && Readable(s) && Committed(s).root == 3 && Committed(s).freelist == 2
               && 0 in s.readers && s.readers[0].meta.root == 3 && !Intact(s.disk, s.readers[0].image)
               && forall s', lost :: !Crash(s, s', lost)
  {
    RuinRuns();
    hide FaultRun;
    var (states, _) := Ruin();
    assert 3 in states[13].readers[0].image;
  }
}
