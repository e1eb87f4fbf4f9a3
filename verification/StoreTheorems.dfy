/** What holds over every run of the store: isolation, crash atomicity, conservation, exact rollback. */
module StoreTheorems {
  import opened Common
  import opened PageIds
  import opened FreeListSpec
  import opened Store
  import opened StoreInvariant

  // ----- Snapshot isolation -----

  /** Each page of the path is on disk and is a child of the one before it. */
  ghost predicate IsPath(disk: map<nat, Block>, path: seq<nat>) {
    && (forall k :: 0 <= k < |path| ==> path[k] in disk)
    && (forall k :: 0 <= k < |path| - 1 ==> path[k + 1] in Children(disk[path[k]]))
  }

  lemma {:induction false} ReaderPersists(states: seq<State>, steps: seq<Step>, i: nat, j: nat, r: nat)
    requires Run(states, steps) && i <= j < |states|
    requires forall k :: i <= k <= j ==> r in states[k].readers
    ensures states[j].readers[r] == states[i].readers[r]
  {
    if i < j {
      ReaderPersists(states, steps, i, j - 1, r);
      assert Next(states[j - 1], states[j], steps[j - 1]);
      assert r in states[j - 1].readers && r in states[j].readers;
    }
  }

  lemma {:induction false} PathStays(disk: map<nat, Block>, image: map<nat, Block>, path: seq<nat>)
    requires Intact(disk, image) && Closed(image, image.Keys)
    requires path != [] && path[0] in image
    ensures IsPath(disk, path) <==> IsPath(image, path)
    ensures IsPath(disk, path) ==> forall k :: 0 <= k < |path| ==> path[k] in image
  {
    if |path| > 1 {
      var front := path[..|path| - 1];
      PathStays(disk, image, front);
      if IsPath(disk, path) {
        assert IsPath(disk, front);
        assert front[|front| - 1] in image;
      }
      if IsPath(image, path) {
        assert IsPath(image, front);
      }
    }
  }

  /** A reader that began at step `i` and is still open at state `j` finds every committed page of state `i`
      as it was: same contents, same paths from its root; none of them is free or in the writer's hands as new. */
  lemma SnapshotIsolation(states: seq<State>, steps: seq<Step>, i: nat, j: nat, r: nat)
    requires Run(states, steps) && i < j < |states| && steps[i] == DoBeginReader(r)
    requires forall k :: i < k <= j ==> r in states[k].readers
    ensures Readable(states[i])
    ensures forall p :: p in states[i].live ==>
                          && p in states[i].disk && p in states[j].disk
                          && states[j].disk[p] == states[i].disk[p]
                          && p !in states[j].free.ids
                          && (p in states[j].live ||
                              PendingAfter(states[j].free.pending, Committed(states[i]).txid, p))
    ensures forall path :: path != [] && path[0] == Committed(states[i]).root ==>
                             (IsPath(states[j].disk, path) <==> IsPath(states[i].disk, path))
    ensures states[j].writer.Some? && Unswitched(states[j].writer.value) ==>
              states[j].writer.value.taken !! states[i].live
  {
    var s, t := states[i], states[j];
    RunKeeps(states, steps, i);
    RunKeeps(states, steps, j);
    assert Next(s, states[i + 1], steps[i]);
    ReaderPersists(states, steps, i + 1, j, r);
    RestrictImage(s.disk, s.live);
    var image := Restrict(s.disk, s.live);
    assert t.readers[r] == Snapshot(Committed(s), image);
    assert ReaderSafe(t, t.readers[r]);
    ReadersNotFree(t, r);
    forall p | p in s.live ensures p !in t.free.ids {
      assert p in image;
      assert p in t.free.ids ==> p in Elems(t.free.ids);
    }
    forall path | path != [] && path[0] == Committed(s).root
      ensures IsPath(t.disk, path) <==> IsPath(s.disk, path)
    {
      PathStays(t.disk, image, path);
      PathStays(s.disk, image, path);
    }
  }

  /** No allocation, neither of the writer's tree nor of the list page, hands out a page of an open reader. */
  lemma AllocationSparesReaders(states: seq<State>, steps: seq<Step>, i: nat, r: nat, n: nat, start: nat)
    requires Run(states, steps) && i < |steps| && r in states[i].readers
    requires steps[i] == DoAllocate(n, start) ||
             (steps[i].DoPrepare? && steps[i].n == n && steps[i].start == start)
    ensures Span(start, n) !! states[i].readers[r].image.Keys
    ensures Span(start, n) !! states[i].live
  {
    RunKeeps(states, steps, i);
    var s, s' := states[i], states[i + 1];
    assert Next(s, s', steps[i]);
    if steps[i].DoAllocate? {
      AllocSpanKeeps(s, s', n, start);
    } else {
      PrepareKeeps(s, s', steps[i].mid, n, start, steps[i].listed);
    }
  }

  // ----- Crash atomicity -----

  ghost function Reopened(s: State, lost: bool): State
    requires Inv(s)
  {
    SurvivorsComplete(s, lost);
    var (meta0, meta1, live) := Survivors(s, lost);
    var listed := s.disk[GetMeta(meta0, meta1).value.freelist].ids;
    State(meta0, meta1, s.disk, live, FreeState(Sort(listed), map[], map p | p in listed :: true), map[], None)
  }

  /** The store the writer found when it began, whole and unchanged. */
  ghost predicate OldStore(s: State, w: Writer) {
    && Readable(s) && Committed(s) == w.base.meta
    && s.live == w.base.image.Keys && Intact(s.disk, w.base.image)
  }

  /** The store the writer meant to leave: its own pages as buffered, all others as they were. */
  ghost predicate NewStore(s: State, w: Writer) {
    && Readable(s) && Committed(s) == w.meta && s.live == w.work
    && forall p :: p in w.work ==>
         && p in s.disk
         && if p in w.taken then p in w.buffers && s.disk[p] == w.buffers[p]
            else p in w.base.image && s.disk[p] == w.base.image[p]
  }

  /** Reopening after a crash succeeds with a complete store and a free list that names every other page: the old
      store until the meta is written, the new one after it, either while the meta write is unsynced. */
  ghost predicate CrashSafe(s: State, lost: bool) {
    && Inv(s)
    && var s' := Reopened(s, lost);
    && Crash(s, s', lost) && Inv(s')
    && Recoverable(s'.disk, Committed(s'), s'.live)
    && Elems(s'.free.ids) == Universe(Committed(s').total) - s'.live && s'.free.pending == map[]
    && (s.writer.Some? ==>
          var w := s.writer.value;
          && (Unswitched(w) ==> OldStore(s', w))
          && (w.phase == MetaWritten && lost ==> OldStore(s', w))
          && (w.phase == MetaWritten && !lost ==> NewStore(s', w)))
  }

  lemma ReopenedList(s: State, lost: bool)
    requires Inv(s)
    ensures var s' := Reopened(s, lost);
            && Crash(s, s', lost) && Inv(s')
            && Elems(s'.free.ids) == Universe(Committed(s').total) - s'.live && s'.free.pending == map[]
  {
    SurvivorsComplete(s, lost);
    var s' := Reopened(s, lost);
    CrashKeeps(s, s', lost);
    assert Pages(s'.free.pending) == {};
    OwnedParts(s'.free);
  }

  lemma ReopenedStore(s: State, lost: bool)
    requires Inv(s) && s.writer.Some?
    ensures var s', w := Reopened(s, lost), s.writer.value;
            && (Unswitched(w) ==> OldStore(s', w))
            && (w.phase == MetaWritten && lost ==> OldStore(s', w))
            && (w.phase == MetaWritten && !lost ==> NewStore(s', w))
  {
    SurvivorsComplete(s, lost);
    RestrictImage(s.disk, s.live);
  }

  lemma CrashRecovers(s: State, lost: bool)
    requires Inv(s)
    ensures CrashSafe(s, lost)
  {
    ReopenedList(s, lost);
    if s.writer.Some? {
      ReopenedStore(s, lost);
    }
    var s' := Reopened(s, lost);
    assert Recoverable(s'.disk, Committed(s'), s'.live);
    hide Inv, OldStore, NewStore, Crash, Recoverable;
  }

  /** A crash at any point of a run is safe. */
  lemma CrashAtomicity(states: seq<State>, steps: seq<Step>, i: nat, lost: bool)
    requires Run(states, steps) && i < |states|
    ensures CrashSafe(states[i], lost)
  {
    RunKeeps(states, steps, i);
    CrashRecovers(states[i], lost);
  }

  /** The two slots never hold the same parity, so a commit always writes over the slot that is not committed. */
  lemma CommitSparesCommittedSlot(states: seq<State>, steps: seq<Step>, i: nat)
    requires Run(states, steps) && i < |steps| && steps[i] == DoWriteMeta
    ensures Readable(states[i]) && Readable(states[i + 1])
    ensures var c := Committed(states[i]);
            && (if c.txid % 2 == 0 then states[i + 1].meta0 == states[i].meta0 == c
                else states[i + 1].meta1 == states[i].meta1 == c)
            && Committed(states[i + 1]).txid == c.txid + 1
  {
    RunKeeps(states, steps, i);
    assert Next(states[i], states[i + 1], steps[i]);
    WriteMetaKeeps(states[i], states[i + 1]);
  }

  // ----- Page conservation -----

  /** Without an uncommitted writer every page is committed, free or pending, and only one of these. */
  lemma PageConservation(states: seq<State>, steps: seq<Step>, i: nat)
    requires Run(states, steps) && i < |states|
    ensures Readable(states[i])
    ensures var s := states[i];
            var used := if s.writer.Some? && Unswitched(s.writer.value) then s.writer.value.work else s.live;
            && Universe(Mark(s)) == used + Elems(s.free.ids) + Pages(s.free.pending)
            && used !! Elems(s.free.ids) !! Pages(s.free.pending)
            && Increasing(s.free.ids)
            && (forall t :: t in s.free.pending ==> Distinct(s.free.pending[t]))
            && (forall t, u, p :: Holds(s.free.pending, t, p) && Holds(s.free.pending, u, p) ==> t == u)
  {
    RunKeeps(states, steps, i);
    OwnedParts(states[i].free);
  }

  // ----- The free list over a run -----

  lemma BeginReleases(s: State, s': State, minId: nat)
    requires WellFormed(s.free) && BeginWriter(s, s', minId)
    ensures Increasing(s'.free.ids) && Owned(s'.free) == Owned(s.free)
    ensures minId > 0 ==> s'.free.pending == Later(s.free.pending, minId - 1)
    ensures s.readers == map[] ==> minId == UINT64_MAX
    ensures forall t :: t in s'.free.pending ==> minId <= t
    ensures forall r :: r in s.readers ==> minId <= s.readers[r].meta.txid
  {
    if minId > 0 {
      ReleasesKeeps(s.free, minId - 1, s'.free);
    }
  }

  /** Transaction `t`'s list has to stay: an open reader is not newer than it, or its txid has left the 64 bits. */
  ghost predicate HeldBack(readers: map<nat, Snapshot>, t: nat) {
    t >= UINT64_MAX || exists r :: r in readers && readers[r].meta.txid <= t
  }

  lemma BeginHolds(s: State, s': State, minId: nat)
    requires BeginWriter(s, s', minId)
    ensures forall t :: t in s'.free.pending <==> t in s.free.pending && HeldBack(s.readers, t)
    ensures forall t :: t in s'.free.pending ==> s'.free.pending[t] == s.free.pending[t]
  {
    forall t: nat ensures t >= minId <==> HeldBack(s.readers, t) {
      if t >= minId && minId != UINT64_MAX {
        var r :| r in s.readers && s.readers[r].meta.txid == minId;
        assert s.readers[r].meta.txid <= t;
      }
    }
  }

  lemma NoReadersNoPending(s: State, s': State, minId: nat)
    requires Readable(s) && Idle(s) && BeginWriter(s, s', minId) && s.readers == map[]
    requires Committed(s).txid < UINT64_MAX
    ensures s'.free.pending == map[]
  {
    assert minId == UINT64_MAX;
    assert forall t :: t in s.free.pending ==> t <= Committed(s).txid;
  }

  /** After a writer begins, exactly the lists of transactions not older than the oldest reader are left: none without
      readers, as long as the txids have not used up their 64 bits. */
  lemma ReleaseAtBegin(states: seq<State>, steps: seq<Step>, i: nat)
    requires Run(states, steps) && i < |steps| && steps[i].DoBeginWriter?
    ensures var before, after, minId := states[i].free, states[i + 1].free, steps[i].minId;
            && Increasing(after.ids) && Owned(after) == Owned(before)
            && (minId > 0 ==> after.pending == Later(before.pending, minId - 1))
            && (states[i].readers == map[] ==> minId == UINT64_MAX)
            && (forall t :: t in after.pending ==> minId <= t)
            && (forall r :: r in states[i].readers ==> minId <= states[i].readers[r].meta.txid)
            && (forall t :: t in after.pending <==> t in before.pending && HeldBack(states[i].readers, t))
            && (forall t :: t in after.pending ==> after.pending[t] == before.pending[t])
            && Readable(states[i])
            && (states[i].readers == map[] && Committed(states[i]).txid < UINT64_MAX ==> after.pending == map[])
  {
    hide Inv, Owned, WellFormed, BeginWriter, Idle, GetMeta, HeldBack;
    RunKeeps(states, steps, i);
    var s, s', minId := states[i], states[i + 1], steps[i].minId;
    assert Next(s, s', steps[i]);
    SoundAtBegin(s, s', minId);
    BeginReleases(s, s', minId);
    BeginHolds(s, s', minId);
    if s.readers == map[] && Committed(s).txid < UINT64_MAX {
      NoReadersNoPending(s, s', minId);
    }
  }

  lemma SoundAtBegin(s: State, s': State, minId: nat)
    requires Inv(s) && BeginWriter(s, s', minId)
    ensures WellFormed(s.free) && Increasing(s.free.ids) && Readable(s) && Idle(s)
  {
  }

  /** The index marks only owned pages, so freeing a page the writer uses never trips the already-freed assertion. */
  lemma IndexSound(states: seq<State>, steps: seq<Step>, i: nat)
    requires Run(states, steps) && i < |states|
    ensures Marked(states[i].free.cache) <= Owned(states[i].free)
    ensures states[i].writer.Some? && states[i].writer.value.phase == Editing ==>
              states[i].writer.value.work !! Marked(states[i].free.cache)
  {
    RunKeeps(states, steps, i);
  }

  /** Rereading the list, on reopen or on rollback, makes the index exact. */
  lemma IndexRebuilt(states: seq<State>, steps: seq<Step>, i: nat)
    requires Run(states, steps) && i < |steps| && (steps[i].DoCrash? || steps[i].DoRollback?)
    ensures Marked(states[i + 1].free.cache) == Owned(states[i + 1].free)
  {
    RunKeeps(states, steps, i);
    var s, s' := states[i], states[i + 1];
    assert Next(s, s', steps[i]);
    if steps[i].DoCrash? {
      SurvivorsComplete(s, steps[i].lost);
      SortIncreasing(s.disk[Committed(s').freelist].ids);
      assert Pages(s'.free.pending) == {};
    }
  }

  lemma {:induction false} BegunPersists(states: seq<State>, steps: seq<Step>, i: nat, j: nat)
    requires Run(states, steps) && i <= j < |states|
    requires forall k :: i <= k <= j ==> states[k].writer.Some? && states[k].writer.value.phase == Editing
    ensures states[j].writer.value.begun == states[i].writer.value.begun
  {
    if i < j {
      BegunPersists(states, steps, i, j - 1);
      assert Next(states[j - 1], states[j], steps[j - 1]);
      assert states[j - 1].writer.Some? && states[j].writer.Some?;
    }
  }

  /** Whatever the writer freed and allocated, and whatever readers did meanwhile, a rollback brings back the
      free and pending lists of the moment it began. */
  lemma RollbackUndoes(states: seq<State>, steps: seq<Step>, i: nat, j: nat)
    requires Run(states, steps) && i < j < |steps|
    requires steps[i].DoBeginWriter? && steps[j] == DoRollback
    requires forall k :: i < k <= j ==> states[k].writer.Some? && states[k].writer.value.phase == Editing
    ensures states[j + 1].free.ids == states[i + 1].free.ids
    ensures states[j + 1].free.pending == states[i + 1].free.pending
    ensures states[j + 1].disk == states[j].disk && states[j + 1].live == states[j].live
  {
    hide Inv, Run, Releases, IsMinReader, RestoresFrom, GetMeta;
    RunShape(states, steps);
    RunKeeps(states, steps, j);
    RunStep(states, steps, i);
    RunStep(states, steps, j);
    BegunPersists(states, steps, i + 1, j);
    RollbackRestores(states[j], states[j + 1]);
  }
}
