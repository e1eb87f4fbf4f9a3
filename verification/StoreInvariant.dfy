/** Every step of the store keeps its invariant. */
module StoreInvariant {
  import opened Common
  import opened PageIds
  import opened FreeListSpec
  import opened Store

  lemma InitHolds(s: State)
    requires Init(s)
    ensures Inv(s)
  {
    assert Elems(s.disk[2].ids) == Universe(4) - s.live;
    assert Owned(s.free) == {};
    assert Universe(4) == {2, 3};
  }

  lemma RestrictImage(disk: map<nat, Block>, live: set<nat>)
    requires live <= disk.Keys && Closed(disk, live)
    ensures Restrict(disk, live).Keys == live
    ensures Intact(disk, Restrict(disk, live)) && Closed(Restrict(disk, live), live)
  {
  }

  /** What the invariant says, part by part. */
  lemma SoundParts(s: State)
    requires Inv(s)
    ensures Slots(s) && Readable(s) && Recoverable(s.disk, Committed(s), s.live) && WellFormed(s.free) && WriterOk(s)
    ensures forall r :: r in s.readers ==> ReaderSafe(s, s.readers[r])
  {
    hide Slots, Recoverable, WellFormed, WriterOk, ReaderSafe;
    ReadableSlots(s);
  }

  lemma ReadableSlots(s: State)
    requires Slots(s)
    ensures Readable(s)
  {
  }

  lemma SlotsKept(s: State, s': State)
    requires Slots(s) && s'.meta0 == s.meta0 && s'.meta1 == s.meta1
    ensures Slots(s') && Readable(s) && Readable(s') && Committed(s') == Committed(s)
  {
  }

  lemma SoundFrom(s: State)
    requires Slots(s) && Readable(s) && Recoverable(s.disk, Committed(s), s.live) && WellFormed(s.free) && WriterOk(s)
    requires forall r :: r in s.readers ==> ReaderSafe(s, s.readers[r])
    ensures Inv(s)
  {
    hide Slots, Recoverable, WellFormed, WriterOk, ReaderSafe;
  }

  lemma EditingParts(s: State)
    requires Inv(s) && s.writer.Some? && s.writer.value.phase == Editing
    ensures Readable(s) && EditingOk(s, s.writer.value)
    ensures var w, c := s.writer.value, Committed(s);
            2 <= c.total <= w.meta.total < MAX_PAGES && w.meta.freelist == c.freelist
  {
    assert Committed(s).root in Universe(Committed(s).total);
  }

  lemma BeginReaderKeeps(s: State, s': State, id: nat)
    requires Inv(s) && BeginReader(s, s', id)
    ensures Inv(s')
  {
    RestrictImage(s.disk, s.live);
    assert ReaderSafe(s', s'.readers[id]);
    forall r | r in s'.readers ensures ReaderSafe(s', s'.readers[r]) {
      assert r != id ==> ReaderSafe(s, s.readers[r]);
    }
  }

  lemma CloseReaderKeeps(s: State, s': State, id: nat)
    requires Inv(s) && CloseReader(s, s', id)
    ensures Inv(s')
  {
    SoundParts(s);
    hide Inv, Recoverable, WellFormed, Partition, PendingAfter, PendingUpto, Closed, Intact, BegunOk, Universe, GetMeta;
    forall r | r in s'.readers ensures ReaderSafe(s', s'.readers[r]) {
      assert ReaderSafe(s, s.readers[r]);
    }
    CloseReaderWriter(s, s', id);
    SoundFrom(s');
  }

  lemma CloseReaderWriter(s: State, s': State, id: nat)
    requires CloseReader(s, s', id) && Readable(s) && WriterOk(s)
    ensures Readable(s') && WriterOk(s')
  {
    hide Recoverable, WellFormed, Partition, PendingUpto, Closed, Universe, GetMeta;
  }

  /** Releasing up to `minId - 1` leaves every page a live reader may still need. */
  lemma ReleaseSparesReaders(s: State, minId: nat, f': FreeState)
    requires Inv(s) && IsMinReader(s.readers, minId)
    requires minId > 0 && Releases(s.free, minId - 1, f')
    ensures forall r, p :: r in s.readers && PendingAfter(s.free.pending, s.readers[r].meta.txid, p) ==>
                             PendingAfter(f'.pending, s.readers[r].meta.txid, p)
  {
    HoldsSplit(s.free.pending, minId - 1);
    forall r, p | r in s.readers && PendingAfter(s.free.pending, s.readers[r].meta.txid, p)
      ensures PendingAfter(f'.pending, s.readers[r].meta.txid, p)
    {
      var t: nat :| t > s.readers[r].meta.txid && Holds(s.free.pending, t, p);
      assert Holds(f'.pending, t, p);
    }
  }

  /** Readers stay safe when their pages do not change and each is still committed or held back. */
  lemma ReadersKept(s: State, s': State)
    requires Inv(s) && Readable(s') && s'.readers == s.readers
    requires Committed(s).txid <= Committed(s').txid
    requires forall r, p :: r in s.readers && p in s.readers[r].image ==>
                              p in s'.disk && s'.disk[p] == s.disk[p]
    requires forall r, p :: r in s.readers && p in s.readers[r].image && p in s.live ==>
                              p in s'.live || PendingAfter(s'.free.pending, s.readers[r].meta.txid, p)
    requires forall r, p :: r in s.readers && p in s.readers[r].image &&
                              PendingAfter(s.free.pending, s.readers[r].meta.txid, p) ==>
                              p in s'.live || PendingAfter(s'.free.pending, s.readers[r].meta.txid, p)
    ensures forall r :: r in s'.readers ==> ReaderSafe(s', s'.readers[r])
  {
    forall r | r in s'.readers ensures ReaderSafe(s', s'.readers[r]) {
      assert ReaderSafe(s, s.readers[r]);
    }
  }

  lemma BeginWriterReaders(s: State, s': State, minId: nat)
    requires Inv(s) && BeginWriter(s, s', minId)
    ensures forall r :: r in s'.readers ==> ReaderSafe(s', s'.readers[r])
  {
    if minId > 0 {
      ReleaseSparesReaders(s, minId, s'.free);
    }
    ReadersKept(s, s');
  }

  lemma ReleasedIdle(f: FreeState, live: set<nat>, total: nat, tid: nat, upto: nat, f': FreeState)
    requires WellFormed(f) && Partition(f, live, total) && PendingUpto(f.pending, tid)
    requires Releases(f, upto, f')
    ensures WellFormed(f') && Partition(f', live, total) && PendingUpto(f'.pending, tid)
  {
    ReleasesKeeps(f, upto, f');
  }

  lemma BeginWriterFree(s: State, s': State, minId: nat)
    requires Inv(s) && BeginWriter(s, s', minId)
    ensures WellFormed(s'.free) && Idle(s')
  {
    var c := Committed(s);
    assert Idle(s);
    if minId > 0 {
      ReleasedIdle(s.free, s.live, c.total, c.txid, minId - 1, s'.free);
    }
  }

  lemma BeginWriterKeeps(s: State, s': State, minId: nat)
    requires Inv(s) && BeginWriter(s, s', minId)
    ensures Inv(s')
  {
    hide Inv, WellFormed, ReaderSafe, Recoverable, Slots, Idle, IsMinReader, Releases, GetMeta, Restrict;
    BeginWriterFree(s, s', minId);
    BeginWriterReaders(s, s', minId);
    SoundParts(s);
    SlotsKept(s, s');
    NewWriterOk(s', s'.writer.value);
    SoundFrom(s');
  }

  lemma NewWriterOk(s: State, w: Writer)
    requires Slots(s) && Recoverable(s.disk, Committed(s), s.live) && WellFormed(s.free) && Idle(s)
    requires var c := Committed(s);
             w == Writer(c.(txid := c.txid + 1), Editing, s.live, {}, map[],
                         s.free, Snapshot(c, Restrict(s.disk, s.live)), c)
    ensures EditingOk(s, w)
  {
    OwnedParts(s.free);
    assert w.meta.txid !in s.free.pending;
    assert s.free.pending - {w.meta.txid} == s.free.pending;
    assert Uncommitted(s, w);
  }

  /** Freeing only adds to pending lists, so what readers hold back stays held back. */
  lemma ReadersAfterFree(s: State, s': State)
    requires Inv(s) && s' == s.(free := s'.free, writer := s'.writer)
    requires forall t: nat, p: nat :: Holds(s.free.pending, t, p) ==> Holds(s'.free.pending, t, p)
    ensures forall r :: r in s'.readers ==> ReaderSafe(s', s'.readers[r])
  {
    ReadersKept(s, s');
  }

  lemma FreeSpanKeeps(s: State, s': State, start: nat, overflow: nat)
    requires Inv(s) && FreeSpan(s, s', start, overflow)
    ensures Inv(s')
  {
    var w, w' := s.writer.value, s'.writer.value;
    var span := Span(start, overflow + 1);
    assert start in span;
    FreesKeeps(s.free, w.meta.txid, start, overflow, s'.free);
    ReadersAfterFree(s, s');
    assert Partition(s'.free, w'.work, w'.meta.total);
    assert Uncommitted(s', w');
  }

  /** A reader's page is never free: it is committed, hence in the writer's hands, or pending. */
  lemma ReadersNotFree(s: State, r: nat)
    requires Inv(s) && r in s.readers
    ensures s.readers[r].image.Keys !! Elems(s.free.ids)
    ensures s.writer.Some? && s.writer.value.phase == Editing ==>
              s.readers[r].image.Keys <= Universe(s.writer.value.meta.total)
  {
    assert ReaderSafe(s, s.readers[r]);
    OwnedParts(s.free);
    forall p | p in s.readers[r].image
      ensures p !in s.free.ids
      ensures s.writer.Some? && s.writer.value.phase == Editing ==> p in Universe(s.writer.value.meta.total)
    {
      if p in s.live {
        LiveNotFree(s, p);
      } else {
        var t: nat :| t > s.readers[r].meta.txid && Holds(s.free.pending, t, p);
        InPages(s.free.pending, p);
        assert p in Owned(s.free);
      }
    }
  }

  lemma ListOfInPages(pending: map<nat, seq<nat>>, tid: nat)
    ensures Elems(ListOf(pending, tid)) <= Pages(pending)
  {
    forall p | p in Elems(ListOf(pending, tid)) ensures p in Pages(pending) {
      assert Holds(pending, tid, p);
    }
  }

  lemma LiveNotFree(s: State, p: nat)
    requires Inv(s) && p in s.live
    ensures p !in s.free.ids
  {
    OwnedParts(s.free);
    if s.writer.Some? {
      ListOfInPages(s.free.pending, s.writer.value.meta.txid);
    }
    assert p in s.free.ids ==> p in Elems(s.free.ids) && p in Owned(s.free);
  }

  /** A run taken by the writer touches no committed page and no reader's page. */
  lemma TakenSpan(f: FreeState, total: nat, n: nat, start: nat, f': FreeState, total': nat, work: set<nat>)
    requires WellFormed(f) && total >= 2
    requires Partition(f, work, total)
    requires Takes(f, total, n, start, f', total')
    ensures WellFormed(f') && f'.pending == f.pending
    ensures Elems(f'.ids) == Elems(f.ids) - Span(start, n)
    ensures Span(start, n) !! work && start in Span(start, n)
    ensures Partition(f', work + Span(start, n), total')
    ensures forall p :: p in Span(start, n) ==> p in f.ids || p >= total
  {
    OwnedParts(f);
    assert start in Span(start, n);
    if start < total {
      AllocatesKeeps(f, n, start, f');
      assert Span(start, n) <= Owned(f);
    } else {
      assert Universe(total') == Universe(total) + Span(start, n);
    }
  }

  lemma AllocSpanKeeps(s: State, s': State, n: nat, start: nat)
    requires Inv(s) && AllocSpan(s, s', n, start)
    ensures Inv(s')
    ensures Span(start, n) !! s.live
    ensures forall r :: r in s.readers ==> Span(start, n) !! s.readers[r].image.Keys
  {
    var w, w' := s.writer.value, s'.writer.value;
    TakenSpan(s.free, w.meta.total, n, start, s'.free, w'.meta.total, w.work);
    TakenApart(s, Span(start, n));
    ReadersKept(s, s');
    assert Uncommitted(s', w');
  }

  /** Ids that were free, or lie past the end, belong to no committed tree and to no reader. */
  lemma TakenApart(s: State, span: set<nat>)
    requires Inv(s) && s.writer.Some? && s.writer.value.phase == Editing
    requires forall p :: p in span ==> p in s.free.ids || p >= s.writer.value.meta.total
    ensures span !! s.live
    ensures forall r :: r in s.readers ==> span !! s.readers[r].image.Keys
  {
    forall p | p in s.live ensures p !in span {
      LiveNotFree(s, p);
    }
    forall r | r in s.readers ensures span !! s.readers[r].image.Keys {
      ReadersNotFree(s, r);
    }
  }

  /** The old list page leaves the working set like any freed span. */
  lemma OldListFreed(s: State, mid: FreeState)
    requires Inv(s) && s.writer.Some? && s.writer.value.phase == Editing
    requires var c := Committed(s);
             Frees(s.free, s.writer.value.meta.txid, c.freelist, s.disk[c.freelist].overflow, mid)
    ensures var w := s.writer.value;
            var span := ListSpan(s.disk, Committed(s).freelist);
            && WellFormed(mid)
            && Partition(mid, w.work - span, w.meta.total)
            && PendingUpto(mid.pending, w.meta.txid)
            && Elems(ListOf(mid.pending, w.meta.txid)) == Elems(ListOf(s.free.pending, w.meta.txid)) + span
            && mid.ids == s.free.ids && mid.pending - {w.meta.txid} == s.free.pending - {w.meta.txid}
            && (forall t: nat, p: nat :: Holds(s.free.pending, t, p) ==> Holds(mid.pending, t, p))
  {
    var c := Committed(s);
    assert c.freelist in ListSpan(s.disk, c.freelist);
    FreesKeeps(s.free, s.writer.value.meta.txid, c.freelist, s.disk[c.freelist].overflow, mid);
  }

  lemma PrepareKeeps(s: State, s': State, mid: FreeState, n: nat, start: nat, listed: seq<nat>)
    requires Inv(s) && Prepare(s, s', mid, n, start, listed)
    ensures Inv(s')
    ensures Span(start, n) !! s.live
    ensures forall r :: r in s.readers ==> Span(start, n) !! s.readers[r].image.Keys
  {
    hide Inv, WellFormed, ReaderSafe, Recoverable, Partition, Takes, Frees, Closed, Owned, EncodeSlots, SlotCapacity,
      SerialSize, Uncommitted, BegunOk, Increasing, PendingUpto, PendingAfter, Slots, Universe, GetMeta, Elems;
    var w, w' := s.writer.value, s'.writer.value;
    EditingParts(s);
    OldListFreed(s, mid);
    var kept := w.work - ListSpan(s.disk, Committed(s).freelist);
    TakenSpan(mid, w.meta.total, n, start, s'.free, w'.meta.total, kept);
    PreparedTaken(s, mid, n, start, s'.free, w'.meta.total);
    ReadersAfterFree(s, s');
    PreparedUncommitted(s, s', start, n);
    PreparedListFits(mid, w.meta.total, n, start, s'.free, w'.meta.total, kept, listed);
    PreparedImage(s, s', start, n, listed);
    PreparedKeepsOld(s, s', start, n);
    PreparedSound(s, s');
  }

  lemma PreparedSound(s: State, s': State)
    requires Inv(s) && s.writer.Some? && s'.writer.Some? && s'.writer.value.phase == Writing
    requires s' == s.(free := s'.free, writer := s'.writer) && WellFormed(s'.free) && Readable(s')
    requires forall r :: r in s'.readers ==> ReaderSafe(s', s'.readers[r])
    requires WritingOk(s', s'.writer.value)
    ensures Inv(s')
  {
    hide Inv, WellFormed, ReaderSafe, Recoverable, WritingOk, Slots, GetMeta;
    SoundParts(s);
    SlotsKept(s, s');
    SoundFrom(s');
  }

  lemma PreparedTaken(s: State, mid: FreeState, n: nat, start: nat, f': FreeState, total': nat)
    requires Inv(s) && s.writer.Some? && s.writer.value.phase == Editing && mid.ids == s.free.ids
    requires forall p :: p in Span(start, n) ==> p in mid.ids || p >= s.writer.value.meta.total
    requires Takes(mid, s.writer.value.meta.total, n, start, f', total')
    ensures Span(start, n) !! s.live && 1 <= n && total' < MAX_PAGES
    ensures forall r :: r in s.readers ==> Span(start, n) !! s.readers[r].image.Keys
  {
    TakenApart(s, Span(start, n));
    EditingParts(s);
  }

  /** No run can own so many pages that the 32-bit size of the list wraps, so the list fits its pages. */
  lemma PreparedListFits(mid: FreeState, total: nat, n: nat, start: nat, f': FreeState, total': nat,
                         kept: set<nat>, listed: seq<nat>)
    requires WellFormed(mid) && 2 <= total < MAX_PAGES && Partition(mid, kept, total)
    requires n == SerialSize(|Owned(mid)|) / PAGE_SIZE + 1
    requires Takes(mid, total, n, start, f', total')
    requires Increasing(listed) && Elems(listed) == Owned(f')
    ensures |EncodeSlots(listed)| <= SlotCapacity(n)
  {
    OwnedCount(mid, kept, total);
    if start < total {
      AllocatesKeeps(mid, n, start, f');
    }
    SubsetCount(Owned(f'), Owned(mid));
    DistinctCount(listed);
    ListFits(|Owned(mid)|, listed);
  }

  lemma OwnedCount(f: FreeState, kept: set<nat>, total: nat)
    requires 2 <= total && Partition(f, kept, total)
    ensures |Owned(f)| <= total
  {
    assert Universe(total) == Span(2, total - 2);
    SpanCount(2, total - 2);
    SubsetCount(Owned(f), Universe(total));
  }

  lemma PreparedUncommitted(s: State, s': State, start: nat, n: nat)
    requires Inv(s) && s.writer.Some? && s.writer.value.phase == Editing && s'.writer.Some?
    requires s' == s.(free := s'.free, writer := s'.writer)
    requires var w, w' := s.writer.value, s'.writer.value;
             var span := ListSpan(s.disk, Committed(s).freelist);
             && w'.meta.txid == w.meta.txid && w'.base == w.base
             && w'.work == w.work - span + Span(start, n)
             && w'.taken == w.taken + Span(start, n)
             && Partition(s'.free, w'.work, w'.meta.total)
             && PendingUpto(s'.free.pending, w.meta.txid)
             && Elems(ListOf(s'.free.pending, w.meta.txid)) == Elems(ListOf(s.free.pending, w.meta.txid)) + span
    requires Span(start, n) !! s.live
    requires forall r :: r in s.readers ==> Span(start, n) !! s.readers[r].image.Keys
    ensures Uncommitted(s', s'.writer.value)
  {
  }

  lemma PreparedKeepsOld(s: State, s': State, start: nat, n: nat)
    requires Inv(s) && s.writer.Some? && s.writer.value.phase == Editing && s'.writer.Some?
    requires s' == s.(free := s'.free, writer := s'.writer)
    requires var w, w' := s.writer.value, s'.writer.value;
             && w'.begun == w.begun && w'.meta.txid == w.meta.txid
             && w'.work == w.work - ListSpan(s.disk, Committed(s).freelist) + Span(start, n)
             && s'.free.pending - {w.meta.txid} == s.free.pending - {w.meta.txid}
    requires Span(start, n) !! s.live
    ensures Committed(s).freelist !in s'.writer.value.work
    ensures BegunOk(s', s'.writer.value)
  {
    assert Committed(s).freelist in ListSpan(s.disk, Committed(s).freelist);
  }

  lemma PreparedImage(s: State, s': State, start: nat, n: nat, listed: seq<nat>)
    requires Inv(s) && s.writer.Some? && s.writer.value.phase == Editing && s'.writer.Some?
    requires var w, w' := s.writer.value, s'.writer.value;
             && w'.meta == w.meta.(root := w'.meta.root, freelist := start, total := w'.meta.total)
             && w'.meta.total < MAX_PAGES && 1 <= n
             && w'.buffers.Keys == w'.taken && w'.taken == w.taken + Span(start, n)
             && w'.work == w.work - ListSpan(s.disk, Committed(s).freelist) + Span(start, n)
             && w'.buffers[start] == List(listed, n - 1)
             && w'.meta.root in w'.work && Closed(s.disk + w'.buffers, w'.work)
             && Increasing(listed) && Elems(listed) == Owned(s'.free)
             && |EncodeSlots(listed)| <= SlotCapacity(n)
             && start in Span(start, n)
             && Partition(s'.free, w'.work, w'.meta.total)
    ensures Recoverable(s.disk + s'.writer.value.buffers, s'.writer.value.meta, s'.writer.value.work)
  {
    var w, w' := s.writer.value, s'.writer.value;
    var disk := s.disk + w'.buffers;
    forall p | p in w'.work ensures p in disk {
      if p !in w'.taken {
        assert p in w.work - w.taken;
      }
    }
  }

  /** Writing a page outside the committed tree leaves the committed store complete. */
  lemma CommittedUntouched(disk: map<nat, Block>, m: Meta, live: set<nat>, p: nat, b: Block)
    requires Recoverable(disk, m, live) && p !in live
    ensures Recoverable(disk[p := b], m, live)
    ensures Restrict(disk[p := b], live) == Restrict(disk, live)
  {
  }

  lemma PutPageReaders(s: State, s': State, p: nat, b: Block)
    requires Inv(s) && PutPage(s, s', p, b)
    ensures forall r :: r in s'.readers ==> ReaderSafe(s', s'.readers[r])
  {
    assert forall r :: r in s.readers ==> p !in s.readers[r].image.Keys;
    ReadersKept(s, s');
  }

  lemma PutPageKeeps(s: State, s': State, p: nat, b: Block)
    requires Inv(s) && PutPage(s, s', p, b)
    ensures Inv(s')
  {
    var w := s.writer.value;
    CommittedUntouched(s.disk, Committed(s), s.live, p, b);
    PutPageReaders(s, s', p, b);
    assert s'.disk + w.buffers == s.disk + w.buffers;
    assert WritingOk(s', w);
  }

  lemma SyncPagesKeeps(s: State, s': State)
    requires Inv(s) && SyncPages(s, s')
    ensures Inv(s')
  {
    ReadersKept(s, s');
  }

  lemma SlotParity(meta0: Meta, meta1: Meta, m: Meta)
    requires Validate(meta0) && Validate(meta1) && meta0.txid % 2 == 0 && meta1.txid % 2 == 1
    requires Validate(m) && m.txid == GetMeta(meta0, meta1).value.txid + 1
    ensures m.txid % 2 == 0 ==> GetMeta(meta0, meta1).value == meta1 && meta0.txid < meta1.txid && GetMeta(m, meta1).value == m
    ensures m.txid % 2 == 1 ==> GetMeta(meta0, meta1).value == meta0 && meta1.txid < meta0.txid && GetMeta(meta0, m).value == m
  {
  }

  /** The slot written is never the committed one, so the new meta takes over and the old one remains. */
  lemma WriteMetaSlots(s: State, s': State)
    requires Inv(s) && WriteMeta(s, s')
    ensures Slots(s') && Committed(s') == s.writer.value.meta
    ensures Committed(s) == if s.writer.value.meta.txid % 2 == 0 then s'.meta1 else s'.meta0
    ensures var d := s'.writer.value.displaced;
            Validate(d) && d.txid < Committed(s).txid && d.txid % 2 == s.writer.value.meta.txid % 2
  {
    SlotParity(s.meta0, s.meta1, s.writer.value.meta);
  }

  lemma WriteMetaReaders(s: State, s': State)
    requires Inv(s) && WriteMeta(s, s') && Readable(s') && Committed(s') == s.writer.value.meta
    ensures forall r :: r in s'.readers ==> ReaderSafe(s', s'.readers[r])
  {
    var w := s.writer.value;
    forall r, p | r in s.readers && p in s.readers[r].image && p in s.live
      ensures p in s'.live || PendingAfter(s'.free.pending, s.readers[r].meta.txid, p)
    {
      assert ReaderSafe(s, s.readers[r]);
      if p !in w.work {
        assert p in Elems(ListOf(s.free.pending, w.meta.txid));
        assert Holds(s'.free.pending, w.meta.txid, p);
      }
    }
    forall r, p | r in s.readers && PendingAfter(s.free.pending, s.readers[r].meta.txid, p)
      ensures PendingAfter(s'.free.pending, s.readers[r].meta.txid, p)
    {
      var t: nat :| t > s.readers[r].meta.txid && Holds(s.free.pending, t, p);
      assert Holds(s'.free.pending, t, p);
    }
    ReadersKept(s, s');
  }

  lemma WriteMetaKeeps(s: State, s': State)
    requires Inv(s) && WriteMeta(s, s')
    ensures Inv(s')
    ensures Committed(s') == s.writer.value.meta
  {
    WriteMetaSlots(s, s');
    WriteMetaReaders(s, s');
    OldStoreComplete(s);
    assert s.disk + s.writer.value.buffers == s.disk;
    assert MetaWrittenOk(s', s'.writer.value);
    assert WellFormed(s'.free) && Recoverable(s'.disk, Committed(s'), s'.live);
    SoundFrom(s');
  }

  lemma OldStoreComplete(s: State)
    requires Inv(s) && s.writer.Some? && s.writer.value.phase == Synced
    ensures var w := s.writer.value;
            && Recoverable(s.disk, w.base.meta, w.base.image.Keys)
            && Intact(s.disk, w.base.image)
            && w.base.image.Keys == s.live && w.base.meta == Committed(s)
  {
    RestrictImage(s.disk, s.live);
  }

  lemma SyncMetaKeeps(s: State, s': State)
    requires Inv(s) && SyncMeta(s, s')
    ensures Inv(s')
  {
    ReadersKept(s, s');
  }

  lemma CloseWriterKeeps(s: State, s': State)
    requires Inv(s) && CloseWriter(s, s')
    ensures Inv(s')
  {
    ReadersKept(s, s');
  }

  /** Rollback gives back the ids and pending lists of the moment the writer began. */
  lemma RollbackRestores(s: State, s': State)
    requires Inv(s) && Rollback(s, s')
    ensures s'.free.ids == s.writer.value.begun.ids
    ensures s'.free.pending == s.writer.value.begun.pending
    ensures Marked(s'.free.cache) == Owned(s'.free)
  {
    var w := s.writer.value;
    var c := Committed(s);
    assert Elems(s'.free.ids) == Elems(w.begun.ids);
    IncreasingUnique(s'.free.ids, w.begun.ids);
  }

  /** The lists are those of the moment the writer began, and the index is exact. */
  ghost predicate Restored(s: State, s': State) {
    && s.writer.Some? && Unswitched(s.writer.value)
    && var w, f' := s.writer.value, s'.free;
    && s' == s.(free := f', writer := Some(w.(phase := RolledBack)))
    && f'.ids == w.begun.ids && f'.pending == w.begun.pending && Marked(f'.cache) == Owned(f')
  }

  lemma UnswitchedParts(s: State)
    requires Inv(s) && s.writer.Some? && Unswitched(s.writer.value)
    ensures Readable(s) && s.live <= Universe(Committed(s).total) && BegunOk(s, s.writer.value)
    ensures PendingUpto(s.free.pending, Committed(s).txid + 1) && s.writer.value.meta.txid == Committed(s).txid + 1
  {
  }

  lemma RestoredIdle(s: State, s': State)
    requires Inv(s) && Restored(s, s')
    ensures Readable(s') && Idle(s')
  {
    hide Inv, Universe, GetMeta;
    UnswitchedParts(s);
    assert Owned(s'.free) == Owned(s.writer.value.begun);
  }

  lemma RestoredWellFormed(s: State, s': State)
    requires Inv(s) && Restored(s, s')
    ensures WellFormed(s'.free)
  {
    var f, f', begun := s.free, s'.free, s.writer.value.begun;
    UnswitchedParts(s);
    SoundParts(s);
    hide Inv;
    forall p | p in f'.ids ensures 2 <= p {
      assert p in Elems(begun.ids) && p in Universe(Committed(s).total);
    }
    forall t, p | Holds(f'.pending, t, p) ensures Holds(f.pending, t, p) && p !in f'.ids {
      InPages(f'.pending, p);
      assert p in f'.ids ==> p in Elems(f'.ids);
    }
  }

  /** A reader's page that only this transaction holds back is still committed. */
  lemma OwnFreedCommitted(s: State, r: nat, p: nat)
    requires Inv(s) && s.writer.Some? && Unswitched(s.writer.value)
    requires r in s.readers && p in s.readers[r].image && PendingAfter(s.free.pending, s.readers[r].meta.txid, p)
    ensures p in s.live ||
            exists t: nat :: t > s.readers[r].meta.txid && Holds(s.free.pending, t, p) && t != s.writer.value.meta.txid
  {
    var w := s.writer.value;
    var t: nat :| t > s.readers[r].meta.txid && Holds(s.free.pending, t, p);
    if t == w.meta.txid {
      assert p in Elems(ListOf(s.free.pending, w.meta.txid)) && p !in w.taken;
    }
  }

  lemma HeldWithout(pending: map<nat, seq<nat>>, tid: nat, after: nat, p: nat)
    requires exists t: nat :: t > after && Holds(pending, t, p) && t != tid
    ensures PendingAfter(pending - {tid}, after, p)
  {
    var t: nat :| t > after && Holds(pending, t, p) && t != tid;
    assert Holds(pending - {tid}, t, p);
  }

  lemma RestoredReader(s: State, s': State, r: nat)
    requires Inv(s) && Restored(s, s') && r in s.readers
    ensures Readable(s') && ReaderSafe(s', s.readers[r])
  {
    hide Inv, BegunOk, PendingAfter, Owned, Marked;
    SoundParts(s);
    PendingRestored(s, s');
    assert ReaderSafe(s, s.readers[r]);
    var tid, after := s.writer.value.meta.txid, s.readers[r].meta.txid;
    forall p | p in s.readers[r].image ensures p in s'.live || PendingAfter(s'.free.pending, after, p) {
      if p !in s.live {
        OwnFreedCommitted(s, r, p);
        HeldWithout(s.free.pending, tid, after, p);
      }
    }
  }

  lemma PendingRestored(s: State, s': State)
    requires Inv(s) && Restored(s, s')
    ensures s'.free.pending == s.free.pending - {s.writer.value.meta.txid}
  {
    hide Inv;
    UnswitchedParts(s);
  }

  lemma RestoredKeeps(s: State, s': State)
    requires Inv(s) && Restored(s, s')
    ensures Inv(s')
  {
    hide Inv, WellFormed, ReaderSafe, Recoverable, Slots, GetMeta, Idle, Owned, Marked;
    SoundParts(s);
    SlotsKept(s, s');
    RestoredIdle(s, s');
    RestoredWellFormed(s, s');
    forall r | r in s'.readers ensures ReaderSafe(s', s'.readers[r]) {
      RestoredReader(s, s', r);
    }
    SoundFrom(s');
  }

  lemma RollbackKeeps(s: State, s': State)
    requires Inv(s) && Rollback(s, s')
    ensures Inv(s')
  {
    hide Inv, RestoresFrom;
    RollbackRestores(s, s');
    RestoredKeeps(s, s');
  }

  /** What survives a crash is a complete store: the committed one, or the one before it if its meta was lost. */
  lemma SurvivorsComplete(s: State, lost: bool)
    requires Inv(s)
    ensures var (meta0, meta1, live) := Survivors(s, lost);
            var m := GetMeta(meta0, meta1);
            && Validate(meta0) && Validate(meta1) && meta0.txid % 2 == 0 && meta1.txid % 2 == 1
            && m.Some? && Recoverable(s.disk, m.value, live)
            && if lost && s.writer.Some? && s.writer.value.phase == MetaWritten
               then m.value == s.writer.value.base.meta && live == s.writer.value.base.image.Keys
               else m.value == Committed(s) && live == s.live
  {
  }

  lemma SortIncreasing(ids: seq<nat>)
    requires Increasing(ids)
    ensures Sort(ids) == ids
  {
    SortedDistinct(Sort(ids), ids);
    IncreasingUnique(Sort(ids), ids);
  }

  lemma RereadFree(listed: seq<nat>, f: FreeState)
    requires Increasing(listed) && forall p :: p in listed ==> 2 <= p
    requires f == FreeState(Sort(listed), map[], map p | p in listed :: true)
    ensures WellFormed(f) && Owned(f) == Elems(listed) && Marked(f.cache) == Owned(f)
  {
    SortIncreasing(listed);
    hide Sort, Increasing;
    assert Pages(f.pending) == {};
    assert Owned(f) == Elems(listed);
  }

  lemma ListedOthers(disk: map<nat, Block>, m: Meta, live: set<nat>)
    requires Recoverable(disk, m, live)
    ensures var listed := disk[m.freelist].ids;
            && Increasing(listed) && Elems(listed) == Universe(m.total) - live && live <= Universe(m.total)
            && forall p :: p in listed ==> 2 <= p
  {
    forall p | p in disk[m.freelist].ids ensures 2 <= p {
      assert p in Elems(disk[m.freelist].ids) && p in Universe(m.total);
    }
  }

  lemma CrashedLists(disk: map<nat, Block>, m: Meta, live: set<nat>, f: FreeState)
    requires Recoverable(disk, m, live)
    requires var listed := disk[m.freelist].ids; f == FreeState(Sort(listed), map[], map p | p in listed :: true)
    ensures WellFormed(f) && Partition(f, live, m.total) && Marked(f.cache) == Owned(f)
  {
    ListedOthers(disk, m, live);
    RereadFree(disk[m.freelist].ids, f);
    hide Recoverable, WellFormed, Owned, Marked, Elems, Universe, Sort, Increasing;
  }

  lemma CrashKeeps(s: State, s': State, lost: bool)
    requires Inv(s) && Crash(s, s', lost)
    ensures Inv(s')
  {
    hide Inv, Recoverable, WellFormed, Partition, GetMeta, Validate, Marked;
    SurvivorsComplete(s, lost);
    CrashedLists(s.disk, Committed(s'), s'.live, s'.free);
    SoundFrom(s');
  }

  /** The store invariant holds of every successor. */
  lemma StepKeeps(s: State, s': State, step: Step)
    requires Inv(s) && Next(s, s', step)
    ensures Inv(s')
  {
    hide Inv, BeginReader, CloseReader, BeginWriter, FreeSpan, AllocSpan, Prepare, PutPage, SyncPages, WriteMeta,
      SyncMeta, Rollback, CloseWriter, Crash;
    match step
    case DoBeginReader(id) => BeginReaderKeeps(s, s', id);
    case DoCloseReader(id) => CloseReaderKeeps(s, s', id);
    case DoBeginWriter(minId) => BeginWriterKeeps(s, s', minId);
    case DoFree(start, overflow) => FreeSpanKeeps(s, s', start, overflow);
    case DoAllocate(n, start) => AllocSpanKeeps(s, s', n, start);
    case DoPrepare(mid, n, start, listed) => PrepareKeeps(s, s', mid, n, start, listed);
    case DoPutPage(p, b) => PutPageKeeps(s, s', p, b);
    case DoSyncPages => SyncPagesKeeps(s, s');
    case DoWriteMeta => WriteMetaKeeps(s, s');
    case DoSyncMeta => SyncMetaKeeps(s, s');
    case DoRollback => RollbackKeeps(s, s');
    case DoCloseWriter => CloseWriterKeeps(s, s');
    case DoCrash(lost) => CrashKeeps(s, s', lost);
  }

  lemma RunShape(states: seq<State>, steps: seq<Step>)
    requires Run(states, steps)
    ensures |states| == |steps| + 1 && Init(states[0])
  {
  }

  lemma RunStep(states: seq<State>, steps: seq<Step>, i: nat)
    requires Run(states, steps) && i < |steps|
    ensures i + 1 < |states| && Next(states[i], states[i + 1], steps[i])
  {
    hide Next;
  }

  lemma {:induction false} RunKeeps(states: seq<State>, steps: seq<Step>, i: nat)
    requires Run(states, steps) && i < |states|
    ensures Inv(states[i])
  {
    hide Inv, Next;
    if i == 0 {
      InitHolds(states[0]);
    } else {
      RunKeeps(states, steps, i - 1);
      StepKeeps(states[i - 1], states[i], steps[i - 1]);
    }
  }
}
