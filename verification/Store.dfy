/** The store as a state machine: two meta slots, the page file, the free list, readers and one writer. */
module Store {
  import opened Common
  import opened PageIds
  import opened FreeListSpec

  const MAGIC: nat := 0xED0CDAED
  const VERSION: nat := 1
  const UINT64_MAX: nat := 0xffff_ffff_ffff_ffff
  const MAX_PAGES: nat := 0x4_0000 // a mapping holds at most 2^30 bytes of 4096-byte pages

  // ----- State -----

  datatype Meta = Meta(magic: nat, version: nat, checksum: nat, root: nat, freelist: nat, total: nat, txid: nat)

  /** What one page of the file holds. `Rest` is the continuation of a page that overflows. */
  datatype Block =
    | Tree(children: seq<nat>, data: seq<nat>)
    | List(ids: seq<nat>, overflow: nat)
    | Rest(data: seq<nat>)

  /** The meta a transaction cloned when it began, and the committed pages as they were then. */
  datatype Snapshot = Snapshot(meta: Meta, image: map<nat, Block>)

  datatype Phase = Editing | Writing | Synced | MetaWritten | Done | RolledBack

  /** `work`: pages of the writer's tree and free list; `taken`: pages allocated by this transaction;
      `buffers`: their new contents; `begun` and `base`: free list and committed pages when it began;
      `displaced`: the meta its commit overwrote. */
  datatype Writer = Writer(
    meta: Meta, phase: Phase, work: set<nat>, taken: set<nat>, buffers: map<nat, Block>,
    begun: FreeState, base: Snapshot, displaced: Meta)

  /** `live`: the pages of the committed tree and free list. */
  datatype State = State(
    meta0: Meta, meta1: Meta, disk: map<nat, Block>, live: set<nat>,
    free: FreeState, readers: map<nat, Snapshot>, writer: Option<Writer>)

  predicate Validate(m: Meta) {
    m.magic == MAGIC && m.version == VERSION && m.checksum == 0
  }

  /** The newer valid slot, else the other valid slot. */
  function GetMeta(meta0: Meta, meta1: Meta): Option<Meta> {
    var newer := if meta0.txid < meta1.txid then meta1 else meta0;
    var older := if meta0.txid < meta1.txid then meta0 else meta1;
    if Validate(newer) then Some(newer) else if Validate(older) then Some(older) else None
  }

  ghost predicate Readable(s: State) {
    GetMeta(s.meta0, s.meta1).Some?
  }

  ghost function Committed(s: State): Meta
    requires Readable(s)
  {
    GetMeta(s.meta0, s.meta1).value
  }

  /** A writer whose meta is not in its slot yet. */
  ghost predicate Unswitched(w: Writer) {
    w.phase in {Editing, Writing, Synced}
  }

  /** The high-water mark in force: that of an uncommitted writer, else the committed one. */
  ghost function Mark(s: State): nat
    requires Readable(s)
  {
    if s.writer.Some? && Unswitched(s.writer.value) then s.writer.value.meta.total else Committed(s).total
  }

  ghost predicate InFile(p: nat, total: nat) {
    2 <= p < total
  }

  /** Every page after the two meta slots. */
  ghost function Universe(total: nat): set<nat> {
    set p: nat | 2 <= p < total && InFile(p, total)
  }

  function Children(b: Block): seq<nat> {
    if b.Tree? then b.children else []
  }

  ghost function Restrict(disk: map<nat, Block>, pages: set<nat>): map<nat, Block> {
    map p | p in pages && p in disk :: disk[p]
  }

  /** The pages of the list that starts at page `id`. */
  function ListSpan(disk: map<nat, Block>, id: nat): set<nat> {
    if id in disk && disk[id].List? then Span(id, disk[id].overflow + 1) else {}
  }

  // ----- Steps -----

  ghost predicate Init(s: State) {
    && s.meta0 == Meta(MAGIC, VERSION, 0, 3, 2, 4, 0)
    && s.meta1 == Meta(MAGIC, VERSION, 0, 3, 2, 4, 1)
    && s.disk == map[2 := List([], 0), 3 := Tree([], [])]
    && s.live == {2, 3}
    && s.free == FreeState([], map[], map[])
    && s.readers == map[]
    && s.writer == None
  }

  ghost predicate BeginReader(s: State, s': State, id: nat) {
    && Readable(s) && id !in s.readers
    && s' == s.(readers := s.readers[id := Snapshot(Committed(s), Restrict(s.disk, s.live))])
  }

  ghost predicate CloseReader(s: State, s': State, id: nat) {
    id in s.readers && s' == s.(readers := s.readers - {id})
  }

  /** The least txid of a live reader, or the largest 64-bit value. */
  ghost predicate IsMinReader(readers: map<nat, Snapshot>, minId: nat) {
    && minId <= UINT64_MAX
    && (forall r :: r in readers ==> minId <= readers[r].meta.txid)
    && (minId == UINT64_MAX || exists r :: r in readers && readers[r].meta.txid == minId)
  }

  ghost predicate BeginWriter(s: State, s': State, minId: nat) {
    && Readable(s) && s.writer.None?
    && IsMinReader(s.readers, minId)
    && (if minId > 0 then Releases(s.free, minId - 1, s'.free) else s'.free == s.free)
    && var c := Committed(s);
       s' == s.(free := s'.free, writer := Some(Writer(
         c.(txid := c.txid + 1), Editing, s.live, {}, map[],
         s'.free, Snapshot(c, Restrict(s.disk, s.live)), c)))
  }

  ghost predicate FreeSpan(s: State, s': State, start: nat, overflow: nat) {
    && Readable(s) && s.writer.Some? && s.writer.value.phase == Editing
    && var w := s.writer.value;
       var span := Span(start, overflow + 1);
    && span <= w.work - ListSpan(s.disk, Committed(s).freelist)
    && Frees(s.free, w.meta.txid, start, overflow, s'.free)
    && s' == s.(free := s'.free, writer := Some(w.(work := w.work - span)))
  }

  /** First fit from the free list, else the high-water mark moves up, if the mapping can still grow. */
  ghost predicate Takes(f: FreeState, total: nat, n: nat, start: nat, f': FreeState, total': nat) {
    && 1 <= n < MAX_ALLOCATION
    && if start < total then start != 0 && Allocates(f, n, start, f') && total' == total
       else start == total && Allocates(f, n, 0, f') && total' == total + n < MAX_PAGES
  }

  ghost predicate AllocSpan(s: State, s': State, n: nat, start: nat) {
    && s.writer.Some? && s.writer.value.phase == Editing && s'.writer.Some?
    && var w := s.writer.value;
       var total := s'.writer.value.meta.total;
    && Takes(s.free, w.meta.total, n, start, s'.free, total)
    && s' == s.(free := s'.free, writer := Some(w.(
         meta := w.meta.(total := total), work := w.work + Span(start, n), taken := w.taken + Span(start, n))))
  }

  /** Commit up to the new free-list page: the old list page is freed, a run for the new list is taken, and
      free and pending ids are saved in it. What the tree code owes: a root, and no child outside the tree. */
  ghost predicate Prepare(s: State, s': State, mid: FreeState, n: nat, start: nat, listed: seq<nat>) {
    && Readable(s) && s.writer.Some? && s.writer.value.phase == Editing && s'.writer.Some?
    && var w, w' := s.writer.value, s'.writer.value;
       var c := Committed(s);
    && c.freelist in s.disk && s.disk[c.freelist].List?
    && Frees(s.free, w.meta.txid, c.freelist, s.disk[c.freelist].overflow, mid)
    && n == SerialSize(|Owned(mid)|) / PAGE_SIZE + 1
    && Takes(mid, w.meta.total, n, start, s'.free, w'.meta.total)
    && Increasing(listed) && Elems(listed) == Owned(s'.free)
    && w'.taken == w.taken + Span(start, n)
    && w'.work == w.work - ListSpan(s.disk, c.freelist) + Span(start, n)
    && w'.buffers.Keys == w'.taken && w'.buffers[start] == List(listed, n - 1)
    && w'.meta.root in w'.work && Closed(s.disk + w'.buffers, w'.work)
    && s' == s.(free := s'.free, writer := Some(w.(
         meta := w.meta.(root := w'.meta.root, freelist := start, total := w'.meta.total),
         phase := Writing, work := w'.work, taken := w'.taken, buffers := w'.buffers)))
  }

  /** A page write in progress: until the sync, a taken page may hold anything. */
  ghost predicate PutPage(s: State, s': State, p: nat, b: Block) {
    && s.writer.Some? && s.writer.value.phase == Writing
    && p in s.writer.value.taken
    && s' == s.(disk := s.disk[p := b])
  }

  ghost predicate SyncPages(s: State, s': State) {
    && s.writer.Some? && s.writer.value.phase == Writing
    && var w := s.writer.value;
    && (forall p :: p in w.taken ==> p in s.disk && p in w.buffers && s.disk[p] == w.buffers[p])
    && s' == s.(writer := Some(w.(phase := Synced)))
  }

  /** The slot is the parity of the txid; from here on readers see the new tree. */
  ghost predicate WriteMeta(s: State, s': State) {
    && s.writer.Some? && s.writer.value.phase == Synced
    && var w := s.writer.value;
       var even := w.meta.txid % 2 == 0;
       s' == s.(
         meta0 := if even then w.meta.(checksum := 0) else s.meta0,
         meta1 := if even then s.meta1 else w.meta.(checksum := 0),
         live := w.work,
         writer := Some(w.(phase := MetaWritten, displaced := if even then s.meta0 else s.meta1)))
  }

  ghost predicate SyncMeta(s: State, s': State) {
    && s.writer.Some? && s.writer.value.phase == MetaWritten
    && s' == s.(writer := Some(s.writer.value.(phase := Done)))
  }

  /** The writer's pending list is dropped and the list page of the writer's own meta is reread. */
  ghost predicate RestoresFrom(s: State, w: Writer, f': FreeState) {
    && w.meta.freelist in s.disk && s.disk[w.meta.freelist].List?
    && RollsBack(s.free, w.meta.txid, s.disk[w.meta.freelist].ids, f')
  }

  ghost predicate Rollback(s: State, s': State) {
    && s.writer.Some? && s.writer.value.phase == Editing
    && var w := s.writer.value;
    && RestoresFrom(s, w, s'.free)
    && s' == s.(free := s'.free, writer := Some(w.(phase := RolledBack)))
  }

  ghost predicate CloseWriter(s: State, s': State) {
    && s.writer.Some? && s.writer.value.phase in {Done, RolledBack}
    && s' == s.(writer := None)
  }

  /** What is left in the file after a crash. A meta write that was not synced yet may be lost. */
  ghost function Survivors(s: State, lost: bool): (Meta, Meta, set<nat>) {
    if lost && s.writer.Some? && s.writer.value.phase == MetaWritten then
      var w := s.writer.value;
      if w.meta.txid % 2 == 0 then (w.displaced, s.meta1, w.base.image.Keys)
      else (s.meta0, w.displaced, w.base.image.Keys)
    else (s.meta0, s.meta1, s.live)
  }

  /** Crash and reopen: transactions are gone and the free list is read back from the recovered meta's page. */
  ghost predicate Crash(s: State, s': State, lost: bool) {
    var (meta0, meta1, live) := Survivors(s, lost);
    && GetMeta(meta0, meta1).Some?
    && var m := GetMeta(meta0, meta1).value;
    && m.freelist in s.disk && s.disk[m.freelist].List?
    && var listed := s.disk[m.freelist].ids;
       s' == State(meta0, meta1, s.disk, live,
                   FreeState(Sort(listed), map[], map p | p in listed :: true), map[], None)
  }

  datatype Step =
    | DoBeginReader(id: nat)
    | DoCloseReader(id: nat)
    | DoBeginWriter(minId: nat)
    | DoFree(start: nat, overflow: nat)
    | DoAllocate(n: nat, start: nat)
    | DoPrepare(mid: FreeState, n: nat, start: nat, listed: seq<nat>)
    | DoPutPage(p: nat, b: Block)
    | DoSyncPages
    | DoWriteMeta
    | DoSyncMeta
    | DoRollback
    | DoCloseWriter
    | DoCrash(lost: bool)

  ghost predicate Next(s: State, s': State, step: Step) {
    match step
    case DoBeginReader(id) => BeginReader(s, s', id)
    case DoCloseReader(id) => CloseReader(s, s', id)
    case DoBeginWriter(minId) => BeginWriter(s, s', minId)
    case DoFree(start, overflow) => FreeSpan(s, s', start, overflow)
    case DoAllocate(n, start) => AllocSpan(s, s', n, start)
    case DoPrepare(mid, n, start, listed) => Prepare(s, s', mid, n, start, listed)
    case DoPutPage(p, b) => PutPage(s, s', p, b)
    case DoSyncPages => SyncPages(s, s')
    case DoWriteMeta => WriteMeta(s, s')
    case DoSyncMeta => SyncMeta(s, s')
    case DoRollback => Rollback(s, s')
    case DoCloseWriter => CloseWriter(s, s')
    case DoCrash(lost) => Crash(s, s', lost)
  }

  /** A run of the store: `states` from a new file on, one state longer than `steps`. */
  ghost predicate Run(states: seq<State>, steps: seq<Step>) {
    && |states| == |steps| + 1
    && Init(states[0])
    && forall i :: 0 <= i < |steps| ==> Next(states[i], states[i + 1], steps[i])
  }

  // ----- Invariant -----

  ghost predicate Child(disk: map<nat, Block>, p: nat, c: nat) {
    p in disk && c in Children(disk[p])
  }

  ghost predicate Closed(disk: map<nat, Block>, pages: set<nat>) {
    forall p, c :: p in pages && Child(disk, p, c) ==> c in pages
  }

  /** `m` describes a complete store on `disk`, made of the pages `live`; its list page names all other pages. */
  ghost predicate Recoverable(disk: map<nat, Block>, m: Meta, live: set<nat>) {
    && Validate(m) && m.total < MAX_PAGES
    && live <= Universe(m.total) && live <= disk.Keys
    && m.root in live && Closed(disk, live)
    && m.freelist in live && disk[m.freelist].List? && ListSpan(disk, m.freelist) <= live
    && Increasing(disk[m.freelist].ids)
    && Elems(disk[m.freelist].ids) == Universe(m.total) - live
    && |EncodeSlots(disk[m.freelist].ids)| <= SlotCapacity(disk[m.freelist].overflow + 1)
  }

  ghost predicate Partition(f: FreeState, pages: set<nat>, total: nat) {
    Owned(f) !! pages && Owned(f) + pages == Universe(total)
  }

  ghost predicate PendingUpto(pending: map<nat, seq<nat>>, tid: nat) {
    forall t :: t in pending ==> t <= tid
  }

  ghost predicate PendingAfter(pending: map<nat, seq<nat>>, tid: nat, p: nat) {
    exists t :: t > tid && Holds(pending, t, p)
  }

  ghost predicate Intact(disk: map<nat, Block>, image: map<nat, Block>) {
    forall p :: p in image ==> p in disk && disk[p] == image[p]
  }

  /** A reader's pages are unchanged, and each is committed or held back by a later transaction. */
  ghost predicate ReaderSafe(s: State, r: Snapshot)
    requires Readable(s)
  {
    && r.meta.txid <= Committed(s).txid
    && r.meta.root in r.image && Closed(r.image, r.image.Keys)
    && Intact(s.disk, r.image)
    && forall p :: p in r.image ==> p in s.live || PendingAfter(s.free.pending, r.meta.txid, p)
  }

  ghost predicate Idle(s: State)
    requires Readable(s)
  {
    Partition(s.free, s.live, Committed(s).total) && PendingUpto(s.free.pending, Committed(s).txid)
  }

  /** A writer that has not committed yet. */
  ghost predicate Uncommitted(s: State, w: Writer)
    requires Readable(s)
  {
    var c := Committed(s);
    && w.meta.txid == c.txid + 1
    && w.base == Snapshot(c, Restrict(s.disk, s.live))
    && Partition(s.free, w.work, w.meta.total)
    && PendingUpto(s.free.pending, w.meta.txid)
    && s.live <= w.work + Elems(ListOf(s.free.pending, w.meta.txid))
    && Elems(ListOf(s.free.pending, w.meta.txid)) <= s.live + w.taken
    && w.work - w.taken <= s.live
    && w.taken !! s.live
    && forall r :: r in s.readers ==> w.taken !! s.readers[r].image.Keys
  }

  /** What the writer found free or pending when it began, and what of it is still pending. */
  ghost predicate BegunOk(s: State, w: Writer)
    requires Readable(s)
  {
    && w.begun.pending == s.free.pending - {w.meta.txid}
    && Increasing(w.begun.ids)
    && Elems(w.begun.ids) !! Pages(w.begun.pending)
    && Owned(w.begun) == Universe(Committed(s).total) - s.live
  }

  ghost predicate EditingOk(s: State, w: Writer)
    requires Readable(s)
  {
    var c := Committed(s);
    && Uncommitted(s, w)
    && w.meta == c.(txid := c.txid + 1, total := w.meta.total)
    && c.total <= w.meta.total < MAX_PAGES
    && ListSpan(s.disk, c.freelist) <= w.work
    && BegunOk(s, w)
  }

  ghost predicate WritingOk(s: State, w: Writer)
    requires Readable(s)
  {
    && Uncommitted(s, w)
    && w.buffers.Keys == w.taken
    && Recoverable(s.disk + w.buffers, w.meta, w.work)
    && Committed(s).freelist !in w.work
    && BegunOk(s, w)
    && (w.phase == Synced ==> Intact(s.disk, w.buffers))
  }

  /** The new meta is in its slot but may still be lost: the old store is complete as well. */
  ghost predicate MetaWrittenOk(s: State, w: Writer)
    requires Readable(s)
  {
    && Idle(s)
    && Committed(s) == w.meta && s.live == w.work
    && Recoverable(s.disk, w.base.meta, w.base.image.Keys)
    && Intact(s.disk, w.base.image)
    && Intact(s.disk, w.buffers) && w.buffers.Keys == w.taken
    && w.work - w.taken <= w.base.image.Keys
    && w.meta.txid == w.base.meta.txid + 1
    && Validate(w.displaced) && w.displaced.txid < w.base.meta.txid
    && w.displaced.txid % 2 == w.meta.txid % 2
    && w.base.meta == if w.meta.txid % 2 == 0 then s.meta1 else s.meta0
  }

  ghost predicate Slots(s: State) {
    Validate(s.meta0) && Validate(s.meta1) && s.meta0.txid % 2 == 0 && s.meta1.txid % 2 == 1
  }

  ghost predicate WriterOk(s: State)
    requires Readable(s)
  {
    match s.writer
    case None => Idle(s)
    case Some(w) =>
      match w.phase
      case Editing => EditingOk(s, w)
      case Writing => WritingOk(s, w)
      case Synced => WritingOk(s, w)
      case MetaWritten => MetaWrittenOk(s, w)
      case Done => Idle(s)
      case RolledBack => Idle(s)
  }

  ghost predicate Inv(s: State) {
    && Slots(s)
    && Recoverable(s.disk, Committed(s), s.live)
    && WellFormed(s.free)
    && (forall r :: r in s.readers ==> ReaderSafe(s, s.readers[r]))
    && WriterOk(s)
  }
}
