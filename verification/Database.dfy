/** The database object: its methods carry out the steps of the store, in place. */
module Databases {
  import opened Common
  import opened PageIds
  import opened FreeListSpec
  import opened FreeLists
  import opened FileMaps
  import opened Store
  import opened StoreFaults
  import opened StoreInvariant
  import opened StoreRuns

  /** The run for a new list page, the high-water mark with it, and the ids saved there. */
  datatype ListRun = ListRun(start: nat, n: nat, total: nat, listed: seq<nat>)

  function ListBlocks(run: ListRun): map<nat, Block> {
    map p | p in Span(run.start, run.n) ::
      if p == run.start && run.n > 0 then List(run.listed, run.n - 1) else Rest([])
  }

  /** The writer once its meta points to the new root and the new list page. */
  function Switched(w: Writer, disk: map<nat, Block>, root: nat, tree: map<nat, Block>, run: ListRun): Writer {
    w.(meta := w.meta.(root := root, freelist := run.start, total := run.total), phase := Writing,
       work := w.work - ListSpan(disk, w.meta.freelist) + Span(run.start, run.n), taken := w.taken + Span(run.start, run.n),
       buffers := tree + ListBlocks(run))
  }

  /** From free list `mid`, `run` was sized and taken, and it holds the list that results. */
  ghost predicate Saved(mid: FreeState, total: nat, run: ListRun, f': FreeState) {
    && run.n == SerialSize(|Owned(mid)|) / PAGE_SIZE + 1
    && Takes(mid, total, run.n, run.start, f', run.total)
    && Increasing(run.listed) && Elems(run.listed) == Owned(f')
  }

  /** What the tree code owes a commit: contents for every taken page, and a tree within the working set. */
  ghost predicate TreeReady(s: State, root: nat, tree: map<nat, Block>) {
    && s.writer.Some? && s.writer.value.phase == Editing
    && var w := s.writer.value;
       var kept := w.work - ListSpan(s.disk, w.meta.freelist);
    && tree.Keys == w.taken && root in kept && Closed(s.disk + tree, kept)
  }

  /** The tree is the committed one, page by page, and the pages committed before are as they were. */
  ghost predicate TreeCommitted(s: State, s': State, root: nat, tree: map<nat, Block>) {
    && s.writer.Some? && s'.writer.Some? && s'.writer.value.phase == Done && Readable(s')
    && var w := s.writer.value;
       var kept := w.work - ListSpan(s.disk, w.meta.freelist);
    && Committed(s') == s'.writer.value.meta
    && Committed(s').root == root && Committed(s').txid == w.meta.txid
    && kept <= s'.live
    && (forall p :: p in kept && p in tree ==> p in s'.disk && s'.disk[p] == tree[p])
    && (forall p :: p in s.live && p in s.disk ==> p in s'.disk && s'.disk[p] == s.disk[p])
  }

  /** What the commit needs of the state before it, once the old list page is freed. */
  ghost predicate OldListGone(s: State, mid: FreeState) {
    && Readable(s) && s.writer.Some? && s.writer.value.phase == Editing
    && var w := s.writer.value;
       var c := Committed(s);
    && 2 <= w.meta.total < MAX_PAGES
    && c.freelist == w.meta.freelist && c.freelist in s.disk && s.disk[c.freelist].List?
    && Frees(s.free, w.meta.txid, c.freelist, s.disk[c.freelist].overflow, mid)
    && WellFormed(mid) && Partition(mid, w.work - ListSpan(s.disk, w.meta.freelist), w.meta.total)
  }

  lemma OldListGoes(s: State, mid: FreeState)
    requires Inv(s) && s.writer.Some? && s.writer.value.phase == Editing
    requires var c := Committed(s);
             Frees(s.free, s.writer.value.meta.txid, c.freelist, s.disk[c.freelist].overflow, mid)
    ensures OldListGone(s, mid)
  {
    OldListFreed(s, mid);
  }

  lemma ListBlocksFirst(tree: map<nat, Block>, run: ListRun)
    requires 1 <= run.n
    ensures ListBlocks(run).Keys == Span(run.start, run.n)
    ensures run.start in tree + ListBlocks(run)
    ensures (tree + ListBlocks(run))[run.start] == List(run.listed, run.n - 1)
  {
    assert run.start in Span(run.start, run.n);
  }

  lemma RunApart(s: State, mid: FreeState, run: ListRun, f': FreeState)
    requires OldListGone(s, mid) && Saved(mid, s.writer.value.meta.total, run, f')
    ensures 1 <= run.n
    ensures s.writer.value.work - ListSpan(s.disk, s.writer.value.meta.freelist) !! Span(run.start, run.n)
  {
    var w := s.writer.value;
    TakenSpan(mid, w.meta.total, run.n, run.start, f', run.total, w.work - ListSpan(s.disk, w.meta.freelist));
  }

  /** The switched writer has every taken page buffered, the list among them, and a closed tree. */
  lemma SwitchedPages(w: Writer, disk: map<nat, Block>, root: nat, tree: map<nat, Block>, run: ListRun)
    requires var kept := w.work - ListSpan(disk, w.meta.freelist);
             tree.Keys == w.taken && root in kept && Closed(disk + tree, kept) &&
             1 <= run.n && kept !! Span(run.start, run.n)
    ensures var w' := Switched(w, disk, root, tree, run);
            && w'.buffers.Keys == w'.taken
            && run.start in w'.buffers && w'.buffers[run.start] == List(run.listed, run.n - 1)
            && root in w'.work && Closed(disk + w'.buffers, w'.work)
  {
    ListBlocksFirst(tree, run);
    ListPagesClosed(disk, tree, ListBlocks(run), w.work - ListSpan(disk, w.meta.freelist), Span(run.start, run.n));
  }

  /** The commit got as far as the new list page. */
  ghost predicate Prepared(s: State, s': State, root: nat, tree: map<nat, Block>, mid: FreeState, run: ListRun) {
    && OldListGone(s, mid) && TreeReady(s, root, tree)
    && Saved(mid, s.writer.value.meta.total, run, s'.free)
    && s' == s.(free := s'.free, writer := Some(Switched(s.writer.value, s.disk, root, tree, run)))
    && Prepare(s, s', mid, run.n, run.start, run.listed)
  }

  lemma SwitchPrepares(s: State, s': State, root: nat, tree: map<nat, Block>, mid: FreeState, run: ListRun)
    requires OldListGone(s, mid) && TreeReady(s, root, tree)
    requires Saved(mid, s.writer.value.meta.total, run, s'.free)
    requires s' == s.(free := s'.free, writer := Some(Switched(s.writer.value, s.disk, root, tree, run)))
    ensures Prepared(s, s', root, tree, mid, run)
  {
    hide Closed, ListSpan, Takes, Frees, WellFormed, Partition, Owned, Universe, ListBlocks;
    RunApart(s, mid, run, s'.free);
    SwitchedPages(s.writer.value, s.disk, root, tree, run);
  }

  function PrepareStep(mid: FreeState, run: ListRun): Step {
    DoPrepare(mid, run.n, run.start, run.listed)
  }

  lemma PreparedStep(s: State, s1: State, root: nat, tree: map<nat, Block>, mid: FreeState, run: ListRun)
    requires Prepared(s, s1, root, tree, mid, run)
    ensures Leads(s, s1, [PrepareStep(mid, run)])
    ensures s1.writer.Some? && s1.writer.value.phase == Writing && s1.writer.value.buffers.Keys == s1.writer.value.taken
    ensures s.writer.Some? && s1.writer.value.meta.total == run.total
  {
    hide Leads, Saved, OldListGone, TreeReady, Closed, ListSpan, Takes, Frees, Owned;
    LeadsOnce(s, s1, PrepareStep(mid, run));
  }

  lemma FlushedTotal(s1: State, s2: State)
    requires Flushed(s1, s2)
    ensures s1.writer.Some? && s2.writer.Some? && s2.writer.value.meta.total == s1.writer.value.meta.total
  {
  }

  /** From `s1` to `s2` the writer's buffers went to disk and its meta to its slot, and nothing else changed. */
  ghost predicate Flushed(s1: State, s2: State) {
    && s1.writer.Some? && s2.writer.Some? && s2.writer.value.phase == Done
    && var w := s1.writer.value;
    && s2.writer.value.meta == w.meta && s2.live == w.work && Intact(s2.disk, w.buffers)
    && (forall p :: p in s1.disk && p !in w.buffers ==> p in s2.disk && s2.disk[p] == s1.disk[p])
    && if w.meta.txid % 2 == 0 then s2.meta0 == w.meta.(checksum := 0) && s2.meta1 == s1.meta1
       else s2.meta1 == w.meta.(checksum := 0) && s2.meta0 == s1.meta0
  }

  lemma FlushedMeta(s1: State, s2: State)
    requires Inv(s1) && s1.writer.Some? && s1.writer.value.phase == Writing && Flushed(s1, s2)
    ensures Readable(s2) && Committed(s2) == s1.writer.value.meta
    ensures forall p :: p in s1.live && p in s1.disk ==> p in s2.disk && s2.disk[p] == s1.disk[p]
  {
    SlotParity(s1.meta0, s1.meta1, s1.writer.value.meta);
  }

  /** `s1`: the writer has switched; `s2`: its commit is done. */
  lemma SwitchCommits(s: State, s1: State, s2: State, root: nat, tree: map<nat, Block>, mid: FreeState, run: ListRun)
    requires Reachable(s) && Prepared(s, s1, root, tree, mid, run) && Flushed(s1, s2)
    ensures TreeCommitted(s, s2, root, tree)
  {
    PreparedInv(s, s1, root, tree, mid, run);
    FlushedMeta(s1, s2);
    SwitchedKept(s, root, tree, mid, run, s1.free);
  }

  lemma PreparedInv(s: State, s1: State, root: nat, tree: map<nat, Block>, mid: FreeState, run: ListRun)
    requires Reachable(s) && Prepared(s, s1, root, tree, mid, run)
    ensures Inv(s1)
  {
    ReachableInv(s);
    PrepareKeeps(s, s1, mid, run.n, run.start, run.listed);
  }

  lemma SwitchedKept(s: State, root: nat, tree: map<nat, Block>, mid: FreeState, run: ListRun, f': FreeState)
    requires OldListGone(s, mid) && TreeReady(s, root, tree)
    requires Saved(mid, s.writer.value.meta.total, run, f')
    ensures var w, w' := s.writer.value, Switched(s.writer.value, s.disk, root, tree, run);
            forall p :: p in w.work - ListSpan(s.disk, w.meta.freelist) && p in tree ==>
                          p in w'.buffers && w'.buffers[p] == tree[p]
  {
    RunApart(s, mid, run, f');
    ListBlocksFirst(tree, run);
  }

  /** Unless it was lost, the mapping reaches all pages below the mark, and `slack` pages more. */
  ghost predicate MapHolds(datasz: nat, mark: nat, slack: nat) {
    slack <= 1 && (datasz == 0 || Spans(datasz, mark + slack))
  }

  /** A run that raised the mark is covered, one from the free list changes nothing; without a run the mapping stays,
      covers even more, or is lost. */
  ghost predicate MapAfter(before: nat, mark: nat, after: nat, mark': nat, taken: bool) {
    if mark' != mark then Spans(after, mark' + 1)
    else after == before || (!taken && (after == 0 || Spans(after, mark + 1)))
  }

  lemma MapGoesOn(before: nat, mark: nat, slack: nat, after: nat, mark': nat, taken: bool)
    requires MapHolds(before, mark, slack) && MapAfter(before, mark, after, mark', taken) && mark <= mark'
    ensures MapHolds(after, mark', slack)
    ensures mark' != mark ==> Spans(after, mark' + 1)
    ensures taken && before != 0 ==> after != 0
  {
  }

  lemma MapLower(datasz: nat, mark: nat, slack: nat, mark': nat)
    requires MapHolds(datasz, mark, slack) && mark' <= mark
    ensures MapHolds(datasz, mark', slack)
  {
  }

  /** How a commit's system calls go: the remap, growing the file, the first page write that fails, the sync, the meta
      write, its sync. */
  datatype Calls = Calls(unmapped: bool, mapped: bool, grown: bool, writes: nat, synced: bool, metaWritten: bool,
                         metaSynced: bool)

  /** `Unreadable`: as `UndoneLate`, but what the page of the new list holds is no list. */
  datatype Outcome = Success | Undone | UndoneLate | Unreadable

  predicate Readback(disk: map<nat, Block>, id: nat) {
    && id in disk && disk[id].List? && Increasing(disk[id].ids)
    && (if |disk[id].ids| < COUNT_OVERFLOW then |disk[id].ids| else |disk[id].ids| + 1) <= SlotCapacity(disk[id].overflow + 1)
  }

  /** `live`, and the page images inside `txs` and `rwtx`, are history: the program has them only on disk. */
  class Database {
    var meta0: Meta
    var meta1: Meta
    var disk: map<nat, Block>
    var live: set<nat>
    var txs: map<nat, Snapshot>
    var rwtx: Option<Writer>
    const freeList: FreeList
    const fileMap: FileMap
    ghost var slack: nat

    ghost function Abs(): State reads this, freeList {
      State(meta0, meta1, disk, live, freeList.State(), txs, rwtx)
    }

    /** The object is in a state that a run of the store reaches, and the mapping covers its pages unless it was lost. */
    ghost predicate Valid() reads this, freeList, fileMap {
      && Reachable(Abs()) && Readable(Abs()) && fileMap.Valid()
      && MapHolds(fileMap.datasz, Mark(Abs()), slack)
    }

    /** A new file of four pages, mapped, with an empty tree. */
    constructor Create()
      ensures Valid() && Init(Abs())
      ensures fileMap.filesz == 4 * PAGE_SIZE && fileMap.datasz == 0x8000 && fileMap.Covers(4) && slack == 1
      ensures fresh(freeList) && fresh(fileMap)
    {
      hide Reachable, IsMapSize, Pow2, Mark, Readable, GetMeta, Init;
      meta0 := Meta(MAGIC, VERSION, 0, 3, 2, 4, 0);
      meta1 := Meta(MAGIC, VERSION, 0, 3, 2, 4, 1);
      disk := map[2 := List([], 0), 3 := Tree([], [])];
      txs, rwtx, live, slack := map[], None, {2, 3}, 1;
      freeList := new FreeList();
      fileMap := new FileMap(4 * PAGE_SIZE);
      new;
      NewFile(Abs());
      Pow2Limits();
      var size := GetMmapSize(4 * PAGE_SIZE);
      MapSizeLeast(4 * PAGE_SIZE, size.bytes, 15);
      fileMap.datasz := size.bytes;
    }

    /** An existing file, as found on disk and not mapped yet. */
    constructor Attach(meta0: Meta, meta1: Meta, disk: map<nat, Block>, live: set<nat>, filesz: nat)
      requires filesz < UINT32_LIMIT
      ensures Abs() == Unopened(meta0, meta1, disk, live)
      ensures fileMap.Valid() && fileMap.filesz == filesz && fileMap.datasz == 0
      ensures fresh(freeList) && fresh(fileMap)
    {
      this.meta0, this.meta1, this.disk, this.live := meta0, meta1, disk, live;
      txs, rwtx, slack := map[], None, 0;
      freeList := new FreeList();
      fileMap := new FileMap(filesz);
    }

    /** Opens what a crash of `was` left: maps the file, which holds the pages on disk, and rereads the free list of the
        newer valid meta. A page past the mark is mapped as well, unless the larger of file and request ends with the
        last page and has a size that is picked as it is. */
    method Open(initial: nat, mapped: bool, ghost was: State, ghost lost: bool) returns (ok: bool)
      requires Reachable(was) && Left(was, lost, Abs())
      requires fileMap.Valid() && fileMap.datasz == 0 && initial < UINT32_LIMIT
      requires forall p :: p in disk ==> Spans(fileMap.filesz, p + 1)
      modifies this`slack, freeList, fileMap`datasz
      ensures ok <==> Larger(fileMap.filesz, initial) <= 0x4000_0000 && mapped
      ensures ok ==> Valid() && Crash(was, Abs(), lost)
      ensures ok ==> IsMapSize(Larger(fileMap.filesz, initial), fileMap.datasz)
      ensures ok ==> var target := Larger(fileMap.filesz, initial);
                     fileMap.Covers(Mark(Abs())) <==> !(target == Mark(Abs()) * PAGE_SIZE && IsMapSize(target, target))
    {
      hide Reachable, Crash, IsMapSize, Validate, Left, Reread, Readback, Spans;
      LeftReadable(was, lost, Abs());
      LeftMapped(was, lost, Abs(), fileMap.filesz, Larger(fileMap.filesz, initial));
      ok := fileMap.InitMeta(initial, true, mapped, Validate(meta0) || Validate(meta1));
      if ok {
        var mark := GetMeta(meta0, meta1).value.total;
        ReadList();
        LeftCrashed(was, lost, Abs());
        slack := if Spans(fileMap.datasz, mark + 1) then 1 else 0;
        SpareUnlessExact(mark, Larger(fileMap.filesz, initial), fileMap.datasz);
        SpansMore(Larger(fileMap.filesz, initial), fileMap.datasz, mark);
      }
    }

    /** The free list of the newer valid meta, into an empty one. */
    method ReadList()
      requires Readable(Abs()) && freeList.State() == FreeState([], map[], map[])
      requires Readback(disk, Committed(Abs()).freelist)
      modifies freeList
      ensures freeList.State() == Reread(disk[Committed(Abs()).freelist].ids)
    {
      var page := LoadList(GetMeta(meta0, meta1).value.freelist);
      freeList.Read(page);
      assert Pages(map[]) == {};
      ghost var listed := disk[Committed(Abs()).freelist].ids;
      SortedDistinct(freeList.ids, listed);
      assert freeList.cache == map p | p in listed :: true;
    }

    // ----- Readers -----

    /** `id`: the identity of the new transaction object. */
    method BeginTx(id: nat)
      requires Valid() && id !in txs
      modifies this`txs
      ensures Valid() && BeginReader(old(Abs()), Abs(), id)
    {
      ghost var s := Abs();
      Basics(s);
      var m := GetMeta(meta0, meta1).value;
      txs := txs[id := Snapshot(m, map p | p in live && p in disk :: disk[p])];
      StepReachable(s, Abs(), DoBeginReader(id));
    }

    method RemoveTx(id: nat)
      requires Valid() && id in txs
      modifies this`txs
      ensures Valid() && CloseReader(old(Abs()), Abs(), id)
    {
      ghost var s := Abs();
      txs := txs - {id};
      StepReachable(s, Abs(), DoCloseReader(id));
    }

    // ----- The writer -----

    method MinReader() returns (minId: nat)
      ensures IsMinReader(txs, minId)
    {
      minId := UINT64_MAX;
      var todo := txs.Keys;
      while todo != {}
        invariant todo <= txs.Keys && minId <= UINT64_MAX
        invariant forall r :: r in txs && r !in todo ==> minId <= txs[r].meta.txid
        invariant minId == UINT64_MAX || exists r :: r in txs && txs[r].meta.txid == minId
      {
        var r: nat :| r in todo;
        if txs[r].meta.txid < minId {
          minId := txs[r].meta.txid;
        }
        todo := todo - {r};
      }
    }

    /** `Tx::init` of a writer: clones the committed meta under the next txid. */
    method InitWriter() returns (w: Writer)
      requires Readable(Abs())
      ensures var c := Committed(Abs());
              w == Writer(c.(txid := c.txid + 1), Editing, live, {}, map[], freeList.State(),
                          Snapshot(c, Restrict(disk, live)), c)
    {
      var c := GetMeta(meta0, meta1).value;
      var begun := FreeState(freeList.ids, freeList.pending, freeList.cache);
      var base := Snapshot(c, map p | p in live && p in disk :: disk[p]);
      w := Writer(c.(txid := c.txid + 1), Editing, live, {}, map[], begun, base, c);
    }

    method StartWriter() returns (minId: nat)
      requires rwtx.None? && Readable(Abs()) && WellFormed(freeList.State())
      modifies this`rwtx, freeList
      ensures BeginWriter(old(Abs()), Abs(), minId)
    {
      hide IsMinReader, Releases, GetMeta, Restrict;
      minId := MinReader();
      if minId > 0 {
        freeList.Release(minId - 1);
      }
      var w := InitWriter();
      rwtx := Some(w);
    }

    /** Needs the writer lock: no other writer is open. */
    method BeginRWTx() returns (minId: nat)
      requires Valid() && rwtx.None?
      modifies this`rwtx, freeList
      ensures Valid() && BeginWriter(old(Abs()), Abs(), minId)
    {
      ghost var s := Abs();
      Basics(s);
      minId := StartWriter();
      StepReachable(s, Abs(), DoBeginWriter(minId));
    }

    /** `Tx::free` of a page span of the writer's tree. */
    method FreePage(start: nat, overflow: nat)
      requires Valid() && rwtx.Some? && rwtx.value.phase == Editing
      requires Span(start, overflow + 1) <= rwtx.value.work - ListSpan(disk, rwtx.value.meta.freelist)
      modifies this`rwtx, freeList
      ensures Valid() && FreeSpan(old(Abs()), Abs(), start, overflow)
    {
      ghost var s := Abs();
      Basics(s);
      SpanOfWork(s, start, overflow);
      var w := rwtx.value;
      freeList.Free(w.meta.txid, start, overflow);
      rwtx := Some(w.(work := w.work - Span(start, overflow + 1)));
      StepReachable(s, Abs(), DoFree(start, overflow));
    }

    /** Takes a run from the free list, else from past the high-water mark; `None` when the mapping cannot grow. */
    method TakeRun(n: nat, unmapped: bool, mapped: bool) returns (start: Option<nat>, total: nat)
      requires rwtx.Some? && 1 <= n < MAX_ALLOCATION && Readable(Abs())
      requires WellFormed(freeList.State()) && Owned(freeList.State()) <= Universe(rwtx.value.meta.total)
      requires rwtx.value.meta.total < MAX_PAGES && fileMap.Valid()
      modifies freeList, fileMap
      ensures fileMap.Valid() && fileMap.filesz == old(fileMap.filesz)
      ensures start.Some? ==> Takes(old(freeList.State()), rwtx.value.meta.total, n, start.value, freeList.State(), total)
      ensures start.None? ==> freeList.State() == old(freeList.State()) && total == rwtx.value.meta.total
      ensures MapAfter(old(fileMap.datasz), rwtx.value.meta.total, fileMap.datasz, total, start.Some?)
      ensures start.None? ==>
                (fileMap.datasz == 0 <==>
                 old(fileMap.datasz) == 0 || Loses(fileMap.filesz, (total + n + 1) * PAGE_SIZE, unmapped, mapped))
    {
      total := rwtx.value.meta.total;
      var pg := freeList.Allocate(n);
      if pg != 0 {
        AllocatesKeeps(old(freeList.State()), n, pg, freeList.State());
        assert pg in Span(pg, n);
        return Some(pg), total;
      }
      var ok := fileMap.Reserve(total, n, unmapped, mapped, Validate(meta0) || Validate(meta1));
      if !ok {
        return None, total;
      }
      return Some(total), total + n;
    }

    /** `Tx::allocate` for the writer's tree. The pages stay covered if and only if the mapping is not lost. */
    method AllocatePage(n: nat, unmapped: bool, mapped: bool) returns (start: Option<nat>)
      requires Valid() && rwtx.Some? && rwtx.value.phase == Editing && 1 <= n < MAX_ALLOCATION
      modifies this`rwtx, freeList, fileMap
      ensures Valid()
      ensures start.Some? ==> AllocSpan(old(Abs()), Abs(), n, start.value)
      ensures start.None? ==> Abs() == old(Abs())
      ensures Spans(fileMap.datasz, Mark(Abs()) + slack) <==> fileMap.datasz != 0
      ensures fileMap.datasz == 0 <==>
                if start.Some? then old(fileMap.datasz) == 0 && Mark(Abs()) == old(Mark(Abs()))
                else old(fileMap.datasz) == 0 ||
                     Loses(fileMap.filesz, (Mark(Abs()) + n + 1) * PAGE_SIZE, unmapped, mapped)
      ensures start.Some? && Mark(Abs()) != old(Mark(Abs())) ==> fileMap.Covers(Mark(Abs()))
    {
      ghost var s := Abs();
      Basics(s);
      var w := rwtx.value;
      var total;
      start, total := TakeRun(n, unmapped, mapped);
      if start.Some? {
        var span := Span(start.value, n);
        rwtx := Some(w.(meta := w.meta.(total := total), work := w.work + span, taken := w.taken + span));
        StepReachable(s, Abs(), DoAllocate(n, start.value));
      }
    }

    /** The list page that `id` points to, as the mapping shows it. */
    method LoadList(id: nat) returns (page: ListPage)
      requires id in disk && disk[id].List?
      requires |EncodeSlots(disk[id].ids)| <= SlotCapacity(disk[id].overflow + 1)
      ensures fresh(page) && fresh(page.slots) && page.Valid()
      ensures Listed(page.count, page.slots[..]) == disk[id].ids
    {
      page := new ListPage(id, disk[id].overflow + 1);
      page.Save(disk[id].ids);
    }

    /** `Tx::rollback` before the meta points to a new list page; also when no run for the list was found. */
    method RestoreList()
      requires rwtx.Some? && rwtx.value.meta.freelist in disk && disk[rwtx.value.meta.freelist].List?
      requires var block := disk[rwtx.value.meta.freelist];
               Increasing(block.ids) && |EncodeSlots(block.ids)| <= SlotCapacity(block.overflow + 1)
      modifies freeList
      ensures RollsBack(old(freeList.State()), rwtx.value.meta.txid, disk[rwtx.value.meta.freelist].ids, freeList.State())
    {
      freeList.Rollback(rwtx.value.meta.txid);
      var page := LoadList(rwtx.value.meta.freelist);
      freeList.Reload(page);
    }

    method RollbackTx()
      requires Valid() && rwtx.Some? && rwtx.value.phase == Editing
      modifies this`rwtx, freeList
      ensures Valid() && Rollback(old(Abs()), Abs())
    {
      ghost var s := Abs();
      Basics(s);
      RestoreList();
      rwtx := Some(rwtx.value.(phase := RolledBack));
      StepReachable(s, Abs(), DoRollback);
    }

    method CloseRWTx()
      requires Valid() && rwtx.Some? && rwtx.value.phase in {Done, RolledBack}
      modifies this`rwtx
      ensures Valid() && CloseWriter(old(Abs()), Abs())
    {
      ghost var s := Abs();
      rwtx := None;
      StepReachable(s, Abs(), DoCloseWriter);
    }

    // ----- Commit -----

    method FreeOldList()
      requires Valid() && rwtx.Some? && rwtx.value.phase == Editing
      modifies freeList
      ensures OldListGone(old(Abs()), freeList.State())
      ensures freeList.pending - {rwtx.value.meta.txid} == old(freeList.pending) - {rwtx.value.meta.txid}
    {
      ghost var s := Abs();
      Basics(s);
      ReachableInv(s);
      var c := GetMeta(meta0, meta1).value;
      SpanOfWork(s, c.freelist, disk[c.freelist].overflow);
      freeList.Free(rwtx.value.meta.txid, c.freelist, disk[c.freelist].overflow);
      OldListGoes(s, freeList.State());
    }

    /** Takes a run sized by the list as it is and saves the list as it is afterwards. */
    method PlaceList(unmapped: bool, mapped: bool, ghost kept: set<nat>)
      returns (start: Option<nat>, n: nat, total: nat, listed: seq<nat>)
      requires rwtx.Some? && 2 <= rwtx.value.meta.total < MAX_PAGES && fileMap.Valid() && Readable(Abs())
      requires WellFormed(freeList.State()) && Partition(freeList.State(), kept, rwtx.value.meta.total)
      modifies freeList, fileMap
      ensures fileMap.Valid() && fileMap.filesz == old(fileMap.filesz)
      ensures n == SerialSize(|Owned(old(freeList.State()))|) / PAGE_SIZE + 1
      ensures start.Some? ==>
                && Takes(old(freeList.State()), rwtx.value.meta.total, n, start.value, freeList.State(), total)
                && Increasing(listed) && Elems(listed) == Owned(freeList.State())
      ensures start.None? ==> freeList.State() == old(freeList.State()) && total == rwtx.value.meta.total
      ensures MapAfter(old(fileMap.datasz), rwtx.value.meta.total, fileMap.datasz, total, start.Some?)
    {
      hide Takes, Owned, MapAfter, Readable, Elems, Universe;
      ghost var mid := freeList.State();
      OwnedCount(mid, kept, rwtx.value.meta.total);
      var size := freeList.Size();
      n := size / PAGE_SIZE + 1;
      start, total := TakeRun(n, unmapped, mapped);
      listed := [];
      if start.Some? {
        listed := SaveList(start.value, n, mid, rwtx.value.meta.total, total, kept);
      }
    }

    /** The run reserved from the size of the list before the allocation holds the list after it. */
    method SaveList(start: nat, n: nat, ghost mid: FreeState, ghost total: nat, ghost total': nat, ghost kept: set<nat>)
      returns (listed: seq<nat>)
      requires WellFormed(mid) && 2 <= total < MAX_PAGES && Partition(mid, kept, total)
      requires n == SerialSize(|Owned(mid)|) / PAGE_SIZE + 1
      requires Takes(mid, total, n, start, freeList.State(), total')
      ensures Increasing(listed) && Elems(listed) == Owned(freeList.State())
    {
      hide Takes, Owned, SerialSize, Partition, Decodable;
      TakenSpan(mid, total, n, start, freeList.State(), total', kept);
      listed := freeList.CopyAll();
      PreparedListFits(mid, total, n, start, freeList.State(), total', kept, listed);
      DistinctCount(listed);
      var page := new ListPage(start, n);
      ghost var written := freeList.Write(page);
      IncreasingUnique(written, listed);
      assert Listed(page.count, page.slots[..]) == listed;
    }

    /** Puts the taken pages on disk, in whatever order the table yields them; write number `writes` fails. */
    method WritePages(writes: nat, ghost from: State, ghost before: seq<Step>) returns (ok: bool, ghost steps: seq<Step>)
      requires rwtx.Some? && rwtx.value.phase == Writing && rwtx.value.buffers.Keys == rwtx.value.taken
      requires Leads(from, Abs(), before)
      modifies this`disk
      ensures Leads(from, Abs(), steps)
      ensures ok <==> |rwtx.value.buffers.Keys| <= writes
      ensures ok ==> Intact(disk, rwtx.value.buffers)
      ensures forall p :: p in old(disk) && p !in rwtx.value.buffers ==> p in disk && disk[p] == old(disk)[p]
    {
      steps := before;
      var buffers := rwtx.value.buffers;
      var todo, done := buffers.Keys, 0;
      while todo != {}
        invariant todo <= buffers.Keys && done <= writes && done + |todo| == |buffers.Keys|
        invariant Leads(from, Abs(), steps)
        invariant forall p :: p in buffers && p !in todo ==> p in disk && disk[p] == buffers[p]
        invariant forall p :: p in old(disk) && p !in buffers ==> p in disk && disk[p] == old(disk)[p]
      {
        if done == writes {
          return false, steps;
        }
        var p: nat :| p in todo;
        ghost var s := Abs();
        disk := disk[p := buffers[p]];
        LeadsOn(from, s, steps, Abs(), DoPutPage(p, buffers[p]));
        steps := steps + [DoPutPage(p, buffers[p])];
        todo, done := todo - {p}, done + 1;
      }
      ok := true;
    }

    /** The first sync is done; the meta write and the second sync. */
    method SwitchMeta(calls: Calls, ghost from: State, ghost before: seq<Step>)
      returns (ok: bool, ghost steps: seq<Step>)
      requires rwtx.Some? && rwtx.value.phase == Writing && rwtx.value.buffers.Keys == rwtx.value.taken
      requires Intact(disk, rwtx.value.buffers)
      requires Leads(from, Abs(), before)
      modifies this`meta0, this`meta1, this`live, this`rwtx
      ensures Leads(from, Abs(), steps) && disk == old(disk)
      ensures ok <==> calls.metaWritten && calls.metaSynced
      ensures rwtx.Some? && rwtx.value.meta == old(rwtx.value.meta)
      ensures rwtx.value.phase == if !calls.metaWritten then Synced else if !calls.metaSynced then MetaWritten else Done
      ensures var w := old(rwtx.value);
              if calls.metaWritten then
                && live == w.work
                && if w.meta.txid % 2 == 0 then meta0 == w.meta.(checksum := 0) && meta1 == old(meta1)
                   else meta1 == w.meta.(checksum := 0) && meta0 == old(meta0)
              else live == old(live) && meta0 == old(meta0) && meta1 == old(meta1)
    {
      ghost var s := Abs();
      rwtx := Some(rwtx.value.(phase := Synced));
      ghost var s1 := Abs();
      LeadsOn(from, s, before, s1, DoSyncPages);
      steps := before + [DoSyncPages];
      if !calls.metaWritten {
        return false, steps;
      }
      WriteMetaPage();
      ghost var s2 := Abs();
      LeadsOn(from, s1, steps, s2, DoWriteMeta);
      steps := steps + [DoWriteMeta];
      if !calls.metaSynced {
        return false, steps;
      }
      rwtx := Some(rwtx.value.(phase := Done));
      LeadsOn(from, s2, steps, Abs(), DoSyncMeta);
      steps := steps + [DoSyncMeta];
      ok := true;
    }

    /** `meta::write`: the page id is the parity of the txid. */
    method WriteMetaPage()
      requires rwtx.Some? && rwtx.value.phase == Synced
      modifies this`meta0, this`meta1, this`live, this`rwtx
      ensures WriteMeta(old(Abs()), Abs())
    {
      var w := rwtx.value;
      var id := w.meta.txid % 2;
      rwtx := Some(w.(phase := MetaWritten, displaced := if id == 0 then meta0 else meta1));
      if id == 0 {
        meta0 := w.meta.(checksum := 0);
      } else {
        meta1 := w.meta.(checksum := 0);
      }
      live := w.work;
    }

    /** The old list page is in the free list already. */
    method TakeAndSwitch(root: nat, tree: map<nat, Block>, unmapped: bool, mapped: bool)
      returns (run: Option<ListRun>)
      requires rwtx.Some? && 2 <= rwtx.value.meta.total < MAX_PAGES && fileMap.Valid() && Readable(Abs())
      requires rwtx.value.meta.freelist in disk && disk[rwtx.value.meta.freelist].List?
      requires var kept := rwtx.value.work - ListSpan(disk, rwtx.value.meta.freelist);
               WellFormed(freeList.State()) && Partition(freeList.State(), kept, rwtx.value.meta.total)
      modifies this`rwtx, freeList, fileMap
      ensures fileMap.Valid() && fileMap.filesz == old(fileMap.filesz)
      ensures run.None? ==> rwtx == old(rwtx) && freeList.State() == old(freeList.State())
      ensures run.Some? ==>
                && rwtx == Some(Switched(old(rwtx.value), disk, root, tree, run.value))
                && Saved(old(freeList.State()), old(rwtx.value.meta.total), run.value, freeList.State())
      ensures var mark := old(rwtx.value.meta.total);
              MapAfter(old(fileMap.datasz), mark, fileMap.datasz, if run.Some? then run.value.total else mark, run.Some?)
    {
      ghost var kept := rwtx.value.work - ListSpan(disk, rwtx.value.meta.freelist);
      var start, n, total, listed := PlaceList(unmapped, mapped, kept);
      if start.None? {
        return None;
      }
      run := Some(ListRun(start.value, n, total, listed));
      rwtx := Some(Switched(rwtx.value, disk, root, tree, run.value));
    }

    /** Commit up to the new list page. Without a run for it, the rollback also takes back the freeing of the old one. */
    method PrepareCommit(root: nat, tree: map<nat, Block>, unmapped: bool, mapped: bool)
      returns (run: Option<ListRun>, ghost mid: FreeState)
      requires Valid() && TreeReady(Abs(), root, tree)
      modifies this`rwtx, freeList, fileMap
      ensures fileMap.Valid() && fileMap.filesz == old(fileMap.filesz)
      ensures run.None? ==> Valid() && Rollback(old(Abs()), Abs())
      ensures run.Some? ==> Prepared(old(Abs()), Abs(), root, tree, mid, run.value) && run.value.total < MAX_PAGES
      ensures run.Some? ==> MapHolds(fileMap.datasz, run.value.total, slack)
      ensures run.Some? && run.value.total != old(Mark(Abs())) ==> fileMap.Covers(run.value.total)
      ensures run.Some? && old(fileMap.datasz) != 0 ==> fileMap.datasz != 0
    {
      ghost var s, mark, bytes := Abs(), rwtx.value.meta.total, fileMap.datasz;
      ReadyMark(s, root, tree);
      run, mid := TryPrepare(root, tree, unmapped, mapped);
      hide Reachable, TreeReady, Prepared, MapHolds, MapAfter, Rollback, Mark, Readable;
      if run.Some? {
        PreparedTotal(s, Abs(), root, tree, mid, run.value);
        MapGoesOn(bytes, mark, slack, fileMap.datasz, run.value.total, true);
      } else {
        MapGoesOn(bytes, mark, slack, fileMap.datasz, mark, false);
        RolledBackMark(s, Abs());
        MapLower(fileMap.datasz, mark, slack, Mark(Abs()));
      }
    }

    method TryPrepare(root: nat, tree: map<nat, Block>, unmapped: bool, mapped: bool)
      returns (run: Option<ListRun>, ghost mid: FreeState)
      requires Valid() && TreeReady(Abs(), root, tree)
      modifies this`rwtx, freeList, fileMap
      ensures fileMap.Valid() && fileMap.filesz == old(fileMap.filesz)
      ensures run.None? ==> Rollback(old(Abs()), Abs())
      ensures run.Some? ==> Prepared(old(Abs()), Abs(), root, tree, mid, run.value)
      ensures var mark := old(rwtx.value.meta.total);
              MapAfter(old(fileMap.datasz), mark, fileMap.datasz, if run.Some? then run.value.total else mark, run.Some?)
    {
      ghost var s := Abs();
      Basics(s);
      hide Reachable, Saved, TreeReady, Prepared, RollsBack, Frees, Owned;
      FreeOldList();
      mid := freeList.State();
      run := TakeAndSwitch(root, tree, unmapped, mapped);
      if run.Some? {
        SwitchPrepares(s, Abs(), root, tree, mid, run.value);
      } else {
        RestoreList();
        rwtx := Some(rwtx.value.(phase := RolledBack));
      }
    }

    /** The file grows only when the run for the list raised the high-water mark. */
    method GrowFile(before: nat, total: nat, grown: bool) returns (ok: bool)
      requires fileMap.Valid() && total < MAX_PAGES && (total != before ==> fileMap.Covers(total))
      modifies fileMap`filesz
      ensures fileMap.Valid() && Abs() == old(Abs())
      ensures ok && total != before ==> Spans(fileMap.filesz, total + 1) && old(fileMap.filesz) <= fileMap.filesz
    {
      ok := true;
      if total != before {
        ok := fileMap.Grow((total + 1) * PAGE_SIZE, grown);
      }
    }

    /** Page writes, sync, meta write, sync; up to the first that fails. */
    method Flush(calls: Calls, ghost from: State, ghost before: seq<Step>) returns (ok: bool, ghost steps: seq<Step>)
      requires rwtx.Some? && rwtx.value.phase == Writing && rwtx.value.buffers.Keys == rwtx.value.taken
      requires Leads(from, Abs(), before)
      modifies this`meta0, this`meta1, this`disk, this`live, this`rwtx
      ensures Leads(from, Abs(), steps) && (ok ==> Flushed(old(Abs()), Abs()))
      ensures !ok ==> rwtx.Some? && Late(rwtx.value) && rwtx.value.meta == old(rwtx.value.meta)
    {
      ok, steps := WritePages(calls.writes, from, before);
      if !ok || !calls.synced {
        return false, steps;
      }
      ok, steps := SwitchMeta(calls, from, steps);
    }

    /** From the new list page on: the file grows if it must, then pages and meta are written. `s`: before the commit. */
    method FinishCommit(root: nat, tree: map<nat, Block>, before: nat, run: ListRun, calls: Calls,
                        ghost s: State, ghost mid: FreeState)
      returns (ok: bool, ghost steps: seq<Step>)
      requires Reachable(s) && Prepared(s, Abs(), root, tree, mid, run)
      requires fileMap.Valid() && run.total < MAX_PAGES && (run.total != before ==> fileMap.Covers(run.total))
      modifies this`meta0, this`meta1, this`disk, this`live, this`rwtx, fileMap`filesz
      ensures fileMap.Valid() && Leads(s, Abs(), steps) && Reachable(Abs())
      ensures ok ==> TreeCommitted(s, Abs(), root, tree)
      ensures ok ==> rwtx.Some? && rwtx.value.meta.total == run.total
      ensures ok && run.total != before ==> Spans(fileMap.filesz, run.total + 1)
      ensures !ok ==> rwtx.Some? && Late(rwtx.value)
    {
      hide Reachable, Prepared, Flushed, TreeCommitted, Leads;
      ghost var s1 := Abs();
      PreparedStep(s, s1, root, tree, mid, run);
      steps := [PrepareStep(mid, run)];
      ok := GrowFile(before, run.total, calls.grown);
      if ok {
        ok, steps := Flush(calls, s, steps);
      }
      LeadsReachable(s, Abs(), steps);
      if ok {
        FlushedTotal(s1, Abs());
        SwitchCommits(s, s1, Abs(), root, tree, mid, run);
      }
    }

    /** The rollback of a commit that failed after the switch rereads the new list page. */
    method RestoreLate() returns (outcome: Outcome)
      requires rwtx.Some? && Late(rwtx.value)
      modifies this`rwtx, freeList
      ensures outcome == if Readback(disk, old(rwtx.value.meta.freelist)) then UndoneLate else Unreadable
      ensures outcome == UndoneLate ==> LateRollback(old(Abs()), Abs())
      ensures freeList.pending == old(freeList.pending) - {old(rwtx.value.meta.txid)}
    {
      var id := rwtx.value.meta.freelist;
      if Readback(disk, id) {
        RestoreList();
        outcome := UndoneLate;
      } else {
        freeList.Rollback(rwtx.value.meta.txid);
        outcome := Unreadable;
      }
      rwtx := Some(rwtx.value.(phase := RolledBack));
    }

    /** The commit from the switch on, with its late rollback from the state `late` when a call fails. */
    method CommitSwitched(root: nat, tree: map<nat, Block>, before: nat, run: ListRun, calls: Calls,
                          ghost s: State, ghost mid: FreeState)
      returns (outcome: Outcome, ghost steps: seq<Step>, ghost late: State)
      requires Reachable(s) && Prepared(s, Abs(), root, tree, mid, run)
      requires fileMap.Valid() && run.total < MAX_PAGES && (run.total != before ==> fileMap.Covers(run.total))
      requires MapHolds(fileMap.datasz, run.total, slack)
      modifies this`meta0, this`meta1, this`disk, this`live, this`rwtx, freeList, fileMap`filesz
      ensures outcome != Undone
      ensures outcome == Success ==> Valid() && Leads(s, Abs(), steps) && TreeCommitted(s, Abs(), root, tree)
      ensures outcome == Success ==> Mark(Abs()) == run.total
      ensures outcome == Success && run.total != before ==> Spans(fileMap.filesz, run.total + 1)
      ensures outcome != Success ==> Fell(s, late, steps, outcome, Abs())
    {
      hide Reachable, Prepared, Leads, TreeCommitted, LateRollback, LateSafe, Inv, Readback, MapHolds, Spans;
      var ok;
      ok, steps := FinishCommit(root, tree, before, run, calls, s, mid);
      late := Abs();
      if ok {
        CommittedMark(s, late, root, tree);
        return Success, steps, late;
      }
      outcome := RestoreLate();
      if outcome == UndoneLate {
        LateOutcome(late, Abs());
      }
    }

    lemma ReadyToCommit(root: nat, tree: map<nat, Block>)
      requires Valid() && TreeReady(Abs(), root, tree)
      ensures Reachable(Abs()) && rwtx.Some? && Readable(Abs()) && Mark(Abs()) == rwtx.value.meta.total
    {
      hide Reachable, Closed, ListSpan;
    }

    /** Commits the tree; or rolls back when no run for the list page can be had; or, when a call fails after the
        switch to the new list page, rolls back late, from the state `late`. */
    method Commit(root: nat, tree: map<nat, Block>, calls: Calls)
      returns (outcome: Outcome, ghost steps: seq<Step>, ghost late: State)
      requires Valid() && TreeReady(Abs(), root, tree)
      modifies this`meta0, this`meta1, this`disk, this`live, this`rwtx, freeList, fileMap
      ensures outcome.Success? || outcome.Undone? ==> Valid()
      ensures outcome == Undone ==> Rollback(old(Abs()), Abs())
      ensures outcome == Success ==> Leads(old(Abs()), Abs(), steps) && TreeCommitted(old(Abs()), Abs(), root, tree)
      ensures outcome == Success && Mark(Abs()) != old(Mark(Abs())) ==>
                fileMap.Covers(Mark(Abs())) && Spans(fileMap.filesz, Mark(Abs()) + 1)
      ensures outcome == Success && old(fileMap.datasz) != 0 ==> fileMap.datasz != 0
      ensures outcome.UndoneLate? || outcome.Unreadable? ==> Fell(old(Abs()), late, steps, outcome, Abs())
    {
      hide Valid, Abs, Reachable, Prepared, Leads, Rollback, TreeCommitted, TreeReady, Fell, Mark, Readable, MapHolds, Spans;
      ghost var s := Abs();
      ReadyToCommit(root, tree);
      var before := rwtx.value.meta.total;
      var run;
      ghost var mid;
      run, mid := PrepareCommit(root, tree, calls.unmapped, calls.mapped);
      if run.None? {
        outcome, steps, late := Undone, [], s;
      } else {
        outcome, steps, late := CommitSwitched(root, tree, before, run.value, calls, s, mid);
      }
    }
  }

  /** A commit from `s` got to `late`, and the rollback from there left `s'`, with the lists of the new list page, sound
      only if it does no harm; or it found no list in that page. */
  ghost predicate Fell(s: State, late: State, steps: seq<Step>, outcome: Outcome, s': State) {
    && Leads(s, late, steps) && late.writer.Some? && Late(late.writer.value)
    && if Readback(late.disk, late.writer.value.meta.freelist) then
         outcome == UndoneLate && LateRollback(late, s') && (Inv(s') <==> LateSafe(late))
       else outcome == Unreadable
  }

  function Unopened(meta0: Meta, meta1: Meta, disk: map<nat, Block>, live: set<nat>): State {
    State(meta0, meta1, disk, live, FreeState([], map[], map[]), map[], None)
  }

  /** `s` has the disk that a crash of `was` leaves, and nothing in memory. */
  ghost predicate Left(was: State, lost: bool, s: State) {
    var (meta0, meta1, live) := Survivors(was, lost);
    s == Unopened(meta0, meta1, was.disk, live)
  }

  function Reread(listed: seq<nat>): FreeState {
    FreeState(Sort(listed), map[], map p | p in listed :: true)
  }

  lemma LeftReadable(was: State, lost: bool, s: State)
    requires Reachable(was) && Left(was, lost, s)
    ensures Readable(s) && (Validate(s.meta0) || Validate(s.meta1)) && Readback(s.disk, Committed(s).freelist)
    ensures s.free == FreeState([], map[], map[]) && s.readers == map[] && s.writer == None
  {
    ReachableInv(was);
    SurvivorsComplete(was, lost);
  }

  /** The file reaches past all pages below the committed mark. */
  lemma LeftMapped(was: State, lost: bool, s: State, filesz: nat, target: nat)
    requires Reachable(was) && Left(was, lost, s) && filesz <= target
    requires forall p :: p in s.disk ==> Spans(filesz, p + 1)
    ensures 2 * PAGE_SIZE <= filesz && Readable(s) && Spans(target, Committed(s).total)
  {
    LeftReadable(was, lost, s);
    var last := Committed(s).total - 1;
    LeftBacked(was, lost, s);
    assert Spans(filesz, last + 1);
  }

  lemma LeftBacked(was: State, lost: bool, s: State)
    requires Reachable(was) && Left(was, lost, s)
    ensures Readable(s) && 3 <= Committed(s).total && Committed(s).total - 1 in s.disk
  {
    ReachableInv(was);
    ReachableBacked(was);
    SurvivorsComplete(was, lost);
    var c := Committed(s);
    assert c.root in Universe(c.total);
    assert c.total - 1 in Universe(c.total);
  }

  lemma LeftCrashed(was: State, lost: bool, s: State)
    requires Reachable(was) && s.writer.None? && s.readers == map[]
    requires Left(was, lost, s.(free := FreeState([], map[], map[])))
    requires Readable(s) && Readback(s.disk, Committed(s).freelist) && s.free == Reread(s.disk[Committed(s).freelist].ids)
    ensures Crash(was, s, lost) && Reachable(s)
  {
    StepReachable(was, s, DoCrash(lost));
  }

  lemma NewFile(s: State)
    requires s.meta0 == Meta(MAGIC, VERSION, 0, 3, 2, 4, 0) && s.meta1 == Meta(MAGIC, VERSION, 0, 3, 2, 4, 1)
    requires s.disk == map[2 := List([], 0), 3 := Tree([], [])] && s.live == {2, 3}
    requires s.free == FreeState([], map[], map[]) && s.readers == map[] && s.writer == None
    ensures Init(s) && Reachable(s) && Readable(s) && Mark(s) == 4
  {
    hide Reachable;
    InitReachable(s);
  }

  lemma SpansMore(bytes: nat, more: nat, pages: nat)
    requires Spans(bytes, pages) && bytes <= more
    ensures Spans(more, pages)
  {
  }

  lemma RolledBackMark(s: State, s': State)
    requires Reachable(s) && Rollback(s, s')
    ensures Reachable(s') && Readable(s) && Readable(s') && Mark(s') <= Mark(s)
  {
    StepReachable(s, s', DoRollback);
    ReachableInv(s);
    assert EditingOk(s, s.writer.value);
  }

  lemma ReadyMark(s: State, root: nat, tree: map<nat, Block>)
    requires Readable(s) && TreeReady(s, root, tree)
    ensures s.writer.Some? && Mark(s) == s.writer.value.meta.total
  {
  }

  lemma CommittedMark(s: State, s': State, root: nat, tree: map<nat, Block>)
    requires TreeCommitted(s, s', root, tree)
    ensures Readable(s') && s'.writer.Some? && Mark(s') == s'.writer.value.meta.total
  {
  }

  lemma PreparedTotal(s: State, s1: State, root: nat, tree: map<nat, Block>, mid: FreeState, run: ListRun)
    requires Prepared(s, s1, root, tree, mid, run)
    ensures s.writer.Some? && s.writer.value.meta.total <= run.total < MAX_PAGES
  {
  }

  lemma LateOutcome(late: State, s: State)
    requires Reachable(late) && LateRollback(late, s)
    ensures Inv(s) <==> LateSafe(late)
  {
    ReachableInv(late);
    LateRollbackSafeIff(late, s);
  }

  /** What methods need to know of a reachable state. */
  lemma Basics(s: State)
    requires Reachable(s)
    ensures Readable(s) && WellFormed(s.free)
    ensures s.writer.Some? && s.writer.value.phase == Editing ==>
              var w, c := s.writer.value, Committed(s);
              && 2 <= w.meta.total < MAX_PAGES && c.total <= w.meta.total && Owned(s.free) <= Universe(w.meta.total)
              && w.meta.freelist == c.freelist && c.freelist in s.disk && s.disk[c.freelist].List?
              && Increasing(s.disk[c.freelist].ids)
              && |EncodeSlots(s.disk[c.freelist].ids)| <= SlotCapacity(s.disk[c.freelist].overflow + 1)
  {
    ReachableInv(s);
  }

  lemma SpanOfWork(s: State, start: nat, overflow: nat)
    requires Reachable(s) && s.writer.Some? && s.writer.value.phase == Editing
    requires Span(start, overflow + 1) <= s.writer.value.work
    ensures 2 <= start && Span(start, overflow + 1) !! Owned(s.free)
  {
    ReachableInv(s);
    assert start in Span(start, overflow + 1);
  }

  /** List pages have no children, so adding them keeps the tree closed. */
  lemma ListPagesClosed(disk: map<nat, Block>, tree: map<nat, Block>, list: map<nat, Block>, kept: set<nat>, span: set<nat>)
    requires Closed(disk + tree, kept) && list.Keys == span && span !! kept
    requires forall p :: p in list ==> Children(list[p]) == []
    ensures Closed(disk + (tree + list), kept + span)
  {
    var all := disk + (tree + list);
    forall p, c | p in kept + span && Child(all, p, c) ensures c in kept + span {
      assert p in kept && Child(disk + tree, p, c);
    }
  }
}
