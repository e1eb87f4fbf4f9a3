/** The free list as the program keeps it: fields updated in place, and the page it is saved in. */
module FreeLists {
  import opened Common
  import opened PageIds
  import opened FreeListSpec

  const FREELIST_PAGE_FLAG: bv16 := 0x10

  /** A page run from `DB::allocate`, seen as a free-list page. */
  class ListPage {
    const id: nat
    const overflow: nat
    const slots: array<nat>
    var flag: bv16
    var count: nat

    ghost predicate Valid() reads this, slots {
      slots.Length == SlotCapacity(overflow + 1) && Decodable(count, slots[..])
    }

    method Save(ids: seq<nat>)
      requires Valid() && |EncodeSlots(ids)| <= slots.Length
      modifies this, slots
      ensures flag == old(flag) | FREELIST_PAGE_FLAG
      ensures Valid() && Listed(count, slots[..]) == ids
    {
      hide Listed, Decodable;
      flag := flag | FREELIST_PAGE_FLAG;
      ghost var rest := slots[|EncodeSlots(ids)|..];
      if |ids| < COUNT_OVERFLOW {
        count := |ids|;
        StoreAt(slots, 0, ids);
      } else {
        count := COUNT_OVERFLOW;
        StoreCounted(slots, ids);
      }
      assert slots[..] == EncodeSlots(ids) + rest;
      ListRoundTrip(ids, rest);
    }

    constructor (id: nat, pages: nat)
      requires 1 <= pages
      ensures this.id == id && overflow == pages - 1 && fresh(slots)
      ensures Valid() && flag == 0 && count == 0
    {
      this.id, overflow := id, pages - 1;
      slots := new nat[SlotCapacity(pages)];
      flag, count := 0, 0;
    }
  }

  /** What was saved in a page, read into an empty list: one sorted list of all that was free or pending. */
  method Reopen(saved: FreeList, page: ListPage) returns (read: FreeList)
    requires Increasing(saved.ids) && WellFormedPending(saved.ids, saved.pending)
    requires page.Valid()
    requires |Owned(saved.State())| + (if |Owned(saved.State())| >= COUNT_OVERFLOW then 1 else 0) <= page.slots.Length
    modifies page, page.slots
    ensures fresh(read) && read.pending == map[]
    ensures Increasing(read.ids) && Elems(read.ids) == Owned(saved.State())
    ensures Marked(read.cache) == Owned(saved.State())
  {
    hide Listed, Decodable, WellFormedPending, Marked, Owned, Sort, NonDecreasing;
    ghost var listed := saved.Write(page);
    read := new FreeList();
    read.Read(page);
    SortedDistinct(read.ids, listed);
    assert Pages(map[]) == {};
  }

  method StoreAt(slots: array<nat>, first: nat, src: seq<nat>)
    requires first + |src| <= slots.Length
    modifies slots
    ensures slots[..] == old(slots[..first]) + src + old(slots[first + |src|..])
  {
    for i := 0 to |src|
      invariant forall k :: 0 <= k < slots.Length ==>
                  slots[k] == if first <= k < first + i then src[k - first] else old(slots[k])
    {
      slots[first + i] := src[i];
    }
  }

  /** The number of ids in the first slot, the ids behind it. */
  method StoreCounted(slots: array<nat>, ids: seq<nat>)
    requires 1 + |ids| <= slots.Length
    modifies slots
    ensures slots[..] == [|ids|] + ids + old(slots[1 + |ids|..])
  {
    ghost var rest := slots[1 + |ids|..];
    slots[0] := |ids|;
    assert slots[..1] == [|ids|] && slots[1 + |ids|..] == rest;
    StoreAt(slots, 1, ids);
  }

  /** One pass over sorted ids, tracking where the current run of consecutive ids began. */
  method FindRun(ids: seq<nat>, n: nat) returns (start: nat, i: nat)
    requires Increasing(ids) && forall p :: p in ids ==> 2 <= p
    ensures start == 0 ==> n == 0 || forall s: nat :: !RunAt(ids, s, n)
    ensures start != 0 ==> i < |ids| && RunEndsAt(ids, start, i) && ids[i] - start + 1 == n
    ensures start != 0 ==> forall s: nat :: RunAt(ids, s, n) ==> start <= s
  {
    start, i := 0, 0;
    var init: nat, prev: nat := 0, 0;
    while i < |ids|
      invariant i <= |ids| && start == 0
      invariant i == 0 ==> prev == 0
      invariant i > 0 ==> prev == ids[i - 1] && prev in ids && RunEndsAt(ids, init, i - 1)
      invariant n > 0 && i > 0 ==> prev - init + 1 < n
      invariant n > 0 && i > 0 ==> forall s: nat :: RunAt(ids, s, n) ==> prev < s + n - 1
    {
      var id := ids[i];
      if prev == 0 || id - prev != 1 {
        init := id;
      }
      RunExtends(ids, init, i);
      forall s: nat | n > 0 && RunAt(ids, s, n) ensures s + n - 1 >= id && (s + n - 1 == id ==> init <= s) {
        LastRun(ids, init, i, s, n);
      }
      if id - init + 1 == n {
        assert ids[i + 1 - n] == init && init in ids;
        return init, i;
      }
      prev, i := id, i + 1;
    }
    forall s: nat | n > 0 ensures !RunAt(ids, s, n) {
      assert s + n - 1 in Span(s, n);
    }
  }

  method Without(read: seq<nat>, current: set<nat>) returns (kept: seq<nat>)
    requires Increasing(read)
    ensures Increasing(kept) && Elems(kept) == Elems(read) - current
  {
    kept := [];
    for i := 0 to |read|
      invariant Increasing(kept) && Elems(kept) == Elems(read[..i]) - current
      invariant i < |read| ==> forall x :: x in kept ==> x < read[i]
    {
      ElemsStep(read, i);
      if read[i] !in current {
        AppendIncreasing(kept, read[i]);
        kept := kept + [read[i]];
      }
    }
    assert read[..|read|] == read;
  }

  // ----- The free list -----

  class FreeList {
    var ids: seq<nat>
    var pending: map<nat, seq<nat>>
    var cache: map<nat, bool>

    ghost function State(): FreeState reads this {
      FreeState(ids, pending, cache)
    }

    constructor ()
      ensures State() == FreeState([], map[], map[])
    {
      ids, pending, cache := [], map[], map[];
    }

    method Reindex()
      modifies this`cache
      ensures ids == old(ids) && pending == old(pending)
      ensures Marked(cache) == Elems(ids) + Pages(pending) == cache.Keys
    {
      cache := map[];
      for i := 0 to |ids|
        invariant Marked(cache) == cache.Keys
        invariant Marked(cache) == Elems(ids[..i])
      {
        MarkOne(cache, ids[i]);
        ElemsStep(ids, i);
        cache := cache[ids[i] := true];
      }
      assert ids[..|ids|] == ids;
      var todo := pending.Keys;
      while todo != {}
        invariant todo <= pending.Keys && Marked(cache) == cache.Keys
        invariant Marked(cache) == Elems(ids) + Pages(pending - todo)
      {
        var t: nat :| t in todo;
        ghost var before := Marked(cache);
        var list := pending[t];
        for i := 0 to |list|
          invariant Marked(cache) == before + Elems(list[..i]) && Marked(cache) == cache.Keys
        {
          MarkOne(cache, list[i]);
          ElemsStep(list, i);
          cache := cache[list[i] := true];
        }
        assert list[..|list|] == list;
        PagesAdd(pending, todo, t);
        todo := todo - {t};
      }
      assert pending - {} == pending;
    }

    method Read(page: ListPage)
      requires page.Valid()
      modifies this`ids, this`cache
      ensures pending == old(pending)
      ensures ids == Sort(Listed(page.count, page.slots[..]))
      ensures Marked(cache) == Elems(ids) + Pages(pending) == cache.Keys
    {
      var index, count := 0, page.count;
      if count == COUNT_OVERFLOW {
        index, count := 1, page.slots[0];
      }
      var read := [];
      for i := 0 to count
        invariant read == page.slots[index..index + i]
      {
        read := read + [page.slots[index + i]];
      }
      assert read == Listed(page.count, page.slots[..]);
      ids := Sort(read);
      Reindex();
    }

    /** Merges `src` with `ids`. */
    method MergeIds(src: seq<nat>) returns (dest: seq<nat>)
      ensures dest == Merge(src, ids)
    {
      var own := ids;
      dest := [];
      var i, j := 0, 0;
      while i < |src| && j < |own|
        invariant i <= |src| && j <= |own|
        invariant dest + Merge(src[i..], own[j..]) == Merge(src, own)
        decreases |src| - i + |own| - j
      {
        ghost var rest := Merge(src[i..], own[j..]);
        if src[i] < own[j] {
          assert src[i..][1..] == src[i + 1..];
          assert dest + rest == (dest + [src[i]]) + Merge(src[i + 1..], own[j..]);
          dest, i := dest + [src[i]], i + 1;
        } else {
          assert own[j..][1..] == own[j + 1..];
          assert dest + rest == (dest + [own[j]]) + Merge(src[i..], own[j + 1..]);
          dest, j := dest + [own[j]], j + 1;
        }
      }
      if i < |src| {
        dest := dest + src[i..];
      }
      if j < |own| {
        dest := dest + own[j..];
      }
    }

    /** The pages of every pending list, in whatever order the table yields them. */
    method PendingPages() returns (all: seq<nat>)
      requires WellFormedPending(ids, pending)
      ensures Distinct(all) && Elems(all) == Pages(pending)
    {
      all := [];
      var todo := pending.Keys;
      while todo != {}
        invariant todo <= pending.Keys
        invariant Distinct(all) && Elems(all) == Pages(pending - todo)
      {
        var t: nat :| t in todo;
        PagesAdd(pending, todo, t);
        PagesApart(ids, pending, todo, t);
        DistinctConcat(all, pending[t]);
        all := all + pending[t];
        todo := todo - {t};
      }
      assert pending - {} == pending;
    }

    method CopyAll() returns (dest: seq<nat>)
      requires Increasing(ids) && WellFormedPending(ids, pending)
      ensures Increasing(dest) && Elems(dest) == Owned(State())
    {
      var tmp := PendingPages();
      var sorted := Sort(tmp);
      SortedDistinct(sorted, tmp);
      dest := MergeIds(sorted);
      MergeIncreasing(sorted, ids);
    }

    method Count() returns (n: nat)
      requires Increasing(ids) && WellFormedPending(ids, pending)
      ensures n == |Owned(State())|
    {
      var freeCount := |ids|;
      var pendingCount := 0;
      var todo := pending.Keys;
      while todo != {}
        invariant todo <= pending.Keys
        invariant pendingCount == |Pages(pending - todo)|
      {
        var t: nat :| t in todo;
        PagesAdd(pending, todo, t);
        DistinctCount(pending[t]);
        PagesApart(ids, pending, todo, t);
        pendingCount := pendingCount + |pending[t]|;
        todo := todo - {t};
      }
      assert pending - {} == pending;
      DistinctCount(ids);
      assert Elems(ids) !! Pages(pending);
      n := freeCount + pendingCount;
    }

    method Size() returns (bytes: nat)
      requires Increasing(ids) && WellFormedPending(ids, pending)
      ensures bytes == SerialSize(|Owned(State())|)
      ensures forall l: seq<nat> :: Increasing(l) && Elems(l) == Owned(State()) ==>
                bytes == (16 + 8 * |EncodeSlots(l)|) % 0x1_0000_0000
    {
      forall l: seq<nat> | Increasing(l) && Elems(l) == Owned(State())
        ensures SerialSize(|Owned(State())|) == (16 + 8 * |EncodeSlots(l)|) % 0x1_0000_0000
      {
        DistinctCount(l);
        SizeIsExact(l);
      }
      var n := Count();
      if n >= COUNT_OVERFLOW {
        n := n + 1;
      }
      bytes := (PAGE_HEADER_SIZE + n * PGID_SIZE) % UINT32_LIMIT;
    }

    /** Persists free and pending ids together, sorted. */
    method Write(page: ListPage) returns (ghost listed: seq<nat>)
      requires Increasing(ids) && WellFormedPending(ids, pending)
      requires page.Valid()
      requires |Owned(State())| + (if |Owned(State())| >= COUNT_OVERFLOW then 1 else 0) <= page.slots.Length
      modifies page, page.slots
      ensures page.flag == old(page.flag) | FREELIST_PAGE_FLAG
      ensures Increasing(listed) && Elems(listed) == Owned(State())
      ensures page.Valid() && Listed(page.count, page.slots[..]) == listed
    {
      var dest := CopyAll();
      DistinctCount(dest);
      page.Save(dest);
      listed := dest;
    }

    /** First fit; pages come out of `ids` and out of the index. */
    method Allocate(n: nat) returns (start: nat)
      requires WellFormed(State())
      modifies this
      ensures Allocates(old(State()), n, start, State())
      ensures WellFormed(State())
    {
      ghost var f := State();
      var i;
      start, i := FindRun(ids, n);
      if start != 0 {
        RunIsSlice(ids, start, i);
        ids := ids[..i + 1 - n] + ids[i + 1..];
        EraseRun(start, n);
        AllocatesKeeps(f, n, start, State());
      }
    }

    method EraseRun(init: nat, n: nat)
      modifies this`cache
      ensures cache == old(cache) - Span(init, n)
    {
      for j := 0 to n
        invariant cache == old(cache) - Span(init, j)
      {
        cache := cache - {init + j};
        assert Span(init, j + 1) == Span(init, j) + {init + j};
      }
    }

    /** Moves the lists of transactions up to `tid` out of `pending`. */
    method TakeUpto(tid: nat) returns (tmp: seq<nat>)
      requires WellFormedPending(ids, pending)
      modifies this`pending
      ensures pending == Later(old(pending), tid)
      ensures Distinct(tmp) && Elems(tmp) == Pages(Upto(old(pending), tid))
    {
      tmp := [];
      ghost var was := pending;
      ghost var taken := Upto(was, tid);
      var todo := pending.Keys;
      while todo != {}
        invariant todo <= was.Keys
        invariant forall t :: t in pending <==> t in was && (t > tid || t in todo)
        invariant forall t :: t in pending ==> pending[t] == was[t]
        invariant Distinct(tmp) && Elems(tmp) == Pages(taken - todo * taken.Keys)
      {
        var t: nat :| t in todo;
        if t <= tid {
          HoldsSplit(was, tid);
          PagesAdd(taken, todo * taken.Keys, t);
          PagesApart(ids, taken, todo * taken.Keys, t);
          DistinctConcat(tmp, was[t]);
          assert todo * taken.Keys - {t} == (todo - {t}) * taken.Keys;
          tmp := tmp + pending[t];
          pending := pending - {t};
        } else {
          assert todo * taken.Keys == (todo - {t}) * taken.Keys;
        }
        todo := todo - {t};
      }
      assert taken - todo * taken.Keys == taken;
      assert pending == Later(was, tid);
    }

    method Release(tid: nat)
      requires WellFormed(State())
      modifies this
      ensures Releases(old(State()), tid, State())
      ensures WellFormed(State())
    {
      ghost var f := State();
      var tmp := TakeUpto(tid);
      var sorted := Sort(tmp);
      SortedDistinct(sorted, tmp);
      assert Elems(tmp) !! Elems(ids) by {
        HoldsSplit(f.pending, tid);
        forall p | p in Elems(tmp) ensures p !in ids {
          InPages(Upto(f.pending, tid), p);
        }
      }
      var merged := MergeIds(sorted);
      MergeIncreasing(sorted, ids);
      ids := merged;
      ReleasesKeeps(f, tid, State());
    }

    /** The already-freed assertion is what it demands. The list stays well formed exactly when the span is past the
        meta pages and not owned yet. */
    method Free(tid: nat, start: nat, overflow: nat)
      requires Span(start, overflow + 1) !! Marked(cache)
      modifies this
      ensures Frees(old(State()), tid, start, overflow, State())
      ensures old(WellFormed(State())) ==>
                (WellFormed(State()) <==> 2 <= start && Span(start, overflow + 1) !! old(Owned(State())))
    {
      hide WellFormed, Owned, Elems, Distinct;
      ghost var f := State();
      var list := if tid in pending then pending[tid] else [];
      ghost var before := list;
      for id: nat := start to start + overflow + 1
        invariant list == before + SpanSeq(start, id - start)
        invariant ids == old(ids) && pending == old(pending) && Marked(cache) == Marked(old(cache))
      {
        if id !in cache {
          cache := cache[id := false];
        }
        assert !cache[id] by {
          assert id in Span(start, overflow + 1);
          assert id !in Marked(cache);
        }
        list := list + [id];
        assert SpanSeq(start, id + 1 - start) == SpanSeq(start, id - start) + [id];
      }
      pending := pending[tid := list];
      assert Frees(f, tid, start, overflow, State());
      if WellFormed(f) {
        hide Frees;
        FreesWellFormedIff(f, tid, start, overflow, State());
      }
    }

    method Rollback(tid: nat)
      modifies this
      ensures ids == old(ids) && pending == old(pending) - {tid}
      ensures cache == old(cache) - Elems(ListOf(old(pending), tid))
    {
      var list := if tid in pending then pending[tid] else [];
      for i := 0 to |list|
        invariant ids == old(ids) && pending == old(pending)
        invariant cache == old(cache) - Elems(list[..i])
      {
        ElemsStep(list, i);
        cache := cache - {list[i]};
      }
      assert list[..|list|] == list;
      pending := pending - {tid};
    }

    method Reload(page: ListPage)
      requires page.Valid() && Distinct(Listed(page.count, page.slots[..]))
      modifies this
      ensures pending == old(pending)
      ensures Increasing(ids) && Elems(ids) == Elems(Listed(page.count, page.slots[..])) - Pages(pending)
      ensures Marked(cache) == Owned(State())
    {
      Read(page);
      var read := ids;
      SortedDistinct(read, Listed(page.count, page.slots[..]));
      assert Increasing(read);
      var current := PendingSet();
      var newIds := Without(read, current);
      ids := newIds;
      Reindex();
    }

    method PendingSet() returns (current: set<nat>)
      ensures current == Pages(pending)
    {
      current := {};
      var todo := pending.Keys;
      while todo != {}
        invariant todo <= pending.Keys
        invariant current == Pages(pending - todo)
      {
        var t: nat :| t in todo;
        PagesAdd(pending, todo, t);
        current := current + set p | p in pending[t];
        todo := todo - {t};
      }
      assert pending - {} == pending;
    }
  }

  // ----- Lemmas -----

  lemma MarkOne(cache: map<nat, bool>, p: nat)
    ensures Marked(cache[p := true]) == Marked(cache) + {p}
  {
  }

  lemma PagesAdd(pending: map<nat, seq<nat>>, todo: set<nat>, t: nat)
    requires t in todo && todo <= pending.Keys
    ensures Pages(pending - (todo - {t})) == Pages(pending - todo) + Elems(pending[t])
  {
    var small, large := pending - todo, pending - (todo - {t});
    assert forall u: nat, p: nat :: Holds(large, u, p) <==> Holds(small, u, p) || (u == t && p in pending[t]);
    forall p ensures p in Pages(large) <==> p in Pages(small) + Elems(pending[t]) {
      InPages(large, p);
      InPages(small, p);
      if p in pending[t] {
        assert Holds(large, t, p);
      }
    }
  }

  lemma PagesApart(ids: seq<nat>, pending: map<nat, seq<nat>>, todo: set<nat>, t: nat)
    requires WellFormedPending(ids, pending)
    requires t in todo && todo <= pending.Keys
    ensures Pages(pending - todo) !! Elems(pending[t])
  {
    forall p | p in Pages(pending - todo) ensures p !in pending[t] {
      InPages(pending - todo, p);
      var u: nat :| Holds(pending - todo, u, p);
      assert Holds(pending, u, p);
      assert p in pending[t] ==> Holds(pending, t, p);
    }
  }

  lemma MergeIncreasing(a: seq<nat>, b: seq<nat>)
    requires Increasing(a) && Increasing(b) && Elems(a) !! Elems(b)
    ensures Increasing(Merge(a, b)) && Elems(Merge(a, b)) == Elems(a) + Elems(b)
  {
    MergeBag(a, b);
    MergeSorted(a, b);
    DistinctConcat(a, b);
    SortedDistinct(Merge(a, b), a + b);
  }

  /** The run of consecutive ids that ends at index `i` starts at `init` and cannot start earlier. */
  ghost predicate RunEndsAt(ids: seq<nat>, init: nat, i: nat)
    requires i < |ids|
  {
    && init <= ids[i]
    && ids[i] - init <= i
    && (forall k :: i - (ids[i] - init) <= k <= i ==> ids[k] == ids[i] - (i - k))
    && (init == 0 || init - 1 !in ids)
  }

  lemma RunExtends(ids: seq<nat>, init: nat, i: nat)
    requires Increasing(ids) && i < |ids|
    requires if i > 0 && ids[i] - ids[i - 1] == 1 then RunEndsAt(ids, init, i - 1) else init == ids[i]
    ensures RunEndsAt(ids, init, i)
  {
    if i == 0 || ids[i] - ids[i - 1] != 1 {
      forall k | 0 <= k < |ids| ensures ids[k] != init - 1 {
        assert k < i - 1 ==> ids[k] < ids[i - 1];
      }
    }
  }

  lemma LastRun(ids: seq<nat>, init: nat, i: nat, s: nat, n: nat)
    requires Increasing(ids) && i < |ids| && RunEndsAt(ids, init, i)
    requires n > 0 && RunAt(ids, s, n)
    requires i > 0 ==> ids[i - 1] < s + n - 1
    ensures s + n - 1 >= ids[i]
    ensures s + n - 1 == ids[i] ==> init <= s
  {
    assert s + n - 1 in Span(s, n);
    var k :| 0 <= k < |ids| && ids[k] == s + n - 1;
    assert k >= i;
    assert s < init <= s + n - 1 ==> init - 1 in Span(s, n);
  }

  /** Cutting the run that ends at index `i` out of `ids` removes exactly its span. */
  lemma RunIsSlice(ids: seq<nat>, init: nat, i: nat)
    requires Increasing(ids) && i < |ids| && RunEndsAt(ids, init, i)
    ensures var n := ids[i] - init + 1;
            var rest := ids[..i + 1 - n] + ids[i + 1..];
            RunAt(ids, init, n) && Increasing(rest) && Elems(rest) == Elems(ids) - Span(init, n)
  {
    var n := ids[i] - init + 1;
    var low, high := ids[..i + 1 - n], ids[i + 1..];
    var run := ids[i + 1 - n..i + 1];
    assert forall k :: 0 <= k < n ==> run[k] == init + k;
    assert Elems(run) == Span(init, n) by {
      forall p | p in Span(init, n) ensures p in run {
        assert run[p - init] == p;
      }
    }
    assert ids == low + run + high;
    forall p | p in run ensures p !in low + high {
    }
  }
}
