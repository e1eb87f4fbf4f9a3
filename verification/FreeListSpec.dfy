/** The abstract free list: its state, what each operation does to it, and what every operation keeps. */
module FreeListSpec {
  import opened Common
  import opened PageIds

  const PGID_SIZE: nat := 8
  const COUNT_OVERFLOW: nat := 0xffff

  /** `ids`: free now; `pending[t]`: freed by transaction `t`; `cache`: the lookup index. */
  datatype FreeState = FreeState(ids: seq<nat>, pending: map<nat, seq<nat>>, cache: map<nat, bool>)

  ghost predicate Holds(pending: map<nat, seq<nat>>, t: nat, p: nat) {
    t in pending && p in pending[t]
  }

  ghost function Pages(pending: map<nat, seq<nat>>): set<nat> {
    set t, p | t in pending && p in pending[t] && Holds(pending, t, p) :: p
  }

  /** Every page the free list owns: the ids it persists. */
  ghost function Owned(f: FreeState): set<nat> {
    Elems(f.ids) + Pages(f.pending)
  }

  /** The pages for which the index answers yes. */
  ghost function Marked(cache: map<nat, bool>): set<nat> {
    set p | p in cache && cache[p]
  }

  ghost predicate WellFormedPending(ids: seq<nat>, pending: map<nat, seq<nat>>) {
    && (forall t :: t in pending ==> Distinct(pending[t]))
    && (forall t, p :: Holds(pending, t, p) ==> 2 <= p && p !in ids)
    && (forall t, u, p :: Holds(pending, t, p) && Holds(pending, u, p) ==> t == u)
  }

  /** Ids sorted, no page listed twice, and the index marks only owned pages. */
  ghost predicate WellFormed(f: FreeState) {
    && Increasing(f.ids)
    && (forall p :: p in f.ids ==> 2 <= p)
    && WellFormedPending(f.ids, f.pending)
    && Marked(f.cache) <= Owned(f)
  }

  // ----- What each operation does -----

  /** `n` consecutive free ids start at `start`. */
  ghost predicate RunAt(ids: seq<nat>, start: nat, n: nat) {
    Span(start, n) <= Elems(ids)
  }

  /** First fit: the lowest run of `n` ids, or 0 exactly when there is none. */
  ghost predicate Allocates(f: FreeState, n: nat, start: nat, f': FreeState) {
    if start == 0 then
      f' == f && (n == 0 || forall s: nat :: !RunAt(f.ids, s, n))
    else
      && 1 <= n
      && RunAt(f.ids, start, n)
      && (forall s: nat :: RunAt(f.ids, s, n) ==> start <= s)
      && Increasing(f'.ids)
      && Elems(f'.ids) == Elems(f.ids) - Span(start, n)
      && f'.pending == f.pending
      && f'.cache == f.cache - Span(start, n)
  }

  ghost function Upto(pending: map<nat, seq<nat>>, tid: nat): map<nat, seq<nat>> {
    map t | t in pending && t <= tid :: pending[t]
  }

  ghost function Later(pending: map<nat, seq<nat>>, tid: nat): map<nat, seq<nat>> {
    map t | t in pending && t > tid :: pending[t]
  }

  /** Transactions up to and including `tid` give their pages back to `ids`. */
  ghost predicate Releases(f: FreeState, tid: nat, f': FreeState) {
    && Increasing(f'.ids)
    && Elems(f'.ids) == Elems(f.ids) + Pages(Upto(f.pending, tid))
    && f'.pending == Later(f.pending, tid)
    && f'.cache == f.cache
  }

  ghost function ListOf(pending: map<nat, seq<nat>>, tid: nat): seq<nat> {
    if tid in pending then pending[tid] else []
  }

  ghost function SpanSeq(start: nat, n: nat): (s: seq<nat>)
    ensures Distinct(s) && Elems(s) == Span(start, n)
  {
    var s := seq(n, i requires 0 <= i < n => start + i);
    assert forall p :: p in Span(start, n) ==> s[p - start] == p;
    s
  }

  /** Pages `start .. start + overflow` join `tid`'s pending list; the index learns nothing. */
  ghost predicate Frees(f: FreeState, tid: nat, start: nat, overflow: nat, f': FreeState) {
    && f'.ids == f.ids
    && f'.pending == f.pending[tid := ListOf(f.pending, tid) + SpanSeq(start, overflow + 1)]
    && Marked(f'.cache) == Marked(f.cache)
  }

  /** `tid`'s pending list is dropped and `ids` is rebuilt from a persisted list. */
  ghost predicate RollsBack(f: FreeState, tid: nat, listed: seq<nat>, f': FreeState) {
    && f'.pending == f.pending - {tid}
    && Increasing(f'.ids)
    && Elems(f'.ids) == Elems(listed) - Pages(f'.pending)
    && Marked(f'.cache) == Owned(f')
  }

  // ----- Persistence -----

  /** How a list of ids lies in the page: the count field and the slots after the header. */
  ghost function EncodeCount(ids: seq<nat>): nat {
    if |ids| < COUNT_OVERFLOW then |ids| else COUNT_OVERFLOW
  }

  ghost function EncodeSlots(ids: seq<nat>): seq<nat> {
    if |ids| < COUNT_OVERFLOW then ids else [|ids|] + ids
  }

  ghost predicate Decodable(count: nat, slots: seq<nat>) {
    if count == COUNT_OVERFLOW then 1 <= |slots| && slots[0] + 1 <= |slots| else count <= |slots|
  }

  /** The ids a page holds, as its count field says to read them. */
  ghost function Listed(count: nat, slots: seq<nat>): seq<nat>
    requires Decodable(count, slots)
  {
    if count == COUNT_OVERFLOW then slots[1..slots[0] + 1] else slots[..count]
  }

  /** Reading returns what was written, at every count, whatever follows in the page. */
  lemma ListRoundTrip(ids: seq<nat>, rest: seq<nat>)
    ensures Decodable(EncodeCount(ids), EncodeSlots(ids) + rest)
    ensures Listed(EncodeCount(ids), EncodeSlots(ids) + rest) == ids
  {
    var slots := EncodeSlots(ids) + rest;
    if |ids| < COUNT_OVERFLOW {
      assert slots[..|ids|] == ids;
    } else {
      assert slots[1..|ids| + 1] == ids;
    }
  }

  function SlotCapacity(pages: nat): nat
    requires 1 <= pages
  {
    (pages * PAGE_SIZE - PAGE_HEADER_SIZE) / PGID_SIZE
  }

  /** Bytes the list takes for `count` ids, in the 32-bit type of the source. */
  function SerialSize(count: nat): nat {
    (PAGE_HEADER_SIZE + (if count >= COUNT_OVERFLOW then count + 1 else count) * PGID_SIZE) % UINT32_LIMIT
  }

  /** The size is that of the header and of every slot a list of so many ids fills. */
  lemma SizeIsExact(l: seq<nat>)
    ensures SerialSize(|l|) == (16 + 8 * |EncodeSlots(l)|) % 0x1_0000_0000
  {
  }

  /** A run has as many slots as fit behind its header. */
  lemma SlotsFill(pages: nat)
    requires 1 <= pages
    ensures 16 + 8 * SlotCapacity(pages) <= pages * 4096 < 16 + 8 * (SlotCapacity(pages) + 1)
  {
  }

  /** The pages reserved from `size()` hold every slot written later, although the list may shrink in between. */
  lemma ListFits(reserved: nat, written: seq<nat>)
    requires |written| <= reserved < 0x1fff_fffd
    ensures |EncodeSlots(written)| <= SlotCapacity(SerialSize(reserved) / PAGE_SIZE + 1)
  {
    var slots := if reserved >= COUNT_OVERFLOW then reserved + 1 else reserved;
    assert |EncodeSlots(written)| <= slots;
    assert SerialSize(reserved) == PAGE_HEADER_SIZE + slots * PGID_SIZE;
    assert (SerialSize(reserved) / PAGE_SIZE + 1) * PAGE_SIZE >= SerialSize(reserved);
  }

  // ----- What every operation keeps -----

  lemma InPages(pending: map<nat, seq<nat>>, p: nat)
    ensures p in Pages(pending) <==> exists t :: Holds(pending, t, p)
  {
  }

  lemma OwnedParts(f: FreeState)
    requires WellFormed(f)
    ensures Elems(f.ids) !! Pages(f.pending)
    ensures forall p :: p in Owned(f) ==> 2 <= p
  {
  }

  lemma AllocatesKeeps(f: FreeState, n: nat, start: nat, f': FreeState)
    requires WellFormed(f) && Allocates(f, n, start, f') && start != 0
    ensures WellFormed(f')
    ensures 2 <= start && Span(start, n) <= Elems(f.ids)
    ensures Owned(f') == Owned(f) - Span(start, n)
  {
    OwnedParts(f);
    assert start in Span(start, n);
    assert forall p :: p in f'.ids ==> p in Elems(f'.ids);
    assert WellFormedPending(f'.ids, f'.pending);
    assert Owned(f') == Owned(f) - Span(start, n);
  }

  /** Releasing neither loses nor gains a page. */
  lemma ReleasesKeeps(f: FreeState, tid: nat, f': FreeState)
    requires WellFormed(f) && Releases(f, tid, f')
    ensures WellFormed(f')
    ensures Owned(f') == Owned(f)
  {
    PagesSplit(f.pending, tid);
    HoldsSplit(f.pending, tid);
    forall p | p in f'.ids ensures 2 <= p && forall t :: !Holds(f'.pending, t, p) {
      assert p in Elems(f'.ids);
      InPages(Upto(f.pending, tid), p);
    }
  }

  lemma HoldsSplit(pending: map<nat, seq<nat>>, tid: nat)
    ensures forall t: nat, p: nat :: Holds(Upto(pending, tid), t, p) <==> t <= tid && Holds(pending, t, p)
    ensures forall t: nat, p: nat :: Holds(Later(pending, tid), t, p) <==> t > tid && Holds(pending, t, p)
  {
  }

  lemma PagesSplit(pending: map<nat, seq<nat>>, tid: nat)
    ensures Pages(pending) == Pages(Upto(pending, tid)) + Pages(Later(pending, tid))
  {
    HoldsSplit(pending, tid);
    forall p ensures p in Pages(pending) <==> p in Pages(Upto(pending, tid)) + Pages(Later(pending, tid)) {
      InPages(pending, p);
      InPages(Upto(pending, tid), p);
      InPages(Later(pending, tid), p);
    }
  }

  lemma FreesKeeps(f: FreeState, tid: nat, start: nat, overflow: nat, f': FreeState)
    requires WellFormed(f) && 2 <= start && Span(start, overflow + 1) !! Owned(f)
    requires Frees(f, tid, start, overflow, f')
    ensures WellFormed(f')
    ensures Owned(f') == Owned(f) + Span(start, overflow + 1)
    ensures Elems(ListOf(f'.pending, tid)) == Elems(ListOf(f.pending, tid)) + Span(start, overflow + 1)
    ensures f'.pending - {tid} == f.pending - {tid}
    ensures forall t: nat, p: nat :: Holds(f.pending, t, p) ==> Holds(f'.pending, t, p)
  {
    var was, added := ListOf(f.pending, tid), SpanSeq(start, overflow + 1);
    assert forall p :: p in was ==> Holds(f.pending, tid, p) && p in Pages(f.pending);
    DistinctConcat(was, added);
    assert forall p :: p in added <==> p in Span(start, overflow + 1);
    HoldsAfterFree(f.pending, tid, added);
    assert forall p :: p in added ==> p !in Owned(f);
    assert forall p :: p in Elems(f.ids) <==> p in f.ids;
    assert forall t, p :: Holds(f.pending, t, p) ==> p in Pages(f.pending);
    assert WellFormedPending(f'.ids, f'.pending);
    PagesAfterFree(f.pending, tid, added);
  }

  /** Nothing but a span past the meta pages that is not owned yet can be freed without spoiling the list. */
  lemma FreesWellFormedIff(f: FreeState, tid: nat, start: nat, overflow: nat, f': FreeState)
    requires WellFormed(f) && Frees(f, tid, start, overflow, f')
    ensures WellFormed(f') <==> 2 <= start && Span(start, overflow + 1) !! Owned(f)
  {
    var was, added := ListOf(f.pending, tid), SpanSeq(start, overflow + 1);
    HoldsAfterFree(f.pending, tid, added);
    if WellFormed(f') {
      assert added[0] in added && Holds(f'.pending, tid, added[0]) && added[0] == start;
      forall p | p in Span(start, overflow + 1) ensures p !in Owned(f) {
        assert Holds(f'.pending, tid, p);
        InPages(f.pending, p);
        if p in was {
          FreedTwice(was, added, p);
        }
      }
    } else if 2 <= start && Span(start, overflow + 1) !! Owned(f) {
      FreesKeeps(f, tid, start, overflow, f');
      assert false;
    }
  }

  lemma FreedTwice(was: seq<nat>, added: seq<nat>, p: nat)
    requires p in was && p in added
    ensures !Distinct(was + added)
  {
    var i :| 0 <= i < |was| && was[i] == p;
    var j :| 0 <= j < |added| && added[j] == p;
    assert (was + added)[i] == (was + added)[|was| + j];
  }

  lemma HoldsAfterFree(pending: map<nat, seq<nat>>, tid: nat, added: seq<nat>)
    ensures var after := pending[tid := ListOf(pending, tid) + added];
            forall t, p :: Holds(after, t, p) <==> Holds(pending, t, p) || (t == tid && p in added)
  {
  }

  lemma PagesAfterFree(pending: map<nat, seq<nat>>, tid: nat, added: seq<nat>)
    ensures Pages(pending[tid := ListOf(pending, tid) + added]) == Pages(pending) + Elems(added)
  {
    var after := pending[tid := ListOf(pending, tid) + added];
    HoldsAfterFree(pending, tid, added);
    forall p ensures p in Pages(after) <==> p in Pages(pending) + Elems(added) {
      InPages(after, p);
      InPages(pending, p);
      if p in added {
        assert Holds(after, tid, p);
      }
    }
  }

  lemma RollsBackKeeps(f: FreeState, tid: nat, listed: seq<nat>, f': FreeState)
    requires WellFormed(f) && RollsBack(f, tid, listed, f')
    requires forall p :: p in listed ==> 2 <= p
    ensures WellFormed(f')
    ensures Owned(f') == Elems(listed) + Pages(f'.pending)
  {
    assert forall t, p :: Holds(f'.pending, t, p) ==> Holds(f.pending, t, p) && p in Pages(f'.pending);
    assert forall p :: p in f'.ids ==> p in Elems(f'.ids);
  }
}
