/** The cursor: a stack of page or node references, moved in place over a bucket's tree. */
module Cursors {
  import opened Common
  import opened Keys
  import opened Trees
  import opened Positions
  import opened Searching

  const UINT64_LIMIT: nat := 0x1_0000_0000_0000_0000

  /** What a page or a cached node shows: leaf entries, or separators with page ids. */
  datatype Element = LeafElement(entries: seq<Entry>) | BranchElement(kids: seq<(Bytes, nat)>)

  /** The transaction's pages: buffered ones hide those of the mapping. */
  datatype TxView = TxView(total: nat, dirty: map<nat, Element>, mapped: map<nat, Element>) {
    function GetPage(id: nat): Option<Element> {
      if id >= total then None
      else if id in dirty then Some(dirty[id])
      else if id in mapped then Some(mapped[id])
      else None
    }
  }

  /** A bucket: root page id (0 when inline), root node, inline page, cached nodes, and its transaction. */
  datatype BucketView = BucketView(root: nat, rootNode: Option<Element>, page: Option<Element>, nodes: map<nat, Element>, tx: TxView) {
    function GetPageNode(id: nat): Option<Element> {
      if root == 0 then (if rootNode.Some? then rootNode else page)
      else if id in nodes then Some(nodes[id])
      else tx.GetPage(id)
    }
  }

  function Shape(t: Tree): Element {
    match t
    case Leaf(entries) => LeafElement(entries)
    case Branch(kids) => BranchElement(seq(|kids|, i requires 0 <= i < |kids| => (kids[i].key, kids[i].id)))
  }

  /** Following page ids from `id` through the bucket yields the tree `t`. */
  ghost predicate Represents(b: BucketView, id: nat, t: Tree)
    decreases t
  {
    && b.GetPageNode(id) == Some(Shape(t))
    && (t.Branch? ==> forall i :: 0 <= i < |t.kids| ==> Represents(b, t.kids[i].id, t.kids[i].tree))
  }

  lemma RepresentsShape(b: BucketView, id: nat, t: Tree)
    requires Represents(b, id, t)
    ensures b.GetPageNode(id) == Some(Shape(t))
  {
  }

  datatype ElementRef = ElementRef(element: Element, index: nat) {
    predicate IsLeaf() { element.LeafElement? }

    function Count(): nat {
      if element.LeafElement? then |element.entries| else |element.kids|
    }
  }

  const NIL: Entry := Entry([], [], 0)

  class Cursor {
    const bucket: BucketView
    ghost const tree: Tree
    var elements: seq<ElementRef>
    ghost var frames: seq<Frame>

    /** The stack shows the frames, and everything below them is found through the bucket. */
    ghost predicate Valid() reads this {
      && Full(tree) && Represents(bucket, bucket.root, tree)
      && Shows(bucket, elements, frames)
      && Chain(frames) && (frames != [] ==> frames[0].t == tree)
    }

    constructor (bucket: BucketView, ghost tree: Tree)
      requires Full(tree) && Represents(bucket, bucket.root, tree)
      ensures Valid() && this.bucket == bucket && this.tree == tree && frames == []
    {
      this.bucket, this.tree, elements, frames := bucket, tree, [], [];
    }

    /** Pushes the page or node with this id. */
    method Push(id: nat, index: nat, ghost t: Tree)
      requires Valid() && Represents(bucket, id, t) && Full(t)
      requires t.Branch? ==> index < |t.kids|
      requires CanPush(frames, tree, t)
      modifies this
      ensures Valid() && frames == old(frames) + [Frame(t, index)]
    {
      var e := bucket.GetPageNode(id).value;
      elements := elements + [ElementRef(e, index)];
      if frames != [] {
        PushFrame(frames, Frame(t, index));
      }
      frames := frames + [Frame(t, index)];
    }

    /** Descends to the leftmost leaf below the top. */
    method DoFirst()
      requires Valid() && frames != []
      modifies this
      ensures Valid() && AtLeaf(frames, tree)
      ensures StartLeaf(frames) == old(StartLeaf(frames))
      ensures if old(frames[|frames| - 1].t.Leaf?) then frames == old(frames) else frames[|frames| - 1].index == 0
    {
      hide Represents, Leaves, Base;
      while !elements[|elements| - 1].IsLeaf()
        invariant Valid() && frames != []
        invariant StartLeaf(frames) == old(StartLeaf(frames))
        invariant frames == old(frames) || frames[|frames| - 1].index == 0
        invariant old(frames[|frames| - 1].t.Leaf?) ==> frames == old(frames)
        decreases frames[|frames| - 1].t
      {
        var top := elements[|elements| - 1];
        ghost var f := frames[|frames| - 1];
        var id := top.element.kids[top.index].1;
        assert Full(f.t) && Full(f.t.kids[f.index].tree);
        PushFrame(frames, Frame(f.t.kids[f.index].tree, 0));
        Push(id, 0, f.t.kids[f.index].tree);
      }
    }

    /** Descends to the rightmost leaf below the top. */
    method DoLast()
      requires Valid() && frames != []
      modifies this
      ensures Valid() && AtLeaf(frames, tree)
      ensures EndLeaf(frames) == old(EndLeaf(frames))
      ensures if old(frames[|frames| - 1].t.Leaf?) then frames == old(frames)
              else frames[|frames| - 1].index == LastIndex(|frames[|frames| - 1].t.entries|)
    {
      hide Represents, Leaves, Base;
      while !elements[|elements| - 1].IsLeaf()
        invariant Valid() && frames != []
        invariant EndLeaf(frames) == old(EndLeaf(frames))
        invariant frames == old(frames) || frames[|frames| - 1].index == LastIndex(Positions.Count(frames[|frames| - 1].t))
        invariant old(frames[|frames| - 1].t.Leaf?) ==> frames == old(frames)
        decreases frames[|frames| - 1].t
      {
        var top := elements[|elements| - 1];
        ghost var f := frames[|frames| - 1];
        var id := top.element.kids[top.index].1;
        ghost var kid := f.t.kids[f.index].tree;
        assert Full(f.t) && Full(kid);
        RepresentsShape(bucket, id, kid);
        var e := bucket.GetPageNode(id).value;
        var index := LastIndex(ElementRef(e, 0).Count());
        PushFrame(frames, Frame(kid, index));
        Push(id, index, kid);
      }
    }

    /** The entry under the top, or nothing. */
    method KeyValue() returns (e: Entry)
      requires Valid() && (frames != [] ==> frames[|frames| - 1].t.Leaf?)
      ensures e == if frames != [] && frames[|frames| - 1].index < |frames[|frames| - 1].t.entries|
                   then frames[|frames| - 1].t.entries[frames[|frames| - 1].index] else NIL
    {
      if elements == [] {
        return NIL;
      }
      var ref := elements[|elements| - 1];
      if ref.Count() == 0 || ref.index >= ref.Count() {
        return NIL;
      }
      return ref.element.entries[ref.index];
    }

    method Pop()
      requires Valid() && frames != []
      modifies this
      ensures Valid() && frames == old(frames[..|frames| - 1])
    {
      elements := elements[..|elements| - 1];
      frames := frames[..|frames| - 1];
    }

    /** Sets the index of the top. */
    method MoveTop(index: nat)
      requires Valid() && frames != []
      requires frames[|frames| - 1].t.Branch? ==> index < |frames[|frames| - 1].t.kids|
      modifies this
      ensures Valid()
      ensures frames == old(frames[..|frames| - 1]) + [Frame(old(frames[|frames| - 1].t), index)]
    {
      var top := elements[|elements| - 1];
      elements := elements[..|elements| - 1] + [top.(index := index)];
      frames := frames[..|frames| - 1] + [Frame(frames[|frames| - 1].t, index)];
    }

    /** From `n` passed entries to entry number `n`, or off the end; empty leaves are skipped. */
    method DoNext() returns (e: Entry)
      requires Valid() && (frames == [] || AtLeaf(frames, tree))
      modifies this
      ensures Valid()
      ensures old(frames) == [] ==> frames == [] && e == NIL
      ensures old(frames) != [] ==> LandsOn(frames, tree, old(PassedSoFar(frames, tree)), e)
    {
      if elements == [] {
        return NIL;
      }
      ghost var n := PassedSoFar(frames, tree);
      while true
        invariant Valid() && AtLeaf(frames, tree) && PassedSoFar(frames, tree) == n
        decreases |Leaves(tree)| - StartLeaf(frames)
      {
        Advance();
        if elements == [] {
          return NIL;
        }
        LeafHere(frames, tree);
        if elements[|elements| - 1].Count() != 0 {
          e := KeyValue();
          EntryHere(frames, tree, n);
          return e;
        }
      }
    }

    /** One round of `do_next`: to the next entry of the leaf, or to the start of the next leaf. */
    method Advance()
      requires Valid() && AtLeaf(frames, tree)
      modifies this
      ensures Valid()
      ensures frames == [] ==> old(PassedSoFar(frames, tree)) == |Flatten(tree)|
      ensures frames != [] ==> AtLeaf(frames, tree) && StartLeaf(frames) < |Leaves(tree)|
      ensures frames != [] ==>
                var top := frames[|frames| - 1];
                EntriesBefore(tree, StartLeaf(frames)) + top.index == old(PassedSoFar(frames, tree)) &&
                if StartLeaf(frames) == old(StartLeaf(frames)) then top.index < |top.t.entries|
                else top.index == 0 && StartLeaf(frames) > old(StartLeaf(frames))
    {
      hide Chain, Represents, Full, Leaves;
      ghost var head := frames;
      LeafHere(frames, tree);
      PopSpent();
      if elements == [] {
        LastLeafPassed(head, tree);
        return;
      }
      ghost var spent := frames;
      var top := elements[|elements| - 1];
      MoveTop(top.index + 1);
      if top.IsLeaf() {
        SameLeaf(head, frames, tree);
      } else {
        StepStarts(spent, frames);
        LeafPassed(head, tree);
      }
      DoFirst();
      LeafHere(frames, tree);
    }

    /** Pops the frames whose item is their last. */
    method PopSpent()
      requires Valid() && AtLeaf(frames, tree)
      modifies this
      ensures Valid()
      ensures frames != [] ==> frames[|frames| - 1].index + 1 < Positions.Count(frames[|frames| - 1].t)
      ensures frames == old(frames) || (old(frames[|frames| - 1].index + 1 >= Positions.Count(frames[|frames| - 1].t)) &&
                if frames == [] then old(EndLeaf(frames)) == |Leaves(tree)|
                else frames[|frames| - 1].t.Branch? && EndLeaf(frames) == old(EndLeaf(frames)))
    {
      while elements != [] && elements[|elements| - 1].index + 1 >= elements[|elements| - 1].Count()
        invariant Valid()
        invariant frames == old(frames) || (old(frames[|frames| - 1].index + 1 >= Positions.Count(frames[|frames| - 1].t)) &&
                    if frames == [] then old(EndLeaf(frames)) == |Leaves(tree)|
                    else frames[|frames| - 1].t.Branch? && EndLeaf(frames) == old(EndLeaf(frames)))
        decreases |elements|
      {
        PopKeepsEnd(frames);
        Pop();
      }
    }

    // ----- Iteration -----

    method Clear()
      requires Valid()
      modifies this
      ensures Valid() && frames == []
    {
      elements, frames := [], [];
    }

    method First() returns (e: Entry)
      requires Valid()
      modifies this
      ensures Valid() && LandsOn(frames, tree, 0, e)
    {
      hide Represents, Chain, Leaves, Concat, Base, EntriesBefore;
      Clear();
      assert Full(tree);
      Push(bucket.root, 0, tree);
      ghost var pushed := frames;
      DoFirst();
      FirstLeaf(pushed, frames, tree);
      if elements[|elements| - 1].Count() == 0 {
        e := DoNext();
      }
      e := KeyValue();
      if elements != [] {
        EntryHere(frames, tree, 0);
      }
    }

    method Next() returns (e: Entry)
      requires Valid() && (frames == [] || AtLeaf(frames, tree))
      modifies this
      ensures Valid()
      ensures old(frames) == [] ==> frames == [] && e == NIL
      ensures old(frames) != [] ==> LandsOn(frames, tree, old(PassedSoFar(frames, tree)), e)
    {
      e := DoNext();
    }

    /** To the last item of the last leaf, which may be empty. */
    method Last() returns (e: Entry)
      requires Valid()
      modifies this
      ensures Valid() && AtLeafEnd(frames, tree, |Leaves(tree)|) && e == Shown(frames)
    {
      Clear();
      var root := bucket.GetPageNode(bucket.root).value;
      assert Full(tree);
      Push(bucket.root, LastIndex(ElementRef(root, 0).Count()), tree);
      ghost var pushed := frames;
      DoLast();
      assert Base(pushed, 0) == 0;
      LeafHere(frames, tree);
      e := KeyValue();
    }

    /** To the item before, or the last item of the leaf before, which may be empty. */
    method Prev() returns (e: Entry)
      requires Valid() && (frames == [] || AtLeaf(frames, tree))
      modifies this
      ensures Valid() && e == Shown(frames)
      ensures old(frames) == [] ==> frames == []
      ensures old(frames) != [] ==> StepsBack(old(frames), frames, tree)
    {
      hide Represents, Full, Leaves, Chain, Base;
      ghost var start := frames;
      EmptyStart();
      PopFirsts();
      if elements == [] {
        return NIL;
      }
      ghost var popped := frames;
      MoveTop(elements[|elements| - 1].index - 1);
      if popped == start {
        SameLeaf(start, frames, tree);
      } else {
        StepEnds(popped, frames);
      }
      DoLast();
      LeafHere(frames, tree);
      e := KeyValue();
    }

    /** Pops the frames whose item is their first. */
    method PopFirsts()
      requires Valid() && (frames == [] || AtLeaf(frames, tree))
      modifies this
      ensures Valid() && (frames != [] ==> frames[|frames| - 1].index > 0)
      ensures frames != [] && frames[|frames| - 1].t.Branch? ==>
                frames[|frames| - 1].index < |frames[|frames| - 1].t.kids|
      ensures frames == old(frames) ||
              (old(frames) != [] && old(frames)[|old(frames)| - 1].index == 0 && StartLeaf(frames) == old(StartLeaf(frames)) &&
               (frames != [] ==> frames[|frames| - 1].t.Branch?))
    {
      ghost var start := frames;
      while elements != [] && elements[|elements| - 1].index == 0
        invariant Valid()
        invariant frames == start ||
                  (start[|start| - 1].index == 0 && StartLeaf(frames) == StartLeaf(start) &&
                   (frames != [] ==> frames[|frames| - 1].t.Branch?))
        decreases |elements|
      {
        PopKeepsStart(frames);
        Pop();
      }
    }

    // ----- Search -----

    /** Pushes the path a search for `key` takes below page `id`. */
    method Search(key: Bytes, id: nat, ghost t: Tree, ghost lo: Bound, ghost hi: Bound)
      requires Valid() && Represents(bucket, id, t) && Full(t)
      requires Ordered(t, lo, hi) && Within(key, lo, hi)
      requires CanPush(frames, tree, t)
      requires Around(Leaves(tree), StartLeaf(frames), StartLeaf(frames) + |Leaves(t)|, key)
      modifies this
      ensures Valid() && FoundPlace(frames, tree, key) && FoundLeaf(frames, t, key)
      decreases t, 1
    {
      ghost var below := frames;
      Push(id, 0, t);
      if elements[|elements| - 1].IsLeaf() {
        SearchLeaf(key, below);
      } else {
        SearchBranch(key, below, lo, hi);
      }
    }

    method SearchLeaf(key: Bytes, ghost below: seq<Frame>)
      requires Valid() && frames != [] && AtLeaf(frames, tree) && frames == below + [Frame(frames[|frames| - 1].t, 0)]
      requires Ascending(KeysOf(frames[|frames| - 1].t.entries))
      requires Around(Leaves(tree), StartLeaf(below), StartLeaf(below) + 1, key)
      modifies this
      ensures Valid() && FoundPlace(frames, tree, key) && frames[|frames| - 1].t == old(frames[|frames| - 1].t)
    {
      var index, found := BinarySearch(KeysOf(elements[|elements| - 1].element.entries), key);
      MoveTop(index);
      BasePrefix(below, frames, |below|);
      LeafHere(frames, tree);
    }

    method SearchBranch(key: Bytes, ghost below: seq<Frame>, ghost lo: Bound, ghost hi: Bound)
      requires Valid() && frames != [] && frames == below + [Frame(frames[|frames| - 1].t, 0)]
      requires var t := frames[|frames| - 1].t;
               && t.Branch? && Ordered(t, lo, hi) && Within(key, lo, hi)
               && Around(Leaves(tree), StartLeaf(below), StartLeaf(below) + |Leaves(t)|, key)
      modifies this
      ensures Valid() && FoundPlace(frames, tree, key)
      ensures FoundLeaf(frames, old(frames[|frames| - 1].t), key)
      decreases frames[|frames| - 1].t, 0
    {
      hide Around, Within, FoundPlace, FoundLeaf, LeafFor;
      ghost var t := frames[|frames| - 1].t;
      var e := elements[|elements| - 1].element;
      var index := ChooseChild(key);
      MoveTop(index);
      assert frames == below + [Frame(t, index)];
      DescendFrom(below, Frame(t, index), tree, key, lo, hi);
      assert Full(t.kids[index].tree) && Represents(bucket, e.kids[index].1, t.kids[index].tree);
      Search(key, e.kids[index].1, t.kids[index].tree, KidLow(t, index, lo), KidHigh(t, index, hi));
      LeafUnder(frames, t, key, index);
    }

    /** The last child whose separator is not above the key, else the first. */
    method ChooseChild(key: Bytes) returns (index: nat)
      requires Valid() && frames != [] && frames[|frames| - 1].t.Branch?
      requires Ascending(Separators(frames[|frames| - 1].t))
      ensures Chosen(frames[|frames| - 1].t, key, index)
    {
      ghost var t := frames[|frames| - 1].t;
      var e := elements[|elements| - 1].element;
      assert ElementKeys(e) == Separators(t);
      var found;
      index, found := BinarySearch(ElementKeys(e), key);
      ChildChosen(t, key, index, found);
      if !found && index > 0 {
        index := index - 1;
      }
    }

    /** The entry at the key's place in its leaf; nothing when that place is the end of the leaf. */
    method Seek(key: Bytes) returns (e: Entry)
      requires Valid() && Ordered(tree, Unbounded, Unbounded)
      modifies this
      ensures Valid() && FoundRank(frames, tree, key) && FoundLeaf(frames, tree, key) && e == Shown(frames)
    {
      Clear();
      Search(key, bucket.root, tree, Unbounded, Unbounded);
      PlaceHasRank(frames, tree, key);
      var ref := elements[|elements| - 1];
      if ref.index >= ref.Count() {
        return NIL;
      }
      e := KeyValue();
    }

    /** A seek, and one `next` when it yields nothing: the least entry not below the key, if there is one. */
    method SeekThenNext(key: Bytes) returns (e: Entry, ghost rank: nat)
      requires Valid() && Ordered(tree, Unbounded, Unbounded) && NoEmptyKey(Flatten(tree))
      modifies this
      ensures Valid() && LeastFrom(Flatten(tree), key, rank)
      ensures e == if rank < |Flatten(tree)| then Flatten(tree)[rank] else NIL
    {
      hide Represents, Chain, Shows, Leaves, Concat, Full, Ordered;
      e := Seek(key);
      SeekPlace(frames, tree, key);
      rank := EntriesBefore(tree, StartLeaf(frames)) + frames[|frames| - 1].index;
      if e.key == [] {
        e := Next();
      }
    }

    /** `Bucket::get`: the value of a stored key that is not a bucket, else the empty string. */
    method Get(key: Bytes) returns (value: Bytes)
      requires Valid() && Ordered(tree, Unbounded, Unbounded)
      modifies this
      ensures Valid()
      ensures forall i :: 0 <= i < |Flatten(tree)| && Flatten(tree)[i].key == key ==>
                value == if Flatten(tree)[i].flag % 2 == 1 then [] else Flatten(tree)[i].value
      ensures (forall i :: 0 <= i < |Flatten(tree)| ==> Flatten(tree)[i].key != key) ==> value == []
    {
      var e := Seek(key);
      SeekPlace(frames, tree, key);
      if IsBucket(e.flag) || e.key != key {
        return [];
      }
      return e.value;
    }

    /** `Bucket::for_each`: calls `fn` on each pair in order until it returns nonzero or a key is empty. */
    method ForEach(fn: (Bytes, Bytes) -> int) returns (ret: int, visited: seq<Entry>)
      requires Valid()
      modifies this
      ensures Valid() && visited == Visit(Flatten(tree), fn).0 && ret == Visit(Flatten(tree), fn).1
      ensures NoEmptyKey(Flatten(tree)) && NeverStops(Flatten(tree), fn) ==> visited == Flatten(tree) && ret == 0
    {
      hide Concat, Leaves, Flatten, Chain, Shows, Represents, Full, Visit, NoEmptyKey, NeverStops, Base, EntriesBefore,
        VisitedSoFar;
      VisitEvery(Flatten(tree), fn);
      visited := [];
      var e := First();
      ghost var n, all := 0, Flatten(tree);
      VisitStart(all, fn);
      while e.key != []
        invariant Valid() && n <= |all| && LandsOn(frames, tree, n, e) && VisitedSoFar(all, n, visited, fn)
        decreases |all| - n
      {
        EntryHere(frames, tree, n);
        VisitStep(all, n, visited, fn);
        visited := visited + [e];
        ret := fn(e.key, e.value);
        if ret != 0 {
          return;
        }
        e := Next();
        n := n + 1;
      }
      if n < |all| {
        EntryHere(frames, tree, n);
      }
      VisitEnd(all, n, visited, fn);
      return 0, visited;
    }

    /** `last`, then `prev` until it yields nothing. */
    method CollectBackward() returns (visited: seq<Entry>)
      requires Valid()
      modifies this
      ensures Valid() && visited == UptoEmptyKey(Backward(Leaves(tree)))
      ensures NoEmptyKey(Flatten(tree)) ==>
                (visited == Reverse(Flatten(tree)) <==> EmptyLeavesFirst(Leaves(tree)))
    {
      hide Backward, Chain, Shows, Represents, Full, BackwardFrom, EmptyLeavesFirst, NoEmptyKey, Reverse;
      visited := [];
      var e := Last();
      FullHasLeaf(tree);
      LastIsBackward(frames, tree, |Leaves(tree)|);
      assert Leaves(tree)[..|Leaves(tree)|] == Leaves(tree);
      while e.key != []
        invariant Valid() && e == Shown(frames) && (frames == [] || AtLeaf(frames, tree))
        invariant visited + UptoEmptyKey(BackwardFrom(frames, tree)) == UptoEmptyKey(Backward(Leaves(tree)))
        decreases |BackwardFrom(frames, tree)|
      {
        visited := visited + [e];
        ghost var before := frames;
        ShownIsBackward(before, tree);
        e := Prev();
        PrevIsBackward(before, frames, tree);
      }
      ShownIsBackward(frames, tree);
      BackwardVisits(tree);
    }

    /** One step forward and one back. */
    method NextThenPrev(ghost rank: nat) returns (there: Entry, back: Entry, ghost mid: seq<Frame>)
      requires Valid() && AtEntry(frames, tree, rank) && rank + 1 < |Flatten(tree)|
      modifies this
      ensures Valid() && AtEntry(mid, tree, rank + 1) && there == Flatten(tree)[rank + 1]
      ensures frames == old(frames) <==>
                mid[|mid| - 1].index > 0 || (StartLeaf(mid) > 0 && Leaves(tree)[StartLeaf(mid) - 1] != [])
      ensures frames == old(frames) ==> back == Flatten(tree)[rank]
    {
      EntryHere(frames, tree, rank);
      ghost var start := frames;
      there := Next();
      mid := frames;
      back := Prev();
      BackAgain(start, mid, frames, tree, rank);
    }
  }

  /** `t` is the root, or the child the top points to. */
  ghost predicate CanPush(frames: seq<Frame>, tree: Tree, t: Tree) {
    if frames == [] then t == tree
    else var top := frames[|frames| - 1];
         top.t.Branch? && top.index < |top.t.kids| && t == top.t.kids[top.index].tree
  }

  function LastIndex(count: nat): nat {
    if count == 0 then UINT64_LIMIT - 1 else count - 1
  }

  ghost function PassedSoFar(frames: seq<Frame>, tree: Tree): nat {
    if AtLeaf(frames, tree) && StartLeaf(frames) < |Leaves(tree)| then Passed(frames, tree) else 0
  }

  /** The stack is at entry `n` and shows it, or the tree has no entry `n` and the stack is empty. */
  ghost predicate LandsOn(frames: seq<Frame>, tree: Tree, n: nat, e: Entry) {
    if n < |Flatten(tree)| then AtEntry(frames, tree, n) && e == Flatten(tree)[n]
    else frames == [] && e == NIL
  }

  lemma LeafPassed(frames: seq<Frame>, tree: Tree)
    requires AtLeaf(frames, tree) && frames[|frames| - 1].index + 1 >= |frames[|frames| - 1].t.entries|
    ensures StartLeaf(frames) + 1 <= |Leaves(tree)|
    ensures EntriesBefore(tree, StartLeaf(frames) + 1) == PassedSoFar(frames, tree)
  {
    LeafHere(frames, tree);
    ConcatStep(Leaves(tree), StartLeaf(frames));
  }

  lemma LastLeafPassed(frames: seq<Frame>, tree: Tree)
    requires AtLeaf(frames, tree) && frames[|frames| - 1].index + 1 >= |frames[|frames| - 1].t.entries|
    requires EndLeaf(frames) == |Leaves(tree)|
    ensures PassedSoFar(frames, tree) == |Flatten(tree)|
  {
    LeafHere(frames, tree);
    LeafPassed(frames, tree);
    assert Leaves(tree)[..|Leaves(tree)|] == Leaves(tree);
  }

  lemma SameLeaf(head: seq<Frame>, frames: seq<Frame>, tree: Tree)
    requires AtLeaf(head, tree)
    requires frames != [] && frames == head[..|head| - 1] + [Frame(head[|head| - 1].t, frames[|frames| - 1].index)]
    ensures AtLeaf(frames, tree) && StartLeaf(frames) == StartLeaf(head)
  {
    assert frames[..|head| - 1] == head[..|head| - 1];
    BasePrefix(head, frames, |head| - 1);
  }

  // ----- Iteration, in terms of leaves -----

  /** The entry the top shows, or nothing. */
  ghost function Shown(frames: seq<Frame>): Entry {
    if frames != [] && frames[|frames| - 1].t.Leaf? && frames[|frames| - 1].index < |frames[|frames| - 1].t.entries|
    then frames[|frames| - 1].t.entries[frames[|frames| - 1].index] else NIL
  }

  /** At the last item of the leaf before leaf `l`. */
  ghost predicate AtLeafEnd(frames: seq<Frame>, tree: Tree, l: nat) {
    && AtLeaf(frames, tree) && StartLeaf(frames) + 1 == l
    && frames[|frames| - 1].index == LastIndex(|frames[|frames| - 1].t.entries|)
  }

  ghost predicate StepsBack(before: seq<Frame>, after: seq<Frame>, tree: Tree)
    requires before != []
  {
    var index := before[|before| - 1].index;
    if index > 0 then
      AtLeaf(after, tree) && StartLeaf(after) == StartLeaf(before) && after[|after| - 1].index == index - 1
    else if StartLeaf(before) == 0 then after == []
    else AtLeafEnd(after, tree, StartLeaf(before))
  }

  lemma EmptyStart()
    ensures StartLeaf([]) == 0
  {
  }

  lemma PopKeepsStart(frames: seq<Frame>)
    requires frames != [] && Chain(frames) && frames[|frames| - 1].index == 0
    ensures Chain(frames[..|frames| - 1]) && StartLeaf(frames[..|frames| - 1]) == StartLeaf(frames)
  {
    BasePrefix(frames, frames[..|frames| - 1], |frames| - 1);
  }

  /** Moving a branch frame to the child before ends where the old child started. */
  lemma StepEnds(frames: seq<Frame>, moved: seq<Frame>)
    requires frames != [] && Chain(frames)
    requires var f := frames[|frames| - 1];
             f.t.Branch? && f.index > 0 && moved == frames[..|frames| - 1] + [Frame(f.t, f.index - 1)]
    ensures Chain(moved) && EndLeaf(moved) == StartLeaf(frames)
  {
    var n := |frames|;
    BasePrefix(frames, moved, n - 1);
    assert moved[n - 1] == Frame(frames[n - 1].t, frames[n - 1].index - 1);
    assert forall k :: 0 <= k < n - 1 ==> moved[k] == frames[k];
  }

  lemma FirstLeaf(pushed: seq<Frame>, frames: seq<Frame>, tree: Tree)
    requires pushed == [Frame(tree, 0)] && AtLeaf(frames, tree) && StartLeaf(frames) == StartLeaf(pushed)
    requires frames == pushed || frames[|frames| - 1].index == 0
    ensures StartLeaf(frames) == 0 && frames[|frames| - 1].index == 0 && EntriesBefore(tree, 0) == 0
    ensures 0 < |Leaves(tree)|
  {
    LeafHere(frames, tree);
    assert Base(pushed, 0) == 0;
    assert Leaves(tree)[..0] == [];
  }

  // ----- Search, in terms of ranks -----

  function ElementKeys(e: Element): (keys: seq<Bytes>)
    requires e.BranchElement?
    ensures |keys| == |e.kids| && forall i :: 0 <= i < |keys| ==> keys[i] == e.kids[i].0
  {
    seq(|e.kids|, i requires 0 <= i < |e.kids| => e.kids[i].0)
  }

  lemma ChildChosen(t: Tree, key: Bytes, index: nat, found: bool)
    requires Full(t) && t.Branch? && Ascending(Separators(t)) && IsLowerBound(Separators(t), key, index)
    requires found <==> index < |t.kids| && t.kids[index].key == key
    ensures Chosen(t, key, if !found && index > 0 then index - 1 else index)
  {
    var keys := Separators(t);
    LessTrichotomy(key, key);
    if found && index + 1 < |t.kids| {
      assert Less(keys[index], keys[index + 1]);
    }
    if index > 0 {
      assert Less(keys[index - 1], key);
      LessTrichotomy(keys[index - 1], key);
    }
    if !found && index < |keys| {
      assert Less(key, keys[index]);
      if index + 1 < |keys| {
        LessTransitive(key, keys[index], keys[index + 1]);
      }
    }
  }

  lemma DescendFrom(below: seq<Frame>, f: Frame, tree: Tree, key: Bytes, lo: Bound, hi: Bound)
    requires Chain(below + [f]) && (below + [f])[0].t == tree
    requires Chosen(f.t, key, f.index) && Ordered(f.t, lo, hi) && Within(key, lo, hi)
    requires Around(Leaves(tree), StartLeaf(below), StartLeaf(below) + |Leaves(f.t)|, key)
    ensures Around(Leaves(tree), StartLeaf(below + [f]), StartLeaf(below + [f]) + |Leaves(f.t.kids[f.index].tree)|, key)
    ensures Within(key, KidLow(f.t, f.index, lo), KidHigh(f.t, f.index, hi))
    ensures Ordered(f.t.kids[f.index].tree, KidLow(f.t, f.index, lo), KidHigh(f.t, f.index, hi))
  {
    hide Around, Within;
    var frames := below + [f];
    assert frames[|frames| - 1] == f && frames[..|below|] == below;
    BasePrefix(below, frames, |below|);
    Descend(frames, key, lo, hi);
  }

  ghost predicate FoundPlace(frames: seq<Frame>, tree: Tree, key: Bytes) {
    && AtLeaf(frames, tree) && StartLeaf(frames) < |Leaves(tree)|
    && IsLowerBound(KeysOf(frames[|frames| - 1].t.entries), key, frames[|frames| - 1].index)
    && Around(Leaves(tree), StartLeaf(frames), StartLeaf(frames) + 1, key)
  }

  /** The stack's leaf is the one the separators of `t` lead to. */
  ghost predicate FoundLeaf(frames: seq<Frame>, t: Tree, key: Bytes) {
    frames != [] && frames[|frames| - 1].t == Leaf(LeafFor(t, key))
  }

  lemma LeafUnder(frames: seq<Frame>, t: Tree, key: Bytes, index: nat)
    requires Chosen(t, key, index) && Ascending(Separators(t)) && FoundLeaf(frames, t.kids[index].tree, key)
    ensures FoundLeaf(frames, t, key)
  {
    ChosenIsPick(t, key, index, |t.kids|);
  }

  /** A search shows nothing if and only if the leaf that separators lead to holds only keys below the one sought. */
  lemma SeekNothingIff(frames: seq<Frame>, tree: Tree, key: Bytes)
    requires FoundRank(frames, tree, key) && FoundLeaf(frames, tree, key)
    ensures frames[|frames| - 1].index == |frames[|frames| - 1].t.entries| <==> LeafBelow(LeafFor(tree, key), key)
    ensures LeafBelow(LeafFor(tree, key), key) ==> Shown(frames) == NIL
  {
    hide Leaves, Flatten, Concat, EntriesBefore, StartLeaf, Chain, LeafFor;
    var top := frames[|frames| - 1];
    var leaf := LeafFor(tree, key);
    assert top.t.entries == leaf && top.index <= |leaf|;
    if top.index < |leaf| {
      PlacedInLeaf(frames, tree, key, top.index);
      assert !Less(leaf[top.index].key, key);
    } else {
      forall j | 0 <= j < |leaf| ensures Less(leaf[j].key, key) {
        PlacedInLeaf(frames, tree, key, j);
      }
    }
  }

  lemma PlacedInLeaf(frames: seq<Frame>, tree: Tree, key: Bytes, j: nat)
    requires FoundRank(frames, tree, key) && j < |frames[|frames| - 1].t.entries|
    ensures var e := frames[|frames| - 1].t.entries[j];
            if j < frames[|frames| - 1].index then Less(e.key, key) else !Less(e.key, key)
  {
    var leaf, l, keys := frames[|frames| - 1].t.entries, StartLeaf(frames), KeysOf(Flatten(tree));
    var i := EntriesBefore(tree, l) + j;
    LeafHere(frames, tree);
    LeafEntry(tree, l, j);
    hide Leaves, Flatten, Concat, EntriesBefore, StartLeaf, Chain, AtLeaf;
    assert keys[i] == leaf[j].key;
    LessTrichotomy(keys[i], key);
  }

  lemma LeafEntry(tree: Tree, l: nat, j: nat)
    requires l < |Leaves(tree)| && j < |Leaves(tree)[l]|
    ensures EntriesBefore(tree, l) + j < |Flatten(tree)| && Flatten(tree)[EntriesBefore(tree, l) + j] == Leaves(tree)[l][j]
  {
    hide Leaves;
    ConcatStep(Leaves(tree), l);
    ConcatPrefix(Leaves(tree), l + 1);
    var n := EntriesBefore(tree, l + 1);
    assert Flatten(tree)[EntriesBefore(tree, l) + j] == Flatten(tree)[..n][EntriesBefore(tree, l) + j];
  }

  function Gap(): Tree {
    Branch([Kid([1], 5, Leaf([Entry([1], [], 0)])), Kid([3], 6, Leaf([Entry([3], [], 0)]))])
  }

  /** Sought at the end of a leaf, a key below stored ones yields nothing. */
  lemma SeekNothingBelowStored()
    ensures var t := Gap();
            && Full(t) && Ordered(t, Unbounded, Unbounded) && t.kids[1].tree.entries[0].key == [3] && Less([2], [3])
            && LeafBelow(LeafFor(t, [2]), [2])
  {
    var t := Gap();
    assert Less([2], [3]) && Less([1], [2]) && Less([1], [3]) && !Less([2], [1]) && !Less([3], [3]) && !Less([1], [1]);
    assert Separators(t) == [[1], [3]];
    assert Pick(t, [2], 2) == Pick(t, [2], 1) == 0;
    assert Ordered(t.kids[0].tree, Unbounded, At([3])) && Ordered(t.kids[1].tree, At([3]), Unbounded);
  }

  /** As many entries lie before the stack's place as there are keys below `key`, all of them before it. */
  ghost predicate FoundRank(frames: seq<Frame>, tree: Tree, key: Bytes) {
    && AtLeaf(frames, tree) && StartLeaf(frames) < |Leaves(tree)|
    && IsLowerBound(KeysOf(Flatten(tree)), key, EntriesBefore(tree, StartLeaf(frames)) + frames[|frames| - 1].index)
    && frames[|frames| - 1].index <= |frames[|frames| - 1].t.entries|
    && (forall i :: 0 <= i < |Flatten(tree)| && Flatten(tree)[i].key == key ==>
          frames[|frames| - 1].index < |frames[|frames| - 1].t.entries|)
  }

  lemma PlaceHasRank(frames: seq<Frame>, tree: Tree, key: Bytes)
    requires FoundPlace(frames, tree, key)
    ensures FoundRank(frames, tree, key)
  {
    LeafHere(frames, tree);
    var leaves, l, index := Leaves(tree), StartLeaf(frames), frames[|frames| - 1].index;
    RankOfKey(leaves, l, index, key);
    LessTrichotomy(key, key);
    if index == |leaves[l]| {
      ConcatStep(leaves, l);
      forall i | 0 <= i < |Flatten(tree)| ensures Flatten(tree)[i].key != key {
        assert KeysOf(Flatten(tree))[i] == Flatten(tree)[i].key;
        if EntriesBefore(tree, l + 1) <= i {
          var m, j := ConcatMemberFrom(leaves, l + 1, i);
          assert LeafAbove(leaves[m], key);
        }
      }
    }
  }

  predicate IsBucket(flag: nat) {
    flag % 2 == 1
  }

  /** `rank` splits the entries by `key`, and the entry there is the least of those not below it. */
  ghost predicate LeastFrom(all: seq<Entry>, key: Bytes, rank: nat) {
    && rank <= |all|
    && (forall i :: 0 <= i < rank ==> Less(all[i].key, key))
    && (forall i :: rank <= i < |all| ==> !Less(all[i].key, key))
    && (forall i :: rank < i < |all| ==> Less(all[rank].key, all[i].key) && all[i].key != key)
  }

  lemma RankIsLeast(all: seq<Entry>, key: Bytes, rank: nat)
    requires Ascending(KeysOf(all)) && IsLowerBound(KeysOf(all), key, rank)
    ensures LeastFrom(all, key, rank)
  {
    var keys := KeysOf(all);
    forall i | rank <= i < |all| ensures !Less(all[i].key, key) && (i > rank ==> Less(all[rank].key, all[i].key) && all[i].key != key) {
      LessTrichotomy(keys[i], key);
      LessTrichotomy(keys[rank], key);
      assert i > rank ==> Less(keys[rank], keys[i]);
    }
    assert forall i :: 0 <= i < rank ==> Less(keys[i], key);
  }

  /** At its rank a search shows the least entry not below the key; at the end of a leaf one `next` leads there. */
  lemma SeekPlace(frames: seq<Frame>, tree: Tree, key: Bytes)
    requires FoundRank(frames, tree, key) && Ordered(tree, Unbounded, Unbounded)
    ensures var rank := EntriesBefore(tree, StartLeaf(frames)) + frames[|frames| - 1].index;
            && LeastFrom(Flatten(tree), key, rank)
            && (if frames[|frames| - 1].index < |frames[|frames| - 1].t.entries|
                then AtEntry(frames, tree, rank) && rank < |Flatten(tree)| && Shown(frames) == Flatten(tree)[rank]
                else PassedSoFar(frames, tree) == rank && Shown(frames) == NIL)
    ensures forall i :: 0 <= i < |Flatten(tree)| && Flatten(tree)[i].key == key ==> Shown(frames) == Flatten(tree)[i]
  {
    hide Ordered, LeavesAscend, AllWithin, Chain, Leaves;
    var rank := EntriesBefore(tree, StartLeaf(frames)) + frames[|frames| - 1].index;
    OrderedLeaves(tree, Unbounded, Unbounded);
    ConcatAscends(Leaves(tree));
    RankIsLeast(Flatten(tree), key, rank);
    LessTrichotomy(key, key);
    if frames[|frames| - 1].index < |frames[|frames| - 1].t.entries| {
      EntryHere(frames, tree, rank);
    }
  }

  /** What `for_each` visits and returns on a list of entries. */
  ghost function Visit(entries: seq<Entry>, fn: (Bytes, Bytes) -> int): (seq<Entry>, int) {
    if entries == [] || entries[0].key == [] then ([], 0)
    else
      var ret := fn(entries[0].key, entries[0].value);
      if ret != 0 then ([entries[0]], ret)
      else
        var rest := Visit(entries[1..], fn);
        ([entries[0]] + rest.0, rest.1)
  }

  ghost predicate NeverStops(entries: seq<Entry>, fn: (Bytes, Bytes) -> int) {
    forall i :: 0 <= i < |entries| ==> fn(entries[i].key, entries[i].value) == 0
  }

  /** `visited`, and what `for_each` does from entry `n` on, is what it does on the whole list. */
  ghost predicate VisitedSoFar(all: seq<Entry>, n: nat, visited: seq<Entry>, fn: (Bytes, Bytes) -> int) {
    && n <= |all|
    && visited + Visit(all[n..], fn).0 == Visit(all, fn).0 && Visit(all[n..], fn).1 == Visit(all, fn).1
  }

  lemma VisitStart(all: seq<Entry>, fn: (Bytes, Bytes) -> int)
    ensures VisitedSoFar(all, 0, [], fn)
  {
    assert all[0..] == all;
  }

  lemma VisitStep(all: seq<Entry>, n: nat, visited: seq<Entry>, fn: (Bytes, Bytes) -> int)
    requires n < |all| && all[n].key != [] && VisitedSoFar(all, n, visited, fn)
    ensures var ret, more := fn(all[n].key, all[n].value), visited + [all[n]];
            if ret == 0 then VisitedSoFar(all, n + 1, more, fn) else Visit(all, fn) == (more, ret)
  {
    assert all[n..][1..] == all[n + 1..];
  }

  lemma VisitEnd(all: seq<Entry>, n: nat, visited: seq<Entry>, fn: (Bytes, Bytes) -> int)
    requires VisitedSoFar(all, n, visited, fn) && (n == |all| || all[n].key == [])
    ensures Visit(all, fn) == (visited, 0)
  {
    assert Visit(all[n..], fn) == ([], 0);
    assert visited + [] == visited;
  }

  lemma VisitEvery(entries: seq<Entry>, fn: (Bytes, Bytes) -> int)
    ensures NoEmptyKey(entries) && NeverStops(entries, fn) ==> Visit(entries, fn) == (entries, 0)
  {
    if NoEmptyKey(entries) && NeverStops(entries, fn) {
      VisitAll(entries, fn);
    }
  }

  /** What is visited is the entries up to the first empty key or nonzero result, which is returned. */
  lemma {:induction false} VisitStops(entries: seq<Entry>, fn: (Bytes, Bytes) -> int)
    ensures var (visited, ret) := Visit(entries, fn);
            var n := |visited|;
            && n <= |entries| && visited == entries[..n]
            && (forall i :: 0 <= i < n ==> entries[i].key != [])
            && (forall i :: 0 <= i < n && fn(entries[i].key, entries[i].value) != 0 ==> i == n - 1 && ret != 0)
            && (ret == 0 ==> n == |entries| || entries[n].key == [])
            && (ret != 0 ==> n > 0 && fn(entries[n - 1].key, entries[n - 1].value) == ret)
  {
    if entries != [] && entries[0].key != [] && fn(entries[0].key, entries[0].value) == 0 {
      VisitStops(entries[1..], fn);
      var visited, rest := Visit(entries, fn).0, Visit(entries[1..], fn).0;
      assert visited == [entries[0]] + rest && entries[..|rest| + 1] == [entries[0]] + entries[1..][..|rest|];
      assert forall i :: 1 <= i < |visited| ==> entries[i] == entries[1..][i - 1];
    }
  }

  /** With nonempty keys and a callback that never stops, every entry is visited once, in order. */
  lemma {:induction false} VisitAll(entries: seq<Entry>, fn: (Bytes, Bytes) -> int)
    requires NoEmptyKey(entries) && NeverStops(entries, fn)
    ensures Visit(entries, fn) == (entries, 0)
  {
    if entries != [] {
      VisitAll(entries[1..], fn);
      assert [entries[0]] + entries[1..] == entries;
    }
  }

  // ----- Backward iteration -----

  ghost function UptoEmptyKey(entries: seq<Entry>): seq<Entry> {
    if entries == [] || entries[0].key == [] then [] else [entries[0]] + UptoEmptyKey(entries[1..])
  }

  ghost predicate NoEmptyKey(entries: seq<Entry>) {
    forall i :: 0 <= i < |entries| ==> entries[i].key != []
  }

  lemma {:induction false} UptoAll(entries: seq<Entry>)
    requires NoEmptyKey(entries)
    ensures UptoEmptyKey(entries) == entries
  {
    if entries != [] {
      UptoAll(entries[1..]);
      assert entries == [entries[0]] + entries[1..];
    }
  }

  lemma {:induction false} ReverseNoEmpty(entries: seq<Entry>)
    requires NoEmptyKey(entries)
    ensures NoEmptyKey(Reverse(entries))
  {
    if entries != [] {
      ReverseNoEmpty(entries[..|entries| - 1]);
    }
  }

  lemma {:induction false} BackwardNoEmpty(leaves: seq<seq<Entry>>)
    requires NoEmptyKey(Concat(leaves))
    ensures NoEmptyKey(Backward(leaves))
  {
    if leaves != [] && leaves[|leaves| - 1] != [] {
      var front, last := leaves[..|leaves| - 1], leaves[|leaves| - 1];
      assert Concat(leaves) == Concat(front) + last;
      assert NoEmptyKey(Concat(front)) by {
        forall i | 0 <= i < |Concat(front)| ensures Concat(front)[i].key != [] {
          assert Concat(leaves)[i] == Concat(front)[i];
        }
      }
      assert NoEmptyKey(last) by {
        forall i | 0 <= i < |last| ensures last[i].key != [] {
          assert Concat(leaves)[|Concat(front)| + i] == last[i];
        }
      }
      BackwardNoEmpty(front);
      ReverseNoEmpty(last);
    }
  }

  /** With nonempty keys, going backward yields the reverse of the in-order sequence exactly when no entry lies before
      an empty leaf. */
  lemma BackwardVisits(tree: Tree)
    ensures NoEmptyKey(Flatten(tree)) ==>
              (UptoEmptyKey(Backward(Leaves(tree))) == Reverse(Flatten(tree)) <==> EmptyLeavesFirst(Leaves(tree)))
  {
    hide Backward, Reverse, EmptyLeavesFirst, NoEmptyKey, UptoEmptyKey, Leaves, Concat;
    BackwardMirrors(Leaves(tree));
    if NoEmptyKey(Flatten(tree)) {
      BackwardNoEmpty(Leaves(tree));
      UptoAll(Backward(Leaves(tree)));
    }
  }

  /** What is left to meet going backward, the current entry first. */
  ghost function BackwardFrom(frames: seq<Frame>, tree: Tree): seq<Entry> {
    if AtLeaf(frames, tree) && StartLeaf(frames) < |Leaves(tree)| &&
       frames[|frames| - 1].index < |frames[|frames| - 1].t.entries|
    then
      var top := frames[|frames| - 1];
      Reverse(top.t.entries[..top.index + 1]) + Backward(Leaves(tree)[..StartLeaf(frames)])
    else []
  }

  lemma ShownIsBackward(frames: seq<Frame>, tree: Tree)
    requires frames == [] || AtLeaf(frames, tree)
    ensures if BackwardFrom(frames, tree) == [] then Shown(frames) == NIL else BackwardFrom(frames, tree)[0] == Shown(frames)
  {
    if frames != [] {
      LeafHere(frames, tree);
      var top := frames[|frames| - 1];
      if top.index < |top.t.entries| {
        assert top.t.entries[..top.index + 1][top.index] == top.t.entries[top.index];
      }
    }
  }

  lemma LastIsBackward(frames: seq<Frame>, tree: Tree, l: nat)
    requires l <= |Leaves(tree)| && AtLeafEnd(frames, tree, l)
    ensures BackwardFrom(frames, tree) == Backward(Leaves(tree)[..l])
  {
    hide Chain, Leaves, Backward;
    LeafHere(frames, tree);
    BackwardStep(Leaves(tree), l);
    var leaf := frames[|frames| - 1].t.entries;
    assert leaf[..|leaf|] == leaf;
  }

  lemma BackwardStep(leaves: seq<seq<Entry>>, l: nat)
    requires 1 <= l <= |leaves|
    ensures Backward(leaves[..l]) ==
            if leaves[l - 1] == [] then [] else Reverse(leaves[l - 1]) + Backward(leaves[..l - 1])
  {
    assert leaves[..l][..l - 1] == leaves[..l - 1];
  }

  lemma ReverseStep(s: seq<Entry>, index: nat)
    requires index < |s|
    ensures Reverse(s[..index + 1]) == [s[index]] + Reverse(s[..index])
  {
    assert s[..index + 1][..index] == s[..index];
  }

  lemma PrevIsBackward(before: seq<Frame>, after: seq<Frame>, tree: Tree)
    requires AtLeaf(before, tree) && StepsBack(before, after, tree)
    requires BackwardFrom(before, tree) != []
    ensures BackwardFrom(after, tree) == BackwardFrom(before, tree)[1..]
  {
    hide Chain, Backward, Leaves;
    LeafHere(before, tree);
    var top := before[|before| - 1];
    ReverseStep(top.t.entries, top.index);
    if top.index > 0 {
      PrevInLeaf(before, after, tree);
    } else {
      assert top.t.entries[..0] == [];
      if StartLeaf(before) > 0 {
        LastIsBackward(after, tree, StartLeaf(before));
      } else {
        NothingBefore(tree);
      }
    }
  }

  lemma NothingBefore(tree: Tree)
    ensures Backward(Leaves(tree)[..0]) == []
  {
  }

  lemma PrevInLeaf(before: seq<Frame>, after: seq<Frame>, tree: Tree)
    requires AtLeaf(before, tree) && StepsBack(before, after, tree) && before[|before| - 1].index > 0
    requires BackwardFrom(before, tree) != []
    ensures BackwardFrom(after, tree) == BackwardFrom(before, tree)[1..]
  {
    hide Chain, Backward, Leaves, Reverse, Base;
    LeafHere(before, tree);
    LeafHere(after, tree);
    var index, leaf := before[|before| - 1].index, before[|before| - 1].t.entries;
    assert after[|after| - 1].t.entries == leaf && after[|after| - 1].index + 1 == index;
    DropHead(leaf, index, Backward(Leaves(tree)[..StartLeaf(before)]));
  }

  lemma DropHead(leaf: seq<Entry>, index: nat, rest: seq<Entry>)
    requires index < |leaf|
    ensures (Reverse(leaf[..index + 1]) + rest)[1..] == Reverse(leaf[..index]) + rest
  {
    ReverseStep(leaf, index);
    assert [leaf[index]] + Reverse(leaf[..index]) + rest == [leaf[index]] + (Reverse(leaf[..index]) + rest);
  }

  /** The way back leads to the start unless the leaf just left behind is empty. */
  lemma BackAgain(start: seq<Frame>, mid: seq<Frame>, end: seq<Frame>, tree: Tree, rank: nat)
    requires AtEntry(start, tree, rank) && AtEntry(mid, tree, rank + 1) && StepsBack(mid, end, tree)
    ensures rank < |Flatten(tree)|
    ensures end == start <==>
              mid[|mid| - 1].index > 0 || (StartLeaf(mid) > 0 && Leaves(tree)[StartLeaf(mid) - 1] != [])
    ensures end == start ==> Shown(end) == Flatten(tree)[rank]
  {
    EntryHere(start, tree, rank);
    LeafHere(mid, tree);
    LeafHere(start, tree);
    if end != [] {
      LeafHere(end, tree);
    }
    var l := StartLeaf(mid);
    if mid[|mid| - 1].index > 0 {
      assert AtEntry(end, tree, rank);
      EntryUnique(start, end, tree, rank);
    } else if l > 0 && Leaves(tree)[l - 1] != [] {
      ConcatStep(Leaves(tree), l - 1);
      assert AtEntry(end, tree, rank);
      EntryUnique(start, end, tree, rank);
    }
  }

  ghost predicate Shows(b: BucketView, elements: seq<ElementRef>, frames: seq<Frame>) {
    && |elements| == |frames|
    && forall k :: 0 <= k < |frames| ==>
         && elements[k].element == Shape(frames[k].t) && elements[k].index == frames[k].index
         && (frames[k].t.Branch? ==> forall i :: 0 <= i < |frames[k].t.kids| ==>
               Represents(b, frames[k].t.kids[i].id, frames[k].t.kids[i].tree))
  }
}
