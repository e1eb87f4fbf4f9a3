/** A transaction reads its own changes: cached nodes before buffered pages before the mapping. */
module WriterViews {
  import opened Common
  import opened Keys
  import opened Trees
  import opened Positions
  import opened Searching
  import opened Cursors
  import M = Merging
  import N = Nodes
  import R = Rebalance

  // ----- A changed leaf -----

  /** No page below `t` is page `id`. */
  ghost predicate Elsewhere(t: Tree, id: nat)
    decreases t
  {
    t.Branch? ==> forall i :: 0 <= i < |t.kids| ==> t.kids[i].id != id && Elsewhere(t.kids[i].tree, id)
  }

  /** The leaf that separators lead to is page `id`, and no other page of `t`, itself on page `own`, is. */
  ghost predicate LeafOn(t: Tree, own: nat, key: Bytes, id: nat)
    decreases t
  {
    if t.Leaf? then own == id
    else
      && own != id && t.kids != []
      && var i := Pick(t, key, |t.kids|);
      && LeafOn(t.kids[i].tree, t.kids[i].id, key, id)
      && forall j :: 0 <= j < |t.kids| && j != i ==> t.kids[j].id != id && Elsewhere(t.kids[j].tree, id)
  }

  /** `t` with other entries in the leaf that separators lead to. */
  ghost function WithLeaf(t: Tree, key: Bytes, entries: seq<Entry>): Tree
    decreases t
  {
    if t.Leaf? then Leaf(entries)
    else if t.kids == [] then t
    else
      var i := Pick(t, key, |t.kids|);
      Branch(t.kids[i := t.kids[i].(tree := WithLeaf(t.kids[i].tree, key, entries))])
  }

  /** `b` shows these entries on page `id`, and all other pages as `a` does. */
  ghost predicate Changed(a: BucketView, b: BucketView, id: nat, entries: seq<Entry>) {
    && b.GetPageNode(id) == Some(LeafElement(entries))
    && forall p :: p != id ==> b.GetPageNode(p) == a.GetPageNode(p)
  }

  lemma {:induction false} Unaffected(a: BucketView, b: BucketView, id: nat, entries: seq<Entry>, own: nat, t: Tree)
    requires Changed(a, b, id, entries) && Represents(a, own, t) && own != id && Elsewhere(t, id)
    ensures Represents(b, own, t)
    decreases t
  {
    if t.Branch? {
      forall i | 0 <= i < |t.kids| ensures Represents(b, t.kids[i].id, t.kids[i].tree) {
        Unaffected(a, b, id, entries, t.kids[i].id, t.kids[i].tree);
      }
    }
  }

  lemma SameShape(t: Tree, i: nat, kid: Tree)
    requires t.Branch? && i < |t.kids|
    ensures Shape(Branch(t.kids[i := t.kids[i].(tree := kid)])) == Shape(t)
  {
    var kids := t.kids[i := t.kids[i].(tree := kid)];
    assert forall j :: 0 <= j < |kids| ==> kids[j].key == t.kids[j].key && kids[j].id == t.kids[j].id;
  }

  /** The changed view shows the tree with the changed leaf. */
  lemma {:induction false} ChangeShown(a: BucketView, b: BucketView, id: nat, entries: seq<Entry>, own: nat, t: Tree, key: Bytes)
    requires Changed(a, b, id, entries) && Represents(a, own, t) && LeafOn(t, own, key, id)
    ensures Represents(b, own, WithLeaf(t, key, entries))
    decreases t
  {
    if t.Branch? {
      var i := Pick(t, key, |t.kids|);
      var kid := t.kids[i].tree;
      ChangeShown(a, b, id, entries, t.kids[i].id, kid, key);
      var changed := WithLeaf(kid, key, entries);
      SameShape(t, i, changed);
      var after := WithLeaf(t, key, entries);
      assert after == Branch(t.kids[i := t.kids[i].(tree := changed)]);
      hide WithLeaf, Pick;
      forall j | 0 <= j < |after.kids| ensures Represents(b, after.kids[j].id, after.kids[j].tree) {
        if j != i {
          Unaffected(a, b, id, entries, t.kids[j].id, t.kids[j].tree);
        }
      }
    }
  }

  // ----- What hides what -----

  /** A cached node hides the page it was read from, buffered or not. */
  lemma NodeChanges(b: BucketView, id: nat, entries: seq<Entry>)
    requires b.root != 0
    ensures Changed(b, b.(nodes := b.nodes[id := LeafElement(entries)]), id, entries)
  {
  }

  /** Without a cached node a buffered page hides the mapped one. */
  lemma BufferChanges(b: BucketView, id: nat, entries: seq<Entry>)
    requires b.root != 0 && id !in b.nodes && id < b.tx.total
    ensures Changed(b, b.(tx := b.tx.(dirty := b.tx.dirty[id := LeafElement(entries)])), id, entries)
  {
  }

  /** With neither, the mapped page shows. */
  lemma MappingChanges(b: BucketView, id: nat, entries: seq<Entry>)
    requires b.root != 0 && id !in b.nodes && id !in b.tx.dirty && id < b.tx.total
    ensures Changed(b, b.(tx := b.tx.(mapped := b.tx.mapped[id := LeafElement(entries)])), id, entries)
  {
  }

  /** Past the high-water mark there is no page unless a node is cached. */
  lemma NothingPastMark(b: BucketView, id: nat)
    requires b.root != 0
    ensures id >= b.tx.total ==> (b.GetPageNode(id).Some? <==> id in b.nodes)
  {
  }

  /** The root node of an inline bucket hides its page; without one the page shows. */
  lemma InlineChanges(b: BucketView, entries: seq<Entry>)
    requires b.root == 0
    ensures Represents(b.(rootNode := Some(LeafElement(entries))), 0, Leaf(entries))
    ensures b.rootNode.None? ==> Represents(b.(page := Some(LeafElement(entries))), 0, Leaf(entries))
  {
  }

  // ----- The changed tree -----

  lemma PickSame(t: Tree, key: Bytes, n: nat, i: nat, kid: Tree)
    requires t.Branch? && 0 < n <= |t.kids| && i < |t.kids|
    ensures Pick(Branch(t.kids[i := t.kids[i].(tree := kid)]), key, n) == Pick(t, key, n)
  {
    if n > 1 && Less(key, t.kids[n - 1].key) {
      PickSame(t, key, n - 1, i, kid);
    }
  }

  /** Separators still lead to that leaf, and no branch became empty. */
  lemma {:induction false} ChangedLeaf(t: Tree, key: Bytes, entries: seq<Entry>)
    requires Full(t)
    ensures var t' := WithLeaf(t, key, entries); Full(t') && LeafFor(t', key) == entries
    decreases t
  {
    if t.Branch? {
      var i := Pick(t, key, |t.kids|);
      var changed := WithLeaf(t.kids[i].tree, key, entries);
      ChangedLeaf(t.kids[i].tree, key, entries);
      PickSame(t, key, |t.kids|, i, changed);
      assert forall j :: 0 <= j < |t.kids| && j != i ==> Full(t.kids[j].tree);
    }
  }

  /** In order, only the entries of that leaf change. */
  lemma {:induction false} FlattenAround(t: Tree, key: Bytes, entries: seq<Entry>) returns (low: seq<Entry>, high: seq<Entry>)
    requires Full(t)
    ensures Flatten(t) == low + LeafFor(t, key) + high
    ensures Flatten(WithLeaf(t, key, entries)) == low + entries + high
    decreases t
  {
    if t.Leaf? {
      R.LeafFlat(t);
      R.LeafFlat(Leaf(entries));
      low, high := [], [];
    } else {
      var i := Pick(t, key, |t.kids|);
      var kid, a, b := t.kids[i], t.kids[..i], t.kids[i + 1..];
      var changed := kid.(tree := WithLeaf(kid.tree, key, entries));
      var l, h := FlattenAround(kid.tree, key, entries);
      assert t.kids == a + [kid] + b && t.kids[i := changed] == a + [changed] + b;
      R.KidsAround(a, kid, b);
      R.KidsAround(a, changed, b);
      low, high := Flatten(Branch(a)) + l, h + Flatten(Branch(b));
      Regroup(Flatten(Branch(a)), l, LeafFor(kid.tree, key), h, Flatten(Branch(b)));
      Regroup(Flatten(Branch(a)), l, entries, h, Flatten(Branch(b)));
    }
  }

  lemma Regroup(a: seq<Entry>, l: seq<Entry>, m: seq<Entry>, h: seq<Entry>, b: seq<Entry>)
    ensures a + (l + m + h) + b == (a + l) + m + (h + b)
  {
  }

  lemma {:induction false} PickChosen(t: Tree, key: Bytes, n: nat)
    requires t.Branch? && 0 < n <= |t.kids| && (n < |t.kids| ==> Less(key, t.kids[n].key))
    ensures Chosen(t, key, Pick(t, key, n))
  {
    if n > 1 && Less(key, t.kids[n - 1].key) {
      PickChosen(t, key, n - 1);
    }
  }

  lemma ChosenWithin(t: Tree, key: Bytes, i: nat, lo: Bound, hi: Bound)
    requires Chosen(t, key, i) && Within(key, lo, hi)
    ensures Within(key, KidLow(t, i, lo), KidHigh(t, i, hi))
  {
  }

  /** The entries of a leaf after one key was put into it. */
  ghost predicate PutInto(before: seq<Entry>, key: Bytes, after: seq<Entry>) {
    && Ascending(KeysOf(after))
    && forall j :: 0 <= j < |after| ==> after[j].key == key || after[j] in before
  }

  lemma {:induction false} OrderKept(t: Tree, key: Bytes, entries: seq<Entry>, lo: Bound, hi: Bound)
    requires Full(t) && Ordered(t, lo, hi) && Within(key, lo, hi) && PutInto(LeafFor(t, key), key, entries)
    ensures Ordered(WithLeaf(t, key, entries), lo, hi)
    decreases t
  {
    if t.Branch? {
      var i := Pick(t, key, |t.kids|);
      PickChosen(t, key, |t.kids|);
      ChosenWithin(t, key, i, lo, hi);
      M.OrderedKid(t, i, lo, hi);
      OrderKept(t.kids[i].tree, key, entries, KidLow(t, i, lo), KidHigh(t, i, hi));
      KidReplaced(t, i, WithLeaf(t.kids[i].tree, key, entries), lo, hi);
    }
  }

  lemma KidsReplaced(kids: seq<Kid>, i: nat, kid: Tree, lo: Bound, hi: Bound)
    requires i < |kids| && M.KidsOrdered(kids, lo, hi)
    requires Ordered(kid, KidLow(Branch(kids), i, lo), KidHigh(Branch(kids), i, hi))
    ensures M.KidsOrdered(kids[i := kids[i].(tree := kid)], lo, hi)
  {
    hide Ordered;
    var after := kids[i := kids[i].(tree := kid)];
    forall j | 0 <= j < |after| ensures Ordered(after[j].tree, KidLow(Branch(after), j, lo), KidHigh(Branch(after), j, hi)) {
      assert KidLow(Branch(after), j, lo) == KidLow(Branch(kids), j, lo);
      assert KidHigh(Branch(after), j, hi) == KidHigh(Branch(kids), j, hi);
      assert j != i ==> Ordered(kids[j].tree, KidLow(Branch(kids), j, lo), KidHigh(Branch(kids), j, hi));
    }
  }

  lemma KidReplaced(t: Tree, i: nat, kid: Tree, lo: Bound, hi: Bound)
    requires t.Branch? && i < |t.kids| && Ordered(t, lo, hi)
    requires Ordered(kid, KidLow(t, i, lo), KidHigh(t, i, hi))
    ensures Ordered(Branch(t.kids[i := t.kids[i].(tree := kid)]), lo, hi)
  {
    hide Ordered, Within, M.KidsOrdered, Ascending, KidLow, KidHigh;
    var after := t.kids[i := t.kids[i].(tree := kid)];
    M.OrderedParts(t.kids, lo, hi);
    KidsReplaced(t.kids, i, kid, lo, hi);
    assert Separators(Branch(after)) == Separators(t);
    assert forall j :: 1 <= j < |after| ==> after[j].key == t.kids[j].key;
    M.OrderedParts(after, lo, hi);
  }

  // ----- A put or a removal, then a lookup -----

  function EntryOf(n: N.Inode): Entry {
    Entry(n.key, n.value, n.flag)
  }

  /** What a leaf node shows. */
  function EntriesOf(s: seq<N.Inode>): (entries: seq<Entry>)
    ensures |entries| == |s| && forall i :: 0 <= i < |s| ==> entries[i] == EntryOf(s[i])
  {
    seq(|s|, i requires 0 <= i < |s| => EntryOf(s[i]))
  }

  /** `after` maps `key` to `n`, or to nothing, and is `before` elsewhere. */
  ghost predicate MapsTo(before: seq<N.Inode>, key: Bytes, n: Option<N.Inode>, after: seq<N.Inode>) {
    && N.Sorted(after) && (n.Some? ==> n.value.key == key)
    && forall k :: N.Find(after, k) == if k == key then n else N.Find(before, k)
  }

  lemma FoundIn(s: seq<N.Inode>, n: N.Inode)
    requires N.Find(s, n.key) == Some(n)
    ensures n in s && EntryOf(n) in EntriesOf(s)
  {
    var i :| 0 <= i < |s| && s[i] == n;
    assert EntriesOf(s)[i] == EntryOf(n);
  }

  lemma EntriesAscend(s: seq<N.Inode>)
    requires N.Sorted(s)
    ensures Ascending(KeysOf(EntriesOf(s)))
  {
    assert KeysOf(EntriesOf(s)) == N.KeysOf(s);
  }

  lemma MapsPut(before: seq<N.Inode>, key: Bytes, n: Option<N.Inode>, after: seq<N.Inode>)
    requires N.Sorted(before) && MapsTo(before, key, n, after)
    ensures PutInto(EntriesOf(before), key, EntriesOf(after))
    ensures forall e: Entry :: e.key != key ==> (e in EntriesOf(after) <==> e in EntriesOf(before))
    ensures forall e: Entry :: e.key == key && e in EntriesOf(after) ==> n.Some? && e == EntryOf(n.value)
    ensures n.Some? ==> EntryOf(n.value) in EntriesOf(after)
  {
    EntriesAscend(after);
    forall j | 0 <= j < |after| ensures if after[j].key == key then n == Some(after[j]) else after[j] in before && EntriesOf(after)[j] in EntriesOf(before) {
      N.FindAt(after, j);
      if after[j].key != key {
        FoundIn(before, after[j]);
      }
    }
    forall j | 0 <= j < |before| && before[j].key != key ensures EntriesOf(before)[j] in EntriesOf(after) {
      N.FindAt(before, j);
      FoundIn(after, before[j]);
    }
    if n.Some? {
      FoundIn(after, n.value);
    }
  }

  /** In the whole tree, too, only `key` changes. */
  lemma TreePut(t: Tree, key: Bytes, before: seq<N.Inode>, n: Option<N.Inode>, after: seq<N.Inode>)
    requires Full(t) && Ordered(t, Unbounded, Unbounded) && LeafFor(t, key) == EntriesOf(before)
    requires N.Sorted(before) && MapsTo(before, key, n, after)
    ensures var t' := WithLeaf(t, key, EntriesOf(after));
            && Full(t') && Ordered(t', Unbounded, Unbounded)
            && (forall e: Entry :: e.key != key ==> (e in Flatten(t') <==> e in Flatten(t)))
            && (n.Some? ==> EntryOf(n.value) in Flatten(t'))
  {
    hide Full, Ordered, Flatten, WithLeaf, LeafFor, N.Sorted, MapsTo, PutInto;
    MapsPut(before, key, n, after);
    ChangedLeaf(t, key, EntriesOf(after));
    AnyWithin(key);
    OrderKept(t, key, EntriesOf(after), Unbounded, Unbounded);
    var low, high := FlattenAround(t, key, EntriesOf(after));
  }

  lemma AnyWithin(key: Bytes)
    ensures Within(key, Unbounded, Unbounded)
  {
  }

  lemma StoredInChild(t: Tree, key: Bytes, lo: Bound, hi: Bound, i: nat, l: nat, e: Entry) returns (m: nat)
    requires Ordered(t, lo, hi) && Chosen(t, key, i) && l < |Leaves(t)| && e in Leaves(t)[l] && e.key == key
    ensures m < |Leaves(t.kids[i].tree)| && e in Leaves(t.kids[i].tree)[m]
  {
    hide Ordered, Leaves, LeavesUpto, Less, LeafBelow, LeafAbove;
    var kid, low := t.kids[i].tree, |LeavesUpto(t, i)|;
    ChildAround(t, lo, hi, key, i);
    KidLeaves(t, i, |t.kids|);
    AllLeaves(t);
    NeitherSide(Leaves(t)[l], key, e);
    assert low <= l < |LeavesUpto(t, i + 1)|;
    m := l - low;
    assert Leaves(t)[low..low + |Leaves(kid)|][m] == Leaves(t)[l];
  }

  lemma NeitherSide(leaf: seq<Entry>, key: Bytes, e: Entry)
    requires e in leaf && e.key == key
    ensures !LeafBelow(leaf, key) && !LeafAbove(leaf, key)
  {
    LessTrichotomy(key, key);
  }

  lemma AllLeaves(t: Tree)
    ensures if t.Leaf? then Leaves(t) == [t.entries] else Leaves(t) == LeavesUpto(t, |t.kids|)
  {
  }

  /** A stored pair is in the leaf that separators lead to. */
  lemma {:induction false} StoredInLeaf(t: Tree, key: Bytes, lo: Bound, hi: Bound, l: nat, e: Entry)
    requires Full(t) && Ordered(t, lo, hi) && l < |Leaves(t)| && e in Leaves(t)[l] && e.key == key
    ensures e in LeafFor(t, key)
    decreases t
  {
    hide Ordered, Leaves, Chosen;
    AllLeaves(t);
    if t.Branch? {
      var i := Pick(t, key, |t.kids|);
      PickChosen(t, key, |t.kids|);
      var m := StoredInChild(t, key, lo, hi, i, l, e);
      M.OrderedKid(t, i, lo, hi);
      StoredInLeaf(t.kids[i].tree, key, KidLow(t, i, lo), KidHigh(t, i, hi), m, e);
    }
  }

  lemma GoneFromTree(t: Tree, key: Bytes, before: seq<N.Inode>, after: seq<N.Inode>)
    requires Full(t) && Ordered(t, Unbounded, Unbounded) && LeafFor(t, key) == EntriesOf(before)
    requires N.Sorted(before) && MapsTo(before, key, None, after)
    ensures NotStored(WithLeaf(t, key, EntriesOf(after)), key)
  {
    hide Full, Ordered, WithLeaf, LeafFor, N.Sorted, MapsTo, PutInto, Leaves, Concat;
    var t' := WithLeaf(t, key, EntriesOf(after));
    TreePut(t, key, before, None, after);
    MapsPut(before, key, None, after);
    ChangedLeaf(t, key, EntriesOf(after));
    forall e: Entry | e in Flatten(t') ensures e.key != key {
      if e.key == key {
        var i :| 0 <= i < |Flatten(t')| && Flatten(t')[i] == e;
        var l, j := ConcatMember(Leaves(t'), i);
        StoredInLeaf(t', key, Unbounded, Unbounded, l, e);
      }
    }
  }

  /** No entry of the tree has this key. */
  ghost predicate NotStored(t: Tree, key: Bytes) {
    forall e: Entry :: e in Flatten(t) ==> e.key != key
  }

  /** A lookup in the tree: the value of the stored pair, the empty string for a bucket or for nothing. */
  ghost predicate LooksUp(t: Tree, key: Bytes, value: Bytes) {
    && (forall e: Entry :: e in Flatten(t) && e.key == key ==> value == if e.flag % 2 == 1 then [] else e.value)
    && (NotStored(t, key) ==> value == [])
  }

  method LookUp(view: BucketView, key: Bytes, ghost t: Tree) returns (value: Bytes)
    requires Full(t) && Ordered(t, Unbounded, Unbounded) && Represents(view, view.root, t)
    ensures LooksUp(t, key, value)
  {
    hide Full, Ordered, Represents, Flatten;
    var c := new Cursor(view, t);
    value := c.Get(key);
    assert forall e :: e in Flatten(t) ==> exists i :: 0 <= i < |Flatten(t)| && Flatten(t)[i] == e;
  }

  /** `Bucket::put` into the leaf node that separators lead to, cached as page `id`, and a lookup: the new value is
      found under its key, and under any other key what was found before. */
  method PutThenGet(view: BucketView, node: N.Node, id: nat, key: Bytes, value: Bytes, total: nat, other: Bytes, ghost t: Tree)
    returns (ok: bool, got: Bytes, kept: Bytes)
    requires view.root != 0 && Full(t) && Ordered(t, Unbounded, Unbounded) && Represents(view, view.root, t)
    requires LeafOn(t, view.root, key, id) && EntriesOf(node.inodes) == LeafFor(t, key) && N.Sorted(node.inodes)
    modifies node`inodes
    ensures ok <==> 0 < total && key != []
    ensures ok ==> got == value && (other != key ==> LooksUp(t, other, kept))
  {
    hide Full, Ordered, Represents, Flatten, LeafOn, LeafFor, WithLeaf, MapsTo, N.Find, N.IsPut;
    ghost var before := node.inodes;
    ok := node.Put(key, key, value, 0, 0, total);
    if !ok {
      return false, [], [];
    }
    ghost var n := N.Inode(0, 0, key, value);
    ghost var t' := WithLeaf(t, key, EntriesOf(node.inodes));
    PutMaps(before, n, node.inodes);
    TreePut(t, key, before, Some(n), node.inodes);
    var view' := view.(nodes := view.nodes[id := LeafElement(EntriesOf(node.inodes))]);
    NodeChanges(view, id, EntriesOf(node.inodes));
    ChangeShown(view, view', id, EntriesOf(node.inodes), view.root, t, key);
    got := LookUp(view', key, t');
    kept := LookUp(view', other, t');
  }

  lemma PutMaps(before: seq<N.Inode>, n: N.Inode, after: seq<N.Inode>)
    requires N.Sorted(after) && forall k :: N.Find(after, k) == if k == n.key then Some(n) else N.Find(before, k)
    ensures MapsTo(before, n.key, Some(n), after)
  {
  }

  /** The same for a removal: nothing is found under the key any more. */
  method DelThenGet(view: BucketView, node: N.Node, id: nat, key: Bytes, other: Bytes, ghost t: Tree)
    returns (got: Bytes, kept: Bytes)
    requires view.root != 0 && Full(t) && Ordered(t, Unbounded, Unbounded) && Represents(view, view.root, t)
    requires LeafOn(t, view.root, key, id) && EntriesOf(node.inodes) == LeafFor(t, key) && N.Sorted(node.inodes)
    modifies node`inodes, node`unbalanced
    ensures got == [] && (other != key ==> LooksUp(t, other, kept))
  {
    hide Full, Ordered, Represents, Flatten, LeafOn, LeafFor, WithLeaf, MapsTo, N.Find;
    ghost var before := node.inodes;
    node.Del(key);
    ghost var t' := WithLeaf(t, key, EntriesOf(node.inodes));
    DelMaps(before, key, node.inodes);
    TreePut(t, key, before, None, node.inodes);
    GoneFromTree(t, key, before, node.inodes);
    var view' := view.(nodes := view.nodes[id := LeafElement(EntriesOf(node.inodes))]);
    NodeChanges(view, id, EntriesOf(node.inodes));
    ChangeShown(view, view', id, EntriesOf(node.inodes), view.root, t, key);
    got := LookUp(view', key, t');
    kept := LookUp(view', other, t');
  }

  lemma DelMaps(before: seq<N.Inode>, key: Bytes, after: seq<N.Inode>)
    requires N.Sorted(after) && forall k :: N.Find(after, k) == if k == key then None else N.Find(before, k)
    ensures MapsTo(before, key, None, after)
  {
  }
}
