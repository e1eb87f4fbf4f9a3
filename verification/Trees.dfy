/** B+trees as values: their leaves in order, positions in them, and the separator invariant. */
module Trees {
  import opened Keys

  datatype Entry = Entry(key: Bytes, value: Bytes, flag: nat)

  datatype Kid = Kid(key: Bytes, id: nat, tree: Tree)

  datatype Tree = Leaf(entries: seq<Entry>) | Branch(kids: seq<Kid>)

  /** The leaves of the tree from left to right. */
  ghost function Leaves(t: Tree): seq<seq<Entry>>
    decreases t, 1, 0
  {
    match t
    case Leaf(entries) => [entries]
    case Branch(kids) => LeavesUpto(t, |kids|)
  }

  /** The leaves under the first `n` children. */
  ghost function LeavesUpto(t: Tree, n: nat): seq<seq<Entry>>
    requires t.Branch? && n <= |t.kids|
    decreases t, 0, n
  {
    if n == 0 then [] else LeavesUpto(t, n - 1) + Leaves(t.kids[n - 1].tree)
  }

  ghost function Concat(leaves: seq<seq<Entry>>): seq<Entry> {
    if leaves == [] then [] else Concat(leaves[..|leaves| - 1]) + leaves[|leaves| - 1]
  }

  /** All entries of the tree in order. */
  ghost function Flatten(t: Tree): seq<Entry> {
    Concat(Leaves(t))
  }

  /** No branch is empty. */
  ghost predicate Full(t: Tree) {
    t.Branch? ==> t.kids != [] && forall i :: 0 <= i < |t.kids| ==> Full(t.kids[i].tree)
  }

  lemma {:induction false} FullHasLeaf(t: Tree)
    requires Full(t)
    ensures Leaves(t) != []
  {
    if t.Branch? {
      FullHasLeaf(t.kids[|t.kids| - 1].tree);
    }
  }

  /** Child `i`'s leaves lie between those of the children before it and those of the children after it. */
  lemma {:induction false} KidLeaves(t: Tree, i: nat, n: nat)
    requires t.Branch? && i < n <= |t.kids|
    ensures var low, own := |LeavesUpto(t, i)|, Leaves(t.kids[i].tree);
            && low + |own| <= |LeavesUpto(t, n)|
            && LeavesUpto(t, n)[low..low + |own|] == own
            && LeavesUpto(t, i + 1) == LeavesUpto(t, i) + own
            && LeavesUpto(t, n)[..low] == LeavesUpto(t, i)
    decreases n
  {
    if i < n - 1 {
      KidLeaves(t, i, n - 1);
    }
  }

  // ----- The separator invariant -----

  datatype Bound = Unbounded | At(key: Bytes)

  ghost predicate Within(key: Bytes, lo: Bound, hi: Bound) {
    (lo.At? ==> !Less(key, lo.key)) && (hi.At? ==> Less(key, hi.key))
  }

  function KeysOf(entries: seq<Entry>): (keys: seq<Bytes>)
    ensures |keys| == |entries|
    ensures forall i :: 0 <= i < |entries| ==> keys[i] == entries[i].key
  {
    seq(|entries|, i requires 0 <= i < |entries| => entries[i].key)
  }

  function Separators(t: Tree): (keys: seq<Bytes>)
    requires t.Branch?
    ensures |keys| == |t.kids|
    ensures forall i :: 0 <= i < |t.kids| ==> keys[i] == t.kids[i].key
  {
    seq(|t.kids|, i requires 0 <= i < |t.kids| => t.kids[i].key)
  }

  /** The first child has no lower bound of its own: a search for a smaller key goes there too. */
  ghost function KidLow(t: Tree, i: nat, lo: Bound): Bound
    requires t.Branch? && i < |t.kids|
  {
    if i == 0 then lo else At(t.kids[i].key)
  }

  ghost function KidHigh(t: Tree, i: nat, hi: Bound): Bound
    requires t.Branch? && i < |t.kids|
  {
    if i + 1 < |t.kids| then At(t.kids[i + 1].key) else hi
  }

  ghost predicate Ordered(t: Tree, lo: Bound, hi: Bound)
    decreases t
  {
    match t
    case Leaf(entries) =>
      Ascending(KeysOf(entries)) && forall i :: 0 <= i < |entries| ==> Within(entries[i].key, lo, hi)
    case Branch(kids) =>
      && Ascending(Separators(t))
      && (forall i :: 1 <= i < |kids| ==> Within(kids[i].key, lo, hi))
      && (forall i :: 0 <= i < |kids| ==> Ordered(kids[i].tree, KidLow(t, i, lo), KidHigh(t, i, hi)))
  }

  ghost predicate LeafWithin(leaf: seq<Entry>, lo: Bound, hi: Bound) {
    forall i :: 0 <= i < |leaf| ==> Within(leaf[i].key, lo, hi)
  }

  ghost predicate AllWithin(leaves: seq<seq<Entry>>, lo: Bound, hi: Bound) {
    forall l :: 0 <= l < |leaves| ==> LeafWithin(leaves[l], lo, hi)
  }

  ghost predicate Below(a: seq<Entry>, b: seq<Entry>) {
    forall i, j :: 0 <= i < |a| && 0 <= j < |b| ==> Less(a[i].key, b[j].key)
  }

  /** Leaves ascending, and each wholly below the later ones. */
  ghost predicate LeavesAscend(leaves: seq<seq<Entry>>) {
    && (forall l :: 0 <= l < |leaves| ==> Ascending(KeysOf(leaves[l])))
    && (forall l, m :: 0 <= l < m < |leaves| ==> Below(leaves[l], leaves[m]))
  }

  lemma LessAcross(a: Bytes, mid: Bytes, b: Bytes)
    requires Less(a, mid) && !Less(b, mid)
    ensures Less(a, b)
  {
    LessTrichotomy(mid, b);
    if mid != b {
      LessTransitive(a, mid, b);
    }
  }

  /** The bound of the children before `n`: the next separator, or the tree's own bound. */
  ghost function UptoHigh(t: Tree, n: nat, hi: Bound): Bound
    requires t.Branch? && n <= |t.kids|
  {
    if 0 < n < |t.kids| then At(t.kids[n].key) else hi
  }

  /** Leaves of an ordered tree ascend within its bounds. */
  lemma {:induction false} OrderedLeaves(t: Tree, lo: Bound, hi: Bound)
    requires Ordered(t, lo, hi)
    ensures AllWithin(Leaves(t), lo, hi) && LeavesAscend(Leaves(t))
    decreases t, 1, 0
  {
    if t.Branch? {
      OrderedUpto(t, lo, hi, |t.kids|);
    }
  }

  lemma {:induction false} OrderedUpto(t: Tree, lo: Bound, hi: Bound, n: nat)
    requires t.Branch? && Ordered(t, lo, hi) && n <= |t.kids|
    ensures AllWithin(LeavesUpto(t, n), lo, UptoHigh(t, n, hi)) && LeavesAscend(LeavesUpto(t, n))
    decreases t, 0, n
  {
    if n > 0 {
      OrderedUpto(t, lo, hi, n - 1);
      var own := Leaves(t.kids[n - 1].tree);
      OrderedLeaves(t.kids[n - 1].tree, KidLow(t, n - 1, lo), KidHigh(t, n - 1, hi));
      SeparatorsWithin(t, lo, hi, n);
      WidenAll(LeavesUpto(t, n - 1), lo, UptoHigh(t, n - 1, hi), lo, UptoHigh(t, n, hi));
      WidenAll(own, KidLow(t, n - 1, lo), KidHigh(t, n - 1, hi), lo, UptoHigh(t, n, hi));
      if n > 1 {
        JoinLeaves(LeavesUpto(t, n - 1), own, lo, t.kids[n - 1].key, UptoHigh(t, n, hi));
      } else {
        assert LeavesUpto(t, 1) == own;
      }
    }
  }

  ghost predicate Wider(lo: Bound, hi: Bound, lo': Bound, hi': Bound) {
    && (lo'.At? ==> lo.At? && !Less(lo.key, lo'.key))
    && (hi'.At? ==> hi.At? && !Less(hi'.key, hi.key))
  }

  lemma SeparatorsWithin(t: Tree, lo: Bound, hi: Bound, n: nat)
    requires t.Branch? && Ordered(t, lo, hi) && 0 < n <= |t.kids|
    ensures n > 1 ==> Wider(lo, UptoHigh(t, n - 1, hi), lo, UptoHigh(t, n, hi))
    ensures Wider(KidLow(t, n - 1, lo), KidHigh(t, n - 1, hi), lo, UptoHigh(t, n, hi))
    ensures n == 1 ==> LeavesUpto(t, n - 1) == []
  {
    if lo.At? {
      LessTrichotomy(lo.key, lo.key);
    }
    if hi.At? {
      LessTrichotomy(hi.key, hi.key);
    }
    if n < |t.kids| {
      LessTrichotomy(t.kids[n].key, t.kids[n].key);
      if n > 1 {
        assert Less(Separators(t)[n - 1], Separators(t)[n]);
        LessTrichotomy(t.kids[n - 1].key, t.kids[n].key);
      }
    } else if n > 1 && hi.At? {
      assert Within(t.kids[n - 1].key, lo, hi);
      LessTrichotomy(t.kids[n - 1].key, hi.key);
    }
  }

  lemma WidenAll(leaves: seq<seq<Entry>>, lo: Bound, hi: Bound, lo': Bound, hi': Bound)
    requires AllWithin(leaves, lo, hi)
    requires leaves == [] || Wider(lo, hi, lo', hi')
    ensures AllWithin(leaves, lo', hi')
  {
    forall l, i | 0 <= l < |leaves| && 0 <= i < |leaves[l]| ensures Within(leaves[l][i].key, lo', hi') {
      assert LeafWithin(leaves[l], lo, hi);
      WithinWider(leaves[l][i].key, lo, hi, lo', hi');
    }
  }

  lemma WithinWider(key: Bytes, lo: Bound, hi: Bound, lo': Bound, hi': Bound)
    requires Within(key, lo, hi) && Wider(lo, hi, lo', hi')
    ensures Within(key, lo', hi')
  {
    if lo'.At? && Less(key, lo'.key) {
      LessAcross(key, lo'.key, lo.key);
    }
    if hi'.At? {
      LessTrichotomy(hi'.key, hi.key);
      if hi.key != hi'.key {
        LessTransitive(key, hi.key, hi'.key);
      }
    }
  }

  lemma JoinLeaves(a: seq<seq<Entry>>, b: seq<seq<Entry>>, lo: Bound, mid: Bytes, hi: Bound)
    requires LeavesAscend(a) && LeavesAscend(b)
    requires AllWithin(a, lo, At(mid)) && AllWithin(b, At(mid), hi)
    ensures LeavesAscend(a + b)
  {
    var all: seq<seq<Entry>> := a + b;
    forall l, m | 0 <= l < m < |all| ensures Below(all[l], all[m]) {
      if l < |a| <= m {
        assert LeafWithin(a[l], lo, At(mid)) && LeafWithin(b[m - |a|], At(mid), hi);
        forall i, j | 0 <= i < |all[l]| && 0 <= j < |all[m]| ensures Less(all[l][i].key, all[m][j].key) {
          LessAcross(all[l][i].key, mid, all[m][j].key);
        }
      } else if l >= |a| {
        assert all[l] == b[l - |a|] && all[m] == b[m - |a|];
      }
    }
  }

  /** Entry `i` of the whole is in some leaf. */
  lemma {:induction false} ConcatMember(leaves: seq<seq<Entry>>, i: nat) returns (l: nat, j: nat)
    requires i < |Concat(leaves)|
    ensures l < |leaves| && j < |leaves[l]| && Concat(leaves)[i] == leaves[l][j]
  {
    var n := |leaves|;
    var low := Concat(leaves[..n - 1]);
    if i < |low| {
      l, j := ConcatMember(leaves[..n - 1], i);
    } else {
      l, j := n - 1, i - |low|;
    }
  }

  /** The keys of an ordered tree ascend from its first leaf to its last. */
  lemma {:induction false} ConcatAscends(leaves: seq<seq<Entry>>)
    requires LeavesAscend(leaves)
    ensures Ascending(KeysOf(Concat(leaves)))
  {
    if leaves != [] {
      var n := |leaves|;
      var front, last := leaves[..n - 1], leaves[n - 1];
      ConcatAscends(front);
      var low, keys := Concat(front), KeysOf(Concat(front) + last);
      forall i, j | 0 <= i < j < |keys| ensures Less(keys[i], keys[j]) {
        if j < |low| {
          assert keys[i] == KeysOf(low)[i] && keys[j] == KeysOf(low)[j];
        } else if i >= |low| {
          assert keys[i] == KeysOf(last)[i - |low|] && keys[j] == KeysOf(last)[j - |low|];
        } else {
          var l, k := ConcatMember(front, i);
          assert Below(leaves[l], leaves[n - 1]);
          assert Less(leaves[l][k].key, last[j - |low|].key);
        }
      }
    }
  }
}
