/** Why descending by separators finds the place of a key among all entries of the tree. */
module Searching {
  import opened Keys
  import opened Trees
  import opened Positions

  ghost predicate LeafBelow(leaf: seq<Entry>, key: Bytes) {
    forall i :: 0 <= i < |leaf| ==> Less(leaf[i].key, key)
  }

  ghost predicate LeafAbove(leaf: seq<Entry>, key: Bytes) {
    forall i :: 0 <= i < |leaf| ==> Less(key, leaf[i].key)
  }

  /** Only the leaves from `low` to `high` can hold `key`. */
  ghost predicate Around(leaves: seq<seq<Entry>>, low: nat, high: nat, key: Bytes) {
    && (forall l :: 0 <= l < low && l < |leaves| ==> LeafBelow(leaves[l], key))
    && (forall l :: high <= l < |leaves| ==> LeafAbove(leaves[l], key))
  }

  /** The child a search takes: the last one whose separator is not above the key, else the first. */
  ghost predicate Chosen(t: Tree, key: Bytes, i: nat) {
    && t.Branch? && i < |t.kids|
    && (i > 0 ==> !Less(key, t.kids[i].key))
    && (i + 1 < |t.kids| ==> Less(key, t.kids[i + 1].key))
  }

  /** Of the first `n` children, the last whose separator is not above the key, else the first. */
  ghost function Pick(t: Tree, key: Bytes, n: nat): (i: nat)
    requires t.Branch? && 0 < n <= |t.kids|
    ensures i < n
  {
    if n == 1 || !Less(key, t.kids[n - 1].key) then n - 1 else Pick(t, key, n - 1)
  }

  /** The leaf that separators lead to. */
  ghost function LeafFor(t: Tree, key: Bytes): seq<Entry>
    decreases t
  {
    if t.Leaf? then t.entries
    else if t.kids == [] then []
    else LeafFor(t.kids[Pick(t, key, |t.kids|)].tree, key)
  }

  lemma {:induction false} ChosenIsPick(t: Tree, key: Bytes, i: nat, n: nat)
    requires Chosen(t, key, i) && Ascending(Separators(t)) && i < n <= |t.kids|
    ensures Pick(t, key, n) == i
  {
    if i < n - 1 {
      if i + 1 < n - 1 {
        LessTransitive(key, Separators(t)[i + 1], Separators(t)[n - 1]);
      }
      ChosenIsPick(t, key, i, n - 1);
    }
  }

  lemma KidFrom(t: Tree, lo: Bound, hi: Bound, i: nat, j: nat)
    requires t.Branch? && Ordered(t, lo, hi) && 1 <= i <= j < |t.kids|
    ensures AllWithin(Leaves(t.kids[j].tree), At(t.kids[i].key), Unbounded)
  {
    OrderedLeaves(t.kids[j].tree, KidLow(t, j, lo), KidHigh(t, j, hi));
    LessTrichotomy(t.kids[i].key, t.kids[j].key);
    assert i < j ==> Less(Separators(t)[i], Separators(t)[j]);
    WidenAll(Leaves(t.kids[j].tree), KidLow(t, j, lo), KidHigh(t, j, hi), At(t.kids[i].key), Unbounded);
  }

  lemma {:induction false} OrderedFrom(t: Tree, lo: Bound, hi: Bound, i: nat, n: nat)
    requires t.Branch? && Ordered(t, lo, hi) && 1 <= i <= n <= |t.kids| && i < |t.kids|
    ensures |LeavesUpto(t, i)| <= |LeavesUpto(t, n)|
    ensures AllWithin(LeavesUpto(t, n)[|LeavesUpto(t, i)|..], At(t.kids[i].key), Unbounded)
    decreases n
  {
    hide Ordered;
    if i < n {
      OrderedFrom(t, lo, hi, i, n - 1);
      KidFrom(t, lo, hi, i, n - 1);
      var low := |LeavesUpto(t, i)|;
      assert LeavesUpto(t, n)[low..] == LeavesUpto(t, n - 1)[low..] + Leaves(t.kids[n - 1].tree);
    }
  }

  lemma LeftBelow(t: Tree, lo: Bound, hi: Bound, key: Bytes, i: nat, l: nat)
    requires Ordered(t, lo, hi) && Chosen(t, key, i) && l < |LeavesUpto(t, i)|
    ensures LeafBelow(LeavesUpto(t, i)[l], key)
  {
    OrderedUpto(t, lo, hi, i);
    var leaf := LeavesUpto(t, i)[l];
    assert i > 0 && LeafWithin(leaf, lo, At(t.kids[i].key));
    forall k | 0 <= k < |leaf| ensures Less(leaf[k].key, key) {
      LessAcross(leaf[k].key, t.kids[i].key, key);
    }
  }

  lemma RightAbove(t: Tree, lo: Bound, hi: Bound, key: Bytes, i: nat, l: nat)
    requires Ordered(t, lo, hi) && Chosen(t, key, i) && |LeavesUpto(t, i + 1)| <= l < |Leaves(t)|
    ensures LeafAbove(Leaves(t)[l], key)
  {
    var n := |t.kids|;
    OrderedFrom(t, lo, hi, i + 1, n);
    var from := LeavesUpto(t, n)[|LeavesUpto(t, i + 1)|..];
    var leaf := Leaves(t)[l];
    assert leaf == from[l - |LeavesUpto(t, i + 1)|];
    assert LeafWithin(leaf, At(t.kids[i + 1].key), Unbounded);
    forall k | 0 <= k < |leaf| ensures Less(key, leaf[k].key) {
      LessAcross(key, t.kids[i + 1].key, leaf[k].key);
    }
  }

  /** Of the leaves under `t`, only those of the chosen child can hold the key. */
  lemma ChildAround(t: Tree, lo: Bound, hi: Bound, key: Bytes, i: nat)
    requires Ordered(t, lo, hi) && Chosen(t, key, i)
    ensures Around(Leaves(t), |LeavesUpto(t, i)|, |LeavesUpto(t, i + 1)|, key)
  {
    KidLeaves(t, i, |t.kids|);
    hide Ordered, LeafBelow, LeafAbove, Leaves, LeavesUpto;
    forall l | 0 <= l < |LeavesUpto(t, i)| ensures LeafBelow(Leaves(t)[l], key) {
      LeftBelow(t, lo, hi, key, i, l);
      assert Leaves(t)[..|LeavesUpto(t, i)|][l] == Leaves(t)[l];
    }
    forall l | |LeavesUpto(t, i + 1)| <= l < |Leaves(t)| ensures LeafAbove(Leaves(t)[l], key) {
      RightAbove(t, lo, hi, key, i, l);
    }
  }

  lemma NarrowAround(all: seq<seq<Entry>>, own: seq<seq<Entry>>, base: nat, low: nat, high: nat, key: Bytes)
    requires base + |own| <= |all| && all[base..base + |own|] == own && low <= high <= |own|
    requires Around(all, base, base + |own|, key) && Around(own, low, high, key)
    ensures Around(all, base + low, base + high, key)
  {
    assert forall l :: base <= l < base + |own| ==> all[l] == own[l - base];
  }

  /** Descending to the chosen child narrows the leaves that can hold the key to that child's. */
  lemma Descend(frames: seq<Frame>, key: Bytes, lo: Bound, hi: Bound)
    requires frames != [] && Chain(frames)
    requires var f := frames[|frames| - 1];
             && Chosen(f.t, key, f.index) && Ordered(f.t, lo, hi) && Within(key, lo, hi)
             && Around(Leaves(frames[0].t), Base(frames, |frames| - 1), Base(frames, |frames| - 1) + |Leaves(f.t)|, key)
    ensures var f := frames[|frames| - 1];
            && Around(Leaves(frames[0].t), StartLeaf(frames), StartLeaf(frames) + |Leaves(f.t.kids[f.index].tree)|, key)
            && Within(key, KidLow(f.t, f.index, lo), KidHigh(f.t, f.index, hi))
  {
    hide Ordered, Around, AllWithin;
    var k := |frames| - 1;
    var f := frames[k];
    Segment(frames, k);
    KidLeaves(f.t, f.index, |f.t.kids|);
    ChildAround(f.t, lo, hi, key, f.index);
    NarrowAround(Leaves(frames[0].t), Leaves(f.t), Base(frames, k), |LeavesUpto(f.t, f.index)|, |LeavesUpto(f.t, f.index + 1)|, key);
  }

  /** Entry `i`, not before leaf `m`, is in a leaf from `m` on. */
  lemma {:induction false} ConcatMemberFrom(leaves: seq<seq<Entry>>, m: nat, i: nat) returns (l: nat, j: nat)
    requires m <= |leaves| && |Concat(leaves[..m])| <= i < |Concat(leaves)|
    ensures m <= l < |leaves| && j < |leaves[l]| && Concat(leaves)[i] == leaves[l][j]
    decreases |leaves|
  {
    var n := |leaves|;
    assert leaves[..n] == leaves;
    var low := Concat(leaves[..n - 1]);
    if i < |low| {
      assert leaves[..n - 1][..m] == leaves[..m];
      l, j := ConcatMemberFrom(leaves[..n - 1], m, i);
    } else {
      l, j := n - 1, i - |low|;
    }
  }

  /** The lower bound within the leaf is the lower bound among all entries. */
  lemma RankOfKey(leaves: seq<seq<Entry>>, l: nat, index: nat, key: Bytes)
    requires l < |leaves| && Around(leaves, l, l + 1, key)
    requires IsLowerBound(KeysOf(leaves[l]), key, index)
    ensures IsLowerBound(KeysOf(Concat(leaves)), key, |Concat(leaves[..l])| + index)
  {
    var all, rank := Concat(leaves), |Concat(leaves[..l])| + index;
    ConcatStep(leaves, l);
    ConcatPrefix(leaves, l);
    ConcatPrefix(leaves, l + 1);
    var low, mid := |Concat(leaves[..l])|, |Concat(leaves[..l + 1])|;
    forall i | 0 <= i < |all|
      ensures i < rank ==> Less(all[i].key, key)
      ensures i >= rank ==> all[i].key == key || Less(key, all[i].key)
    {
      if i < low {
        assert all[..low][i] == all[i];
        var m, j := ConcatMember(leaves[..l], i);
        assert LeafBelow(leaves[m], key);
      } else if i < mid {
        assert all[..mid][i] == all[i] == leaves[l][i - low];
        assert KeysOf(leaves[l])[i - low] == all[i].key;
      } else {
        var m, j := ConcatMemberFrom(leaves, l + 1, i);
        assert LeafAbove(leaves[m], key);
      }
    }
  }
}
