/** Stacks of (subtree, index) as positions in the sequence of leaves. */
module Positions {
  import opened Keys
  import opened Trees

  datatype Frame = Frame(t: Tree, index: nat)

  function Count(t: Tree): nat {
    if t.Leaf? then |t.entries| else |t.kids|
  }

  /** Each frame but the top points to the subtree of the frame above it. */
  ghost predicate Chain(frames: seq<Frame>) {
    && (forall k :: 0 <= k < |frames| ==> Full(frames[k].t) && (frames[k].t.Branch? ==> frames[k].index < |frames[k].t.kids|))
    && (forall k :: 0 <= k < |frames| - 1 ==> frames[k].t.Branch? && frames[k + 1].t == frames[k].t.kids[frames[k].index].tree)
  }

  /** The stack descends from `root` to a leaf. */
  ghost predicate AtLeaf(frames: seq<Frame>, root: Tree) {
    frames != [] && Chain(frames) && frames[0].t == root && frames[|frames| - 1].t.Leaf?
  }

  ghost function LeavesBefore(f: Frame): nat {
    if f.t.Branch? && f.index < |f.t.kids| then |LeavesUpto(f.t, f.index)| else 0
  }

  ghost function LeavesThrough(f: Frame): nat {
    if f.t.Branch? && f.index < |f.t.kids| then |LeavesUpto(f.t, f.index + 1)| else 1
  }

  /** Leaves to the left of the subtree at height `k` of the stack. */
  ghost function Base(frames: seq<Frame>, k: nat): nat
    requires k <= |frames|
  {
    if k == 0 then 0 else Base(frames, k - 1) + LeavesBefore(frames[k - 1])
  }

  /** Number of the leaf where the top frame's item begins, and of the leaf after its end. */
  ghost function StartLeaf(frames: seq<Frame>): nat {
    Base(frames, |frames|)
  }

  ghost function EndLeaf(frames: seq<Frame>): nat
    requires frames != []
  {
    Base(frames, |frames| - 1) + LeavesThrough(frames[|frames| - 1])
  }

  lemma {:induction false} BasePrefix(frames: seq<Frame>, more: seq<Frame>, k: nat)
    requires k <= |frames| && k <= |more| && frames[..k] == more[..k]
    ensures Base(frames, k) == Base(more, k)
  {
    if k > 0 {
      assert frames[..k - 1] == frames[..k][..k - 1] && more[..k - 1] == more[..k][..k - 1];
      BasePrefix(frames, more, k - 1);
      assert frames[k - 1] == frames[..k][k - 1] == more[..k][k - 1] == more[k - 1];
    }
  }

  lemma SliceOfSlice(all: seq<seq<Entry>>, low: nat, n: nat, off: nat, m: nat)
    requires low + n <= |all| && off + m <= n
    ensures all[low..low + n][off..off + m] == all[low + off..low + off + m]
  {
    var part := all[low..low + n][off..off + m];
    var direct := all[low + off..low + off + m];
    assert forall k :: 0 <= k < m ==> part[k] == direct[k];
  }

  /** The leaves under frame `k` are a slice of the leaves of the whole tree. */
  lemma {:induction false} Segment(frames: seq<Frame>, k: nat)
    requires Chain(frames) && k < |frames|
    ensures var low, own, all := Base(frames, k), Leaves(frames[k].t), Leaves(frames[0].t);
            low + |own| <= |all| && all[low..low + |own|] == own
  {
    if k > 0 {
      hide Leaves, LeavesUpto;
      Segment(frames, k - 1);
      var f := frames[k - 1];
      KidLeaves(f.t, f.index, |f.t.kids|);
      var all, mid, own := Leaves(frames[0].t), Leaves(f.t), Leaves(frames[k].t);
      var low, off := Base(frames, k - 1), |LeavesUpto(f.t, f.index)|;
      assert mid == all[low..low + |mid|];
      assert own == mid[off..off + |own|];
      SliceOfSlice(all, low, |mid|, off, |own|);
    }
  }

  /** Popping a frame whose item is its last does not move the end of the current item. */
  lemma PopKeepsEnd(frames: seq<Frame>)
    requires frames != [] && Chain(frames)
    requires frames[|frames| - 1].t.Leaf? || frames[|frames| - 1].index + 1 == |frames[|frames| - 1].t.kids|
    ensures Chain(frames[..|frames| - 1])
    ensures if |frames| == 1 then EndLeaf(frames) == |Leaves(frames[0].t)|
            else EndLeaf(frames[..|frames| - 1]) == EndLeaf(frames)
  {
    var n := |frames|;
    if n > 1 {
      var low := frames[..n - 1];
      BasePrefix(frames, low, n - 2);
      KidLeaves(low[n - 2].t, low[n - 2].index, |low[n - 2].t.kids|);
      assert low[n - 2] == frames[n - 2];
    }
  }

  /** Moving a branch frame to its next child starts where the old child ended. */
  lemma StepStarts(frames: seq<Frame>, moved: seq<Frame>)
    requires frames != [] && Chain(frames)
    requires var f := frames[|frames| - 1];
             && f.t.Branch? && f.index + 1 < |f.t.kids|
             && moved == frames[..|frames| - 1] + [Frame(f.t, f.index + 1)]
    ensures Chain(moved) && StartLeaf(moved) == EndLeaf(frames)
  {
    var n := |frames|;
    BasePrefix(frames, moved, n - 1);
    assert moved[n - 1] == Frame(frames[n - 1].t, frames[n - 1].index + 1);
    assert forall k :: 0 <= k < n - 1 ==> moved[k] == frames[k];
  }

  lemma PushChain(frames: seq<Frame>, f: Frame)
    requires frames != [] && Chain(frames) && frames[|frames| - 1].t.Branch?
    requires f.t == frames[|frames| - 1].t.kids[frames[|frames| - 1].index].tree
    requires f.t.Branch? ==> f.index < |f.t.kids|
    ensures Chain(frames + [f])
  {
    var more, n := frames + [f], |frames|;
    assert Full(frames[n - 1].t) && more[n - 1] == frames[n - 1];
    assert forall k :: 0 <= k < n ==> more[k] == frames[k];
  }

  /** Pushing the child the top frame points to. */
  lemma PushFrame(frames: seq<Frame>, f: Frame)
    requires frames != [] && Chain(frames) && frames[|frames| - 1].t.Branch?
    requires f.t == frames[|frames| - 1].t.kids[frames[|frames| - 1].index].tree
    requires f.t.Branch? ==> f.index < |f.t.kids|
    ensures Chain(frames + [f])
    ensures StartLeaf(frames + [f]) == StartLeaf(frames) + LeavesBefore(f)
    ensures EndLeaf(frames + [f]) == StartLeaf(frames) + LeavesThrough(f)
    ensures f.t.Leaf? || f.index + 1 == |f.t.kids| ==> EndLeaf(frames + [f]) == EndLeaf(frames)
  {
    var more := frames + [f];
    PushChain(frames, f);
    var top := frames[|frames| - 1];
    assert more[|frames| - 1] == top && top.index < |top.t.kids|;
    hide Chain;
    BasePrefix(frames, more, |frames|);
    KidLeaves(top.t, top.index, |top.t.kids|);
  }

  /** At a leaf, the stack's leaf number names the leaf it is in. */
  lemma LeafHere(frames: seq<Frame>, root: Tree)
    requires AtLeaf(frames, root)
    ensures StartLeaf(frames) < |Leaves(root)| && EndLeaf(frames) == StartLeaf(frames) + 1
    ensures Leaves(root)[StartLeaf(frames)] == frames[|frames| - 1].t.entries
  {
    var n := |frames|;
    Segment(frames, n - 1);
    var low := Base(frames, n - 1);
    assert Leaves(root)[low..low + 1][0] == Leaves(root)[low];
  }

  // ----- Ranks -----

  lemma {:induction false} ConcatStep(leaves: seq<seq<Entry>>, l: nat)
    requires l < |leaves|
    ensures Concat(leaves[..l + 1]) == Concat(leaves[..l]) + leaves[l]
  {
    assert leaves[..l + 1][..l] == leaves[..l];
  }

  lemma {:induction false} ConcatPrefix(leaves: seq<seq<Entry>>, l: nat)
    requires l <= |leaves|
    ensures |Concat(leaves[..l])| <= |Concat(leaves)|
    ensures Concat(leaves)[..|Concat(leaves[..l])|] == Concat(leaves[..l])
    decreases |leaves| - l
  {
    if l == |leaves| {
      assert leaves[..l] == leaves;
    } else {
      ConcatPrefix(leaves, l + 1);
      ConcatStep(leaves, l);
      var n := |Concat(leaves[..l])|;
      assert Concat(leaves)[..n] == Concat(leaves[..l + 1])[..n];
    }
  }

  /** How many entries lie before the leaf a stack is in. */
  ghost function EntriesBefore(root: Tree, l: nat): nat
    requires l <= |Leaves(root)|
  {
    |Concat(Leaves(root)[..l])|
  }

  /** The stack points to entry number `rank` of the tree. */
  ghost predicate AtEntry(frames: seq<Frame>, root: Tree, rank: nat) {
    && AtLeaf(frames, root)
    && StartLeaf(frames) < |Leaves(root)|
    && frames[|frames| - 1].index < |frames[|frames| - 1].t.entries|
    && rank == EntriesBefore(root, StartLeaf(frames)) + frames[|frames| - 1].index
  }

  /** How many entries the stack has passed, the current one included. */
  ghost function Passed(frames: seq<Frame>, root: Tree): nat
    requires AtLeaf(frames, root) && StartLeaf(frames) < |Leaves(root)|
  {
    var top := frames[|frames| - 1];
    EntriesBefore(root, StartLeaf(frames)) +
    if top.index < |top.t.entries| then top.index + 1 else |top.t.entries|
  }

  lemma EntryHere(frames: seq<Frame>, root: Tree, rank: nat)
    requires AtEntry(frames, root, rank)
    ensures rank < |Flatten(root)|
    ensures Flatten(root)[rank] == frames[|frames| - 1].t.entries[frames[|frames| - 1].index]
    ensures Passed(frames, root) == rank + 1
  {
    LeafHere(frames, root);
    var l := StartLeaf(frames);
    ConcatStep(Leaves(root), l);
    ConcatPrefix(Leaves(root), l + 1);
    var n := EntriesBefore(root, l + 1);
    assert Flatten(root)[rank] == Flatten(root)[..n][rank];
  }

  // ----- A position determines the stack -----

  lemma {:induction false} StackUnique(a: seq<Frame>, b: seq<Frame>, root: Tree, k: nat)
    requires AtLeaf(a, root) && AtLeaf(b, root)
    requires StartLeaf(a) == StartLeaf(b) && a[|a| - 1].index == b[|b| - 1].index
    requires k < |a| && k < |b| && a[..k] == b[..k] && a[k].t == b[k].t
    ensures a == b
    decreases |a| - k
  {
    BasePrefix(a, b, k);
    if a[k].t.Leaf? {
      assert |a| == k + 1 && |b| == k + 1;
      assert a[k] == b[k];
      assert a == a[..k] + [a[k]] && b == b[..k] + [b[k]];
    } else {
      Enclosed(a, k);
      Enclosed(b, k);
      IndexUnique(a[k].t, a[k].index, b[k].index, StartLeaf(a) - Base(a, k));
      assert a[..k + 1] == a[..k] + [a[k]] && b[..k + 1] == b[..k] + [b[k]];
      StackUnique(a, b, root, k + 1);
    }
  }

  /** The leaf of the stack is under the child that frame `k` points to. */
  lemma {:induction false} Enclosed(frames: seq<Frame>, k: nat)
    requires Chain(frames) && frames != [] && frames[|frames| - 1].t.Leaf? && k < |frames| - 1
    ensures Base(frames, k) + |LeavesUpto(frames[k].t, frames[k].index)| <= StartLeaf(frames)
    ensures StartLeaf(frames) < Base(frames, k) + |LeavesUpto(frames[k].t, frames[k].index + 1)|
    decreases |frames| - k
  {
    KidLeaves(frames[k].t, frames[k].index, |frames[k].t.kids|);
    assert Base(frames, k + 1) == Base(frames, k) + LeavesBefore(frames[k]);
    assert Base(frames, k + 2) == Base(frames, k + 1) + LeavesBefore(frames[k + 1]);
    if k + 1 < |frames| - 1 {
      Enclosed(frames, k + 1);
      var kid := frames[k + 1];
      KidLeaves(kid.t, kid.index, |kid.t.kids|);
    }
  }

  lemma IndexUnique(t: Tree, i: nat, j: nat, l: nat)
    requires t.Branch? && i < |t.kids| && j < |t.kids|
    requires |LeavesUpto(t, i)| <= l < |LeavesUpto(t, i + 1)|
    requires |LeavesUpto(t, j)| <= l < |LeavesUpto(t, j + 1)|
    ensures i == j
  {
    if i < j {
      UptoGrows(t, i + 1, j);
    } else if j < i {
      UptoGrows(t, j + 1, i);
    }
  }

  lemma {:induction false} UptoGrows(t: Tree, i: nat, j: nat)
    requires t.Branch? && i <= j <= |t.kids|
    ensures |LeavesUpto(t, i)| <= |LeavesUpto(t, j)|
    decreases j
  {
    if i < j {
      UptoGrows(t, i, j - 1);
    }
  }

  lemma BeforeGrows(root: Tree, l: nat, m: nat)
    requires l < m <= |Leaves(root)|
    ensures EntriesBefore(root, l) + |Leaves(root)[l]| == EntriesBefore(root, l + 1) <= EntriesBefore(root, m)
    decreases m
  {
    ConcatStep(Leaves(root), l);
    if l + 1 < m {
      BeforeGrows(root, l, m - 1);
      ConcatStep(Leaves(root), m - 1);
    }
  }

  /** Two stacks at the same entry are the same stack. */
  lemma EntryUnique(a: seq<Frame>, b: seq<Frame>, root: Tree, rank: nat)
    requires AtEntry(a, root, rank) && AtEntry(b, root, rank)
    ensures a == b
  {
    LeafHere(a, root);
    LeafHere(b, root);
    if StartLeaf(a) < StartLeaf(b) {
      BeforeGrows(root, StartLeaf(a), StartLeaf(b));
    } else if StartLeaf(b) < StartLeaf(a) {
      BeforeGrows(root, StartLeaf(b), StartLeaf(a));
    }
    StackUnique(a, b, root, 0);
  }

  // ----- Backward order -----

  ghost function Reverse(s: seq<Entry>): seq<Entry> {
    if s == [] then [] else [s[|s| - 1]] + Reverse(s[..|s| - 1])
  }

  lemma {:induction false} ReverseConcat(a: seq<Entry>, b: seq<Entry>)
    ensures Reverse(a + b) == Reverse(b) + Reverse(a)
  {
    if b == [] {
      assert a + b == a;
    } else {
      ReverseConcat(a, b[..|b| - 1]);
      assert (a + b)[..|a + b| - 1] == a + b[..|b| - 1];
    }
  }

  lemma {:induction false} ReverseLength(s: seq<Entry>)
    ensures |Reverse(s)| == |s|
  {
    if s != [] {
      ReverseLength(s[..|s| - 1]);
    }
  }

  /** Entries met from the right, stopping at an empty leaf. */
  ghost function Backward(leaves: seq<seq<Entry>>): seq<Entry> {
    if leaves == [] || leaves[|leaves| - 1] == [] then []
    else Reverse(leaves[|leaves| - 1]) + Backward(leaves[..|leaves| - 1])
  }

  /** In every tree: what is met is what lies after the last empty leaf, reversed. */
  lemma {:induction false} BackwardIs(leaves: seq<seq<Entry>>, from: nat)
    requires from <= |leaves| && (from > 0 ==> leaves[from - 1] == [])
    requires forall i :: from <= i < |leaves| ==> leaves[i] != []
    ensures Backward(leaves) == Reverse(Concat(leaves[from..]))
  {
    if from == |leaves| {
      assert leaves[from..] == [];
    } else {
      var front, last := leaves[..|leaves| - 1], leaves[|leaves| - 1];
      BackwardIs(front, from);
      var tail := leaves[from..];
      assert tail[..|tail| - 1] == front[from..] && tail[|tail| - 1] == last;
      ReverseConcat(Concat(front[from..]), last);
    }
  }

  /** Every leaf before an empty leaf is empty too. */
  ghost predicate EmptyLeavesFirst(leaves: seq<seq<Entry>>) {
    forall i, j :: 0 <= i < j < |leaves| && leaves[j] == [] ==> leaves[i] == []
  }

  lemma EmptyLast(leaves: seq<seq<Entry>>)
    requires leaves != [] && leaves[|leaves| - 1] == []
    ensures EmptyLeavesFirst(leaves) <==> Concat(leaves) == []
  {
    AllEmpty(leaves);
    if EmptyLeavesFirst(leaves) {
      assert forall i :: 0 <= i < |leaves| - 1 ==> leaves[i] == [];
    }
  }

  lemma FullLast(leaves: seq<seq<Entry>>)
    requires leaves != [] && leaves[|leaves| - 1] != []
    ensures EmptyLeavesFirst(leaves) <==> EmptyLeavesFirst(leaves[..|leaves| - 1])
  {
    var front := leaves[..|leaves| - 1];
    assert forall i :: 0 <= i < |front| ==> front[i] == leaves[i];
  }

  /** Backward iteration mirrors the forward order exactly when no entry lies before an empty leaf. */
  lemma {:induction false} BackwardMirrors(leaves: seq<seq<Entry>>)
    ensures Backward(leaves) == Reverse(Concat(leaves)) <==> EmptyLeavesFirst(leaves)
  {
    if leaves != [] {
      hide EmptyLeavesFirst;
      var front, last := leaves[..|leaves| - 1], leaves[|leaves| - 1];
      if last == [] {
        EmptyLast(leaves);
        ReverseLength(Concat(leaves));
      } else {
        FullLast(leaves);
        BackwardMirrors(front);
        ReverseConcat(Concat(front), last);
        SamePrefix(Reverse(last), Backward(front), Reverse(Concat(front)));
      }
    }
  }

  /** An empty last leaf ends the way back before it began. */
  lemma BackwardStopsAtEmptyLeaf()
    ensures var e := Entry([7], [], 0); Backward([[e], []]) == [] != Reverse(Concat([[e], []]))
  {
    var e := Entry([7], [], 0);
    assert [[e], []][..1] == [[e]];
    assert Concat([[e]]) == [e] && [e][..0] == [];
  }

  lemma SamePrefix(a: seq<Entry>, b: seq<Entry>, c: seq<Entry>)
    ensures a + b == a + c <==> b == c
  {
    assert b == (a + b)[|a|..] && c == (a + c)[|a|..];
  }

  lemma {:induction false} AllEmpty(leaves: seq<seq<Entry>>)
    ensures Concat(leaves) == [] <==> forall i :: 0 <= i < |leaves| ==> leaves[i] == []
  {
    if leaves != [] {
      AllEmpty(leaves[..|leaves| - 1]);
    }
  }
}
