/** The sizes that rebalancing goes by, and where it ends. */
module NodeSizes {
  import opened Common
  import opened Trees
  import opened Rebalance
  import N = Nodes

  /** The node's inode list. */
  function InodesOf(t: Tree): (s: seq<N.Inode>)
    ensures |s| == Entries(t)
  {
    match t
    case Leaf(entries) =>
      seq(|entries|, i requires 0 <= i < |entries| => N.Inode(entries[i].flag, 0, entries[i].key, entries[i].value))
    case Branch(kids) => seq(|kids|, i requires 0 <= i < |kids| => N.Inode(0, kids[i].id, kids[i].key, []))
  }

  /** The sizes are those of the pages the nodes are written to. */
  lemma NodeSizeIs(t: Tree)
    ensures NodeSize(t) == N.SizeOf(t.Leaf?, InodesOf(t))
  {
    match t
    case Leaf(entries) => EntriesSizeIs(entries);
    case Branch(kids) => KidsSizeIs(kids);
  }

  lemma {:induction false} EntriesSizeIs(entries: seq<Entry>)
    ensures PAGE_HEADER_SIZE + EntriesSize(entries) == N.SizeOf(true, InodesOf(Leaf(entries)))
  {
    if entries != [] {
      var front := entries[..|entries| - 1];
      EntriesSizeIs(front);
      assert InodesOf(Leaf(entries))[..|entries| - 1] == InodesOf(Leaf(front));
    }
  }

  lemma {:induction false} KidsSizeIs(kids: seq<Kid>)
    ensures PAGE_HEADER_SIZE + KidsSize(kids) == N.SizeOf(false, InodesOf(Branch(kids)))
  {
    if kids != [] {
      var front := kids[..|kids| - 1];
      KidsSizeIs(front);
      assert InodesOf(Branch(kids))[..|kids| - 1] == InodesOf(Branch(front));
    }
  }

  /** More than a quarter of a page, and more keys than a node must have. */
  ghost predicate Enough(t: Tree) {
    N.SizeOf(t.Leaf?, InodesOf(t)) > 1024 && |InodesOf(t)| > if t.Leaf? then 1 else 2
  }

  // ----- When a node is left alone -----

  lemma CheckIs(t: Tree, freed: seq<nat>)
    ensures Check(t, freed) == if Enough(t) then Keep(t, freed) else Short(t, freed)
  {
    hide NodeSize, N.SizeOf;
    NodeSizeIs(t);
  }

  /** A leaf with entries, right of a cached sibling, is merged into it and its page freed if and only if it takes at
      most 1024 bytes or has one entry; else nothing changes. */
  lemma LeafMergedIff(kids: seq<Kid>, i: nat, cached: set<nat>)
    requires 0 < i < |kids| && kids[i].tree.Leaf? && kids[i].tree.entries != [] && kids[i - 1].id in cached
    ensures IsPath(Branch(kids), [i])
    ensures var v := Climb(Branch(kids), [i], cached);
            if N.SizeOf(true, InodesOf(kids[i].tree)) <= 1024 || |kids[i].tree.entries| == 1
            then !v.Failed? && v.t == Branch(MergedLeft(kids, i, kids[i].tree)) && v.freed == [kids[i].id]
            else v == Keep(Branch(kids), [])
  {
    hide NodeSize, N.SizeOf, Check;
    var t, leaf := Branch(kids), kids[i].tree;
    assert [i][1..] == [] && IsPath(t, [i]);
    CheckIs(leaf, []);
    assert Climb(leaf, [], cached) == Check(leaf, []);
    assert Climb(t, [i], cached) == Settle(kids, i, Check(leaf, []), cached);
    if Enough(leaf) {
      assert kids[i := WithTree(kids[i], leaf)] == kids;
    } else {
      CheckIs(Branch(MergedLeft(kids, i, leaf)), [] + [kids[i].id]);
      assert [] + [kids[i].id] == [kids[i].id];
    }
  }

  /** The node at level `k` of the path, after what happened below it, is large enough. */
  ghost predicate EnoughAt(t: Tree, path: seq<nat>, cached: set<nat>, k: nat)
    requires IsPath(t, path) && k <= |path|
  {
    var v := Climb(NodeAt(t, path, k), path[k..], cached);
    !v.Failed? && Enough(v.t)
  }

  /** Level `k` is the lowest one with enough, and each level below it freed one page. */
  ghost predicate EndsAt(t: Tree, path: seq<nat>, cached: set<nat>, k: nat)
    requires IsPath(t, path) && k <= |path|
  {
    var v := Climb(t, path, cached);
    && EnoughAt(t, path, cached, k) && NothingBelow(t, path, cached, k)
    && !v.Failed? && |v.freed| == |path| - k
  }

  ghost predicate NothingBelow(t: Tree, path: seq<nat>, cached: set<nat>, k: nat)
    requires IsPath(t, path) && k <= |path|
  {
    forall j: nat :: k < j <= |path| ==> !EnoughAt(t, path, cached, j)
  }

  lemma EnoughBelow(t: Tree, path: seq<nat>, cached: set<nat>, k: nat)
    requires IsPath(t, path) && path != [] && k < |path|
    ensures EnoughAt(t, path, cached, k + 1) <==> EnoughAt(t.kids[path[0]].tree, path[1..], cached, k)
  {
    hide Climb, Enough;
    assert path[1..][k..] == path[k + 1..];
  }

  lemma LevelZero(t: Tree, path: seq<nat>, cached: set<nat>)
    requires IsPath(t, path)
    ensures EnoughAt(t, path, cached, 0) <==> !Climb(t, path, cached).Failed? && Enough(Climb(t, path, cached).t)
  {
    hide Climb, Enough;
    assert path[0..] == path;
  }

  lemma SettleEnds(kids: seq<Kid>, i: nat, v: Verdict, cached: set<nat>)
    requires i < |kids|
    ensures var r := Settle(kids, i, v, cached);
            && (v.Keep? ==> r.Keep? && r.freed == v.freed)
            && (v.Failed? ==> r.Failed?)
            && (v.Short? && !r.Failed? ==> (r.Keep? <==> Enough(r.t)) && |r.freed| == |v.freed| + 1)
  {
    hide NodeSize, N.SizeOf, Enough, Check;
    if v.Short? && Entries(v.t) == 0 {
      CheckIs(Branch(Without(kids, i)), v.freed + [kids[i].id]);
    } else if v.Short? && |kids| > 1 && i > 0 {
      CheckIs(Branch(MergedLeft(kids, i, v.t)), v.freed + [kids[i].id]);
    }
  }

  /** A climb that does not fail ends at the lowest level that has enough, or finds enough nowhere and passes the
      root; it frees one page at each level below its end. */
  lemma {:induction false} ClimbEnds(t: Tree, path: seq<nat>, cached: set<nat>)
    requires IsPath(t, path)
    ensures var v := Climb(t, path, cached);
            && (v.Keep? ==> exists k: nat :: k <= |path| && EndsAt(t, path, cached, k))
            && (v.Short? ==> |v.freed| == |path| && forall k: nat :: k <= |path| ==> !EnoughAt(t, path, cached, k))
    decreases path
  {
    LevelZero(t, path, cached);
    if path == [] {
      CheckIs(t, []);
      if Climb(t, path, cached).Keep? {
        assert EndsAt(t, path, cached, 0);
      }
    } else {
      var kid, rest := t.kids[path[0]].tree, path[1..];
      ClimbEnds(kid, rest, cached);
      ClimbEndsAbove(t, path, cached);
    }
  }

  lemma ClimbEndsAbove(t: Tree, path: seq<nat>, cached: set<nat>)
    requires IsPath(t, path) && path != []
    requires var kid, rest := t.kids[path[0]].tree, path[1..];
             var v := Climb(kid, rest, cached);
             && (v.Keep? ==> exists k: nat :: k <= |rest| && EndsAt(kid, rest, cached, k))
             && (v.Short? ==> |v.freed| == |rest| && forall k: nat :: k <= |rest| ==> !EnoughAt(kid, rest, cached, k))
    ensures var v := Climb(t, path, cached);
            && (v.Keep? ==> exists k: nat :: k <= |path| && EndsAt(t, path, cached, k))
            && (v.Short? ==> |v.freed| == |path| && forall k: nat :: k <= |path| ==> !EnoughAt(t, path, cached, k))
  {
    var kid, rest := t.kids[path[0]].tree, path[1..];
    var below, v := Climb(kid, rest, cached), Climb(t, path, cached);
    assert v == Settle(t.kids, path[0], below, cached);
    SettleEnds(t.kids, path[0], below, cached);
    LevelZero(t, path, cached);
    hide Climb, Settle, Enough, EnoughAt, NodeAt, IsPath;
    forall k: nat | 1 <= k <= |path| ensures EnoughAt(t, path, cached, k) <==> EnoughAt(kid, rest, cached, k - 1) {
      EnoughBelow(t, path, cached, k - 1);
    }
    if below.Keep? {
      var k: nat :| k <= |rest| && EndsAt(kid, rest, cached, k);
      assert EndsAt(t, path, cached, k + 1);
    } else if v.Keep? {
      assert EndsAt(t, path, cached, 0);
    }
  }
}
