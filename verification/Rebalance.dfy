/** Rebalancing from a node that lost keys up the parent chain: removal of empty nodes and merges into left siblings. */
module Rebalance {
  import opened Common
  import opened Keys
  import opened Trees

  const THRESHOLD: nat := 1024

  // ----- The tree nodes as the code measures them -----

  function Entries(t: Tree): nat {
    if t.Leaf? then |t.entries| else |t.kids|
  }

  function MinKeys(t: Tree): nat {
    if t.Leaf? then 1 else 2
  }

  function EntriesSize(entries: seq<Entry>): nat {
    if entries == [] then 0
    else var e := entries[|entries| - 1];
         EntriesSize(entries[..|entries| - 1]) + LEAF_ELEMENT_SIZE + |e.key| + |e.value|
  }

  function KidsSize(kids: seq<Kid>): nat {
    if kids == [] then 0 else KidsSize(kids[..|kids| - 1]) + BRANCH_ELEMENT_SIZE + |kids[|kids| - 1].key|
  }

  function NodeSize(t: Tree): nat {
    PAGE_HEADER_SIZE + if t.Leaf? then EntriesSize(t.entries) else KidsSize(t.kids)
  }

  // ----- Rebalancing -----

  /** `UncachedNode`: a node that has no cached object is read from the page read first, or an assertion fires. */
  datatype Failure = ParentTooSmall | NullSibling | UncachedNode

  /** `Keep`: the climb ends below or at this node. `Short`: this node is too small and its parent must act. */
  datatype Verdict =
    | Keep(t: Tree, freed: seq<nat>)
    | Short(t: Tree, freed: seq<nat>)
    | Failed(why: Failure)

  function Check(t: Tree, freed: seq<nat>): Verdict {
    if NodeSize(t) > THRESHOLD && Entries(t) > MinKeys(t) then Keep(t, freed) else Short(t, freed)
  }

  function WithTree(kid: Kid, t: Tree): Kid {
    kid.(tree := t)
  }

  function Without(kids: seq<Kid>, i: nat): seq<Kid>
    requires i < |kids|
  {
    kids[..i] + kids[i + 1..]
  }

  /** The right node's inodes go to the end of the left node's. */
  function Joined(a: Tree, b: Tree): Tree {
    match (a, b)
    case (Leaf(x), Leaf(y)) => Leaf(x + y)
    case (Branch(x), Branch(y)) => Branch(x + y)
    case _ => a
  }

  /** Child `i` goes into child `i - 1`. */
  function MergedLeft(kids: seq<Kid>, i: nat, t: Tree): seq<Kid>
    requires 0 < i < |kids|
  {
    kids[..i - 1] + [WithTree(kids[i - 1], Joined(kids[i - 1].tree, t))] + kids[i + 1..]
  }

  /** The parent's part once child `i` turned out to be `v`. `cached`: pages whose nodes are in memory. */
  function Settle(kids: seq<Kid>, i: nat, v: Verdict, cached: set<nat>): Verdict
    requires i < |kids|
  {
    match v
    case Keep(t, freed) => Keep(Branch(kids[i := WithTree(kids[i], t)]), freed)
    case Failed(why) => v
    case Short(t, freed) =>
      if Entries(t) == 0 then Check(Branch(Without(kids, i)), freed + [kids[i].id])
      else if |kids| <= 1 then Failed(ParentTooSmall)
      else if i == 0 then Failed(NullSibling)
      else if kids[i - 1].id !in cached then Failed(UncachedNode)
      else Check(Branch(MergedLeft(kids, i, t)), freed + [kids[i].id])
  }

  ghost predicate IsPath(t: Tree, path: seq<nat>) {
    path != [] ==> t.Branch? && path[0] < |t.kids| && IsPath(t.kids[path[0]].tree, path[1..])
  }

  /** Rebalancing of the unbalanced node at the end of `path`, and of its parents as far as the climb goes. */
  ghost function Climb(t: Tree, path: seq<nat>, cached: set<nat>): Verdict
    requires IsPath(t, path)
    decreases path
  {
    if path == [] then Check(t, [])
    else Settle(t.kids, path[0], Climb(t.kids[path[0]].tree, path[1..], cached), cached)
  }

  /** Page ids in the node's inodes; those of a leaf are 0. */
  function InodeIds(t: Tree): set<nat> {
    if t.Leaf? then (if t.entries == [] then {} else {0}) else set i | 0 <= i < |t.kids| :: t.kids[i].id
  }

  /** The root's own turn: a branch left with one child takes its inodes, which asserts that each of them has a cached
      node. */
  function RootTurn(v: Verdict, cached: set<nat>): Verdict {
    match v
    case Keep(t, freed) => v
    case Failed(why) => v
    case Short(t, freed) =>
      if t.Branch? && |t.kids| == 1 then
        if t.kids[0].id in cached && InodeIds(t.kids[0].tree) <= cached then
          Keep(t.kids[0].tree, freed + [t.kids[0].id])
        else Failed(UncachedNode)
      else Keep(t, freed)
  }

  /** Rebalancing from the node at the end of `path` up to the root. */
  ghost function Rebalanced(t: Tree, path: seq<nat>, cached: set<nat>): Verdict
    requires IsPath(t, path)
  {
    RootTurn(Climb(t, path, cached), cached)
  }

  // ----- What survives -----

  ghost function Ids(t: Tree): multiset<nat>
    decreases t, 1, 0
  {
    if t.Leaf? then multiset{} else IdsUpto(t, |t.kids|)
  }

  /** Page ids of all nodes under the first `n` children, theirs included. */
  ghost function IdsUpto(t: Tree, n: nat): multiset<nat>
    requires t.Branch? && n <= |t.kids|
    decreases t, 0, n
  {
    if n == 0 then multiset{} else IdsUpto(t, n - 1) + multiset{t.kids[n - 1].id} + Ids(t.kids[n - 1].tree)
  }

  /** All leaves at the same depth. */
  ghost predicate Uniform(t: Tree, depth: nat)
    decreases t
  {
    match t
    case Leaf(_) => depth == 0
    case Branch(kids) => depth > 0 && forall i :: 0 <= i < |kids| ==> Uniform(kids[i].tree, depth - 1)
  }

  /** Each node's own separator bounds it from below, except along the left edge of the tree. */
  ghost function OwnLow(kids: seq<Kid>, i: nat, lo: Bound): Bound
    requires i < |kids|
  {
    if i == 0 && lo.Unbounded? then lo else At(kids[i].key)
  }

  ghost predicate Tidy(t: Tree, lo: Bound, hi: Bound)
    decreases t
  {
    match t
    case Leaf(entries) =>
      Ascending(KeysOf(entries)) && forall i :: 0 <= i < |entries| ==> Within(entries[i].key, lo, hi)
    case Branch(kids) =>
      && Ascending(Separators(t))
      && (forall i :: 0 <= i < |kids| ==> Within(kids[i].key, lo, hi))
      && (forall i :: 0 <= i < |kids| ==> Tidy(kids[i].tree, OwnLow(kids, i, lo), KidHigh(t, i, hi)))
  }

  lemma {:induction false} TidyWiden(t: Tree, lo: Bound, hi: Bound, lo': Bound, hi': Bound)
    requires Tidy(t, lo, hi) && Wider(lo, hi, lo', hi')
    ensures Tidy(t, lo', hi')
    decreases t
  {
    if t.Leaf? {
      forall i | 0 <= i < |t.entries| ensures Within(t.entries[i].key, lo', hi') {
        WithinWider(t.entries[i].key, lo, hi, lo', hi');
      }
    } else {
      forall i | 0 <= i < |t.kids| ensures Within(t.kids[i].key, lo', hi') {
        WithinWider(t.kids[i].key, lo, hi, lo', hi');
      }
      forall i | 0 <= i < |t.kids| ensures Tidy(t.kids[i].tree, OwnLow(t.kids, i, lo'), KidHigh(t, i, hi')) {
        LessTrichotomy(t.kids[i].key, t.kids[i].key);
        if i + 1 < |t.kids| {
          LessTrichotomy(t.kids[i + 1].key, t.kids[i + 1].key);
        }
        TidyWiden(t.kids[i].tree, OwnLow(t.kids, i, lo), KidHigh(t, i, hi), OwnLow(t.kids, i, lo'), KidHigh(t, i, hi'));
      }
    }
  }

  /** A tidy tree is ordered as searches need it. */
  lemma {:induction false} TidyOrdered(t: Tree, lo: Bound, hi: Bound)
    requires Tidy(t, lo, hi)
    ensures Ordered(t, lo, hi)
    decreases t
  {
    if t.Branch? {
      forall i | 0 <= i < |t.kids| ensures Ordered(t.kids[i].tree, KidLow(t, i, lo), KidHigh(t, i, hi)) {
        TidyKidLow(t, i, lo, hi);
        TidyOrdered(t.kids[i].tree, KidLow(t, i, lo), KidHigh(t, i, hi));
      }
    }
  }

  lemma TidyKidLow(t: Tree, i: nat, lo: Bound, hi: Bound)
    requires t.Branch? && Tidy(t, lo, hi) && i < |t.kids|
    ensures Tidy(t.kids[i].tree, KidLow(t, i, lo), KidHigh(t, i, hi))
  {
    if i == 0 && lo.At? {
      BoundItself(KidHigh(t, i, hi));
      TidyWiden(t.kids[i].tree, At(t.kids[i].key), KidHigh(t, i, hi), lo, KidHigh(t, i, hi));
    }
  }

  lemma BoundItself(b: Bound)
    ensures b.At? ==> !Less(b.key, b.key)
  {
    if b.At? {
      LessTrichotomy(b.key, b.key);
    }
  }

  // ----- Children lists -----

  lemma {:induction false} ConcatAppend(x: seq<seq<Entry>>, y: seq<seq<Entry>>)
    ensures Concat(x + y) == Concat(x) + Concat(y)
  {
    if y == [] {
      assert x + y == x;
    } else {
      ConcatAppend(x, y[..|y| - 1]);
      assert (x + y)[..|x + y| - 1] == x + y[..|y| - 1];
    }
  }

  lemma {:induction false} LeavesAppend(a: seq<Kid>, b: seq<Kid>, n: nat)
    requires n <= |a| + |b|
    ensures n <= |a| ==> LeavesUpto(Branch(a + b), n) == LeavesUpto(Branch(a), n)
    ensures n >= |a| ==> LeavesUpto(Branch(a + b), n) == Leaves(Branch(a)) + LeavesUpto(Branch(b), n - |a|)
  {
    if n > 0 {
      LeavesAppend(a, b, n - 1);
      assert (a + b)[n - 1] == if n <= |a| then a[n - 1] else b[n - 1 - |a|];
    }
  }

  lemma {:induction false} IdsAppend(a: seq<Kid>, b: seq<Kid>, n: nat)
    requires n <= |a| + |b|
    ensures n <= |a| ==> IdsUpto(Branch(a + b), n) == IdsUpto(Branch(a), n)
    ensures n >= |a| ==> IdsUpto(Branch(a + b), n) == Ids(Branch(a)) + IdsUpto(Branch(b), n - |a|)
  {
    if n > 0 {
      IdsAppend(a, b, n - 1);
      assert (a + b)[n - 1] == if n <= |a| then a[n - 1] else b[n - 1 - |a|];
    }
  }

  lemma KidsAppend(a: seq<Kid>, b: seq<Kid>)
    ensures Flatten(Branch(a + b)) == Flatten(Branch(a)) + Flatten(Branch(b))
    ensures Ids(Branch(a + b)) == Ids(Branch(a)) + Ids(Branch(b))
  {
    LeavesAppend(a, b, |a + b|);
    IdsAppend(a, b, |a + b|);
    ConcatAppend(Leaves(Branch(a)), Leaves(Branch(b)));
  }

  lemma KidsOne(kid: Kid)
    ensures Flatten(Branch([kid])) == Flatten(kid.tree)
    ensures Ids(Branch([kid])) == multiset{kid.id} + Ids(kid.tree)
  {
    var t := Branch([kid]);
    assert LeavesUpto(t, 1) == LeavesUpto(t, 0) + Leaves(kid.tree) == Leaves(kid.tree);
    assert IdsUpto(t, 1) == IdsUpto(t, 0) + multiset{kid.id} + Ids(kid.tree);
  }

  lemma KidsAround(a: seq<Kid>, kid: Kid, b: seq<Kid>)
    ensures Flatten(Branch(a + [kid] + b)) == Flatten(Branch(a)) + Flatten(kid.tree) + Flatten(Branch(b))
    ensures Ids(Branch(a + [kid] + b)) == Ids(Branch(a)) + (multiset{kid.id} + Ids(kid.tree)) + Ids(Branch(b))
  {
    KidsAppend(a + [kid], b);
    KidsAppend(a, [kid]);
    KidsOne(kid);
  }

  ghost predicate SameKind(a: Tree, b: Tree) {
    a.Leaf? <==> b.Leaf?
  }

  lemma JoinedKeeps(a: Tree, b: Tree)
    requires SameKind(a, b)
    ensures Flatten(Joined(a, b)) == Flatten(a) + Flatten(b)
    ensures Ids(Joined(a, b)) == Ids(a) + Ids(b)
  {
    if a.Leaf? {
      LeafFlat(a);
      LeafFlat(b);
      LeafFlat(Joined(a, b));
    } else {
      KidsAppend(a.kids, b.kids);
    }
  }

  lemma LeafFlat(t: Tree)
    requires t.Leaf?
    ensures Flatten(t) == t.entries
  {
    assert Leaves(t)[..0] == [];
    assert Concat(Leaves(t)) == Concat([]) + t.entries;
  }

  lemma NoEntries(t: Tree)
    requires Entries(t) == 0
    ensures Flatten(t) == [] && Ids(t) == multiset{}
  {
    if t.Leaf? {
      LeafFlat(t);
    } else {
      assert LeavesUpto(t, 0) == [] && IdsUpto(t, 0) == multiset{};
    }
  }

  // ----- One parent's step -----

  /** Entries in order, and page ids with the freed ones, are those of the child the verdict is about. */
  ghost predicate Conserves(t: Tree, v: Verdict) {
    !v.Failed? ==> Flatten(v.t) == Flatten(t) && Ids(v.t) + multiset(v.freed) == Ids(t)
  }

  lemma SettleConserves(kids: seq<Kid>, i: nat, v: Verdict, cached: set<nat>)
    requires i < |kids| && Conserves(kids[i].tree, v)
    requires !v.Failed? && i > 0 ==> SameKind(kids[i - 1].tree, v.t)
    ensures Conserves(Branch(kids), Settle(kids, i, v, cached))
  {
    hide Flatten, Ids, NodeSize, Joined;
    if v.Keep? {
      KeepConserves(kids, i, v);
    } else if v.Short? && Entries(v.t) == 0 {
      RemoveConserves(kids, i, v);
    } else if v.Short? && i > 0 {
      MergeConserves(kids, i, v);
    }
  }

  lemma KeepConserves(kids: seq<Kid>, i: nat, v: Verdict)
    requires i < |kids| && v.Keep? && Conserves(kids[i].tree, v)
    ensures Flatten(Branch(kids[i := WithTree(kids[i], v.t)])) == Flatten(Branch(kids))
    ensures Ids(Branch(kids[i := WithTree(kids[i], v.t)])) + multiset(v.freed) == Ids(Branch(kids))
  {
    hide Flatten, Ids;
    var a, b := kids[..i], kids[i + 1..];
    assert kids == a + [kids[i]] + b;
    assert kids[i := WithTree(kids[i], v.t)] == a + [WithTree(kids[i], v.t)] + b;
    KidsAround(a, kids[i], b);
    KidsAround(a, WithTree(kids[i], v.t), b);
  }

  lemma RemoveConserves(kids: seq<Kid>, i: nat, v: Verdict)
    requires i < |kids| && v.Short? && Entries(v.t) == 0 && Conserves(kids[i].tree, v)
    ensures Flatten(Branch(Without(kids, i))) == Flatten(Branch(kids))
    ensures Ids(Branch(Without(kids, i))) + multiset(v.freed + [kids[i].id]) == Ids(Branch(kids))
  {
    NoEntries(v.t);
    hide Flatten, Ids;
    var a, b := kids[..i], kids[i + 1..];
    assert kids == a + [kids[i]] + b;
    KidsAround(a, kids[i], b);
    KidsAppend(a, b);
  }

  lemma MergeConserves(kids: seq<Kid>, i: nat, v: Verdict)
    requires 0 < i < |kids| && v.Short? && Conserves(kids[i].tree, v) && SameKind(kids[i - 1].tree, v.t)
    ensures Flatten(Branch(MergedLeft(kids, i, v.t))) == Flatten(Branch(kids))
    ensures Ids(Branch(MergedLeft(kids, i, v.t))) + multiset(v.freed + [kids[i].id]) == Ids(Branch(kids))
  {
    hide Flatten, Ids, Joined;
    var a, left, b := kids[..i - 1], kids[i - 1], kids[i + 1..];
    assert kids == a + [left] + ([kids[i]] + b);
    KidsAround(a, left, [kids[i]] + b);
    KidsAppend([kids[i]], b);
    KidsOne(kids[i]);
    JoinedKeeps(left.tree, v.t);
    KidsAround(a, WithTree(left, Joined(left.tree, v.t)), b);
  }

  lemma SettleUniform(kids: seq<Kid>, i: nat, v: Verdict, cached: set<nat>, depth: nat)
    requires i < |kids| && Uniform(Branch(kids), depth + 1) && (!v.Failed? ==> Uniform(v.t, depth))
    ensures var r := Settle(kids, i, v, cached); !r.Failed? ==> Uniform(r.t, depth + 1)
  {
    if v.Short? && Entries(v.t) != 0 && i > 0 {
      assert Uniform(Joined(kids[i - 1].tree, v.t), depth);
    }
  }

  // ----- The separator invariant -----

  /** Joining neighbours at the separator between them. */
  lemma JoinedTidy(a: Tree, b: Tree, lo: Bound, mid: Bytes, hi: Bound)
    requires SameKind(a, b) && Tidy(a, lo, At(mid)) && Tidy(b, At(mid), hi)
    requires (lo.At? ==> !Less(mid, lo.key)) && (hi.At? ==> !Less(hi.key, mid))
    ensures Tidy(Joined(a, b), lo, hi)
  {
    BoundItself(lo);
    BoundItself(hi);
    if a.Leaf? {
      LeavesJoinTidy(a.entries, b.entries, lo, mid, hi);
    } else {
      KidsJoinTidy(a.kids, b.kids, lo, mid, hi);
    }
  }

  lemma LeavesJoinTidy(a: seq<Entry>, b: seq<Entry>, lo: Bound, mid: Bytes, hi: Bound)
    requires Tidy(Leaf(a), lo, At(mid)) && Tidy(Leaf(b), At(mid), hi)
    requires Wider(lo, At(mid), lo, hi) && Wider(At(mid), hi, lo, hi)
    ensures Tidy(Leaf(a + b), lo, hi)
  {
    var all := a + b;
    forall i | 0 <= i < |all| ensures Within(all[i].key, lo, hi) {
      if i < |a| {
        WithinWider(a[i].key, lo, At(mid), lo, hi);
      } else {
        WithinWider(b[i - |a|].key, At(mid), hi, lo, hi);
      }
    }
    forall i, j | 0 <= i < j < |all| ensures Less(KeysOf(all)[i], KeysOf(all)[j]) {
      if j < |a| {
        assert KeysOf(a)[i] == KeysOf(all)[i] && KeysOf(a)[j] == KeysOf(all)[j];
      } else if i >= |a| {
        assert KeysOf(b)[i - |a|] == KeysOf(all)[i] && KeysOf(b)[j - |a|] == KeysOf(all)[j];
      } else {
        LessAcross(a[i].key, mid, b[j - |a|].key);
      }
    }
  }

  lemma SeparatorsJoin(a: seq<Kid>, b: seq<Kid>, lo: Bound, mid: Bytes, hi: Bound)
    requires Ascending(Separators(Branch(a))) && Ascending(Separators(Branch(b)))
    requires forall i :: 0 <= i < |a| ==> Within(a[i].key, lo, At(mid))
    requires forall i :: 0 <= i < |b| ==> Within(b[i].key, At(mid), hi)
    requires Wider(lo, At(mid), lo, hi) && Wider(At(mid), hi, lo, hi)
    ensures Ascending(Separators(Branch(a + b)))
    ensures forall i :: 0 <= i < |a + b| ==> Within((a + b)[i].key, lo, hi)
  {
    var all := a + b;
    forall i | 0 <= i < |all| ensures Within(all[i].key, lo, hi) {
      if i < |a| {
        WithinWider(a[i].key, lo, At(mid), lo, hi);
      } else {
        WithinWider(b[i - |a|].key, At(mid), hi, lo, hi);
      }
    }
    var keys, low, high := Separators(Branch(all)), Separators(Branch(a)), Separators(Branch(b));
    forall i, j | 0 <= i < j < |all| ensures Less(keys[i], keys[j]) {
      if j < |a| {
        assert low[i] == keys[i] && low[j] == keys[j];
      } else if i >= |a| {
        assert high[i - |a|] == keys[i] && high[j - |a|] == keys[j];
      } else {
        LessAcross(a[i].key, mid, b[j - |a|].key);
      }
    }
  }

  lemma LeftJoinTidy(a: seq<Kid>, b: seq<Kid>, i: nat, lo: Bound, mid: Bytes, hi: Bound)
    requires Tidy(Branch(a), lo, At(mid)) && i < |a| && (b != [] ==> !Less(b[0].key, mid))
    requires Wider(lo, At(mid), lo, hi)
    ensures Tidy(a[i].tree, OwnLow(a + b, i, lo), KidHigh(Branch(a + b), i, hi))
  {
    var high := KidHigh(Branch(a), i, At(mid));
    assert Tidy(a[i].tree, OwnLow(a, i, lo), high);
    hide Tidy, Less;
    assert (a + b)[i] == a[i] && (i + 1 < |a| ==> (a + b)[i + 1] == a[i + 1]);
    assert b != [] ==> (a + b)[|a|] == b[0];
    BoundItself(high);
    BoundItself(OwnLow(a, i, lo));
    TidyWiden(a[i].tree, OwnLow(a, i, lo), high, OwnLow(a + b, i, lo), KidHigh(Branch(a + b), i, hi));
  }

  lemma RightJoinTidy(a: seq<Kid>, b: seq<Kid>, i: nat, lo: Bound, mid: Bytes, hi: Bound)
    requires Tidy(Branch(b), At(mid), hi) && i < |b|
    ensures (a + b)[|a| + i] == b[i]
    ensures Tidy(b[i].tree, OwnLow(a + b, |a| + i, lo), KidHigh(Branch(a + b), |a| + i, hi))
  {
    var low, high := OwnLow(b, i, At(mid)), KidHigh(Branch(b), i, hi);
    assert Tidy(b[i].tree, low, high);
    hide Tidy, Less;
    assert (a + b)[|a| + i] == b[i] && (i + 1 < |b| ==> (a + b)[|a| + i + 1] == b[i + 1]);
    BoundItself(high);
    BoundItself(low);
    TidyWiden(b[i].tree, low, high, OwnLow(a + b, |a| + i, lo), KidHigh(Branch(a + b), |a| + i, hi));
  }

  lemma KidsJoinTidy(a: seq<Kid>, b: seq<Kid>, lo: Bound, mid: Bytes, hi: Bound)
    requires Tidy(Branch(a), lo, At(mid)) && Tidy(Branch(b), At(mid), hi)
    requires Wider(lo, At(mid), lo, hi) && Wider(At(mid), hi, lo, hi)
    ensures Tidy(Branch(a + b), lo, hi)
  {
    hide Tidy, OwnLow, KidHigh, Less, Within, Wider;
    var all := a + b;
    TidyParts(a, lo, At(mid));
    TidyParts(b, At(mid), hi);
    TidyParts(all, lo, hi);
    SeparatorsJoin(a, b, lo, mid, hi);
    FirstNotBelow(b, mid, hi);
    forall i | 0 <= i < |all| ensures Tidy(all[i].tree, OwnLow(all, i, lo), KidHigh(Branch(all), i, hi)) {
      if i < |a| {
        LeftJoinTidy(a, b, i, lo, mid, hi);
      } else {
        RightJoinTidy(a, b, i - |a|, lo, mid, hi);
      }
    }
  }

  lemma FirstNotBelow(b: seq<Kid>, mid: Bytes, hi: Bound)
    requires forall i :: 0 <= i < |b| ==> Within(b[i].key, At(mid), hi)
    ensures b != [] ==> !Less(b[0].key, mid)
  {
  }

  lemma TidyParts(kids: seq<Kid>, lo: Bound, hi: Bound)
    ensures Tidy(Branch(kids), lo, hi) <==>
            && Ascending(Separators(Branch(kids)))
            && (forall i :: 0 <= i < |kids| ==> Within(kids[i].key, lo, hi))
            && (forall i :: 0 <= i < |kids| ==> Tidy(kids[i].tree, OwnLow(kids, i, lo), KidHigh(Branch(kids), i, hi)))
  {
  }

  lemma ReplaceTidy(kids: seq<Kid>, i: nat, t: Tree, lo: Bound, hi: Bound)
    requires i < |kids| && Tidy(Branch(kids), lo, hi)
    requires Tidy(t, OwnLow(kids, i, lo), KidHigh(Branch(kids), i, hi))
    ensures Tidy(Branch(kids[i := WithTree(kids[i], t)]), lo, hi)
  {
    var all := kids[i := WithTree(kids[i], t)];
    assert Separators(Branch(all)) == Separators(Branch(kids));
    forall j | 0 <= j < |all| ensures Tidy(all[j].tree, OwnLow(all, j, lo), KidHigh(Branch(all), j, hi)) {
      assert OwnLow(all, j, lo) == OwnLow(kids, j, lo) && KidHigh(Branch(all), j, hi) == KidHigh(Branch(kids), j, hi);
    }
  }

  lemma SeparatorBelow(kids: seq<Kid>, i: nat, lo: Bound, hi: Bound)
    requires i < |kids| && Tidy(Branch(kids), lo, hi)
    ensures var high := KidHigh(Branch(kids), i, hi);
            (high.At? ==> !Less(high.key, kids[i].key)) && (i > 0 ==> !Less(kids[i].key, kids[i - 1].key))
  {
    var keys := Separators(Branch(kids));
    if i + 1 < |kids| {
      assert Less(keys[i], keys[i + 1]);
      LessTrichotomy(keys[i], keys[i + 1]);
    } else if hi.At? {
      LessTrichotomy(kids[i].key, hi.key);
    }
    if i > 0 {
      assert Less(keys[i - 1], keys[i]);
      LessTrichotomy(keys[i - 1], keys[i]);
    }
  }

  lemma RemovedSeparators(kids: seq<Kid>, i: nat)
    requires i < |kids| && Ascending(Separators(Branch(kids)))
    ensures Ascending(Separators(Branch(Without(kids, i))))
  {
    var rest := Without(kids, i);
    var keys, less := Separators(Branch(kids)), Separators(Branch(rest));
    forall j, k | 0 <= j < k < |rest| ensures Less(less[j], less[k]) {
      assert less[j] == keys[if j < i then j else j + 1] && less[k] == keys[if k < i then k else k + 1];
    }
  }

  function Survivor(i: nat, j: nat): nat {
    if j < i then j else j + 1
  }

  lemma RemovedAt(kids: seq<Kid>, i: nat, j: nat)
    requires i < |kids| && j < |kids| - 1
    ensures Without(kids, i)[j] == kids[Survivor(i, j)]
  {
  }

  lemma RemovedLow(kids: seq<Kid>, i: nat, j: nat, lo: Bound)
    requires i < |kids| && j < |kids| - 1
    ensures OwnLow(Without(kids, i), j, lo) == OwnLow(kids, Survivor(i, j), lo) || OwnLow(Without(kids, i), j, lo) == Unbounded
  {
    RemovedAt(kids, i, j);
    hide Without;
  }

  lemma RemovedHigh(kids: seq<Kid>, i: nat, j: nat, hi: Bound)
    requires i < |kids| && j < |kids| - 1
    ensures KidHigh(Branch(Without(kids, i)), j, hi) ==
            if j + 1 == i then KidHigh(Branch(kids), i, hi) else KidHigh(Branch(kids), Survivor(i, j), hi)
  {
    if j + 2 < |kids| {
      RemovedAt(kids, i, j + 1);
    }
    assert |Without(kids, i)| == |kids| - 1;
    hide Without;
  }

  lemma StillWider(lo: Bound, hi: Bound, lo': Bound, hi': Bound)
    requires lo' == lo || lo' == Unbounded
    requires hi' == hi || (hi.At? && (hi'.At? ==> !Less(hi'.key, hi.key)))
    ensures Wider(lo, hi, lo', hi')
  {
    BoundItself(lo);
    BoundItself(hi);
  }

  /** A child that stays has bounds at least as wide as before. */
  lemma RemovedBounds(kids: seq<Kid>, i: nat, j: nat, lo: Bound, hi: Bound)
    requires i < |kids| && j < |kids| - 1 && Tidy(Branch(kids), lo, hi)
    ensures Wider(OwnLow(kids, Survivor(i, j), lo), KidHigh(Branch(kids), Survivor(i, j), hi),
                  OwnLow(Without(kids, i), j, lo), KidHigh(Branch(Without(kids, i)), j, hi))
  {
    SeparatorBelow(kids, i, lo, hi);
    RemovedLow(kids, i, j, lo);
    RemovedHigh(kids, i, j, hi);
    hide Tidy, Less, Without, OwnLow, Wider;
    assert j + 1 == i ==> KidHigh(Branch(kids), Survivor(i, j), hi) == At(kids[i].key);
    hide KidHigh;
    StillWider(OwnLow(kids, Survivor(i, j), lo), KidHigh(Branch(kids), Survivor(i, j), hi),
               OwnLow(Without(kids, i), j, lo), KidHigh(Branch(Without(kids, i)), j, hi));
  }

  lemma RemoveTidy(kids: seq<Kid>, i: nat, lo: Bound, hi: Bound)
    requires i < |kids| && Tidy(Branch(kids), lo, hi)
    ensures Tidy(Branch(Without(kids, i)), lo, hi)
  {
    var rest := Without(kids, i);
    RemovedSeparators(kids, i);
    forall j | 0 <= j < |rest| ensures Tidy(rest[j].tree, OwnLow(rest, j, lo), KidHigh(Branch(rest), j, hi)) {
      var k := Survivor(i, j);
      RemovedAt(kids, i, j);
      RemovedBounds(kids, i, j, lo, hi);
      TidyWiden(kids[k].tree, OwnLow(kids, k, lo), KidHigh(Branch(kids), k, hi), OwnLow(rest, j, lo), KidHigh(Branch(rest), j, hi));
    }
  }

  lemma TidyKid(kids: seq<Kid>, i: nat, lo: Bound, hi: Bound)
    requires i < |kids| && Tidy(Branch(kids), lo, hi)
    ensures Tidy(kids[i].tree, OwnLow(kids, i, lo), KidHigh(Branch(kids), i, hi))
  {
  }

  lemma MergeTidy(kids: seq<Kid>, i: nat, t: Tree, lo: Bound, hi: Bound)
    requires 0 < i < |kids| && Tidy(Branch(kids), lo, hi) && SameKind(kids[i - 1].tree, t)
    requires Tidy(t, OwnLow(kids, i, lo), KidHigh(Branch(kids), i, hi))
    ensures Tidy(Branch(MergedLeft(kids, i, t)), lo, hi)
  {
    hide Tidy, Joined, SameKind, Less;
    var rest := Without(kids, i);
    RemoveTidy(kids, i, lo, hi);
    SeparatorBelow(kids, i, lo, hi);
    SeparatorBelow(kids, i - 1, lo, hi);
    TidyKid(kids, i - 1, lo, hi);
    JoinedTidy(kids[i - 1].tree, t, OwnLow(kids, i - 1, lo), kids[i].key, KidHigh(Branch(kids), i, hi));
    MergedIsReplaced(kids, i, t, lo, hi);
    ReplaceTidy(rest, i - 1, Joined(kids[i - 1].tree, t), lo, hi);
  }

  lemma MergedIsReplaced(kids: seq<Kid>, i: nat, t: Tree, lo: Bound, hi: Bound)
    requires 0 < i < |kids|
    ensures var rest := Without(kids, i);
            && MergedLeft(kids, i, t) == rest[i - 1 := WithTree(rest[i - 1], Joined(kids[i - 1].tree, t))]
            && KidHigh(Branch(rest), i - 1, hi) == KidHigh(Branch(kids), i, hi)
            && OwnLow(rest, i - 1, lo) == OwnLow(kids, i - 1, lo)
  {
  }

  lemma SettleTidy(kids: seq<Kid>, i: nat, v: Verdict, cached: set<nat>, lo: Bound, hi: Bound)
    requires i < |kids| && Tidy(Branch(kids), lo, hi)
    requires !v.Failed? ==> Tidy(v.t, OwnLow(kids, i, lo), KidHigh(Branch(kids), i, hi))
    requires !v.Failed? && i > 0 ==> SameKind(kids[i - 1].tree, v.t)
    ensures var r := Settle(kids, i, v, cached); !r.Failed? ==> Tidy(r.t, lo, hi)
  {
    hide Tidy, Joined, NodeSize;
    if v.Keep? {
      ReplaceTidy(kids, i, v.t, lo, hi);
    } else if v.Short? && Entries(v.t) == 0 {
      RemoveTidy(kids, i, lo, hi);
    } else if v.Short? && i > 0 {
      MergeTidy(kids, i, v.t, lo, hi);
    }
  }

  /** A verdict's tree has no empty branch, unless it is one itself and still has to be removed. */
  ghost predicate Sound(v: Verdict) {
    match v
    case Keep(t, _) => Full(t)
    case Short(t, _) => Full(t) || t == Branch([])
    case Failed(_) => true
  }

  lemma SettleSound(kids: seq<Kid>, i: nat, v: Verdict, cached: set<nat>)
    requires i < |kids| && Full(Branch(kids)) && Sound(v)
    ensures Sound(Settle(kids, i, v, cached))
  {
    if v.Short? && Entries(v.t) != 0 && i > 0 {
      assert Full(kids[i - 1].tree) && Full(Joined(kids[i - 1].tree, v.t));
    }
  }

  // ----- The whole climb -----

  lemma KidOf(t: Tree, i: nat, depth: nat, lo: Bound, hi: Bound)
    requires t.Branch? && i < |t.kids| && Full(t) && Uniform(t, depth) && Tidy(t, lo, hi)
    ensures var kid := t.kids[i].tree;
            depth > 0 && Full(kid) && Uniform(kid, depth - 1) && Tidy(kid, OwnLow(t.kids, i, lo), KidHigh(t, i, hi))
    ensures i > 0 ==> Uniform(t.kids[i - 1].tree, depth - 1)
  {
  }

  lemma UniformKind(a: Tree, b: Tree, depth: nat)
    requires Uniform(a, depth) && Uniform(b, depth)
    ensures SameKind(a, b)
  {
  }

  lemma SettleFreed(kids: seq<Kid>, i: nat, v: Verdict, cached: set<nat>)
    requires i < |kids|
    ensures var r := Settle(kids, i, v, cached); !r.Failed? ==> !v.Failed? && |r.freed| <= |v.freed| + 1
  {
  }

  /** What a climb owes its caller about the node `t` it went through. */
  ghost predicate Kept(t: Tree, v: Verdict, depth: nat, lo: Bound, hi: Bound, steps: nat) {
    && Conserves(t, v) && Sound(v)
    && (!v.Failed? ==> Uniform(v.t, depth) && Tidy(v.t, lo, hi) && |v.freed| <= steps)
  }

  lemma SettleKeeps(t: Tree, i: nat, v: Verdict, cached: set<nat>, depth: nat, lo: Bound, hi: Bound, steps: nat)
    requires t.Branch? && i < |t.kids| && depth > 0 && Full(t) && Uniform(t, depth) && Tidy(t, lo, hi)
    requires Kept(t.kids[i].tree, v, depth - 1, OwnLow(t.kids, i, lo), KidHigh(t, i, hi), steps)
    ensures Kept(t, Settle(t.kids, i, v, cached), depth, lo, hi, steps + 1)
  {
    KidOf(t, i, depth, lo, hi);
    hide Tidy, Full, Uniform, Conserves, Sound, Settle, SameKind, OwnLow, KidHigh;
    if i > 0 && !v.Failed? {
      UniformKind(t.kids[i - 1].tree, v.t, depth - 1);
    }
    SettleFreed(t.kids, i, v, cached);
    SettleConserves(t.kids, i, v, cached);
    SettleUniform(t.kids, i, v, cached, depth - 1);
    SettleTidy(t.kids, i, v, cached, lo, hi);
    SettleSound(t.kids, i, v, cached);
  }

  lemma CheckKeeps(t: Tree, depth: nat, lo: Bound, hi: Bound)
    requires Full(t) && Uniform(t, depth) && Tidy(t, lo, hi)
    ensures Kept(t, Check(t, []), depth, lo, hi, 0)
  {
    hide Full, Uniform, Tidy, Flatten, Ids, NodeSize;
  }

  /** The climb keeps the entries, the uniform depth and the separator invariant; page ids are those there were
      less the freed ones, at most one a level; and only a root can end up without children. */
  lemma {:induction false} ClimbKeeps(t: Tree, path: seq<nat>, cached: set<nat>, depth: nat, lo: Bound, hi: Bound)
    requires IsPath(t, path) && Full(t) && Uniform(t, depth) && Tidy(t, lo, hi)
    ensures Kept(t, Climb(t, path, cached), depth, lo, hi, |path|)
    decreases path
  {
    hide Tidy, Full, Uniform, Kept, Settle, OwnLow, KidHigh, Check;
    if path == [] {
      CheckKeeps(t, depth, lo, hi);
    } else {
      var i := path[0];
      KidOf(t, i, depth, lo, hi);
      ClimbKeeps(t.kids[i].tree, path[1..], cached, depth - 1, OwnLow(t.kids, i, lo), KidHigh(t, i, hi));
      SettleKeeps(t, i, Climb(t.kids[i].tree, path[1..], cached), cached, depth, lo, hi, |path| - 1);
    }
  }

  lemma {:induction false} UniformUnique(t: Tree, depth: nat, depth': nat)
    requires Full(t) && Uniform(t, depth) && Uniform(t, depth')
    ensures depth == depth'
    decreases t
  {
    if t.Branch? {
      UniformUnique(t.kids[0].tree, depth - 1, depth' - 1);
    }
  }

  /** A node without a parent link takes the root's turn wherever it is in the tree. Then a leaf stays as it is, empty
      or not, and a branch keeps its entries, but no longer its depth exactly when it takes its only child's inodes. */
  lemma OrphanTurn(t: Tree, cached: set<nat>, depth: nat)
    requires Full(t) && Uniform(t, depth)
    ensures var v := RootTurn(Check(t, []), cached);
            && !v.Short? && Conserves(t, v)
            && (t.Leaf? ==> v == Keep(t, []))
            && (v.Keep? ==> (Uniform(v.t, depth) <==> !(t.Branch? && |t.kids| == 1)))
  {
    hide Flatten, Ids, NodeSize;
    if t.Branch? && |t.kids| == 1 {
      var kid := t.kids[0];
      assert t == Branch([kid]) && Full(kid.tree) && Uniform(kid.tree, depth - 1);
      KidsOne(kid);
      if Uniform(kid.tree, depth) {
        UniformUnique(kid.tree, depth, depth - 1);
      }
    }
  }

  /** A climb that passes the root freed a page at every level. */
  lemma {:induction false} ShortFreed(t: Tree, path: seq<nat>, cached: set<nat>)
    requires IsPath(t, path)
    ensures Climb(t, path, cached).Short? ==> |Climb(t, path, cached).freed| == |path|
    decreases path
  {
    hide NodeSize;
    if path != [] {
      ShortFreed(t.kids[path[0]].tree, path[1..], cached);
    }
  }

  lemma CollapseKeeps(kid: Kid, depth: nat)
    requires Full(Branch([kid])) && Uniform(Branch([kid]), depth) && Tidy(Branch([kid]), Unbounded, Unbounded)
    ensures depth > 0 && Full(kid.tree) && Uniform(kid.tree, depth - 1) && Tidy(kid.tree, Unbounded, Unbounded)
    ensures Flatten(Branch([kid])) == Flatten(kid.tree)
    ensures Ids(Branch([kid])) == multiset{kid.id} + Ids(kid.tree)
  {
    var t := Branch([kid]);
    assert t.kids[0] == kid && OwnLow(t.kids, 0, Unbounded) == Unbounded && KidHigh(t, 0, Unbounded) == Unbounded;
    KidsOne(kid);
  }

  lemma EmptyBranch()
    ensures Flatten(Branch([])) == []
  {
    assert LeavesUpto(Branch([]), 0) == [];
  }

  /** Nowhere on the path is enough, and the root is left with one child. */
  ghost predicate Collapses(t: Tree, path: seq<nat>, cached: set<nat>)
    requires IsPath(t, path)
  {
    var v := Climb(t, path, cached);
    v.Short? && v.t.Branch? && |v.t.kids| == 1
  }

  /** Rebalancing that does not fail keeps the entries in order, a uniform depth and the order searches need; page ids
      are the old ones less the freed, at most one a level and one for the root. No branch is left empty, except the
      root of a tree without entries. */
  lemma RebalancedKeeps(t: Tree, path: seq<nat>, cached: set<nat>, depth: nat)
    requires IsPath(t, path) && Full(t) && Uniform(t, depth) && Tidy(t, Unbounded, Unbounded)
    ensures var v := Rebalanced(t, path, cached);
            && Conserves(t, v) && !v.Short?
            && (v.Keep? ==>
                  && (Uniform(v.t, depth) || (depth > 0 && Uniform(v.t, depth - 1)))
                  && (Collapses(t, path, cached) ==> depth > 0 && Uniform(v.t, depth - 1) && |v.freed| == |path| + 1)
                  && (!Collapses(t, path, cached) ==> Uniform(v.t, depth) && |v.freed| <= |path|)
                  && Tidy(v.t, Unbounded, Unbounded) && Ordered(v.t, Unbounded, Unbounded)
                  && |v.freed| <= |path| + 1 && (Full(v.t) || Flatten(t) == []))
  {
    hide Flatten, Ids, Climb, Uniform, Tidy, Ordered, Full, IsPath;
    ClimbKeeps(t, path, cached, depth, Unbounded, Unbounded);
    ShortFreed(t, path, cached);
    EmptyBranch();
    var v := Climb(t, path, cached);
    if v.Short? && v.t.Branch? && |v.t.kids| == 1 {
      assert v.t == Branch([v.t.kids[0]]);
      CollapseKeeps(v.t.kids[0], depth);
    }
    var r := Rebalanced(t, path, cached);
    if r.Keep? {
      TidyOrdered(r.t, Unbounded, Unbounded);
    }
  }

  ghost function NodeAt(t: Tree, path: seq<nat>, k: nat): (node: Tree)
    requires IsPath(t, path) && k <= |path|
    ensures IsPath(node, path[k..])
    ensures k < |path| ==> node.Branch? && path[k] < |node.kids|
    decreases k
  {
    if k == 0 then (assert path[0..] == path; t)
    else (assert path[1..][k - 1..] == path[k..]; NodeAt(t.kids[path[0]].tree, path[1..], k - 1))
  }

  /** The node below level `k` of the path is still too small, has keys, and is its parent's first child or right of
      one that is not cached. */
  ghost predicate Stuck(t: Tree, path: seq<nat>, cached: set<nat>, k: nat)
    requires IsPath(t, path) && k < |path|
  {
    var v := Climb(NodeAt(t, path, k + 1), path[k + 1..], cached);
    v.Short? && Entries(v.t) != 0 && (path[k] == 0 || NodeAt(t, path, k).kids[path[k] - 1].id !in cached)
  }

  lemma StuckBelow(t: Tree, path: seq<nat>, cached: set<nat>, k: nat)
    requires IsPath(t, path) && k + 1 < |path|
    ensures Stuck(t, path, cached, k + 1) <==> Stuck(t.kids[path[0]].tree, path[1..], cached, k)
  {
    hide Climb, Settle, Check;
    assert path[1..][k + 1..] == path[k + 2..] && path[1..][k] == path[k + 1];
  }

  lemma {:induction false} ClimbFailsIffStuck(t: Tree, path: seq<nat>, cached: set<nat>)
    requires IsPath(t, path)
    ensures Climb(t, path, cached).Failed? <==> exists k: nat :: k < |path| && Stuck(t, path, cached, k)
    decreases path
  {
    if path != [] {
      var kid, rest := t.kids[path[0]].tree, path[1..];
      ClimbFailsIffStuck(kid, rest, cached);
      assert NodeAt(t, path, 1) == NodeAt(kid, rest, 0) == kid && NodeAt(t, path, 0) == t;
      if Climb(kid, rest, cached).Failed? {
        var k: nat :| k < |rest| && Stuck(kid, rest, cached, k);
        StuckBelow(t, path, cached, k);
      } else if Climb(t, path, cached).Failed? {
        assert Stuck(t, path, cached, 0);
      } else {
        forall k: nat | k < |path| ensures !Stuck(t, path, cached, k) {
          if k > 0 {
            StuckBelow(t, path, cached, k - 1);
          }
        }
      }
    }
  }

  /** The climb leaves the root with a single child whose inodes, or which itself, have no cached nodes. */
  ghost predicate RootStuck(t: Tree, path: seq<nat>, cached: set<nat>)
    requires IsPath(t, path)
  {
    var v := Climb(t, path, cached);
    && v.Short? && v.t.Branch? && |v.t.kids| == 1
    && (v.t.kids[0].id !in cached || exists p :: p in InodeIds(v.t.kids[0].tree) && p !in cached)
  }

  /** Rebalancing fails exactly when it has to merge a child that has no cached left sibling, or to collapse a root
      into a child that is not cached itself or whose inodes are not. */
  lemma RebalancingFailsIff(t: Tree, path: seq<nat>, cached: set<nat>)
    requires IsPath(t, path)
    ensures Rebalanced(t, path, cached).Failed? <==>
            (exists k: nat :: k < |path| && Stuck(t, path, cached, k)) || RootStuck(t, path, cached)
  {
    ClimbFailsIffStuck(t, path, cached);
  }

  /** Whatever its two leaves hold: when the second is short and merged, the collapse of the root fails. */
  lemma TwoLeafRootFails(a: Kid, b: Kid, cached: set<nat>)
    requires a.tree.Leaf? && b.tree.Leaf? && b.tree.entries != [] && Check(b.tree, []).Short?
    requires a.id in cached && 0 !in cached
    ensures IsPath(Branch([a, b]), [1])
    ensures Climb(Branch([a, b]), [1], cached) == Short(Branch([WithTree(a, Joined(a.tree, b.tree))]), [b.id])
    ensures Rebalanced(Branch([a, b]), [1], cached) == Failed(UncachedNode)
  {
    var t := Branch([a, b]);
    assert [1][1..] == [] && IsPath(t, [1]);
    assert Climb(b.tree, [], cached) == Short(b.tree, []);
    assert MergedLeft([a, b], 1, b.tree) == [WithTree(a, Joined(a.tree, b.tree))];
    assert [] + [b.id] == [b.id];
    var merged := Branch([WithTree(a, Joined(a.tree, b.tree))]);
    assert Climb(t, [1], cached) == Settle(t.kids, 1, Short(b.tree, []), cached);
    assert Climb(t, [1], cached) == Short(merged, [b.id]);
    assert 0 in InodeIds(merged.kids[0].tree);
  }

  /** So it does when the second leaf became empty and is removed. */
  lemma EmptiedLeafRootFails(a: Kid, b: Kid, cached: set<nat>)
    requires a.tree.Leaf? && a.tree.entries != [] && b.tree == Leaf([]) && 0 !in cached
    ensures IsPath(Branch([a, b]), [1])
    ensures Rebalanced(Branch([a, b]), [1], cached) == Failed(UncachedNode)
  {
    var t := Branch([a, b]);
    assert [1][1..] == [] && IsPath(t, [1]);
    assert Climb(b.tree, [], cached) == Short(b.tree, []);
    assert Without([a, b], 1) == [a];
    assert Climb(t, [1], cached) == Settle(t.kids, 1, Short(b.tree, []), cached);
    assert Climb(t, [1], cached) == Short(Branch([a]), [] + [b.id]);
    assert 0 in InodeIds(a.tree);
  }
}
