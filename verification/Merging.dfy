/** When two ordered branches next to each other merge into an ordered one. */
module Merging {
  import opened Keys
  import opened Trees
  import opened Rebalance

  /** Along the right edge of `t`, the last separators and the last key are below `key`. */
  ghost predicate RightEdgeBelow(t: Tree, key: Bytes)
    decreases t
  {
    match t
    case Leaf(entries) => entries == [] || Less(entries[|entries| - 1].key, key)
    case Branch(kids) =>
      && (|kids| > 1 ==> Less(kids[|kids| - 1].key, key))
      && (kids != [] ==> RightEdgeBelow(kids[|kids| - 1].tree, key))
  }

  /** Along the left edge of `t`, the second separators and the first key are not below `key`. */
  ghost predicate LeftEdgeFrom(t: Tree, key: Bytes)
    decreases t
  {
    match t
    case Leaf(entries) => entries == [] || !Less(entries[0].key, key)
    case Branch(kids) =>
      && (|kids| > 1 ==> !Less(kids[1].key, key))
      && (kids != [] ==> LeftEdgeFrom(kids[0].tree, key))
  }

  lemma LastBelow(keys: seq<Bytes>, key: Bytes, i: nat)
    requires Ascending(keys) && i < |keys| && Less(keys[|keys| - 1], key)
    ensures Less(keys[i], key)
  {
    if i < |keys| - 1 {
      LessTransitive(keys[i], keys[|keys| - 1], key);
    }
  }

  lemma FirstFrom(keys: seq<Bytes>, key: Bytes, j: nat, i: nat)
    requires Ascending(keys) && j <= i < |keys| && !Less(keys[j], key)
    ensures !Less(keys[i], key)
  {
    if j < i && Less(keys[i], key) {
      LessTransitive(keys[j], keys[i], key);
    }
  }

  lemma WithinHigh(key: Bytes, lo: Bound, mid: Bytes, high: Bytes)
    requires Within(key, lo, At(mid))
    ensures Within(key, lo, At(high)) <==> Less(key, high)
  {
  }

  lemma WithinLow(key: Bytes, mid: Bytes, low: Bytes, hi: Bound)
    requires Within(key, At(mid), hi)
    ensures Within(key, At(low), hi) <==> !Less(key, low)
  {
  }

  /** An upper bound can be moved exactly as far as the right edge allows. */
  lemma {:induction false} RightEdgeIff(t: Tree, lo: Bound, mid: Bytes, high: Bytes)
    requires Ordered(t, lo, At(mid))
    ensures Ordered(t, lo, At(high)) <==> RightEdgeBelow(t, high)
    decreases t
  {
    match t
    case Leaf(entries) => RightLeafIff(entries, lo, mid, high);
    case Branch(kids) =>
      if kids != [] {
        var last := |kids| - 1;
        OrderedKid(t, last, lo, At(mid));
        RightEdgeIff(kids[last].tree, KidLow(t, last, lo), mid, high);
        RightKidsIff(kids, lo, mid, high);
      }
  }

  lemma RightLeafIff(entries: seq<Entry>, lo: Bound, mid: Bytes, high: Bytes)
    requires Ordered(Leaf(entries), lo, At(mid))
    ensures Ordered(Leaf(entries), lo, At(high)) <==> RightEdgeBelow(Leaf(entries), high)
  {
    hide Less;
    var keys := KeysOf(entries);
    forall i | 0 <= i < |entries| ensures Within(entries[i].key, lo, At(high)) <==> Less(keys[i], high) {
      WithinHigh(entries[i].key, lo, mid, high);
    }
    if entries != [] && Less(keys[|keys| - 1], high) {
      forall i | 0 <= i < |entries| ensures Less(keys[i], high) {
        LastBelow(keys, high, i);
      }
    }
  }

  lemma OrderedKid(t: Tree, i: nat, lo: Bound, hi: Bound)
    requires t.Branch? && i < |t.kids| && Ordered(t, lo, hi)
    ensures Ordered(t.kids[i].tree, KidLow(t, i, lo), KidHigh(t, i, hi))
  {
  }

  lemma OrderedParts(kids: seq<Kid>, lo: Bound, hi: Bound)
    ensures Ordered(Branch(kids), lo, hi) <==>
            && Ascending(Separators(Branch(kids)))
            && (forall i :: 1 <= i < |kids| ==> Within(kids[i].key, lo, hi))
            && KidsOrdered(kids, lo, hi)
  {
  }

  lemma RightKidOnly(kids: seq<Kid>, lo: Bound, mid: Bytes, high: Bytes)
    requires kids != [] && KidsOrdered(kids, lo, At(mid))
    ensures KidsOrdered(kids, lo, At(high)) <==>
            Ordered(kids[|kids| - 1].tree, KidLow(Branch(kids), |kids| - 1, lo), At(high))
  {
    hide Ordered, KidLow;
    var t, last := Branch(kids), |kids| - 1;
    if KidsOrdered(kids, lo, At(high)) {
      assert Ordered(kids[last].tree, KidLow(t, last, lo), KidHigh(t, last, At(high)));
    }
    forall i | 0 <= i < last ensures Ordered(kids[i].tree, KidLow(t, i, lo), KidHigh(t, i, At(high))) {
      assert Ordered(kids[i].tree, KidLow(t, i, lo), KidHigh(t, i, At(mid)));
    }
  }

  lemma LeftKidOnly(kids: seq<Kid>, mid: Bytes, low: Bytes, hi: Bound)
    requires kids != [] && KidsOrdered(kids, At(mid), hi)
    ensures KidsOrdered(kids, At(low), hi) <==> Ordered(kids[0].tree, At(low), KidHigh(Branch(kids), 0, hi))
  {
    hide Ordered, KidHigh;
    var t := Branch(kids);
    if KidsOrdered(kids, At(low), hi) {
      assert Ordered(kids[0].tree, KidLow(t, 0, At(low)), KidHigh(t, 0, hi));
    }
    forall i | 1 <= i < |kids| ensures Ordered(kids[i].tree, KidLow(t, i, At(low)), KidHigh(t, i, hi)) {
      assert Ordered(kids[i].tree, KidLow(t, i, At(mid)), KidHigh(t, i, hi));
    }
  }

  lemma RightKidsIff(kids: seq<Kid>, lo: Bound, mid: Bytes, high: Bytes)
    requires kids != [] && Ordered(Branch(kids), lo, At(mid))
    requires var last, t := |kids| - 1, kids[|kids| - 1].tree;
             Ordered(t, KidLow(Branch(kids), last, lo), At(high)) <==> RightEdgeBelow(t, high)
    ensures Ordered(Branch(kids), lo, At(high)) <==> RightEdgeBelow(Branch(kids), high)
  {
    hide Ordered, Less, KidsOrdered, KidLow, KidHigh, Within;
    OrderedParts(kids, lo, At(mid));
    OrderedParts(kids, lo, At(high));
    RightKidOnly(kids, lo, mid, high);
    var keys, last := Separators(Branch(kids)), |kids| - 1;
    forall i | 1 <= i < |kids| ensures Within(kids[i].key, lo, At(high)) <==> Less(keys[i], high) {
      WithinHigh(kids[i].key, lo, mid, high);
    }
    if Less(keys[last], high) {
      forall i | 1 <= i < |kids| ensures Less(keys[i], high) {
        LastBelow(keys, high, i);
      }
    }
  }

  /** A lower bound can be moved exactly as far as the left edge allows. */
  lemma {:induction false} LeftEdgeIff(t: Tree, mid: Bytes, low: Bytes, hi: Bound)
    requires Ordered(t, At(mid), hi)
    ensures Ordered(t, At(low), hi) <==> LeftEdgeFrom(t, low)
    decreases t
  {
    match t
    case Leaf(entries) => LeftLeafIff(entries, mid, low, hi);
    case Branch(kids) =>
      if kids != [] {
        OrderedKid(t, 0, At(mid), hi);
        LeftEdgeIff(kids[0].tree, mid, low, KidHigh(t, 0, hi));
        LeftKidsIff(kids, mid, low, hi);
      }
  }

  lemma LeftLeafIff(entries: seq<Entry>, mid: Bytes, low: Bytes, hi: Bound)
    requires Ordered(Leaf(entries), At(mid), hi)
    ensures Ordered(Leaf(entries), At(low), hi) <==> LeftEdgeFrom(Leaf(entries), low)
  {
    hide Less;
    var keys := KeysOf(entries);
    forall i | 0 <= i < |entries| ensures Within(entries[i].key, At(low), hi) <==> !Less(keys[i], low) {
      WithinLow(entries[i].key, mid, low, hi);
    }
    if entries != [] && !Less(keys[0], low) {
      forall i | 0 <= i < |entries| ensures !Less(keys[i], low) {
        FirstFrom(keys, low, 0, i);
      }
    }
  }

  lemma LeftKidsIff(kids: seq<Kid>, mid: Bytes, low: Bytes, hi: Bound)
    requires kids != [] && Ordered(Branch(kids), At(mid), hi)
    requires Ordered(kids[0].tree, At(low), KidHigh(Branch(kids), 0, hi)) <==> LeftEdgeFrom(kids[0].tree, low)
    ensures Ordered(Branch(kids), At(low), hi) <==> LeftEdgeFrom(Branch(kids), low)
  {
    hide Ordered, Less, KidsOrdered, KidLow, KidHigh, Within;
    OrderedParts(kids, At(mid), hi);
    OrderedParts(kids, At(low), hi);
    LeftKidOnly(kids, mid, low, hi);
    var keys := Separators(Branch(kids));
    forall i | 1 <= i < |kids| ensures Within(kids[i].key, At(low), hi) <==> !Less(keys[i], low) {
      WithinLow(kids[i].key, mid, low, hi);
    }
    if |kids| > 1 && !Less(keys[1], low) {
      forall i | 1 <= i < |kids| ensures !Less(keys[i], low) {
        FirstFrom(keys, low, 1, i);
      }
    }
  }

  /** What a merge of neighbouring branches needs beyond the order of both: the right first separator is within bounds
      and above the left last one, the left last child ends below it, and the right first child begins no earlier. */
  ghost predicate Mergeable(a: seq<Kid>, b: seq<Kid>, lo: Bound, hi: Bound)
    requires a != [] && b != []
  {
    var first := b[0].key;
    && Less(a[|a| - 1].key, first) && Within(first, lo, hi)
    && RightEdgeBelow(a[|a| - 1].tree, first) && LeftEdgeFrom(b[0].tree, first)
  }

  lemma MergedKid(a: seq<Kid>, b: seq<Kid>, i: nat, lo: Bound, hi: Bound)
    requires a != [] && b != [] && i < |a + b|
    ensures (a + b)[i] == if i < |a| then a[i] else b[i - |a|]
    ensures KidLow(Branch(a + b), i, lo) ==
            if i < |a| then KidLow(Branch(a), i, lo) else KidLow(Branch(b), i - |a|, At(b[0].key))
    ensures KidHigh(Branch(a + b), i, hi) ==
            if i < |a| then KidHigh(Branch(a), i, At(b[0].key)) else KidHigh(Branch(b), i - |a|, hi)
  {
  }

  lemma MergedSeparators(a: seq<Kid>, b: seq<Kid>)
    requires a != [] && b != []
    ensures Ascending(Separators(Branch(a + b))) <==>
            Ascending(Separators(Branch(a))) && Ascending(Separators(Branch(b))) && Less(a[|a| - 1].key, b[0].key)
  {
    hide Less;
    var keys, low, high := Separators(Branch(a + b)), Separators(Branch(a)), Separators(Branch(b));
    assert forall i :: 0 <= i < |a| ==> keys[i] == low[i];
    assert forall i :: 0 <= i < |b| ==> keys[|a| + i] == high[i];
    if Ascending(keys) {
      assert Less(keys[|a| - 1], keys[|a|]);
    }
    if Ascending(low) && Ascending(high) && Less(a[|a| - 1].key, b[0].key) {
      forall i, j | 0 <= i < j < |keys| ensures Less(keys[i], keys[j]) {
        if i < |a| <= j {
          if i < |a| - 1 {
            LessTransitive(low[i], low[|a| - 1], high[0]);
          }
          if j > |a| {
            LessTransitive(low[i], high[0], high[j - |a|]);
          }
        }
      }
    }
  }

  lemma MergedWithin(a: seq<Kid>, b: seq<Kid>, lo: Bound, mid: Bytes, hi: Bound)
    requires a != [] && b != [] && Within(mid, lo, hi)
    requires forall i :: 1 <= i < |a| ==> Within(a[i].key, lo, At(mid))
    requires forall i :: 1 <= i < |b| ==> Within(b[i].key, At(mid), hi)
    ensures (forall i :: 1 <= i < |a + b| ==> Within((a + b)[i].key, lo, hi)) <==> Within(b[0].key, lo, hi)
  {
    MidWider(lo, mid, hi);
    var all := a + b;
    assert all[|a|] == b[0];
    forall i | 1 <= i < |all| && i != |a| ensures Within(all[i].key, lo, hi) {
      if i < |a| {
        WithinWider(a[i].key, lo, At(mid), lo, hi);
      } else {
        WithinWider(b[i - |a|].key, At(mid), hi, lo, hi);
      }
    }
  }

  lemma MidWider(lo: Bound, mid: Bytes, hi: Bound)
    requires Within(mid, lo, hi)
    ensures Wider(lo, At(mid), lo, hi) && Wider(At(mid), hi, lo, hi)
  {
    BoundItself(lo);
    BoundItself(hi);
    if hi.At? {
      LessTrichotomy(mid, hi.key);
    }
  }

  ghost predicate KidsOrdered(kids: seq<Kid>, lo: Bound, hi: Bound) {
    forall i :: 0 <= i < |kids| ==> Ordered(kids[i].tree, KidLow(Branch(kids), i, lo), KidHigh(Branch(kids), i, hi))
  }

  lemma MergedKids(a: seq<Kid>, b: seq<Kid>, lo: Bound, mid: Bytes, hi: Bound)
    requires a != [] && b != [] && KidsOrdered(a, lo, At(mid)) && KidsOrdered(b, At(mid), hi)
    ensures KidsOrdered(a + b, lo, hi) <==>
            && Ordered(a[|a| - 1].tree, KidLow(Branch(a), |a| - 1, lo), At(b[0].key))
            && Ordered(b[0].tree, At(b[0].key), KidHigh(Branch(b), 0, hi))
  {
    hide Ordered;
    var all, last := a + b, |a| - 1;
    MergedKid(a, b, last, lo, hi);
    MergedKid(a, b, |a|, lo, hi);
    if KidsOrdered(all, lo, hi) {
      assert Ordered(all[last].tree, KidLow(Branch(all), last, lo), KidHigh(Branch(all), last, hi));
      assert Ordered(all[|a|].tree, KidLow(Branch(all), |a|, lo), KidHigh(Branch(all), |a|, hi));
    }
    forall i | 0 <= i < |all| && i != last && i != |a|
      ensures Ordered(all[i].tree, KidLow(Branch(all), i, lo), KidHigh(Branch(all), i, hi))
    {
      MergedKid(a, b, i, lo, hi);
    }
  }

  /** Two ordered branches next to each other merge into an ordered one if and only if they are mergeable. */
  lemma MergeOrderedIff(a: seq<Kid>, b: seq<Kid>, lo: Bound, mid: Bytes, hi: Bound)
    requires a != [] && b != [] && Within(mid, lo, hi)
    requires Ordered(Branch(a), lo, At(mid)) && Ordered(Branch(b), At(mid), hi)
    ensures Ordered(Branch(a + b), lo, hi) <==> Mergeable(a, b, lo, hi)
  {
    OrderedParts(a, lo, At(mid));
    OrderedParts(b, At(mid), hi);
    OrderedParts(a + b, lo, hi);
    OrderedKid(Branch(a), |a| - 1, lo, At(mid));
    OrderedKid(Branch(b), 0, At(mid), hi);
    hide Ordered, RightEdgeBelow, LeftEdgeFrom, Less;
    MergedSeparators(a, b);
    MergedWithin(a, b, lo, mid, hi);
    MergedKids(a, b, lo, mid, hi);
    RightEdgeIff(a[|a| - 1].tree, KidLow(Branch(a), |a| - 1, lo), mid, b[0].key);
    LeftEdgeIff(b[0].tree, mid, b[0].key, KidHigh(Branch(b), 0, hi));
  }

  /** An ordered right node whose first child holds a key below that child's separator: merged, the key is misplaced. */
  lemma MergeBreaksOrder()
    ensures var a := [Kid([10], 5, Leaf([]))];
            var b := [Kid([30], 6, Leaf([Entry([20], [], 0)])), Kid([40], 7, Leaf([]))];
            && Ordered(Branch(a), Unbounded, At([20])) && Ordered(Branch(b), At([20]), Unbounded)
            && !Ordered(Branch(a + b), Unbounded, Unbounded)
  {
    var a := [Kid([10], 5, Leaf([]))];
    var b := [Kid([30], 6, Leaf([Entry([20], [], 0)])), Kid([40], 7, Leaf([]))];
    assert Less([20], [30]) && Less([30], [40]) && Less([20], [40]);
    assert !Ordered(b[0].tree, At([30]), At([40])) by {
      assert !Within(b[0].tree.entries[0].key, At([30]), At([40]));
    }
    assert (a + b)[1] == b[0] && KidLow(Branch(a + b), 1, Unbounded) == At([30]);
    assert KidHigh(Branch(a + b), 1, Unbounded) == At([40]);
  }

  /** Nor does the order of both fix how their first separators lie: `b`'s may be below `a`'s last. */
  lemma MergeBreaksSeparators()
    ensures var a := [Kid([10], 5, Leaf([])), Kid([25], 6, Leaf([]))];
            var b := [Kid([20], 7, Leaf([]))];
            && Ordered(Branch(a), Unbounded, At([30])) && Ordered(Branch(b), At([30]), Unbounded)
            && !Ordered(Branch(a + b), Unbounded, Unbounded)
  {
    var a := [Kid([10], 5, Leaf([])), Kid([25], 6, Leaf([]))];
    var b := [Kid([20], 7, Leaf([]))];
    assert Less([10], [25]) && Less([25], [30]) && !Less([25], [10]) && !Less([25], [20]);
    var keys := Separators(Branch(a + b));
    assert keys[1] == [25] && keys[2] == [20];
  }
}
