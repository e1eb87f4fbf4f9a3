/** Sequences and sets of page ids, as the free list keeps them. */
module PageIds {

  ghost predicate NonDecreasing(s: seq<nat>) {
    forall i, j :: 0 <= i < j < |s| ==> s[i] <= s[j]
  }

  predicate Increasing(s: seq<nat>) {
    forall i, j :: 0 <= i < j < |s| ==> s[i] < s[j]
  }

  ghost predicate Distinct(s: seq<nat>) {
    forall i, j :: 0 <= i < j < |s| ==> s[i] != s[j]
  }

  ghost function Elems(s: seq<nat>): set<nat> {
    set x | x in s
  }

  predicate InSpan(p: nat, start: nat, n: nat) {
    start <= p < start + n
  }

  /** The `n` consecutive page ids that start at `start`. */
  function Span(start: nat, n: nat): set<nat> {
    set p: nat | start <= p < start + n && InSpan(p, start, n)
  }

  lemma ElemsStep(s: seq<nat>, i: nat)
    requires i < |s|
    ensures Elems(s[..i + 1]) == Elems(s[..i]) + {s[i]}
  {
    assert s[..i + 1] == s[..i] + [s[i]];
  }

  lemma AppendIncreasing(s: seq<nat>, x: nat)
    requires Increasing(s) && forall y :: y in s ==> y < x
    ensures Increasing(s + [x]) && Elems(s + [x]) == Elems(s) + {x}
  {
    assert forall k :: 0 <= k < |s| ==> s[k] in s;
  }

  lemma DistinctConcat(a: seq<nat>, b: seq<nat>)
    requires Distinct(a) && Distinct(b) && Elems(a) !! Elems(b)
    ensures Distinct(a + b) && Elems(a + b) == Elems(a) + Elems(b)
  {
    forall i, j | 0 <= i < j < |a + b| ensures (a + b)[i] != (a + b)[j] {
      if i < |a| <= j {
        assert a[i] in Elems(a) && b[j - |a|] in Elems(b);
      }
    }
  }

  lemma SubsetCount(a: set<nat>, b: set<nat>)
    requires a <= b
    ensures |a| <= |b|
  {
    assert b == a + (b - a);
  }

  lemma {:induction false} DistinctBag(s: seq<nat>, x: nat)
    requires Distinct(s)
    ensures multiset(s)[x] <= 1
  {
    if s != [] {
      var front := s[..|s| - 1];
      assert s == front + [s[|s| - 1]];
      DistinctBag(front, x);
      assert s[|s| - 1] !in front;
    }
  }

  lemma RepeatedBag(s: seq<nat>, i: nat, j: nat)
    requires i < j < |s| && s[i] == s[j]
    ensures multiset(s)[s[i]] >= 2
  {
    assert s == s[..i] + [s[i]] + s[i + 1..j] + [s[j]] + s[j + 1..];
  }

  /** Sorting a list without repetitions gives a strictly increasing list of the same ids. */
  lemma SortedDistinct(r: seq<nat>, s: seq<nat>)
    requires NonDecreasing(r) && multiset(r) == multiset(s) && Distinct(s)
    ensures Increasing(r) && Elems(r) == Elems(s) && |r| == |s|
  {
    forall i, j | 0 <= i < j < |r| ensures r[i] < r[j] {
      if r[i] == r[j] {
        RepeatedBag(r, i, j);
        DistinctBag(s, r[i]);
      }
    }
    forall x: nat ensures x in r <==> x in s {
      assert x in r <==> x in multiset(r);
      assert x in s <==> x in multiset(s);
    }
    assert |multiset(r)| == |r| && |multiset(s)| == |s|;
  }

  lemma {:induction false} DistinctCount(s: seq<nat>)
    requires Distinct(s)
    ensures |Elems(s)| == |s|
  {
    if s != [] {
      var front, last := s[..|s| - 1], s[|s| - 1];
      DistinctCount(front);
      assert last !in front;
      assert Elems(s) == Elems(front) + {last};
    }
  }

  lemma EmptyElems(s: seq<nat>)
    ensures Elems(s) == {} <==> s == []
  {
    if s != [] {
      assert s[0] in Elems(s);
    }
  }

  /** A strictly increasing list is determined by its set of ids. */
  lemma {:induction false} IncreasingUnique(a: seq<nat>, b: seq<nat>)
    requires Increasing(a) && Increasing(b) && Elems(a) == Elems(b)
    ensures a == b
  {
    EmptyElems(a);
    EmptyElems(b);
    if a != [] {
      assert a[0] in Elems(b);
      assert b[0] in Elems(a);
      assert a[0] == b[0];
      assert Elems(a[1..]) == Elems(a) - {a[0]};
      assert Elems(b[1..]) == Elems(b) - {b[0]};
      IncreasingUnique(a[1..], b[1..]);
    }
  }

  lemma {:induction false} SpanCount(start: nat, n: nat)
    ensures |Span(start, n)| == n
  {
    if n == 0 {
      assert Span(start, n) == {};
    } else {
      SpanCount(start, n - 1);
      assert Span(start, n) == Span(start, n - 1) + {start + n - 1};
    }
  }

  function Insert(x: nat, s: seq<nat>): seq<nat> {
    if s == [] then [x]
    else if x <= s[0] then [x] + s
    else [s[0]] + Insert(x, s[1..])
  }

  lemma {:induction false} InsertBag(x: nat, s: seq<nat>)
    ensures multiset(Insert(x, s)) == multiset(s) + multiset{x}
  {
    if s != [] && x > s[0] {
      InsertBag(x, s[1..]);
      assert multiset(s) == multiset{s[0]} + multiset(s[1..]) by {
        assert s == [s[0]] + s[1..];
      }
    }
  }

  lemma {:induction false} InsertElems(x: nat, s: seq<nat>, y: nat)
    ensures y in Insert(x, s) <==> y == x || y in s
  {
    if s != [] && x > s[0] {
      InsertElems(x, s[1..], y);
    }
  }

  lemma {:induction false} InsertSorts(x: nat, s: seq<nat>)
    requires NonDecreasing(s)
    ensures NonDecreasing(Insert(x, s))
  {
    if s != [] && x > s[0] {
      InsertSorts(x, s[1..]);
      var rest := Insert(x, s[1..]);
      forall k | 0 <= k < |rest| ensures s[0] <= rest[k] {
        InsertElems(x, s[1..], rest[k]);
      }
    }
  }

  /** Stands for `std::sort`. */
  function Sort(s: seq<nat>): (r: seq<nat>)
    ensures NonDecreasing(r) && multiset(r) == multiset(s)
  {
    if s == [] then []
    else
      InsertSorts(s[0], Sort(s[1..]));
      InsertBag(s[0], Sort(s[1..]));
      assert s == [s[0]] + s[1..];
      Insert(s[0], Sort(s[1..]))
  }

  /** Two-way merge; on equal heads the second list goes first. */
  function Merge(a: seq<nat>, b: seq<nat>): seq<nat> {
    if a == [] then b
    else if b == [] then a
    else if a[0] < b[0] then [a[0]] + Merge(a[1..], b)
    else [b[0]] + Merge(a, b[1..])
  }

  lemma {:induction false} MergeBag(a: seq<nat>, b: seq<nat>)
    ensures multiset(Merge(a, b)) == multiset(a) + multiset(b)
  {
    if a != [] && b != [] {
      if a[0] < b[0] {
        MergeBag(a[1..], b);
        assert a == [a[0]] + a[1..];
      } else {
        MergeBag(a, b[1..]);
        assert b == [b[0]] + b[1..];
      }
    }
  }

  lemma {:induction false} MergeElems(a: seq<nat>, b: seq<nat>, y: nat)
    ensures y in Merge(a, b) <==> y in a || y in b
  {
    if a != [] && b != [] {
      if a[0] < b[0] {
        MergeElems(a[1..], b, y);
      } else {
        MergeElems(a, b[1..], y);
      }
    }
  }

  lemma {:induction false} MergeSorted(a: seq<nat>, b: seq<nat>)
    requires NonDecreasing(a) && NonDecreasing(b)
    ensures NonDecreasing(Merge(a, b))
  {
    if a != [] && b != [] {
      var a', b' := if a[0] < b[0] then a[1..] else a, if a[0] < b[0] then b else b[1..];
      MergeSorted(a', b');
      var head, rest := Merge(a, b)[0], Merge(a', b');
      forall k | 0 <= k < |rest| ensures head <= rest[k] {
        MergeElems(a', b', rest[k]);
      }
    }
  }
}
