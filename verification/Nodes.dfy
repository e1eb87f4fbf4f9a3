/** In-memory nodes: sorted inode lists, their serialized size, and splitting. */
module Nodes {
  import opened Common
  import opened Keys

  const MIN_KEYS_PER_PAGE: nat := 2
  const BUCKET_LEAF_FLAG: nat := 1

  datatype Inode = Inode(flag: nat, pageId: nat, key: Bytes, value: Bytes)

  function KeysOf(s: seq<Inode>): (keys: seq<Bytes>)
    ensures |keys| == |s| && forall i :: 0 <= i < |s| ==> keys[i] == s[i].key
  {
    seq(|s|, i requires 0 <= i < |s| => s[i].key)
  }

  ghost predicate Sorted(s: seq<Inode>) {
    Ascending(KeysOf(s))
  }

  // ----- Lookup, insertion, deletion -----

  /** The sorted list as a map. */
  ghost function Find(s: seq<Inode>, key: Bytes): Option<Inode> {
    if exists i :: 0 <= i < |s| && s[i].key == key then
      var i :| 0 <= i < |s| && s[i].key == key; Some(s[i])
    else None
  }

  lemma FindAt(s: seq<Inode>, i: nat)
    requires Sorted(s) && i < |s|
    ensures Find(s, s[i].key) == Some(s[i])
  {
    forall j | 0 <= j < |s| && s[j].key == s[i].key ensures j == i {
      LessTrichotomy(KeysOf(s)[i], KeysOf(s)[j]);
    }
  }

  function Place(s: seq<Inode>, index: nat, found: bool, n: Inode): seq<Inode>
    requires index <= |s| && (found ==> index < |s|)
  {
    if found then s[index := n] else s[..index] + [n] + s[index..]
  }

  ghost predicate PutAt(s: seq<Inode>, oldKey: Bytes, index: nat, found: bool, n: Inode, r: seq<Inode>) {
    && IsLowerBound(KeysOf(s), oldKey, index)
    && (found <==> index < |s| && s[index].key == oldKey)
    && r == Place(s, index, found, n)
  }

  /** `n` takes the place of the inode with `oldKey`, or the place such an inode would have. */
  ghost predicate IsPut(s: seq<Inode>, oldKey: Bytes, n: Inode, r: seq<Inode>) {
    exists index, found :: PutAt(s, oldKey, index, found, n, r)
  }

  /** Writing an inode under its own key keeps the list sorted and changes the map at that key only. */
  lemma PlaceIsUpdate(s: seq<Inode>, index: nat, found: bool, n: Inode)
    requires Sorted(s) && IsLowerBound(KeysOf(s), n.key, index)
    requires found <==> index < |s| && s[index].key == n.key
    ensures Sorted(Place(s, index, found, n))
    ensures forall key :: Find(Place(s, index, found, n), key) == if key == n.key then Some(n) else Find(s, key)
  {
    var r := Place(s, index, found, n);
    var keys := KeysOf(s);
    PlaceSorted(s, index, found, n);
    FindAt(r, index);
    forall key | key != n.key ensures Find(r, key) == Find(s, key) {
      if i :| 0 <= i < |s| && s[i].key == key {
        var j := if found || i < index then i else i + 1;
        assert r[j] == s[i];
        FindAt(s, i);
        FindAt(r, j);
      } else {
        forall j | 0 <= j < |r| ensures r[j].key != key {
          assert found ==> j == index || r[j] == s[j];
          assert !found ==> j == index || r[j] == s[if j < index then j else j - 1];
        }
      }
    }
  }

  lemma PlaceSorted(s: seq<Inode>, index: nat, found: bool, n: Inode)
    requires Sorted(s) && IsLowerBound(KeysOf(s), n.key, index)
    requires found <==> index < |s| && s[index].key == n.key
    ensures Sorted(Place(s, index, found, n))
  {
    var r := Place(s, index, found, n);
    if found {
      assert KeysOf(r) == KeysOf(s);
    } else {
      forall i, j | 0 <= i < j < |r| ensures Less(KeysOf(r)[i], KeysOf(r)[j]) {
        var i', j' := if i < index then i else i - 1, if j < index then j else j - 1;
        if i == index {
          assert KeysOf(s)[j'] == KeysOf(r)[j];
          AboveFirst(KeysOf(s), n.key, index, j');
        } else if j == index {
          assert KeysOf(s)[i] == KeysOf(r)[i];
        } else {
          assert KeysOf(s)[i'] == KeysOf(r)[i] && KeysOf(s)[j'] == KeysOf(r)[j];
        }
      }
    }
  }

  lemma AboveFirst(keys: seq<Bytes>, key: Bytes, index: nat, j: nat)
    requires Ascending(keys) && IsLowerBound(keys, key, index) && index <= j < |keys| && keys[index] != key
    ensures Less(key, keys[j])
  {
    if index < j {
      LessTransitive(key, keys[index], keys[j]);
    }
  }

  /** Erasing a key keeps the list sorted and removes that key only. */
  lemma EraseIsRemove(s: seq<Inode>, index: nat)
    requires Sorted(s) && index < |s|
    ensures Sorted(s[..index] + s[index + 1..])
    ensures forall key :: Find(s[..index] + s[index + 1..], key) == if key == s[index].key then None else Find(s, key)
  {
    var r := s[..index] + s[index + 1..];
    forall i, j | 0 <= i < j < |r| ensures Less(KeysOf(r)[i], KeysOf(r)[j]) {
      var i', j' := if i < index then i else i + 1, if j < index then j else j + 1;
      assert KeysOf(r)[i] == KeysOf(s)[i'] && KeysOf(r)[j] == KeysOf(s)[j'];
    }
    forall key ensures Find(r, key) == if key == s[index].key then None else Find(s, key) {
      forall j | 0 <= j < |r| ensures r[j].key != s[index].key {
        var j' := if j < index then j else j + 1;
        LessTrichotomy(KeysOf(s)[index], KeysOf(s)[j']);
      }
      if j :| 0 <= j < |r| && r[j].key == key {
        FindAt(r, j);
        FindAt(s, if j < index then j else j + 1);
      } else {
        forall i | 0 <= i < |s| && i != index ensures s[i].key != key {
          assert s[i] == r[if i < index then i else i - 1];
        }
      }
    }
  }

  // ----- Sizes -----

  function ElementSize(isLeaf: bool): nat {
    if isLeaf then LEAF_ELEMENT_SIZE else BRANCH_ELEMENT_SIZE
  }

  function InodeSize(isLeaf: bool, n: Inode): nat {
    ElementSize(isLeaf) + |n.key| + |n.value|
  }

  /** Bytes a page takes for these inodes. */
  ghost function SizeOf(isLeaf: bool, s: seq<Inode>): nat {
    if s == [] then PAGE_HEADER_SIZE else SizeOf(isLeaf, s[..|s| - 1]) + InodeSize(isLeaf, s[|s| - 1])
  }

  lemma SizeNone(isLeaf: bool, s: seq<Inode>)
    ensures SizeOf(isLeaf, s[..0]) == PAGE_HEADER_SIZE
  {
  }

  lemma SizeStep(isLeaf: bool, s: seq<Inode>, i: nat)
    requires i < |s|
    ensures SizeOf(isLeaf, s[..i + 1]) == SizeOf(isLeaf, s[..i]) + InodeSize(isLeaf, s[i])
  {
    assert s[..i + 1][..i] == s[..i];
  }

  lemma {:induction false} SizeGrows(isLeaf: bool, s: seq<Inode>, i: nat, j: nat)
    requires i <= j <= |s|
    ensures PAGE_HEADER_SIZE <= SizeOf(isLeaf, s[..i]) <= SizeOf(isLeaf, s[..j])
    decreases j
  {
    if i < j {
      SizeGrows(isLeaf, s, i, j - 1);
      SizeStep(isLeaf, s, j - 1);
    } else if j > 0 {
      SizeGrows(isLeaf, s, j - 1, j - 1);
      SizeStep(isLeaf, s, j - 1);
    }
  }

  method MeasureInodes(isLeaf: bool, s: seq<Inode>) returns (size: nat)
    ensures size == SizeOf(isLeaf, s)
  {
    size := PAGE_HEADER_SIZE;
    for i := 0 to |s|
      invariant size == SizeOf(isLeaf, s[..i])
    {
      SizeStep(isLeaf, s, i);
      size := size + InodeSize(isLeaf, s[i]);
    }
    assert s[..|s|] == s;
  }

  // ----- Splitting -----

  ghost predicate Stops(isLeaf: bool, s: seq<Inode>, pageSize: nat) {
    |s| <= MIN_KEYS_PER_PAGE * 2 || SizeOf(isLeaf, s) < pageSize
  }

  /** The first index from `i` on where the page would pass the threshold, short of the last three inodes. */
  ghost function SplitFrom(isLeaf: bool, s: seq<Inode>, threshold: nat, i: nat): nat
    requires i + 3 <= |s|
    decreases |s| - i
  {
    if i + 3 == |s| || SizeOf(isLeaf, s[..i + 1]) > threshold then i else SplitFrom(isLeaf, s, threshold, i + 1)
  }

  lemma {:induction false} SplitBounds(isLeaf: bool, s: seq<Inode>, threshold: nat, i: nat)
    requires i + 3 <= |s|
    ensures i <= SplitFrom(isLeaf, s, threshold, i) <= |s| - 3
    ensures var at := SplitFrom(isLeaf, s, threshold, i);
            && (at > i ==> SizeOf(isLeaf, s[..at]) <= threshold)
            && (at + 3 == |s| || SizeOf(isLeaf, s[..at + 1]) > threshold)
    decreases |s| - i
  {
    if i + 3 != |s| && SizeOf(isLeaf, s[..i + 1]) <= threshold {
      SplitBounds(isLeaf, s, threshold, i + 1);
    }
  }

  ghost function Pieces(isLeaf: bool, s: seq<Inode>, threshold: nat, pageSize: nat): seq<seq<Inode>>
    decreases |s|
  {
    if Stops(isLeaf, s, pageSize) then [s]
    else
      SplitBounds(isLeaf, s, threshold, MIN_KEYS_PER_PAGE);
      var i := SplitFrom(isLeaf, s, threshold, MIN_KEYS_PER_PAGE);
      [s[..i]] + Pieces(isLeaf, s[i..], threshold, pageSize)
  }

  ghost function Joined(pieces: seq<seq<Inode>>): seq<Inode> {
    if pieces == [] then [] else pieces[0] + Joined(pieces[1..])
  }

  /** A piece before the last: two inodes, or within the threshold. */
  ghost predicate InnerPiece(isLeaf: bool, piece: seq<Inode>, threshold: nat) {
    |piece| == 2 || (|piece| > 2 && SizeOf(isLeaf, piece) <= threshold)
  }

  /** Splitting keeps the inodes and their order. */
  lemma {:induction false} SplitConserves(isLeaf: bool, s: seq<Inode>, threshold: nat, pageSize: nat)
    ensures Joined(Pieces(isLeaf, s, threshold, pageSize)) == s
    ensures Pieces(isLeaf, s, threshold, pageSize) != []
    decreases |s|
  {
    var p := Pieces(isLeaf, s, threshold, pageSize);
    if Stops(isLeaf, s, pageSize) {
      assert Joined(p[1..]) == [];
    } else {
      SplitBounds(isLeaf, s, threshold, MIN_KEYS_PER_PAGE);
      var i := SplitFrom(isLeaf, s, threshold, MIN_KEYS_PER_PAGE);
      SplitConserves(isLeaf, s[i..], threshold, pageSize);
      assert p[1..] == Pieces(isLeaf, s[i..], threshold, pageSize);
      assert s == s[..i] + s[i..];
    }
  }

  /** Every piece but the last has two inodes or fits the threshold; the last one needs no further split. */
  lemma {:induction false} SplitBounded(isLeaf: bool, s: seq<Inode>, threshold: nat, pageSize: nat)
    ensures var p := Pieces(isLeaf, s, threshold, pageSize);
            && p != [] && (|p| == 1 <==> |s| <= 4 || SizeOf(isLeaf, s) < pageSize)
            && (|p[|p| - 1]| <= 4 || SizeOf(isLeaf, p[|p| - 1]) < pageSize)
            && (|p| > 1 ==> |p[|p| - 1]| >= 3)
            && forall k :: 0 <= k < |p| - 1 ==> InnerPiece(isLeaf, p[k], threshold)
    decreases |s|
  {
    if !Stops(isLeaf, s, pageSize) {
      SplitBounds(isLeaf, s, threshold, MIN_KEYS_PER_PAGE);
      var i := SplitFrom(isLeaf, s, threshold, MIN_KEYS_PER_PAGE);
      SplitBounded(isLeaf, s[i..], threshold, pageSize);
      AddPiece(isLeaf, s[..i], Pieces(isLeaf, s[i..], threshold, pageSize), threshold);
    }
  }

  /** No piece before the last could be longer: three inodes follow it, or the next one would pass the threshold. */
  ghost predicate AsLongAsItMay(isLeaf: bool, piece: seq<Inode>, rest: seq<Inode>, threshold: nat) {
    |rest| == 3 || (|rest| > 3 && SizeOf(isLeaf, piece + [rest[0]]) > threshold)
  }

  lemma {:induction false} SplitFills(isLeaf: bool, s: seq<Inode>, threshold: nat, pageSize: nat)
    ensures var p := Pieces(isLeaf, s, threshold, pageSize);
            forall k :: 0 <= k < |p| - 1 ==> AsLongAsItMay(isLeaf, p[k], Joined(p[k + 1..]), threshold)
    decreases |s|
  {
    if !Stops(isLeaf, s, pageSize) {
      SplitBounds(isLeaf, s, threshold, MIN_KEYS_PER_PAGE);
      var i := SplitFrom(isLeaf, s, threshold, MIN_KEYS_PER_PAGE);
      var p, rest := Pieces(isLeaf, s, threshold, pageSize), Pieces(isLeaf, s[i..], threshold, pageSize);
      SplitConserves(isLeaf, s[i..], threshold, pageSize);
      SplitFills(isLeaf, s[i..], threshold, pageSize);
      assert s[..i] + [s[i..][0]] == s[..i + 1];
      hide Pieces, SizeOf, SplitFrom;
      forall k | 0 <= k < |p| - 1 ensures AsLongAsItMay(isLeaf, p[k], Joined(p[k + 1..]), threshold) {
        assert p == [s[..i]] + rest;
        assert p[k + 1..] == rest[k..];
        if k == 0 {
          assert rest[0..] == rest;
        } else {
          assert p[k] == rest[k - 1] && rest[k..] == rest[(k - 1) + 1..];
        }
      }
    }
  }

  lemma AddPiece(isLeaf: bool, first: seq<Inode>, rest: seq<seq<Inode>>, threshold: nat)
    requires InnerPiece(isLeaf, first, threshold)
    requires rest != [] && forall k :: 0 <= k < |rest| - 1 ==> InnerPiece(isLeaf, rest[k], threshold)
    ensures var p := [first] + rest;
            p[|p| - 1] == rest[|rest| - 1] && forall k :: 0 <= k < |p| - 1 ==> InnerPiece(isLeaf, p[k], threshold)
  {
  }

  class Node {
    var isLeaf: bool
    var unbalanced: bool
    var spilled: bool
    var key: Bytes
    var pageId: nat
    var parent: Node?
    var children: seq<Node>
    var inodes: seq<Inode>

    constructor (parent: Node?)
      ensures !isLeaf && !unbalanced && !spilled && key == [] && pageId == 0
      ensures this.parent == parent && children == [] && inodes == []
    {
      isLeaf, unbalanced, spilled, key, pageId := false, false, false, [], 0;
      this.parent, children, inodes := parent, [], [];
    }

    ghost function Parents(): set<Node> reads this {
      if parent == null then {} else {parent}
    }

    /** `total`: the transaction's high-water mark. */
    method Put(oldKey: Bytes, newKey: Bytes, value: Bytes, pageId: nat, flag: nat, total: nat) returns (ok: bool)
      requires Sorted(inodes)
      modifies this`inodes
      ensures ok <==> pageId < total && oldKey != [] && newKey != []
      ensures !ok ==> inodes == old(inodes)
      ensures ok ==> IsPut(old(inodes), oldKey, Inode(flag, pageId, newKey, value), inodes)
      ensures ok && newKey == oldKey ==> Sorted(inodes)
      ensures ok && newKey == oldKey ==>
                forall k :: Find(inodes, k) ==
                            (if k == newKey then Some(Inode(flag, pageId, newKey, value)) else Find(old(inodes), k))
    {
      if pageId >= total || |oldKey| <= 0 || |newKey| <= 0 {
        return false;
      }
      var index, found := BinarySearch(KeysOf(inodes), oldKey);
      var n := Inode(flag, pageId, newKey, value);
      assert PutAt(inodes, oldKey, index, found, n, Place(inodes, index, found, n));
      if newKey == oldKey {
        PlaceIsUpdate(inodes, index, found, n);
      }
      if !found {
        inodes := inodes[..index] + [n] + inodes[index..];
      } else {
        inodes := inodes[index := n];
      }
      return true;
    }

    method Del(key: Bytes)
      requires Sorted(inodes)
      modifies this`inodes, this`unbalanced
      ensures Sorted(inodes)
      ensures forall k :: Find(inodes, k) == if k == key then None else Find(old(inodes), k)
      ensures unbalanced == (old(unbalanced) || Find(old(inodes), key).Some?)
      ensures |inodes| == |old(inodes)| - (if Find(old(inodes), key).Some? then 1 else 0)
    {
      var index, found := BinarySearch(KeysOf(inodes), key);
      if !found {
        assert forall i :: 0 <= i < |inodes| ==> inodes[i].key == KeysOf(inodes)[i];
        return;
      }
      FindAt(inodes, index);
      EraseIsRemove(inodes, index);
      inodes := inodes[..index] + inodes[index + 1..];
      unbalanced := true;
    }

    method Size() returns (size: nat)
      ensures size == SizeOf(isLeaf, inodes)
    {
      size := MeasureInodes(isLeaf, inodes);
    }

    method SizeLessThan(s: nat) returns (less: bool)
      ensures less <==> inodes == [] || SizeOf(isLeaf, inodes) < s
    {
      var size := PAGE_HEADER_SIZE;
      for i := 0 to |inodes|
        invariant size == SizeOf(isLeaf, inodes[..i])
        invariant i > 0 ==> size < s
      {
        SizeStep(isLeaf, inodes, i);
        size := size + InodeSize(isLeaf, inodes[i]);
        if size >= s {
          SizeGrows(isLeaf, inodes, i + 1, |inodes|);
          assert inodes[..|inodes|] == inodes;
          return false;
        }
      }
      assert inodes[..|inodes|] == inodes;
      return true;
    }

    method SplitIndex(threshold: nat) returns (index: nat)
      requires |inodes| > MIN_KEYS_PER_PAGE * 2
      ensures index == SplitFrom(isLeaf, inodes, threshold, MIN_KEYS_PER_PAGE)
      ensures 2 <= index <= |inodes| - 3 && (index > 2 ==> SizeOf(isLeaf, inodes[..index]) <= threshold)
      ensures index == |inodes| - 3 || SizeOf(isLeaf, inodes[..index + 1]) > threshold
    {
      hide SizeOf;
      SplitBounds(isLeaf, inodes, threshold, MIN_KEYS_PER_PAGE);
      SizeNone(isLeaf, inodes);
      index := 0;
      var size := PAGE_HEADER_SIZE;
      var i := 0;
      while i < |inodes| - MIN_KEYS_PER_PAGE
        invariant i <= |inodes| - MIN_KEYS_PER_PAGE
        invariant size == SizeOf(isLeaf, inodes[..i])
        invariant i > 0 ==> index == i - 1
        invariant i < |inodes| - MIN_KEYS_PER_PAGE && i >= MIN_KEYS_PER_PAGE ==>
                    SplitFrom(isLeaf, inodes, threshold, MIN_KEYS_PER_PAGE) == SplitFrom(isLeaf, inodes, threshold, i)
        invariant i == |inodes| - MIN_KEYS_PER_PAGE ==>
                    SplitFrom(isLeaf, inodes, threshold, MIN_KEYS_PER_PAGE) == i - 1
      {
        index := i;
        var elementSize := InodeSize(isLeaf, inodes[i]);
        SizeStep(isLeaf, inodes, i);
        if i >= MIN_KEYS_PER_PAGE && size + elementSize > threshold {
          break;
        }
        size := size + elementSize;
        i := i + 1;
      }
    }

    /** Moves the inodes past the split to a new right sibling; a root gets a parent first. */
    method SplitTwo(pageSize: nat, threshold: nat) returns (b: Node?)
      modifies this`inodes, this`parent, Parents()`children
      ensures b == null <==> Stops(old(isLeaf), old(inodes), pageSize)
      ensures b == null ==> inodes == old(inodes) && parent == old(parent)
      ensures b == null && parent != null ==> parent.children == old(parent.children)
      ensures isLeaf == old(isLeaf)
      ensures b != null ==>
                var i := SplitFrom(old(isLeaf), old(inodes), threshold, MIN_KEYS_PER_PAGE);
                && i <= |old(inodes)| && inodes == old(inodes)[..i]
                && fresh(b) && b.inodes == old(inodes)[i..] && b.isLeaf == isLeaf && b.pageId == 0
                && parent != null && b.parent == parent
                && (old(parent) == null ==> fresh(parent) && parent.children == [this, b])
                && (old(parent) != null ==> parent == old(parent) && parent.children == old(parent.children) + [b])
    {
      hide SizeOf, SplitFrom;
      var less := SizeLessThan(pageSize);
      if |inodes| <= MIN_KEYS_PER_PAGE * 2 || less {
        return null;
      }
      var index := SplitIndex(threshold);
      SplitBounds(isLeaf, inodes, threshold, MIN_KEYS_PER_PAGE);
      if parent == null {
        parent := new Node(null);
        parent.children := [this];
      }
      b := new Node(parent);
      b.isLeaf := isLeaf;
      parent.children := parent.children + [b];
      for i := index to |inodes|
        invariant inodes == old(inodes) && b.inodes == inodes[index..i] && fresh(b)
        invariant b.isLeaf == isLeaf == old(isLeaf) && b.pageId == 0 && parent != null && b.parent == parent
        invariant old(parent) == null ==> fresh(parent) && parent.children == [this, b]
        invariant old(parent) != null ==> parent == old(parent) && parent.children == old(parent.children) + [b]
      {
        b.inodes := b.inodes + [inodes[i]];
      }
      assert inodes[index..|inodes|] == inodes[index..];
      inodes := inodes[..index];
    }

    ghost predicate IsPiece(leaf: bool, piece: seq<Inode>, above: Node?) reads this {
      inodes == piece && isLeaf == leaf && parent == above
    }

    /** Splits off right siblings until the rest fits a page or is too short to split. */
    method Split(pageSize: nat, fill: real) returns (result: seq<Node>)
      modifies this`inodes, this`parent, Parents()`children
      ensures result != [] && result[0] == this && forall k :: 1 <= k < |result| ==> fresh(result[k])
      ensures var p := Pieces(old(isLeaf), old(inodes), Threshold(pageSize, fill), pageSize);
              |result| == |p| && forall k :: 0 <= k < |p| ==> result[k].IsPiece(old(isLeaf), p[k], parent)
      ensures |result| == 1 ==> parent == old(parent)
      ensures |result| > 1 && old(parent) == null ==> parent != null && fresh(parent) && parent.children == result
      ensures old(parent) != null ==>
                parent == old(parent) && parent.children == old(parent.children) + result[1..]
    {
      var threshold := Threshold(pageSize, fill);
      ghost var leaf, all := isLeaf, Pieces(isLeaf, inodes, threshold, pageSize);
      PiecesStep(isLeaf, inodes, threshold, pageSize);
      var b := SplitTwo(pageSize, threshold);
      result := [this];
      if b == null {
        return;
      }
      result := SplitRest(b, [this], pageSize, threshold, leaf, all);
    }

    /** `cur`: the last piece so far, not split yet. */
    method SplitRest(b: Node, done: seq<Node>, pageSize: nat, threshold: nat,
                     ghost leaf: bool, ghost all: seq<seq<Inode>>)
      returns (result: seq<Node>)
      requires done == [this] && b != this && parent != null && b.parent == parent && b.isLeaf == leaf
      requires |all| > 1 && IsPiece(leaf, all[0], parent) && Pieces(leaf, b.inodes, threshold, pageSize) == all[1..]
      modifies b`inodes, b`parent, parent`children
      ensures |result| == |all| && result[0] == this && parent == old(parent)
      ensures forall k :: 0 <= k < |all| ==> result[k].IsPiece(leaf, all[k], parent)
      ensures parent.children == old(parent.children) + result[2..]
      ensures result[1] == b && forall k :: 2 <= k < |result| ==> fresh(result[k])
    {
      result := done;
      var cur := b;
      while true
        invariant 1 <= |result| < |all| && cur !in result && parent == old(parent)
        invariant result[0] == this && (if |result| == 1 then cur == b else result[1] == b && fresh(cur))
        invariant forall k :: 2 <= k < |result| ==> fresh(result[k])
        invariant cur.parent == parent && cur.isLeaf == leaf
        invariant parent.children == old(parent.children) + (result + [cur])[2..]
        invariant Pieces(leaf, cur.inodes, threshold, pageSize) == all[|result|..]
        invariant forall k :: 0 <= k < |result| ==> result[k].IsPiece(leaf, all[k], parent)
        decreases |cur.inodes|
      {
        ghost var rest := cur.inodes;
        var next := cur.SplitTwo(pageSize, threshold);
        result := result + [cur];
        PiecesStep(leaf, rest, threshold, pageSize);
        if next == null {
          break;
        }
        cur := next;
      }
    }
  }

  lemma PiecesStep(isLeaf: bool, s: seq<Inode>, threshold: nat, pageSize: nat)
    ensures Stops(isLeaf, s, pageSize) ==> Pieces(isLeaf, s, threshold, pageSize) == [s]
    ensures !Stops(isLeaf, s, pageSize) ==>
              var i := SplitFrom(isLeaf, s, threshold, MIN_KEYS_PER_PAGE);
              && 2 <= i <= |s| && |Pieces(isLeaf, s, threshold, pageSize)| > 1
              && Pieces(isLeaf, s, threshold, pageSize)[0] == s[..i]
              && Pieces(isLeaf, s, threshold, pageSize)[1..] == Pieces(isLeaf, s[i..], threshold, pageSize)
  {
    if !Stops(isLeaf, s, pageSize) {
      SplitBounds(isLeaf, s, threshold, MIN_KEYS_PER_PAGE);
      SplitConserves(isLeaf, s[SplitFrom(isLeaf, s, threshold, MIN_KEYS_PER_PAGE)..], threshold, pageSize);
    }
  }

  lemma Scaled(n: real, fill: real)
    requires 0.0 <= n && 0.0 <= fill <= 1.0
    ensures n * fill <= n
  {
  }

  lemma FloorOf(x: real, n: int)
    requires n as real <= x < n as real + 1.0
    ensures x.Floor == n
  {
  }

  lemma TenthOf(n: nat)
    ensures (n as real * 0.1).Floor == n / 10
  {
    var q, r := n / 10, n % 10;
    assert n as real == 10.0 * q as real + r as real;
    FloorOf(n as real * 0.1, q);
  }

  /** Below 10 percent and above 100 these limits count; in between it is the largest integer within the product. */
  lemma ThresholdIs(pageSize: nat, fill: real)
    ensures fill <= 0.1 ==> Threshold(pageSize, fill) == pageSize / 10
    ensures fill >= 1.0 ==> Threshold(pageSize, fill) == pageSize
    ensures 0.1 <= fill <= 1.0 ==>
              Threshold(pageSize, fill) as real <= pageSize as real * fill < Threshold(pageSize, fill) as real + 1.0
    ensures Threshold(pageSize, fill) <= pageSize
  {
    if fill <= 0.1 {
      TenthOf(pageSize);
    } else if fill >= 1.0 {
      assert pageSize as real * 1.0 == pageSize as real;
      FloorOf(pageSize as real, pageSize);
    } else {
      Scaled(pageSize as real, fill);
    }
  }

  /** The fill percentage is clamped to 10..100 and the product truncated. */
  function Threshold(pageSize: nat, fill: real): nat {
    var clamped := if fill < 0.1 then 0.1 else if fill > 1.0 then 1.0 else fill;
    (pageSize as real * clamped).Floor
  }
}
