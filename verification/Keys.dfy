/** Byte strings, their order, and the binary search over ascending keys. */
module Keys {
  type byte = b: int | 0 <= b < 256
  type Bytes = seq<byte>

  /** `std::string` order: bytewise, a proper prefix first. */
  predicate Less(a: Bytes, b: Bytes) {
    if b == [] then false
    else if a == [] then true
    else if a[0] != b[0] then a[0] < b[0]
    else Less(a[1..], b[1..])
  }

  lemma {:induction false} LessTrichotomy(a: Bytes, b: Bytes)
    ensures Less(a, b) || a == b || Less(b, a)
    ensures !(Less(a, b) && Less(b, a)) && (a == b ==> !Less(a, b))
  {
    if a != [] && b != [] {
      LessTrichotomy(a[1..], b[1..]);
      if a[0] == b[0] && a[1..] == b[1..] {
        assert a == [a[0]] + a[1..] == b;
      }
    }
  }

  lemma {:induction false} LessTransitive(a: Bytes, b: Bytes, c: Bytes)
    requires Less(a, b) && Less(b, c)
    ensures Less(a, c)
  {
    if a != [] && a[0] == b[0] == c[0] {
      LessTransitive(a[1..], b[1..], c[1..]);
    }
  }

  /** `a` and `b` agree up to `k`, where `a` ends or has the lower byte. */
  ghost predicate LowerAt(a: Bytes, b: Bytes, k: nat) {
    k <= |a| && k < |b| && a[..k] == b[..k] && (k == |a| || a[k] < b[k])
  }

  lemma LowerHead(a: Bytes, b: Bytes, k: nat)
    requires LowerAt(a, b, k)
    ensures b != [] && (k == 0 || (a != [] && a[0] == b[0]))
  {
    if k > 0 {
      assert a[..k][0] == b[..k][0];
    }
  }

  lemma LowerTail(a: Bytes, b: Bytes, k: nat)
    requires a != [] && b != [] && a[0] == b[0]
    ensures LowerAt(a, b, k + 1) <==> LowerAt(a[1..], b[1..], k)
  {
    if k + 1 <= |a| && k + 1 < |b| {
      assert a[..k + 1] == [a[0]] + a[1..][..k] && b[..k + 1] == [b[0]] + b[1..][..k];
    }
  }

  /** The lexicographic order of unsigned bytes, a proper prefix before what extends it. */
  lemma {:induction false} LessIff(a: Bytes, b: Bytes)
    ensures Less(a, b) <==> exists k: nat :: LowerAt(a, b, k)
  {
    if b == [] || a == [] || a[0] != b[0] {
      if Less(a, b) {
        assert LowerAt(a, b, 0);
      }
      forall k: nat | LowerAt(a, b, k) ensures Less(a, b) {
        LowerHead(a, b, k);
      }
    } else {
      LessIff(a[1..], b[1..]);
      if Less(a, b) {
        var k: nat :| LowerAt(a[1..], b[1..], k);
        LowerTail(a, b, k);
      }
      forall k: nat | LowerAt(a, b, k) ensures Less(a, b) {
        assert k > 0;
        LowerTail(a, b, k - 1);
      }
    }
  }

  ghost predicate Ascending(keys: seq<Bytes>) {
    forall i, j :: 0 <= i < j < |keys| ==> Less(keys[i], keys[j])
  }

  /** `index` splits `keys` into those below `key` and the others. */
  ghost predicate IsLowerBound(keys: seq<Bytes>, key: Bytes, index: nat) {
    && index <= |keys|
    && (forall i :: 0 <= i < index ==> Less(keys[i], key))
    && (forall i :: index <= i < |keys| ==> keys[i] == key || Less(key, keys[i]))
  }

  method BinarySearch(keys: seq<Bytes>, key: Bytes) returns (index: nat, found: bool)
    requires Ascending(keys)
    ensures IsLowerBound(keys, key, index)
    ensures found <==> key in keys
    ensures found <==> index < |keys| && keys[index] == key
  {
    var begin, end := 0, |keys|;
    while begin < end
      invariant begin <= end <= |keys|
      invariant forall i :: 0 <= i < begin ==> Less(keys[i], key)
      invariant forall i :: end <= i < |keys| ==> Less(key, keys[i])
    {
      var mid := (begin + end) / 2;
      LessTrichotomy(keys[mid], key);
      if Less(key, keys[mid]) {
        AboveAll(keys, key, mid);
        end := mid;
      } else if keys[mid] == key {
        AboveAll(keys, key, mid);
        BelowAll(keys, key, mid);
        return mid, true;
      } else {
        BelowAll(keys, key, mid);
        begin := mid + 1;
      }
    }
    forall i | 0 <= i < |keys| ensures keys[i] != key {
      LessTrichotomy(keys[i], key);
    }
    return end, false;
  }

  lemma AboveAll(keys: seq<Bytes>, key: Bytes, mid: nat)
    requires Ascending(keys) && mid < |keys| && (keys[mid] == key || Less(key, keys[mid]))
    ensures forall i :: mid < i < |keys| ==> Less(key, keys[i])
  {
    forall i | mid < i < |keys| ensures Less(key, keys[i]) {
      if Less(key, keys[mid]) {
        LessTransitive(key, keys[mid], keys[i]);
      }
    }
  }

  lemma BelowAll(keys: seq<Bytes>, key: Bytes, mid: nat)
    requires Ascending(keys) && mid < |keys| && (keys[mid] == key || Less(keys[mid], key))
    ensures forall i :: 0 <= i < mid ==> Less(keys[i], key)
  {
    forall i | 0 <= i < mid ensures Less(keys[i], key) {
      if Less(keys[mid], key) {
        LessTransitive(keys[i], keys[mid], key);
      }
    }
  }
}
