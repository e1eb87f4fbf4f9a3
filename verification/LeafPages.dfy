/** Leaf pages and inline buckets, byte by byte. */
module LeafPages {
  import opened Common
  import opened Keys
  import opened Nodes
  import opened ByteCodec

  const MAX_INODES: nat := 0xffff
  const BUCKET_HEADER_SIZE: nat := 16
  const MAX_INLINE_SIZE: nat := 1024
  const LEAF_PAGE_FLAG: nat := 2

  // ----- Layout -----

  /** Bytes of `n` leaf elements, `LEAF_ELEMENT_SIZE` each. */
  function ElementsSize(n: nat): nat {
    16 * n
  }

  /** Bytes of the keys and values of the first `i` inodes. */
  function ContentSize(s: seq<Inode>, i: nat): nat
    requires i <= |s|
  {
    if i == 0 then 0 else ContentSize(s, i - 1) + |s[i - 1].key| + |s[i - 1].value|
  }

  /** From the element's own address to its key. */
  function KeyOffset(s: seq<Inode>, i: nat): nat
    requires i <= |s|
  {
    ElementsSize(|s| - i) + ContentSize(s, i)
  }

  function ElementBytes(s: seq<Inode>, i: nat): (e: Bytes)
    requires i < |s|
    ensures |e| == LEAF_ELEMENT_SIZE
  {
    Encode(s[i].flag, 4) + Encode(KeyOffset(s, i), 4) + Encode(|s[i].key|, 4) + Encode(|s[i].value|, 4)
  }

  ghost function Elements(s: seq<Inode>, i: nat): (e: Bytes)
    requires i <= |s|
    ensures |e| == ElementsSize(i)
  {
    if i == 0 then [] else Elements(s, i - 1) + ElementBytes(s, i - 1)
  }

  ghost function Contents(s: seq<Inode>, i: nat): (c: Bytes)
    requires i <= |s|
    ensures |c| == ContentSize(s, i)
  {
    if i == 0 then [] else Contents(s, i - 1) + s[i - 1].key + s[i - 1].value
  }

  ghost predicate Encodable(s: seq<Inode>) {
    && |s| <= MAX_INODES && SizeOf(true, s) < UINT32_LIMIT
    && forall i :: 0 <= i < |s| ==> s[i].flag < UINT32_LIMIT
  }

  /** The page at the start of `b` holds the inodes: count, elements, then keys and values, without a gap. */
  ghost predicate PageHolds(b: Bytes, s: seq<Inode>) {
    && SizeOf(true, s) <= |b|
    && SizeOf(true, s) == PAGE_HEADER_SIZE + ElementsSize(|s|) + ContentSize(s, |s|)
    && IsLeafFlag(b[8])
    && b[10..12] == Encode(|s|, 2)
    && b[PAGE_HEADER_SIZE..PAGE_HEADER_SIZE + ElementsSize(|s|)] == Elements(s, |s|)
    && b[PAGE_HEADER_SIZE + ElementsSize(|s|)..SizeOf(true, s)] == Contents(s, |s|)
  }

  predicate IsLeafFlag(low: byte) {
    low as nat / LEAF_PAGE_FLAG % 2 == 1
  }

  /** `flag |= leafPageFlag`, on the low byte. */
  function SetLeafFlag(low: byte): (r: byte)
    ensures IsLeafFlag(r) && (IsLeafFlag(low) ==> r == low) && (!IsLeafFlag(low) ==> r as nat == low as nat + 2)
  {
    if IsLeafFlag(low) then low else low + 2
  }

  lemma {:induction false} SizeIsLayout(s: seq<Inode>, i: nat)
    requires i <= |s|
    ensures SizeOf(true, s[..i]) == PAGE_HEADER_SIZE + ElementsSize(i) + ContentSize(s, i)
  {
    if i > 0 {
      SizeIsLayout(s, i - 1);
      SizeStep(true, s, i - 1);
    }
  }

  lemma {:induction false} ContentGrows(s: seq<Inode>, i: nat, j: nat)
    requires i <= j <= |s|
    ensures ContentSize(s, i) <= ContentSize(s, j)
    decreases j
  {
    if i < j {
      ContentGrows(s, i, j - 1);
    }
  }

  lemma {:induction false} ElementAt(s: seq<Inode>, i: nat, m: nat)
    requires i < m <= |s|
    ensures Elements(s, m)[ElementsSize(i)..ElementsSize(i + 1)] == ElementBytes(s, i)
    decreases m
  {
    if i < m - 1 {
      ElementAt(s, i, m - 1);
    }
  }

  lemma {:induction false} ContentAt(s: seq<Inode>, i: nat, m: nat)
    requires i < m <= |s|
    ensures ContentSize(s, i) + |s[i].key| + |s[i].value| <= ContentSize(s, m)
    ensures var c := ContentSize(s, i);
            && Contents(s, m)[c..c + |s[i].key|] == s[i].key
            && Contents(s, m)[c + |s[i].key|..c + |s[i].key| + |s[i].value|] == s[i].value
    decreases m
  {
    ContentGrows(s, i + 1, m);
    if i < m - 1 {
      ContentAt(s, i, m - 1);
    }
  }

  lemma Sub(b: Bytes, low: nat, high: nat, i: nat, j: nat)
    requires low <= high <= |b| && i <= j <= high - low
    ensures b[low..high][i..j] == b[low + i..low + j]
  {
    var inner := b[low..high];
    forall k | 0 <= k < j - i ensures inner[i..j][k] == b[low + i..low + j][k] {
      assert inner[i..j][k] == inner[i + k] == b[low + i + k];
    }
  }

  function Field(b: Bytes, at: nat): nat
    requires at + 4 <= |b|
  {
    Decode(b[at..at + 4])
  }

  lemma FieldsOfElement(s: seq<Inode>, i: nat)
    requires Encodable(s) && i < |s|
    ensures var e := ElementBytes(s, i);
            && Field(e, 0) == s[i].flag && Field(e, 4) == KeyOffset(s, i)
            && Field(e, 8) == |s[i].key| && Field(e, 12) == |s[i].value|
  {
    var n := |s|;
    assert s[..n] == s;
    SizeIsLayout(s, n);
    ContentGrows(s, i + 1, n);
    Pow256Values();
    var e := ElementBytes(s, i);
    var f, k, l, v := Encode(s[i].flag, 4), Encode(KeyOffset(s, i), 4), Encode(|s[i].key|, 4), Encode(|s[i].value|, 4);
    assert e[0..4] == f && e[4..8] == k && e[8..12] == l && e[12..16] == v;
    CodecRoundTrip(s[i].flag, 4);
    CodecRoundTrip(KeyOffset(s, i), 4);
    CodecRoundTrip(|s[i].key|, 4);
    CodecRoundTrip(|s[i].value|, 4);
  }

  /** The fields of element `i` lead to its key and value. */
  lemma ElementLeads(b: Bytes, s: seq<Inode>, i: nat)
    requires PageHolds(b, s) && Encodable(s) && i < |s|
    ensures var at := PAGE_HEADER_SIZE + ElementsSize(i);
            var pos := at + KeyOffset(s, i);
            && at + LEAF_ELEMENT_SIZE <= |b| && pos + |s[i].key| + |s[i].value| <= |b|
            && Field(b, at) == s[i].flag && Field(b, at + 4) == KeyOffset(s, i)
            && Field(b, at + 8) == |s[i].key| && Field(b, at + 12) == |s[i].value|
            && b[pos..pos + |s[i].key|] == s[i].key
            && b[pos + |s[i].key|..pos + |s[i].key| + |s[i].value|] == s[i].value
  {
    ElementFields(b, s, i);
    ElementContent(b, s, i);
  }

  lemma PageParts(b: Bytes, s: seq<Inode>)
    requires PageHolds(b, s)
    ensures var low := PAGE_HEADER_SIZE + ElementsSize(|s|);
            && low + ContentSize(s, |s|) <= |b|
            && b[PAGE_HEADER_SIZE..low] == Elements(s, |s|)
            && b[low..low + ContentSize(s, |s|)] == Contents(s, |s|)
  {
    hide Elements, Contents, ContentSize, SizeOf, Encode, IsLeafFlag;
  }

  lemma ElementSlice(b: Bytes, s: seq<Inode>, i: nat)
    requires PageHolds(b, s) && i < |s|
    ensures var at := PAGE_HEADER_SIZE + ElementsSize(i);
            at + LEAF_ELEMENT_SIZE <= |b| && b[at..at + LEAF_ELEMENT_SIZE] == ElementBytes(s, i)
  {
    hide PageHolds, Elements, Contents, ContentSize, ElementBytes;
    PageParts(b, s);
    ElementAt(s, i, |s|);
    Sub(b, PAGE_HEADER_SIZE, PAGE_HEADER_SIZE + ElementsSize(|s|), ElementsSize(i), ElementsSize(i + 1));
  }

  lemma FieldOfSlice(b: Bytes, at: nat, e: Bytes, off: nat)
    requires at + LEAF_ELEMENT_SIZE <= |b| && e == b[at..at + LEAF_ELEMENT_SIZE] && off + 4 <= LEAF_ELEMENT_SIZE
    ensures Field(b, at + off) == Field(e, off)
  {
    hide Decode;
    Sub(b, at, at + LEAF_ELEMENT_SIZE, off, off + 4);
  }

  lemma ElementFields(b: Bytes, s: seq<Inode>, i: nat)
    requires PageHolds(b, s) && Encodable(s) && i < |s|
    ensures var at := PAGE_HEADER_SIZE + ElementsSize(i);
            && at + LEAF_ELEMENT_SIZE <= |b|
            && Field(b, at) == s[i].flag && Field(b, at + 4) == KeyOffset(s, i)
            && Field(b, at + 8) == |s[i].key| && Field(b, at + 12) == |s[i].value|
  {
    hide PageHolds, Encodable, ElementBytes, Field, KeyOffset;
    var at, e := PAGE_HEADER_SIZE + ElementsSize(i), ElementBytes(s, i);
    ElementSlice(b, s, i);
    FieldsOfElement(s, i);
    FieldOfSlice(b, at, e, 0);
    FieldOfSlice(b, at, e, 4);
    FieldOfSlice(b, at, e, 8);
    FieldOfSlice(b, at, e, 12);
  }

  lemma ElementContent(b: Bytes, s: seq<Inode>, i: nat)
    requires PageHolds(b, s) && i < |s|
    ensures var pos := PAGE_HEADER_SIZE + ElementsSize(i) + KeyOffset(s, i);
            && pos + |s[i].key| + |s[i].value| <= |b|
            && b[pos..pos + |s[i].key|] == s[i].key
            && b[pos + |s[i].key|..pos + |s[i].key| + |s[i].value|] == s[i].value
  {
    hide PageHolds, Elements, Contents, ContentSize;
    var n, c := |s|, ContentSize(s, i);
    var low, high := PAGE_HEADER_SIZE + ElementsSize(n), PAGE_HEADER_SIZE + ElementsSize(n) + ContentSize(s, n);
    PageParts(b, s);
    ContentAt(s, i, n);
    Sub(b, low, high, c, c + |s[i].key|);
    Sub(b, low, high, c + |s[i].key|, c + |s[i].key| + |s[i].value|);
  }

  // ----- Node::write and Node::read of a leaf, at an offset of a buffer -----

  /** What `read` keeps of an inode of a leaf. */
  function Stored(n: Inode): Inode {
    n.(pageId := 0)
  }

  ghost function StoredAll(s: seq<Inode>): seq<Inode> {
    seq(|s|, i requires 0 <= i < |s| => Stored(s[i]))
  }

  method ReadElement(b: Bytes, i: nat, ghost s: seq<Inode>) returns (n: Inode)
    requires PageHolds(b, s) && Encodable(s) && i < |s|
    ensures n == Stored(s[i])
  {
    ElementLeads(b, s, i);
    var at := PAGE_HEADER_SIZE + ElementsSize(i);
    var pos, ksize, vsize := at + Field(b, at + 4), Field(b, at + 8), Field(b, at + 12);
    n := Inode(Field(b, at), 0, b[pos..pos + ksize], b[pos + ksize..pos + ksize + vsize]);
  }

  /** `b`: the bytes of the page. The source asserts that the first key is not empty. */
  method ReadLeaf(b: Bytes, ghost s: seq<Inode>) returns (r: seq<Inode>)
    requires PageHolds(b, s) && Encodable(s)
    requires s != [] ==> s[0].key != []
    ensures r == StoredAll(s)
    ensures |r| == |s| && forall i :: 0 <= i < |s| ==>
              r[i].flag == s[i].flag && r[i].key == s[i].key && r[i].value == s[i].value
  {
    var count := ReadCount(b, s);
    hide PageHolds, Encodable;
    r := [];
    for i := 0 to count
      invariant r == StoredAll(s[..i])
    {
      var n := ReadElement(b, i, s);
      r := r + [n];
    }
    assert s[..count] == s;
    assert r != [] ==> r[0].key != [];
  }

  method ReadCount(b: Bytes, ghost s: seq<Inode>) returns (count: nat)
    requires PageHolds(b, s) && Encodable(s)
    ensures count == |s|
  {
    Pow256Values();
    CodecRoundTrip(|s|, 2);
    count := Decode(b[10..12]);
  }

  /** Byte `k` of the region between the header and the end of the page. */
  ghost function ImageByte(s: seq<Inode>, k: nat): byte
    requires k < ElementsSize(|s|) + ContentSize(s, |s|)
  {
    if k < ElementsSize(|s|) then Elements(s, |s|)[k] else Contents(s, |s|)[k - ElementsSize(|s|)]
  }

  /** Offset `k` belongs to one of the first `i` elements, or to their keys and values. */
  ghost predicate Reached(s: seq<Inode>, i: nat, k: nat)
    requires i <= |s|
  {
    k < ElementsSize(i) || ElementsSize(|s|) <= k < ElementsSize(|s|) + ContentSize(s, i)
  }

  /** After `i` inodes: what was reached shows the image, what lies outside the image is untouched. */
  ghost predicate Written(b: Bytes, was: Bytes, start: nat, s: seq<Inode>, i: nat)
    requires i <= |s|
  {
    var size := ElementsSize(|s|) + ContentSize(s, |s|);
    && |b| == |was| && start + size <= |b|
    && (forall k :: 0 <= k < size && Reached(s, i, k) ==> b[start + k] == ImageByte(s, k))
    && (forall k :: 0 <= k < |b| && !(start <= k < start + size) ==> b[k] == was[k])
  }

  /** The bytes that inode `i` adds, at their offsets. */
  lemma InodeImage(s: seq<Inode>, i: nat)
    requires i < |s|
    ensures var at, kv := ElementsSize(|s|) + ContentSize(s, i), s[i].key + s[i].value;
            && at + |kv| == ElementsSize(|s|) + ContentSize(s, i + 1) <= ElementsSize(|s|) + ContentSize(s, |s|)
            && (forall k :: ElementsSize(i) <= k < ElementsSize(i + 1) ==> ImageByte(s, k) == ElementBytes(s, i)[k - ElementsSize(i)])
            && (forall k :: at <= k < at + |kv| ==> ImageByte(s, k) == kv[k - at])
  {
    ContentGrows(s, i + 1, |s|);
    ElementAt(s, i, |s|);
    ContentAt(s, i, |s|);
    ElementImage(s, i);
    ContentImage(s, i);
  }

  lemma ElementImage(s: seq<Inode>, i: nat)
    requires i < |s|
    requires Elements(s, |s|)[ElementsSize(i)..ElementsSize(i + 1)] == ElementBytes(s, i)
    ensures forall k :: ElementsSize(i) <= k < ElementsSize(i + 1) ==> ImageByte(s, k) == ElementBytes(s, i)[k - ElementsSize(i)]
  {
    hide Elements, ElementBytes, Contents, ContentSize;
    forall k | ElementsSize(i) <= k < ElementsSize(i + 1) ensures ImageByte(s, k) == ElementBytes(s, i)[k - ElementsSize(i)] {
      assert Elements(s, |s|)[ElementsSize(i)..ElementsSize(i + 1)][k - ElementsSize(i)] == Elements(s, |s|)[k];
    }
  }

  lemma ContentImage(s: seq<Inode>, i: nat)
    requires i < |s|
    requires var c := ContentSize(s, i);
             && c + |s[i].key| + |s[i].value| <= ContentSize(s, |s|)
             && Contents(s, |s|)[c..c + |s[i].key|] == s[i].key
             && Contents(s, |s|)[c + |s[i].key|..c + |s[i].key| + |s[i].value|] == s[i].value
    ensures var at, kv := ElementsSize(|s|) + ContentSize(s, i), s[i].key + s[i].value;
            forall k :: at <= k < at + |kv| ==> ImageByte(s, k) == kv[k - at]
  {
    hide Contents, ContentSize, Elements;
    var c, all := ContentSize(s, i), Contents(s, |s|);
    var at, kv, mid := ElementsSize(|s|) + c, s[i].key + s[i].value, |s[i].key|;
    forall k | at <= k < at + |kv| ensures ImageByte(s, k) == kv[k - at] {
      var j := k - at;
      if j < mid {
        assert all[c..c + mid][j] == all[c + j];
      } else {
        assert all[c + mid..c + |kv|][j - mid] == all[c + j];
      }
    }
  }

  /** The buffer once inode `i` is written too. */
  ghost function WithInode(b: Bytes, start: nat, s: seq<Inode>, i: nat): Bytes
    requires i < |s| && start + ElementsSize(i) + LEAF_ELEMENT_SIZE <= |b|
    requires start + ElementsSize(|s|) + ContentSize(s, i) + |s[i].key + s[i].value| <= |b|
  {
    var m := Splice(b, start + ElementsSize(i), ElementBytes(s, i));
    Splice(m, start + ElementsSize(|s|) + ContentSize(s, i), s[i].key + s[i].value)
  }

  lemma WithInodeBytes(b: Bytes, start: nat, s: seq<Inode>, i: nat)
    requires i < |s| && start + ElementsSize(|s|) + ContentSize(s, |s|) <= |b|
    ensures ContentSize(s, i) + |s[i].key + s[i].value| == ContentSize(s, i + 1) <= ContentSize(s, |s|)
    ensures var size, r := ElementsSize(|s|) + ContentSize(s, |s|), WithInode(b, start, s, i);
            && |r| == |b|
            && (forall k :: 0 <= k < size && Reached(s, i + 1, k) ==>
                  r[start + k] == if Reached(s, i, k) then b[start + k] else ImageByte(s, k))
            && (forall k :: 0 <= k < |b| && !(start <= k < start + size) ==> r[k] == b[k])
  {
    InodeImage(s, i);
    hide Contents, ContentSize, Elements, ElementBytes, ImageByte;
    var at, kv := start + ElementsSize(|s|) + ContentSize(s, i), s[i].key + s[i].value;
    SpliceBytes(b, start + ElementsSize(i), ElementBytes(s, i));
    SpliceBytes(Splice(b, start + ElementsSize(i), ElementBytes(s, i)), at, kv);
    hide Splice;
  }

  /** Writing inode `i`'s bytes extends what was reached by exactly that inode. */
  lemma WrittenStep(b: Bytes, was: Bytes, start: nat, s: seq<Inode>, i: nat)
    requires i < |s| && Written(b, was, start, s, i)
    ensures start + ElementsSize(|s|) + ContentSize(s, |s|) <= |b|
    ensures ContentSize(s, i) + |s[i].key + s[i].value| == ContentSize(s, i + 1) <= ContentSize(s, |s|)
    ensures Written(WithInode(b, start, s, i), was, start, s, i + 1)
  {
    WithInodeBytes(b, start, s, i);
    hide Contents, ContentSize, Elements, ElementBytes, ImageByte, WithInode, Reached;
  }

  /** One round of the write loop: the element, the key, the value. */
  method WriteInode(buf: array<byte>, base: nat, s: seq<Inode>, i: nat, content: nat, ghost was: Bytes)
    requires i < |s| && Written(buf[..], was, base + PAGE_HEADER_SIZE, s, i)
    requires content == base + PAGE_HEADER_SIZE + ElementsSize(|s|) + ContentSize(s, i)
    modifies buf
    ensures Written(buf[..], was, base + PAGE_HEADER_SIZE, s, i + 1)
  {
    hide Written, Splice;
    WrittenStep(buf[..], was, base + PAGE_HEADER_SIZE, s, i);
    var item := base + PAGE_HEADER_SIZE + ElementsSize(i);
    assert content - item == KeyOffset(s, i);
    Copy(buf, item, Encode(s[i].flag, 4) + Encode(content - item, 4) + Encode(|s[i].key|, 4) + Encode(|s[i].value|, 4));
    SpliceTwice(buf[..], content, s[i].key, s[i].value);
    Copy(buf, content, s[i].key);
    Copy(buf, content + |s[i].key|, s[i].value);
  }

  /** Flag and count of the page header; id and overflow stay. */
  method WriteHeader(buf: array<byte>, base: nat, n: nat)
    requires base + PAGE_HEADER_SIZE <= buf.Length
    modifies buf
    ensures IsLeafFlag(buf[base + 8]) && buf[base + 10..base + 12] == Encode(n, 2)
    ensures buf[base + 8] == SetLeafFlag(old(buf[base + 8])) && buf[base + 9] == old(buf[base + 9])
    ensures forall k :: 0 <= k < buf.Length && !(base + 8 <= k < base + 12) ==> buf[k] == old(buf[k])
  {
    buf[base + 8] := SetLeafFlag(buf[base + 8]);
    var count := Encode(n, 2);
    buf[base + 10], buf[base + 11] := count[0], count[1];
  }

  /** `Node::write` of a leaf to the page at `base`: exactly `size()` bytes, id and overflow untouched. */
  method WriteLeaf(buf: array<byte>, base: nat, s: seq<Inode>)
    requires |s| <= MAX_INODES && base + SizeOf(true, s) <= buf.Length
    modifies buf
    ensures PageHolds(buf[base..], s)
    ensures forall k :: 0 <= k < base + 8 || base + 12 <= k < base + 16 || base + SizeOf(true, s) <= k < buf.Length ==>
              buf[k] == old(buf[k])
    ensures buf[base + 8] == SetLeafFlag(old(buf[base + 8])) && buf[base + 9] == old(buf[base + 9])
    ensures buf[base + 8] as nat / 2 % 2 == 1 && buf[base + 10] as nat + 256 * buf[base + 11] as nat == |s|
  {
    LeafLayout(s);
    WriteHeader(buf, base, |s|);
    ghost var was := buf[..];
    var content := base + PAGE_HEADER_SIZE + ElementsSize(|s|);
    for i := 0 to |s|
      invariant content == base + PAGE_HEADER_SIZE + ElementsSize(|s|) + ContentSize(s, i)
      invariant Written(buf[..], was, base + PAGE_HEADER_SIZE, s, i)
    {
      WriteInode(buf, base, s, i, content, was);
      content := content + |s[i].key| + |s[i].value|;
    }
    WrittenHolds(buf[..], was, base, s);
    assert buf[base..] == buf[..][base..];
    CountBytes(buf[base + 10..base + 12], |s|);
  }

  lemma CountBytes(b: Bytes, n: nat)
    requires b == Encode(n, 2) && n < 0x1_0000
    ensures b[0] as nat + 256 * b[1] as nat == n
  {
    Pow256Values();
    CodecRoundTrip(n, 2);
    assert Decode(b) == b[0] as nat + 256 * Decode(b[1..]) && Decode(b[1..]) == b[1] as nat + 256 * Decode(b[1..][1..]);
    assert b[1..][1..] == [];
  }

  lemma LeafLayout(s: seq<Inode>)
    ensures SizeOf(true, s) == PAGE_HEADER_SIZE + ElementsSize(|s|) + ContentSize(s, |s|)
  {
    assert s[..|s|] == s;
    SizeIsLayout(s, |s|);
  }

  lemma WrittenElements(b: Bytes, was: Bytes, base: nat, s: seq<Inode>)
    requires Written(b, was, base + PAGE_HEADER_SIZE, s, |s|)
    ensures base + PAGE_HEADER_SIZE + ElementsSize(|s|) <= |b|
    ensures b[base..][PAGE_HEADER_SIZE..PAGE_HEADER_SIZE + ElementsSize(|s|)] == Elements(s, |s|)
  {
    hide Contents, ContentSize, Elements;
    var page, start, mid := b[base..], base + PAGE_HEADER_SIZE, ElementsSize(|s|);
    forall k | 0 <= k < mid ensures page[PAGE_HEADER_SIZE..PAGE_HEADER_SIZE + mid][k] == Elements(s, |s|)[k] {
      assert page[PAGE_HEADER_SIZE + k] == b[start + k];
      assert Reached(s, |s|, k);
    }
  }

  lemma WrittenContents(b: Bytes, was: Bytes, base: nat, s: seq<Inode>)
    requires Written(b, was, base + PAGE_HEADER_SIZE, s, |s|)
    ensures var low := PAGE_HEADER_SIZE + ElementsSize(|s|);
            && base + low + ContentSize(s, |s|) <= |b|
            && b[base..][low..low + ContentSize(s, |s|)] == Contents(s, |s|)
  {
    hide Contents, ContentSize, Elements;
    var page, start, mid := b[base..], base + PAGE_HEADER_SIZE, ElementsSize(|s|);
    var low := PAGE_HEADER_SIZE + mid;
    forall k | 0 <= k < ContentSize(s, |s|) ensures page[low..low + ContentSize(s, |s|)][k] == Contents(s, |s|)[k] {
      assert page[low + k] == b[start + (mid + k)];
      assert Reached(s, |s|, mid + k);
    }
  }

  /** Once all inodes are written the page holds them. */
  lemma WrittenHolds(b: Bytes, was: Bytes, base: nat, s: seq<Inode>)
    requires Written(b, was, base + PAGE_HEADER_SIZE, s, |s|)
    requires IsLeafFlag(was[base + 8]) && was[base + 10..base + 12] == Encode(|s|, 2)
    ensures base <= |b| && PageHolds(b[base..], s)
  {
    hide Contents, ContentSize, Elements, Encode, SizeOf, IsLeafFlag, Reached, ImageByte;
    LeafLayout(s);
    WrittenElements(b, was, base, s);
    WrittenContents(b, was, base, s);
    assert b[base..][10..12] == was[base + 10..base + 12];
  }

  // ----- Inline buckets -----

  /** A leaf is inlineable when it holds no bucket and takes at most `limit` bytes. */
  ghost predicate Inlineable(s: seq<Inode>, limit: nat) {
    (forall i :: 0 <= i < |s| ==> s[i].flag % 2 != BUCKET_LEAF_FLAG) && (s == [] || SizeOf(true, s) <= limit)
  }

  method IsInlineable(s: seq<Inode>, limit: nat) returns (ok: bool)
    ensures ok <==> Inlineable(s, limit)
    ensures ok <==> (forall i :: 0 <= i < |s| ==> s[i].flag % 2 == 0) && (s == [] || SizeOf(true, s) <= limit)
  {
    var size := PAGE_HEADER_SIZE;
    for i := 0 to |s|
      invariant size == SizeOf(true, s[..i])
      invariant forall k :: 0 <= k < i ==> s[k].flag % 2 != BUCKET_LEAF_FLAG
      invariant i > 0 ==> size <= limit
    {
      SizeStep(true, s, i);
      SizeGrows(true, s, i + 1, |s|);
      assert s[..|s|] == s;
      size := size + LEAF_ELEMENT_SIZE + |s[i].key| + |s[i].value|;
      if s[i].flag % 2 == BUCKET_LEAF_FLAG {
        return false;
      }
      if size > limit {
        return false;
      }
    }
    assert s[..|s|] == s;
    return true;
  }

  /** A bucket value: root page and sequence, and for an inline bucket its page behind them. */
  ghost predicate BucketHolds(value: Bytes, root: nat, sequence: nat, s: seq<Inode>) {
    && |value| == BUCKET_HEADER_SIZE + SizeOf(true, s)
    && value[0..8] == Encode(root, 8) && value[8..16] == Encode(sequence, 8)
    && PageHolds(value[BUCKET_HEADER_SIZE..], s)
  }

  /** `Bucket::write`: header and leaf page in one string. */
  method WriteBucket(root: nat, sequence: nat, s: seq<Inode>) returns (value: Bytes)
    requires |s| <= MAX_INODES
    ensures BucketHolds(value, root, sequence, s)
  {
    var size := MeasureInodes(true, s);
    var length := BUCKET_HEADER_SIZE + size;
    LeafLayout(s);
    var buf := new byte[length](_ => 0);
    var header := Encode(root, 8) + Encode(sequence, 8);
    Copy(buf, 0, header);
    SpliceBytes(seq(length, _ => 0), 0, header);
    ghost var b := buf[..];
    WriteLeaf(buf, BUCKET_HEADER_SIZE, s);
    assert buf[..16] == header by {
      assert forall k :: 0 <= k < 16 ==> buf[k] == b[k] == header[k];
    }
    value := buf[..];
    assert value[BUCKET_HEADER_SIZE..] == buf[BUCKET_HEADER_SIZE..];
    assert value[0..8] == header[0..8] && value[8..16] == header[8..16];
  }

  /** `Remote`: the root is a page of its own. `Dangling`: the inline page is a pointer into a value that is gone. */
  datatype Opened = Remote | Inline(inodes: seq<Inode>) | Dangling

  /** `Bucket::openBucket` and reading its root node. `onPage`: the cursor found the value on a page, not in a cached
      node; only then does the inline page stay where it is read later. */
  method OpenBucket(value: Bytes, onPage: bool, ghost root: nat, ghost sequence: nat, ghost s: seq<Inode>)
    returns (root': nat, sequence': nat, result: Opened)
    requires BucketHolds(value, root, sequence, s) && Encodable(s)
    requires root < Pow256(8) && sequence < Pow256(8)
    requires s != [] ==> s[0].key != []
    ensures root' == root && sequence' == sequence
    ensures result == if root != 0 then Remote else if onPage then Inline(StoredAll(s)) else Dangling
  {
    CodecRoundTrip(root, 8);
    CodecRoundTrip(sequence, 8);
    root', sequence' := Decode(value[0..8]), Decode(value[8..16]);
    result := Remote;
    if root' == 0 {
      if onPage {
        var r := ReadLeaf(value[BUCKET_HEADER_SIZE..], s);
        result := Inline(r);
      } else {
        result := Dangling;
      }
    }
  }

  /** The inline branch of `Bucket::spill`: an inlineable child is freed, its root becomes 0, and it is written inline. */
  method SpillInline(root: nat, sequence: nat, s: seq<Inode>) returns (value: Option<Bytes>)
    requires |s| <= MAX_INODES
    ensures value.Some? <==> Inlineable(s, MAX_INLINE_SIZE)
    ensures value.Some? ==> BucketHolds(value.value, 0, sequence, s)
    ensures value.Some? ==> |value.value| <= BUCKET_HEADER_SIZE + MAX_INLINE_SIZE
  {
    var ok := IsInlineable(s, MAX_INLINE_SIZE);
    if !ok {
      return None;
    }
    var freed := 0;
    var v := WriteBucket(freed, sequence, s);
    assert s == [] ==> SizeOf(true, s) == PAGE_HEADER_SIZE;
    return Some(v);
  }

  /** A bucket that was judged inlineable reopens, when found on a page, with the inodes it was written with. */
  method InlineRoundTrip(root: nat, sequence: nat, s: seq<Inode>, onPage: bool) returns (result: Opened)
    requires |s| <= MAX_INODES && Inlineable(s, MAX_INLINE_SIZE)
    requires sequence < Pow256(8) && forall i :: 0 <= i < |s| ==> s[i].flag < UINT32_LIMIT
    requires s != [] ==> s[0].key != []
    ensures result == if onPage then Inline(StoredAll(s)) else Dangling
  {
    var value := SpillInline(root, sequence, s);
    var root', sequence';
    root', sequence', result := OpenBucket(value.value, onPage, 0, sequence, s);
  }
}
