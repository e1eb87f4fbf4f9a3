/** Little-endian numbers in byte buffers. */
module ByteCodec {
  import opened Keys

  function Pow256(n: nat): nat {
    if n == 0 then 1 else 256 * Pow256(n - 1)
  }

  lemma Pow256Values()
    ensures Pow256(2) == 0x1_0000 && Pow256(4) == 0x1_0000_0000 && Pow256(8) == 0x1_0000_0000_0000_0000
  {
    assert Pow256(4) == 256 * 256 * Pow256(2);
    assert Pow256(6) == 256 * 256 * Pow256(4);
  }

  /** The low `n` bytes of `x`, least significant first. */
  function Encode(x: nat, n: nat): (s: Bytes)
    ensures |s| == n
  {
    if n == 0 then [] else [(x % 256) as byte] + Encode(x / 256, n - 1)
  }

  function Decode(s: Bytes): nat {
    if s == [] then 0 else s[0] as nat + 256 * Decode(s[1..])
  }

  lemma {:induction false} CodecRoundTrip(x: nat, n: nat)
    requires x < Pow256(n)
    ensures Decode(Encode(x, n)) == x
  {
    if n > 0 {
      CodecRoundTrip(x / 256, n - 1);
    }
  }

  /** Each further byte weighs 256 times the one before: the first is the least significant. */
  lemma {:induction false} DecodeAppend(s: Bytes, b: byte)
    ensures Decode(s + [b]) == Decode(s) + b as nat * Pow256(|s|)
  {
    if s == [] {
      assert s + [b] == [b] && [b][1..] == [];
    } else {
      assert (s + [b])[1..] == s[1..] + [b];
      DecodeAppend(s[1..], b);
      Weigh(b as nat, Pow256(|s| - 1));
    }
  }

  lemma Weigh(b: nat, m: nat)
    ensures 256 * (b * m) == b * (256 * m)
  {
  }

  ghost function Splice(b: Bytes, at: nat, s: Bytes): (r: Bytes)
    requires at + |s| <= |b|
    ensures |r| == |b|
  {
    b[..at] + s + b[at + |s|..]
  }

  lemma SpliceBytes(b: Bytes, at: nat, s: Bytes)
    requires at + |s| <= |b|
    ensures forall k :: 0 <= k < |b| ==> Splice(b, at, s)[k] == if at <= k < at + |s| then s[k - at] else b[k]
  {
  }

  lemma SpliceTwice(b: Bytes, at: nat, s: Bytes, t: Bytes)
    requires at + |s| + |t| <= |b|
    ensures Splice(Splice(b, at, s), at + |s|, t) == Splice(b, at, s + t)
  {
    SpliceBytes(b, at, s);
    SpliceBytes(Splice(b, at, s), at + |s|, t);
    SpliceBytes(b, at, s + t);
    hide Splice;
    assert |Splice(Splice(b, at, s), at + |s|, t)| == |Splice(b, at, s + t)|;
  }

  /** `memcpy` of `s` to `buf + at`. */
  method Copy(buf: array<byte>, at: nat, s: Bytes)
    requires at + |s| <= buf.Length
    modifies buf
    ensures buf[..] == Splice(old(buf[..]), at, s)
  {
    for i := 0 to |s|
      invariant forall k :: 0 <= k < buf.Length ==> buf[k] == if at <= k < at + i then s[k - at] else old(buf[k])
    {
      buf[at + i] := s[i];
    }
  }
}
