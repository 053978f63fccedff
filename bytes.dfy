/** Little-endian byte encodings of the values the allocator stores inside its
    arena: 4-byte two's-complement `int` tags and 8-byte pointer links. */
module Bytes {

  type byte = b: int | 0 <= b < 256

  const INT32_MIN: int := -0x8000_0000
  const INT32_MAX: int := 0x7FFF_FFFF
  const TWO32: int := 0x1_0000_0000
  const TWO64: int := 0x1_0000_0000_0000_0000

  predicate IsInt32(v: int) { INT32_MIN <= v <= INT32_MAX }

  function Pow256(n: nat): (r: nat)
    ensures r > 0
  {
    if n == 0 then 1 else 256 * Pow256(n - 1)
  }

  /** The unsigned number a little-endian byte string denotes. */
  function Unsigned(s: seq<byte>): nat
  {
    if s == [] then 0 else s[0] + 256 * Unsigned(s[1..])
  }

  /** The `n` low-order bytes of `u`, least significant first. */
  function ToBytes(u: nat, n: nat): (s: seq<byte>)
    ensures |s| == n
  {
    if n == 0 then [] else [(u % 256) as byte] + ToBytes(u / 256, n - 1)
  }

  lemma {:induction false} UnsignedBound(s: seq<byte>)
    ensures Unsigned(s) < Pow256(|s|)
  {
    if s != [] {
      UnsignedBound(s[1..]);
    }
  }

  lemma {:induction false} UnsignedOfToBytes(u: nat, n: nat)
    requires u < Pow256(n)
    ensures Unsigned(ToBytes(u, n)) == u
  {
    if n > 0 {
      UnsignedOfToBytes(u / 256, n - 1);
      assert ToBytes(u, n)[1..] == ToBytes(u / 256, n - 1);
    }
  }

  lemma {:induction false} ToBytesOfUnsigned(s: seq<byte>)
    ensures ToBytes(Unsigned(s), |s|) == s
  {
    if s != [] {
      ToBytesOfUnsigned(s[1..]);
      assert Unsigned(s) % 256 == s[0] && Unsigned(s) / 256 == Unsigned(s[1..]);
    }
  }

  lemma {:induction false} UnsignedZero(s: seq<byte>)
    requires Unsigned(s) == 0
    ensures forall k :: 0 <= k < |s| ==> s[k] == 0
  {
    if s != [] {
      UnsignedZero(s[1..]);
      assert forall k :: 1 <= k < |s| ==> s[k] == s[1..][k - 1];
    }
  }

  lemma Pow256Values()
    ensures Pow256(4) == TWO32 && Pow256(8) == TWO64
  {
  }

  /** `*(int *) p = v` */
  function EncodeInt32(v: int): (s: seq<byte>)
    requires IsInt32(v)
    ensures |s| == 4
  {
    ToBytes(if v < 0 then v + TWO32 else v, 4)
  }

  /** `*(int *) p` */
  function DecodeInt32(s: seq<byte>): (v: int)
    requires |s| == 4
    ensures IsInt32(v)
  {
    UnsignedBound(s);
    Pow256Values();
    var u := Unsigned(s);
    if u > INT32_MAX then u - TWO32 else u
  }

  /** `*(node **) p = q` for a pointer value `u` */
  function EncodeU64(u: nat): (s: seq<byte>)
    ensures |s| == 8
  {
    ToBytes(u, 8)
  }

  /** `*(node **) p` */
  function DecodeU64(s: seq<byte>): (u: nat)
    requires |s| == 8
    ensures u < TWO64
  {
    UnsignedBound(s);
    Pow256Values();
    Unsigned(s)
  }

  lemma Int32RoundTrip(v: int)
    requires IsInt32(v)
    ensures DecodeInt32(EncodeInt32(v)) == v
  {
    Pow256Values();
    UnsignedOfToBytes(if v < 0 then v + TWO32 else v, 4);
  }

  lemma Int32BytesRoundTrip(s: seq<byte>)
    requires |s| == 4
    ensures EncodeInt32(DecodeInt32(s)) == s
  {
    Pow256Values();
    UnsignedBound(s);
    ToBytesOfUnsigned(s);
  }

  /** Equal decoded tags come from equal bytes. */
  lemma Int32Injective(s: seq<byte>, t: seq<byte>)
    requires |s| == 4 && |t| == 4 && DecodeInt32(s) == DecodeInt32(t)
    ensures s == t
  {
    Int32BytesRoundTrip(s);
    Int32BytesRoundTrip(t);
  }

  lemma U64RoundTrip(u: nat)
    requires u < TWO64
    ensures DecodeU64(EncodeU64(u)) == u
  {
    Pow256Values();
    UnsignedOfToBytes(u, 8);
  }

  lemma U64BytesRoundTrip(s: seq<byte>)
    requires |s| == 8
    ensures EncodeU64(DecodeU64(s)) == s
  {
    ToBytesOfUnsigned(s);
  }

  /** A NULL link (the value 0) is stored as eight zero bytes. */
  lemma U64ZeroBytes(s: seq<byte>)
    requires |s| == 8 && DecodeU64(s) == 0
    ensures forall k :: 0 <= k < 8 ==> s[k] == 0
  {
    UnsignedZero(s);
  }

  /** `m` with the bytes `e` stored at offset `p`. */
  function Put(m: seq<byte>, p: int, e: seq<byte>): (r: seq<byte>)
    requires 0 <= p && p + |e| <= |m|
    ensures |r| == |m|
    ensures forall q :: 0 <= q < |m| ==> r[q] == if p <= q < p + |e| then e[q - p] else m[q]
  {
    m[..p] + e + m[p + |e|..]
  }

  /** The `int` stored at offset `p`. */
  function Int32At(m: seq<byte>, p: int): int
    requires 0 <= p && p + 4 <= |m|
  {
    DecodeInt32(m[p..p + 4])
  }

  /** The pointer value stored at offset `p`. */
  function U64At(m: seq<byte>, p: int): nat
    requires 0 <= p && p + 8 <= |m|
  {
    DecodeU64(m[p..p + 8])
  }

  /** `m` and `m'` differ at most inside `[lo, hi)`. */
  ghost predicate SameOutside(m: seq<byte>, m': seq<byte>, lo: int, hi: int)
  {
    |m| == |m'| && forall q :: 0 <= q < |m| && (q < lo || hi <= q) ==> m'[q] == m[q]
  }

  lemma Int32AtPut(m: seq<byte>, p: int, v: int)
    requires 0 <= p && p + 4 <= |m| && IsInt32(v)
    ensures Int32At(Put(m, p, EncodeInt32(v)), p) == v
    ensures SameOutside(m, Put(m, p, EncodeInt32(v)), p, p + 4)
  {
    var r := Put(m, p, EncodeInt32(v));
    assert r[p..p + 4] == EncodeInt32(v);
    Int32RoundTrip(v);
  }

  lemma U64AtPut(m: seq<byte>, p: int, u: nat)
    requires 0 <= p && p + 8 <= |m| && u < TWO64
    ensures U64At(Put(m, p, EncodeU64(u)), p) == u
    ensures SameOutside(m, Put(m, p, EncodeU64(u)), p, p + 8)
  {
    var r := Put(m, p, EncodeU64(u));
    assert r[p..p + 8] == EncodeU64(u);
    U64RoundTrip(u);
  }

  /** Reads of bytes that a write did not touch are unchanged. */
  lemma SliceUnchanged(m: seq<byte>, m': seq<byte>, lo: int, hi: int, p: int, n: nat)
    requires SameOutside(m, m', lo, hi)
    requires 0 <= p && p + n <= |m|
    requires p + n <= lo || hi <= p
    ensures m'[p..p + n] == m[p..p + n]
  {
  }

  function Min(a: int, b: int): int { if a < b then a else b }

  /** The arena after the byte loop `for (k = lo; k < hi; k++) d[k] = s[k]`,
      one byte after another, reading each source byte after the stores
      before it. */
  function CopyForward(m: seq<byte>, d: int, s: int, lo: int, hi: int): (r: seq<byte>)
    requires 0 <= lo && 0 <= d && 0 <= s && d + hi <= |m| && s + hi <= |m|
    ensures |r| == |m|
    decreases hi - lo
  {
    if hi <= lo then m
    else
      var r := CopyForward(m, d, s, lo, hi - 1);
      r[d + hi - 1 := r[s + hi - 1]]
  }

  /** The byte loop stores only into `d + lo` up to `d + hi`. */
  lemma {:induction false} CopyForwardFrame(m: seq<byte>, d: int, s: int, lo: int, hi: int)
    requires 0 <= lo && 0 <= d && 0 <= s && d + hi <= |m| && s + hi <= |m|
    ensures SameOutside(m, CopyForward(m, d, s, lo, hi), d + lo, d + hi)
    decreases hi - lo
  {
    if lo < hi {
      CopyForwardFrame(m, d, s, lo, hi - 1);
    }
  }

  /** Copying towards lower addresses (or between disjoint ranges) byte by
      byte moves the source bytes unchanged and touches nothing else. */
  lemma {:induction false} CopyForwardMoves(m: seq<byte>, d: int, s: int, lo: int, hi: int)
    requires 0 <= lo && 0 <= d && 0 <= s && d + hi <= |m| && s + hi <= |m|
    requires d <= s || d + hi <= s + lo || s + hi <= d + lo
    ensures forall q :: d + lo <= q < d + hi ==> CopyForward(m, d, s, lo, hi)[q] == m[q - d + s]
    ensures forall q :: 0 <= q < |m| && !(d + lo <= q < d + hi) ==> CopyForward(m, d, s, lo, hi)[q] == m[q]
    decreases hi - lo
  {
    if lo < hi {
      CopyForwardMoves(m, d, s, lo, hi - 1);
      var r := CopyForward(m, d, s, lo, hi - 1);
      assert r[s + hi - 1] == m[s + hi - 1] by {
        if d + lo <= s + hi - 1 < d + hi - 1 {
          assert false;
        }
      }
    }
  }
}
