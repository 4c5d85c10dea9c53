/** Little-endian integer fields as Python's `int.from_bytes(buf[lo:hi], "little")`
    reads them, together with the matching encoders. */
module LittleEndian {
  import opened Types

  function Pow256(n: nat): (p: nat)
    ensures p >= 1
  {
    if n == 0 then 1 else 256 * Pow256(n - 1)
  }

  /** Half the range of an `n`-byte field: the weight of its sign bit when signed. */
  function Half(n: nat): (h: int)
    ensures n > 0 ==> h >= 128 && h + h == Pow256(n)
  {
    if n == 0 then 0 else 128 * Pow256(n - 1)
  }

  /** Python's `buf[lo:hi]` for `0 <= lo <= hi`: bounds past the end are clipped,
      so a short buffer gives a shorter, possibly empty, slice and never an error. */
  function Slice(buf: seq<Byte>, lo: nat, hi: nat): (s: seq<Byte>)
    requires lo <= hi
    ensures |s| == (if hi <= |buf| then hi - lo else if lo <= |buf| then |buf| - lo else 0)
    ensures forall i :: 0 <= i < |s| ==> s[i] == buf[lo + i]
  {
    if hi <= |buf| then buf[lo..hi] else if lo <= |buf| then buf[lo..] else []
  }

  /** `int.from_bytes(s, "little")`: the first byte is the least significant;
      the empty sequence reads as 0. */
  function Unsigned(s: seq<Byte>): (v: nat)
    ensures v < Pow256(|s|)
    ensures |s| > 0 ==> v % 256 == s[0]
  {
    if |s| == 0 then 0 else s[0] + 256 * Unsigned(s[1..])
  }

  /** `int.from_bytes(s, "little", signed=True)`: two's complement over 8 * |s| bits. */
  function Signed(s: seq<Byte>): (v: int)
    ensures |s| == 0 ==> v == 0
    ensures |s| > 0 ==> -Half(|s|) <= v < Half(|s|)
    ensures v == Unsigned(s) || v == Unsigned(s) - Pow256(|s|)
  {
    var u := Unsigned(s);
    if |s| > 0 && u >= Half(|s|) then u - Pow256(|s|) else u
  }

  /** 256^m grows with m. */
  lemma {:induction false} Pow256Monotone(m: nat, n: nat)
    requires m <= n
    ensures Pow256(m) <= Pow256(n)
  {
    if m < n {
      Pow256Monotone(m, n - 1);
    }
  }

  /** A field read from at most `n` bytes lies in the unsigned and in the
      two's complement range of an `n`-byte field. */
  lemma FieldBounds(s: seq<Byte>, n: nat)
    requires 0 < n && |s| <= n
    ensures Unsigned(s) < Pow256(n)
    ensures -Half(n) <= Signed(s) < Half(n)
  {
    Pow256Monotone(|s|, n);
  }

  lemma UnsignedTwo(s: seq<Byte>)
    requires |s| == 2
    ensures Unsigned(s) == s[0] + 0x100 * (s[1] as int)
  {
    assert s[1..][1..] == [];
  }

  lemma UnsignedFour(s: seq<Byte>)
    requires |s| == 4
    ensures Unsigned(s) == s[0] + 0x100 * (s[1] as int) + 0x1_0000 * (s[2] as int) + 0x100_0000 * (s[3] as int)
  {
    var t := s[1..];
    assert t[1..][1..][1..] == [];
    assert Unsigned(t) == t[0] + 0x100 * (t[1] as int) + 0x1_0000 * (t[2] as int);
  }

  /** A four-byte signed field: the top bit of the last byte is worth -2^31. */
  lemma SignedFour(s: seq<Byte>)
    requires |s| == 4
    ensures Signed(s) == s[0] + 0x100 * (s[1] as int) + 0x1_0000 * (s[2] as int) + 0x100_0000 * (s[3] as int)
                         - (if s[3] >= 0x80 then 0x1_0000_0000 else 0)
  {
    UnsignedFour(s);
    assert Half(4) == 0x8000_0000 && Pow256(4) == 0x1_0000_0000;
  }

  /** The `n`-byte little-endian encoding of `v` (`v.to_bytes(n, "little")`). */
  function Encode(v: nat, n: nat): (s: seq<Byte>)
    requires v < Pow256(n)
    ensures |s| == n
  {
    if n == 0 then [] else [v % 256] + Encode(v / 256, n - 1)
  }

  /** The `n`-byte two's complement encoding of `v` (`v.to_bytes(n, "little", signed=True)`). */
  function EncodeSigned(v: int, n: nat): (s: seq<Byte>)
    requires n > 0 && -Half(n) <= v < Half(n)
    ensures |s| == n
  {
    Encode(if v < 0 then v + Pow256(n) else v, n)
  }

  /** Reading back an encoded value gives the value. */
  lemma {:induction false} UnsignedEncode(v: nat, n: nat)
    requires v < Pow256(n)
    ensures Unsigned(Encode(v, n)) == v
  {
    if n > 0 {
      var s := Encode(v, n);
      assert s[1..] == Encode(v / 256, n - 1);
      UnsignedEncode(v / 256, n - 1);
    }
  }

  /** Re-encoding a read value gives the bytes back: no two byte strings of one
      length read as the same number. */
  lemma {:induction false} EncodeUnsigned(s: seq<Byte>)
    ensures Encode(Unsigned(s), |s|) == s
  {
    if |s| > 0 {
      var u := Unsigned(s[1..]);
      assert Unsigned(s) == s[0] + 256 * u;
      assert Unsigned(s) % 256 == s[0];
      assert Unsigned(s) / 256 == u;
      EncodeUnsigned(s[1..]);
    }
  }

  lemma SignedEncodeSigned(v: int, n: nat)
    requires n > 0 && -Half(n) <= v < Half(n)
    ensures Signed(EncodeSigned(v, n)) == v
  {
    UnsignedEncode(if v < 0 then v + Pow256(n) else v, n);
  }
}
