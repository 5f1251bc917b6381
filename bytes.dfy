/** Conversion between small integers and bytes, kept apart so that the
    solver sees nothing else while proving it. */
module ByteConv {
  lemma ByteOfSmall(r: int)
    requires 0 <= r < 256
    ensures (r as bv8) as int == r
  {
  }
}

/** Byte-level helpers shared by both halves of the boot image codec:
    little-endian unsigned fields, the XOR fold used by the header checksum,
    and the C-string view of a NUL-padded text buffer. */
module Bytes {
  import ByteConv

  /** 256 to the power n: one more than the largest n-byte unsigned value. */
  function Pow256(n: nat): (p: nat)
    ensures p >= 1
  {
    if n == 0 then 1 else 256 * Pow256(n - 1)
  }

  /** The unsigned value of a byte string read least significant byte first. */
  function LeDecode(b: seq<bv8>): (v: nat)
    ensures v < Pow256(|b|)
  {
    if b == [] then 0 else b[0] as nat + 256 * LeDecode(b[1..])
  }

  /** The n-byte little-endian encoding of v (v is reduced modulo 256^n). */
  function LeEncode(v: nat, n: nat): (b: seq<bv8>)
    ensures |b| == n
  {
    if n == 0 then [] else [(v % 256) as bv8] + LeEncode(v / 256, n - 1)
  }

  /** Decoding an encoding gives the value back when it fits in n bytes. */
  lemma {:induction false} DecodeEncode(v: nat, n: nat)
    requires v < Pow256(n)
    ensures LeDecode(LeEncode(v, n)) == v
  {
    if n > 0 {
      var q := v / 256;
      DivStep(v, Pow256(n - 1));
      DecodeEncode(q, n - 1);
      var b := LeEncode(v, n);
      assert b[0] == (v % 256) as bv8;
      ByteConv.ByteOfSmall(v % 256);
      assert b[1..] == LeEncode(q, n - 1);
    }
  }


  lemma DivStep(v: nat, p: nat)
    requires v < 256 * p
    ensures v / 256 < p && v == 256 * (v / 256) + v % 256
  {
  }

  /** Encoding a decoded byte string gives the same bytes back. */
  lemma {:induction false} EncodeDecode(b: seq<bv8>)
    ensures LeEncode(LeDecode(b), |b|) == b
  {
    if b != [] {
      EncodeDecode(b[1..]);
      var v := LeDecode(b);
      assert v % 256 == b[0] as nat && v / 256 == LeDecode(b[1..]);
      assert ((v % 256) as bv8) == b[0];
      assert b == [b[0]] + b[1..];
    }
  }

  /** 2^32: uint32_t arithmetic is taken modulo this. */
  const U32Limit: nat := 0x1_0000_0000

  lemma Pow256Of4()
    ensures Pow256(4) == U32Limit
  {
    assert Pow256(2) == 65536;
  }

  /** A four-byte little-endian uint32_t field. */
  function LeU32(b: seq<bv8>): (v: nat)
    requires |b| == 4
    ensures v < U32Limit
  {
    Pow256Of4();
    LeDecode(b)
  }

  /** The four bytes a little-endian machine stores for the uint32_t v. */
  function U32Le(v: nat): (b: seq<bv8>)
    requires v < U32Limit
    ensures |b| == 4 && LeU32(b) == v
  {
    Pow256Of4();
    DecodeEncode(v, 4);
    LeEncode(v, 4)
  }

  /** A four-byte field is determined by its value. */
  lemma U32LeOfLeU32(b: seq<bv8>)
    requires |b| == 4
    ensures U32Le(LeU32(b)) == b
  {
    EncodeDecode(b);
  }

  /** XOR of all bytes, accumulated from the front as a byte loop does. */
  function Xor(s: seq<bv8>): bv8
  {
    if s == [] then 0 else Xor(s[..|s| - 1]) ^ s[|s| - 1]
  }

  /** Replacing one byte changes the XOR by exactly the old and new byte. */
  lemma {:induction false} XorUpdate(s: seq<bv8>, k: nat, v: bv8)
    requires k < |s|
    ensures Xor(s[k := v]) == Xor(s) ^ s[k] ^ v
  {
    var n := |s| - 1;
    var t := s[k := v];
    if k == n {
      assert t[..n] == s[..n];
    } else {
      assert t[..n] == s[..n][k := v];
      XorUpdate(s[..n], k, v);
    }
  }

  /** What strlen sees in a NUL-padded buffer: the bytes before the first
      NUL, or the whole buffer when it holds none. */
  function CString(s: seq<bv8>): (r: seq<bv8>)
    ensures |r| <= |s| && r == s[..|r|]
    ensures forall i :: 0 <= i < |r| ==> r[i] != 0
    ensures |r| < |s| ==> s[|r|] == 0
  {
    if s == [] || s[0] == 0 then [] else [s[0]] + CString(s[1..])
  }

  /** Text with no NUL in it survives as the front of the C string of any
      buffer that begins with it. */
  lemma {:induction false} CStringKeepsText(text: seq<bv8>, rest: seq<bv8>)
    requires forall i :: 0 <= i < |text| ==> text[i] != 0
    ensures CString(text + rest) == text + CString(rest)
  {
    if text != [] {
      var whole := text + rest;
      assert whole[0] == text[0] && whole[1..] == text[1..] + rest;
      CStringKeepsText(text[1..], rest);
      assert text == [text[0]] + text[1..];
    } else {
      assert text + rest == rest;
    }
  }
}
