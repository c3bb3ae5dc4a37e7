/**
 The hand-written DER primitives: definite lengths (X.690 sections 8.1.3 and
 10.1), single TLVs, and minimal INTEGERs (X.690 section 8.3).

 Machine integers are `int` subset types, so that shifts and truncating casts
 are written out as divisions and remainders.
 */
module Der {
  import opened Wrappers

  type byte = x: int | 0 <= x < 256
  type Bytes = seq<byte>

  /** Byte strings the platform can hold. */
  type Vec = s: Bytes | |s| < 0x8000_0000_0000_0000 witness []

  const USIZE_LIMIT := 0x1_0000_0000_0000_0000
  const U32_LIMIT := 0x1_0000_0000

  type usize = x: int | 0 <= x < USIZE_LIMIT
  type i32 = x: int | -0x8000_0000 <= x < 0x8000_0000

  /* ----- Base-256 numerals ----- */

  /** The value of a big-endian numeral; leading zeros are allowed. */
  function FromBigEndian(s: Bytes): (n: nat) {
    if s == [] then 0 else FromBigEndian(s[..|s| - 1]) * 256 + s[|s| - 1]
  }

  /** The numeral of `n` without leading zeros; empty for zero. */
  function ToBigEndian(n: nat): (s: Bytes) {
    if n == 0 then [] else ToBigEndian(n / 256) + [n % 256]
  }

  function Pow256(k: nat): (p: nat)
    ensures p >= 1
  {
    if k == 0 then 1 else 256 * Pow256(k - 1)
  }

  lemma {:induction false} FromToBigEndian(n: nat)
    ensures FromBigEndian(ToBigEndian(n)) == n
    ensures n > 0 ==> ToBigEndian(n) != [] && ToBigEndian(n)[0] > 0
  {
    if n == 0 {
    } else {
      FromToBigEndian(n / 256);
      assert ToBigEndian(n)[..|ToBigEndian(n)| - 1] == ToBigEndian(n / 256);
    }
  }

  lemma {:induction false} ToBigEndianLength(n: nat, k: nat)
    requires n < Pow256(k)
    ensures |ToBigEndian(n)| <= k
  {
    if n == 0 {
    } else {
      assert k > 0;
      ToBigEndianLength(n / 256, k - 1);
    }
  }

  lemma {:induction false} FromBigEndianBound(s: Bytes)
    ensures FromBigEndian(s) < Pow256(|s|)
  {
    if s == [] {
    } else {
      FromBigEndianBound(s[..|s| - 1]);
    }
  }

  /** Leading zeros are all that two numerals of one value can differ in. */
  lemma ToBigEndianShortest(s: Bytes)
    ensures |ToBigEndian(FromBigEndian(s))| <= |s|
  {
    FromBigEndianBound(s);
    ToBigEndianLength(FromBigEndian(s), |s|);
  }

  lemma ToBigEndianInjective(m: nat, n: nat)
    requires ToBigEndian(m) == ToBigEndian(n)
    ensures m == n
  {
    FromToBigEndian(m);
    FromToBigEndian(n);
  }

  /* ----- Lengths ----- */

  lemma UsizeNumeralLength(n: usize)
    ensures |ToBigEndian(n)| <= 8
  {
    assert Pow256(8) == USIZE_LIMIT by {
      assert Pow256(4) == U32_LIMIT;
    }
    ToBigEndianLength(n, 8);
  }

  /** The shortest definite form of a length (X.690 section 10.1). */
  function DerLength(n: usize): (s: Bytes) {
    if n < 128 then [n]
    else
      UsizeNumeralLength(n);
      [128 + |ToBigEndian(n)|] + ToBigEndian(n)
  }

  /** A growable byte buffer: the `&mut Vec<u8>` the encoders push onto. */
  class ByteBuffer {
    var data: Bytes

    constructor ()
      ensures data == []
    {
      data := [];
    }

    method Push(b: byte)
      modifies this
      ensures data == old(data) + [b]
    {
      data := data + [b];
    }

    method Extend(s: Bytes)
      modifies this
      ensures data == old(data) + s
    {
      data := data + s;
    }
  }

  /**
   What `der_encode_length` writes: the shortest form below 2^32, and from
   there on the low 32 bits only.
   */
  function LengthOctets(len: usize): (s: Bytes) {
    if len < U32_LIMIT then DerLength(len)
    else [0x84, len / 0x100_0000 % 256, len / 0x1_0000 % 256, len / 256 % 256, len % 256]
  }

  lemma NumeralOfOne(n: nat)
    requires 0 < n <= 0xFF
    ensures ToBigEndian(n) == [n % 256]
  {
    assert ToBigEndian(n / 256) == [];
  }

  lemma NumeralOfTwo(n: nat)
    requires 0xFF < n <= 0xFFFF
    ensures ToBigEndian(n) == [n / 256 % 256, n % 256]
  {
    NumeralOfOne(n / 256);
  }

  lemma NumeralOfThree(n: nat)
    requires 0xFFFF < n <= 0xFF_FFFF
    ensures ToBigEndian(n) == [n / 0x1_0000 % 256, n / 256 % 256, n % 256]
  {
    NumeralOfTwo(n / 256);
  }

  lemma NumeralOfFour(n: nat)
    requires 0xFF_FFFF < n < U32_LIMIT
    ensures ToBigEndian(n) == [n / 0x100_0000 % 256, n / 0x1_0000 % 256, n / 256 % 256, n % 256]
  {
    NumeralOfThree(n / 256);
  }

  /** The octets of a length, by the number of octets it needs. */
  lemma LengthOctetsBySize(len: usize)
    ensures len < 0x80 ==> LengthOctets(len) == [len]
    ensures 0x80 <= len <= 0xFF ==> LengthOctets(len) == [0x81, len]
    ensures 0xFF < len <= 0xFFFF ==> LengthOctets(len) == [0x82, len / 256 % 256, len % 256]
    ensures 0xFFFF < len <= 0xFF_FFFF ==>
              LengthOctets(len) == [0x83, len / 0x1_0000 % 256, len / 256 % 256, len % 256]
    ensures 0xFF_FFFF < len ==>
              LengthOctets(len)
              == [0x84, len / 0x100_0000 % 256, len / 0x1_0000 % 256, len / 256 % 256, len % 256]
  {
    if 0x80 <= len <= 0xFF {
      NumeralOfOne(len);
    } else if 0xFF < len <= 0xFFFF {
      NumeralOfTwo(len);
    } else if 0xFFFF < len <= 0xFF_FFFF {
      NumeralOfThree(len);
    } else if 0xFF_FFFF < len < U32_LIMIT {
      NumeralOfFour(len);
    }
  }

  method DerEncodeLength(len: usize, out: ByteBuffer)
    modifies out
    ensures out.data == old(out.data) + LengthOctets(len)
  {
    LengthOctetsBySize(len);
    hide LengthOctets;
    if len < 0x80 {
      out.Push(len);
    } else if len <= 0xFF {
      out.Push(0x81);
      out.Push(len);
      assert out.data == old(out.data) + [0x81, len];
    } else if len <= 0xFFFF {
      out.Push(0x82);
      out.Push(len / 256 % 256);
      out.Push(len % 256);
      assert out.data == old(out.data) + [0x82, len / 256 % 256, len % 256];
    } else if len <= 0xFF_FFFF {
      out.Push(0x83);
      out.Push(len / 0x1_0000 % 256);
      out.Push(len / 256 % 256);
      out.Push(len % 256);
      assert out.data == old(out.data) + [0x83, len / 0x1_0000 % 256, len / 256 % 256, len % 256];
    } else {
      out.Push(0x84);
      out.Push(len / 0x100_0000 % 256);
      out.Push(len / 0x1_0000 % 256);
      out.Push(len / 256 % 256);
      out.Push(len % 256);
      assert out.data
          == old(out.data) + [0x84, len / 0x100_0000 % 256, len / 0x1_0000 % 256, len / 256 % 256, len % 256];
    }
  }

  /**
   The length at the front of `data` and the number of bytes it takes, as
   `der_parse_length` reads it: the reserved forms 0x80 and more than four
   length octets are refused, longer-than-necessary forms are not.
   */
  function ParsedLength(data: Bytes): (r: Fallible<(nat, nat)>)
    ensures r.Ok? ==> 1 <= r.value.1 <= |data|
  {
    if data == [] then Err(Asn1)
    else if data[0] < 0x80 then Ok((data[0], 1))
    else
      var n := data[0] - 0x80;
      if n == 0 || n > 4 || |data| < 1 + n then Err(Asn1)
      else Ok((FromBigEndian(data[1..1 + n]), 1 + n))
  }

  lemma {:induction false} Pow256Monotone(j: nat, k: nat)
    requires j <= k
    ensures Pow256(j) <= Pow256(k)
  {
    if j == k {
    } else {
      Pow256Monotone(j, k - 1);
    }
  }

  method DerParseLength(data: Bytes) returns (r: Fallible<(nat, nat)>)
    ensures r == ParsedLength(data)
  {
    if data == [] {
      return Err(Asn1);
    }
    var first := data[0];
    if first < 0x80 {
      return Ok((first, 1));
    }
    var n := first - 0x80;
    if n == 0 || n > 4 || |data| < 1 + n {
      return Err(Asn1);
    }
    var len: usize := 0;
    var k := 0;
    while k < n
      invariant 0 <= k <= n
      invariant len == FromBigEndian(data[1..1 + k])
    {
      FromBigEndianBound(data[1..1 + k]);
      assert Pow256(3) == 0x100_0000;
      Pow256Monotone(k, 3);
      // `checked_shl` drops the bits shifted out; `checked_add` reports overflow.
      var shifted := len * 256 % USIZE_LIMIT;
      if shifted + data[1 + k] >= USIZE_LIMIT {
        return Err(Asn1);
      }
      len := shifted + data[1 + k];
      assert data[1..2 + k][..k] == data[1..1 + k];
      k := k + 1;
    }
    r := Ok((len, 1 + n));
  }

  lemma ParseLongLength(len: usize, suffix: Bytes)
    requires 128 <= len < U32_LIMIT
    ensures ParsedLength(LengthOctets(len) + suffix) == Ok((len, |LengthOctets(len)|))
  {
    assert Pow256(4) == U32_LIMIT;
    ToBigEndianLength(len, 4);
    FromToBigEndian(len);
    var e := LengthOctets(len);
    assert (e + suffix)[1..|e|] == ToBigEndian(len);
    hide ToBigEndian, FromBigEndian, Pow256;
  }

  lemma ParseTruncatedLength(len: usize, suffix: Bytes)
    requires len >= U32_LIMIT
    ensures ParsedLength(LengthOctets(len) + suffix) != Ok((len, |LengthOctets(len)|))
  {
    assert Pow256(4) == U32_LIMIT;
    FromBigEndianBound((LengthOctets(len) + suffix)[1..5]);
    hide ToBigEndian, FromBigEndian, Pow256;
  }

  /**
   Reading back an encoded length, whatever follows it, gives that length and
   its size exactly when the length is below 2^32.
   */
  lemma ParseEncodedLength(len: usize, suffix: Bytes)
    ensures len < U32_LIMIT <==> ParsedLength(LengthOctets(len) + suffix) == Ok((len, |LengthOctets(len)|))
  {
    if len < 128 {
      hide ToBigEndian, FromBigEndian;
    } else if len < U32_LIMIT {
      ParseLongLength(len, suffix);
    } else {
      ParseTruncatedLength(len, suffix);
    }
  }

  /** The encoding is the shortest one the parser takes for that length. */
  lemma EncodedLengthShortest(data: Bytes)
    requires ParsedLength(data).Ok?
    ensures ParsedLength(data).value.0 < U32_LIMIT
    ensures |LengthOctets(ParsedLength(data).value.0)| <= ParsedLength(data).value.1
  {
    if data[0] >= 0x80 {
      var n := data[0] - 0x80;
      var s := data[1..1 + n];
      FromBigEndianBound(s);
      Pow256Monotone(n, 4);
      assert Pow256(4) == U32_LIMIT;
      ToBigEndianShortest(s);
    }
  }

  lemma NumeralNonEmpty(n: nat)
    ensures n > 0 ==> |ToBigEndian(n)| >= 1
  {
  }

  /** Equal strings starting with two shortest-form lengths start with the same one. */
  lemma DerLengthPrefixFree(m: usize, n: usize, x: Bytes, y: Bytes)
    requires DerLength(m) + x == DerLength(n) + y
    ensures m == n && x == y
  {
    var a, b := DerLength(m), DerLength(n);
    assert a[0] == (a + x)[0] == (b + y)[0] == b[0];
    if m < 128 || n < 128 {
      NumeralNonEmpty(m);
      NumeralNonEmpty(n);
      assert m == n;
    } else {
      assert |a| == |b|;
      assert ToBigEndian(m) == (a + x)[1..|a|] == (b + y)[1..|b|] == ToBigEndian(n);
      ToBigEndianInjective(m, n);
    }
    assert x == (a + x)[|a|..] == (b + y)[|b|..] == y;
  }

  /* ----- TLVs with single-byte tags ----- */

  function Tlv(tag: byte, content: Bytes): (s: Bytes)
    requires |content| < USIZE_LIMIT
  {
    [tag] + DerLength(|content|) + content
  }

  lemma TlvSize(tag: byte, content: Bytes)
    requires |content| < USIZE_LIMIT
    ensures |content| + 2 <= |Tlv(tag, content)| <= |content| + 10
    ensures |content| < U32_LIMIT ==> |Tlv(tag, content)| <= |content| + 6
  {
    UsizeNumeralLength(|content|);
    if |content| < U32_LIMIT {
      assert Pow256(4) == U32_LIMIT;
      ToBigEndianLength(|content|, 4);
    }
  }

  datatype Element = Element(tag: byte, content: Bytes, rest: Bytes)

  /** Read one TLV off the front, the way a decoder positioned at `data` does. */
  function ReadTlv(data: Bytes): (r: Option<Element>)
    ensures r.Some? ==> |r.value.rest| < |data| && r.value.rest == data[|data| - |r.value.rest|..]
  {
    if data == [] then None
    else
      var p := ParsedLength(data[1..]);
      if p.Err? || |data| < 1 + p.value.1 + p.value.0 then None
      else
        var start := 1 + p.value.1;
        Some(Element(data[0], data[start..start + p.value.0], data[start + p.value.0..]))
  }

  /** The header and content of an encoded TLV are where the parser looks for them. */
  lemma TlvLayout(tag: byte, content: Bytes, suffix: Bytes)
    requires |content| < U32_LIMIT
    ensures var data := Tlv(tag, content) + suffix;
            && ParsedLength(data[1..]) == Ok((|content|, |DerLength(|content|)|))
            && |data| >= 1 + |DerLength(|content|)| + |content|
            && data[1 + |DerLength(|content|)|..1 + |DerLength(|content|)| + |content|] == content
            && data[1 + |DerLength(|content|)| + |content|..] == suffix
  {
    var data := Tlv(tag, content) + suffix;
    assert data[1..] == LengthOctets(|content|) + (content + suffix);
    ParseEncodedLength(|content|, content + suffix);
  }

  lemma ReadEncodedTlv(tag: byte, content: Bytes, rest: Bytes)
    requires |content| < U32_LIMIT
    ensures ReadTlv(Tlv(tag, content) + rest) == Some(Element(tag, content, rest))
  {
    TlvLayout(tag, content, rest);
  }

  lemma TlvPrefixFree(t: byte, c: Bytes, x: Bytes, t': byte, c': Bytes, x': Bytes)
    requires |c| < USIZE_LIMIT && |c'| < USIZE_LIMIT
    requires Tlv(t, c) + x == Tlv(t', c') + x'
    ensures t == t' && c == c' && x == x'
  {
    hide DerLength, ToBigEndian;
    var w := Tlv(t, c) + x;
    assert w[0] == t && (Tlv(t', c') + x')[0] == t';
    assert w[1..] == DerLength(|c|) + (c + x);
    assert (Tlv(t', c') + x')[1..] == DerLength(|c'|) + (c' + x');
    DerLengthPrefixFree(|c|, |c'|, c + x, c' + x');
    assert c == (c + x)[..|c|] == (c' + x')[..|c|] == c';
    assert x == (c + x)[|c|..] == (c' + x')[|c|..] == x';
  }

  /** The content of a constructed value of the given tag; bytes after it are not looked at. */
  function Enter(tag: byte, data: Bytes): Option<Bytes> {
    var e := ReadTlv(data);
    if e.Some? && e.value.tag == tag then Some(e.value.content) else None
  }

  lemma EnterEncoded(tag: byte, content: Bytes)
    requires |content| < U32_LIMIT
    ensures Enter(tag, Tlv(tag, content)) == Some(content)
  {
    ReadEncodedTlv(tag, content, []);
    assert Tlv(tag, content) + [] == Tlv(tag, content);
  }

  /* ----- INTEGER contents ----- */

  /** Minimal two's complement contents of an INTEGER (X.690 section 8.3.2). */
  function DerInteger(v: int): (s: Bytes)
    ensures s != []
    decreases if v < 0 then -v else v
  {
    if -128 <= v < 128 then [v % 256] else DerInteger(v / 256) + [v % 256]
  }

  function IntegerValue(s: Bytes): int
    requires s != []
  {
    if |s| == 1 then if s[0] < 128 then s[0] else s[0] - 256
    else IntegerValue(s[..|s| - 1]) * 256 + s[|s| - 1]
  }

  lemma {:induction false} IntegerRoundTrip(v: int)
    ensures IntegerValue(DerInteger(v)) == v
    decreases if v < 0 then -v else v
  {
    if -128 <= v < 128 {
    } else {
      IntegerRoundTrip(v / 256);
      assert DerInteger(v)[..|DerInteger(v)| - 1] == DerInteger(v / 256);
    }
  }

  /** No contents of the same value are shorter. */
  lemma {:induction false} IntegerShortest(s: Bytes)
    requires s != []
    ensures |DerInteger(IntegerValue(s))| <= |s|
  {
    if |s| == 1 {
    } else {
      IntegerShortest(s[..|s| - 1]);
      var v := IntegerValue(s);
      assert v / 256 == IntegerValue(s[..|s| - 1]);
    }
  }

  lemma {:induction false} IntegerLength(v: int, k: nat)
    requires -128 * Pow256(k) <= v < 128 * Pow256(k)
    ensures |DerInteger(v)| <= k + 1
    decreases k
  {
    if -128 <= v < 128 {
    } else {
      assert k > 0;
      IntegerLength(v / 256, k - 1);
    }
  }

  lemma I32IntegerLength(v: i32)
    ensures |DerInteger(v)| <= 4
  {
    assert Pow256(3) == 0x100_0000;
    IntegerLength(v, 3);
  }

  /* ----- Nonces ----- */

  /** Nonces sit in `i32` storage but travel as INTEGER (0..4294967295). */
  function EncodeNonce(nonce: i32): int {
    if nonce < 0 then nonce + U32_LIMIT else nonce
  }

  function DecodeNonce(v: int): Fallible<i32> {
    if !(-0x8000_0000_0000_0000 <= v < 0x8000_0000_0000_0000) then Err(Asn1)   // as_i64
    else if !(0 <= v < U32_LIMIT) then Err(Asn1)                               // u32::try_from
    else if v >= 0x8000_0000 then Ok(v - U32_LIMIT)
    else Ok(v)
  }

  /** The two directions are inverse bijections between `i32` and 0..2^32-1. */
  lemma NonceBijection(n: i32, v: int)
    ensures 0 <= EncodeNonce(n) < U32_LIMIT
    ensures DecodeNonce(v) == Ok(n) <==> v == EncodeNonce(n)
    ensures DecodeNonce(v).Err? <==> !(0 <= v < U32_LIMIT)
  {
  }
}
