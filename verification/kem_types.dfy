/**
 The KEM messages of the PKINIT extension: the `kemInfo` arm of PA-PK-AS-REP,
 the PA-PK-AS-REQ-Hint, and the context that the KEM key derivation is bound to.
 */
module KemTypes {
  import opened Wrappers
  import opened Der

  /* ----- KEMRepInfo and its EXPLICIT [2] wrapper ----- */

  const KEM_REP_TAG: byte := 0xA2

  predicate IsKemRep(paRep: Bytes) {
    paRep != [] && paRep[0] == KEM_REP_TAG
  }

  /** KEMRepInfo ::= SEQUENCE { kemSignedData [0] IMPLICIT OCTET STRING, ... } */
  function KemRepInfoDer(kemSignedData: Bytes): (der: Bytes)
    requires |kemSignedData| < 0x8000_0000_0000_0000
    ensures |kemSignedData| < |der| < USIZE_LIMIT
  {
    TlvSize(0x80, kemSignedData);
    TlvSize(0x30, Tlv(0x80, kemSignedData));
    Tlv(0x30, Tlv(0x80, kemSignedData))
  }

  function DecodeKemRepInfo(der: Bytes): Fallible<Bytes> {
    var outer := Enter(0x30, der);
    if outer.None? then Err(Asn1)
    else
      var inner := Enter(0x80, outer.value);
      if inner.None? then Err(Asn1) else Ok(inner.value)
  }

  /** The bytes `encode_kem_rep_wrapper` puts around an encoded KEMRepInfo. */
  function KemRepWrapper(inner: Bytes): Bytes
    requires |inner| < USIZE_LIMIT
  {
    [KEM_REP_TAG] + LengthOctets(|inner|) + inner
  }

  method EncodeKemRepWrapper(inner: Bytes) returns (out: Bytes)
    requires |inner| < USIZE_LIMIT
    ensures out == KemRepWrapper(inner)
  {
    var buffer := new ByteBuffer();
    buffer.Push(KEM_REP_TAG);
    DerEncodeLength(|inner|, buffer);
    buffer.Extend(inner);
    out := buffer.data;
  }

  function DecodeKemRepContent(paRep: Bytes): Fallible<Bytes> {
    if !IsKemRep(paRep) then Err(Asn1)
    else
      var (len, headerSize) :- ParsedLength(paRep[1..]);
      var start := 1 + headerSize;
      if |paRep| < start + len then Err(Asn1) else Ok(paRep[start..start + len])
  }

  /** The wrapper is read back, whatever follows it, exactly below 2^32 bytes. */
  lemma WrapperRoundTrip(inner: Bytes, suffix: Bytes)
    requires |inner| < USIZE_LIMIT
    ensures |inner| < U32_LIMIT <==> DecodeKemRepContent(KemRepWrapper(inner) + suffix) == Ok(inner)
  {
    var paRep := KemRepWrapper(inner) + suffix;
    assert paRep[1..] == LengthOctets(|inner|) + (inner + suffix);
    ParseEncodedLength(|inner|, inner + suffix);
    if |inner| >= U32_LIMIT && DecodeKemRepContent(paRep).Ok? {
      EncodedLengthShortest(paRep[1..]);
    }
  }

  /** From signed data to the bytes on the wire and back. */
  lemma KemRepRoundTrip(kemSignedData: Bytes)
    requires |kemSignedData| < 0x8000_0000_0000_0000 && |KemRepInfoDer(kemSignedData)| < U32_LIMIT
    ensures var rep := KemRepWrapper(KemRepInfoDer(kemSignedData));
            && IsKemRep(rep)
            && DecodeKemRepContent(rep).Ok?
            && DecodeKemRepInfo(DecodeKemRepContent(rep).value) == Ok(kemSignedData)
  {
    var inner := KemRepInfoDer(kemSignedData);
    TlvSize(0x80, kemSignedData);
    TlvSize(0x30, Tlv(0x80, kemSignedData));
    WrapperRoundTrip(inner, []);
    assert KemRepWrapper(inner) + [] == KemRepWrapper(inner);
    EnterEncoded(0x80, kemSignedData);
    EnterEncoded(0x30, Tlv(0x80, kemSignedData));
  }

  /* ----- PA-PK-AS-REQ-Hint ----- */

  /**
   The library's codec for `SEQUENCE OF AlgorithmIdentifier`; `A` is the type
   of one entry.
   */
  datatype ListCodec<!A> = ListCodec(enc: seq<A> -> Option<Vec>, dec: Bytes -> Option<seq<A>>)

  function HintDer(inner: Bytes): Bytes
    requires |inner| < 0x8000_0000_0000_0000
  {
    UsizeNumeralLength(|inner|);
    var tagged: Bytes := [0xA0] + LengthOctets(|inner|) + inner;
    [0x30] + LengthOctets(|tagged|) + tagged
  }

  method EncodePkinitHint<A>(codec: ListCodec<A>, algorithms: seq<A>) returns (r: Fallible<Bytes>)
    ensures r == if codec.enc(algorithms).None? then Err(Asn1) else Ok(HintDer(codec.enc(algorithms).value))
  {
    if codec.enc(algorithms).None? {
      return Err(Asn1);
    }
    var inner := codec.enc(algorithms).value;
    var tagged := new ByteBuffer();
    tagged.Push(0xA0);
    DerEncodeLength(|inner|, tagged);
    tagged.Extend(inner);
    UsizeNumeralLength(|inner|);
    assert tagged.data == [0xA0] + LengthOctets(|inner|) + inner;
    var buffer := new ByteBuffer();
    buffer.Push(0x30);
    DerEncodeLength(|tagged.data|, buffer);
    buffer.Extend(tagged.data);
    assert buffer.data == [0x30] + LengthOctets(|tagged.data|) + tagged.data;
    r := Ok(buffer.data);
  }

  /** `parse_pkinit_hint`: the advertised list, empty when the field is absent. */
  function ParsePkinitHint<A>(codec: ListCodec<A>, hint: Bytes): Fallible<seq<A>> {
    if hint == [] || hint[0] != 0x30 then Err(Asn1)
    else
      var (outerLen, outerHdr) :- ParsedLength(hint[1..]);
      if |hint| < 1 + outerHdr + outerLen then Err(Asn1)
      else
        var content := hint[1 + outerHdr..1 + outerHdr + outerLen];
        if content == [] || content[0] != 0xA0 then Ok([])
        else
          var (len, hdr) :- ParsedLength(content[1..]);
          if |content| < 1 + hdr + len then Err(Asn1)
          else
            var list := codec.dec(content[1 + hdr..1 + hdr + len]);
            if list.None? then Err(Asn1) else Ok(list.value)
  }

  /** A hint is parsed back to the encoded list, whatever follows it. */
  lemma HintRoundTrip<A>(codec: ListCodec<A>, algorithms: seq<A>, suffix: Bytes)
    requires codec.enc(algorithms).Some? && |codec.enc(algorithms).value| < U32_LIMIT - 6
    requires codec.dec(codec.enc(algorithms).value) == Some(algorithms)
    ensures ParsePkinitHint(codec, HintDer(codec.enc(algorithms).value) + suffix) == Ok(algorithms)
  {
    var inner := codec.enc(algorithms).value;
    TlvSize(0xA0, inner);
    var tagged := Tlv(0xA0, inner);
    TlvSize(0x30, tagged);
    assert HintDer(inner) == Tlv(0x30, tagged);
    TlvLayout(0x30, tagged, suffix);
    TlvLayout(0xA0, inner, []);
    assert tagged + [] == tagged && tagged[0] == 0xA0;
    hide HintDer, Tlv, DerLength, ParsedLength;
  }

  /* ----- PkinitKEMSuppPubInfo ----- */

  const VEC_LIMIT := 0x4000_0000_0000_0000

  /** What the KEM key derivation is bound to. */
  datatype KemContext = KemContext(enctype: i32, asReq: Bytes, kemSignedData: Bytes) {
    /** Far beyond any message: the two strings together fit the address space. */
    predicate Encodable() {
      |asReq| < VEC_LIMIT && |kemSignedData| < VEC_LIMIT
    }
  }

  lemma SuppPubInfoSizes(c: KemContext)
    requires c.Encodable()
    ensures |DerInteger(c.enctype)| <= 4
    ensures |Tlv(0x81, c.asReq)| <= |c.asReq| + 10
    ensures |Tlv(0x82, c.kemSignedData)| <= |c.kemSignedData| + 10
    ensures |Tlv(0x80, DerInteger(c.enctype))| <= 14
  {
    I32IntegerLength(c.enctype);
    UsizeNumeralLength(|DerInteger(c.enctype)|);
    UsizeNumeralLength(|c.asReq|);
    UsizeNumeralLength(|c.kemSignedData|);
  }

  /** The SEQUENCE with IMPLICIT [0], [1], [2] fields used as HKDF `info`. */
  function SuppPubInfoDer(c: KemContext): Bytes
    requires c.Encodable()
  {
    SuppPubInfoSizes(c);
    Tlv(0x30, Tlv(0x80, DerInteger(c.enctype)) + Tlv(0x81, c.asReq) + Tlv(0x82, c.kemSignedData))
  }

  lemma ThreeFields(a0: Bytes, a1: Bytes, a2: Bytes, b0: Bytes, b1: Bytes, b2: Bytes)
    requires |a0| < VEC_LIMIT && |a1| < VEC_LIMIT && |a2| < VEC_LIMIT
    requires |b0| < VEC_LIMIT && |b1| < VEC_LIMIT && |b2| < VEC_LIMIT
    requires Tlv(0x80, a0) + Tlv(0x81, a1) + Tlv(0x82, a2) == Tlv(0x80, b0) + Tlv(0x81, b1) + Tlv(0x82, b2)
    ensures a0 == b0 && a1 == b1 && a2 == b2
  {
    hide Tlv;
    var a, b := Tlv(0x81, a1) + Tlv(0x82, a2), Tlv(0x81, b1) + Tlv(0x82, b2);
    assert Tlv(0x80, a0) + a == Tlv(0x80, a0) + Tlv(0x81, a1) + Tlv(0x82, a2);
    assert Tlv(0x80, b0) + b == Tlv(0x80, b0) + Tlv(0x81, b1) + Tlv(0x82, b2);
    TlvPrefixFree(0x80, a0, a, 0x80, b0, b);
    TlvPrefixFree(0x81, a1, Tlv(0x82, a2), 0x81, b1, Tlv(0x82, b2));
    TlvPrefixFree(0x82, a2, [], 0x82, b2, []);
  }

  /** Unequal contexts never give the same HKDF `info`. */
  lemma SuppPubInfoInjective(a: KemContext, b: KemContext)
    requires a.Encodable() && b.Encodable()
    ensures SuppPubInfoDer(a) == SuppPubInfoDer(b) <==> a == b
  {
    if SuppPubInfoDer(a) == SuppPubInfoDer(b) {
      SuppPubInfoSizes(a);
      SuppPubInfoSizes(b);
      hide Tlv, DerInteger;
      var x := Tlv(0x80, DerInteger(a.enctype)) + Tlv(0x81, a.asReq) + Tlv(0x82, a.kemSignedData);
      var y := Tlv(0x80, DerInteger(b.enctype)) + Tlv(0x81, b.asReq) + Tlv(0x82, b.kemSignedData);
      TlvPrefixFree(0x30, x, [], 0x30, y, []);
      ThreeFields(DerInteger(a.enctype), a.asReq, a.kemSignedData, DerInteger(b.enctype), b.asReq, b.kemSignedData);
      IntegerRoundTrip(a.enctype);
      IntegerRoundTrip(b.enctype);
    }
  }
}
