/**
 CMS SignedData as this library builds and checks it (section 5 of RFC 5652):
 the signed attributes and the certificate list at byte level, the outer
 structures through the ASN.1 library's codecs.
 */
module Cms {
  import opened Wrappers
  import opened Der
  import opened Algorithms

  /** Object identifier contents and digests: far below any length limit. */
  type ShortBytes = s: Bytes | |s| < 0x1_0000 witness []

  datatype HashName = Sha1 | Sha256 | Sha384 | Sha512

  datatype CertInfo = CertInfo(issuer: Bytes, serial: Bytes, spki: Bytes, keyOid: Oid)

  datatype SignerId = SignerId(issuer: Bytes, serial: Bytes)

  datatype SignerInfo = SignerInfo(sid: Bytes, digestAlg: Oid, signedAttrs: Option<Vec>, sigAlg: AlgId,
                                   signature: Bytes)

  datatype SignedData = SignedData(eContentType: Oid, eContent: Option<Bytes>, certificates: Option<Bytes>,
                                   signerInfos: seq<SignerInfo>)

  datatype ContentInfo = ContentInfo(contentType: Oid, content: Bytes)

  /** The ASN.1, certificate, hash and signature libraries. */
  datatype CmsLib = CmsLib(
    encOid: Oid -> ShortBytes,
    decOid: Bytes -> Option<Oid>,
    encSid: SignerId -> Option<Bytes>,
    decSid: Bytes -> Option<SignerId>,
    encSignedData: SignedData -> Option<Vec>,
    decSignedData: Bytes -> Option<SignedData>,
    encContentInfo: ContentInfo -> Option<Vec>,
    decContentInfo: Bytes -> Option<ContentInfo>,
    certInfo: Bytes -> Option<CertInfo>,
    hash: (HashName, Bytes) -> Option<ShortBytes>,
    sign: (Bytes, HashName, Bytes) -> Option<Bytes>,
    signatureAlgorithm: (Bytes, HashName) -> AlgId,
    verifySignature: (Bytes, Bytes, AlgId, Bytes) -> bool
  ) {
    /** Decoding inverts encoding where that succeeds, and an encoding is no shorter than what it carries. */
    ghost predicate Lawful() {
      && (forall o :: decOid(encOid(o)) == Some(o))
      && (forall s :: encSid(s).Some? ==> decSid(encSid(s).value) == Some(s))
      && (forall s :: encSignedData(s).Some? ==> decSignedData(encSignedData(s).value) == Some(s))
      && (forall c :: encContentInfo(c).Some? ==>
            decContentInfo(encContentInfo(c).value) == Some(c) && |c.content| <= |encContentInfo(c).value|)
    }

    /** The certificate's key checks what `key` signs. */
    ghost predicate Certifies(cert: Bytes, key: Bytes) {
      && certInfo(cert).Some?
      && forall h, tbs :: sign(key, h, tbs).Some? ==>
          verifySignature(certInfo(cert).value.spki, tbs, signatureAlgorithm(key, h), sign(key, h, tbs).value)
    }
  }

  function DigestOid(h: HashName): Oid {
    match h
    case Sha1 => Sha1Oid
    case Sha256 => Sha256Oid
    case Sha384 => Sha384Oid
    case Sha512 => Sha512Oid
  }

  function DigestName(o: Oid): Option<HashName> {
    if o == Sha1Oid then Some(Sha1)
    else if o == Sha256Oid then Some(Sha256)
    else if o == Sha384Oid then Some(Sha384)
    else if o == Sha512Oid then Some(Sha512)
    else None
  }

  /** ML-DSA and composite ML-DSA. */
  predicate IsPqSignatureOid(o: Oid) {
    o == MlDsa44Oid || o == MlDsa65Oid || o == MlDsa87Oid || o.CompositeMlDsaOid?
  }

  predicate IsPqCertificate(lib: CmsLib, cert: Bytes) {
    lib.certInfo(cert).Some? && IsPqSignatureOid(lib.certInfo(cert).value.keyOid)
  }

  function DigestForSigner(lib: CmsLib, cert: Bytes): HashName {
    if IsPqCertificate(lib, cert) then Sha512 else Sha256
  }

  /* ----- One TLV after another ----- */

  function Concat(certs: seq<Bytes>): Bytes {
    if certs == [] then [] else certs[0] + Concat(certs[1..])
  }

  /** One TLV and nothing else. */
  predicate IsTlv(s: Bytes) {
    ReadTlv(s).Some? && ReadTlv(s).value.rest == []
  }

  lemma ParsedLengthPrefix(data: Bytes, rest: Bytes)
    requires ParsedLength(data).Ok?
    ensures ParsedLength(data + rest) == ParsedLength(data)
  {
    if data[0] >= 0x80 {
      var n := data[0] - 0x80;
      assert (data + rest)[0] == data[0] && 1 + n <= |data|;
      assert (data + rest)[1..1 + n] == data[1..1 + n];
    }
  }

  /** Reading a TLV does not depend on what follows it. */
  lemma ReadTlvPrefix(s: Bytes, rest: Bytes)
    requires IsTlv(s)
    ensures ReadTlv(s + rest) == Some(ReadTlv(s).value.(rest := rest))
  {
    var p := ParsedLength(s[1..]);
    assert (s + rest)[1..] == s[1..] + rest;
    ParsedLengthPrefix(s[1..], rest);
    var start, end := 1 + p.value.1, 1 + p.value.1 + p.value.0;
    assert end == |s|;
    assert (s + rest)[start..end] == s[start..end];
    assert (s + rest)[end..] == rest;
  }

  lemma FirstTlv(s: Bytes)
    requires ReadTlv(s).Some?
    ensures var e := ReadTlv(s).value;
            && s == s[..|s| - |e.rest|] + e.rest
            && IsTlv(s[..|s| - |e.rest|]) && ReadTlv(s[..|s| - |e.rest|]) == Some(e.(rest := []))
  {
    var e := ReadTlv(s).value;
    var first := s[..|s| - |e.rest|];
    var p := ParsedLength(s[1..]).value;
    assert |first| == 1 + p.1 + p.0 && first == s[..|first|];
    if s[1] >= 0x80 {
      var n := s[1] - 0x80;
      assert p.1 == 1 + n;
      assert forall k :: 1 <= k < 1 + n ==> first[1..][k] == s[1..][k];
      assert first[1..][1..1 + n] == s[1..][1..1 + n];
    }
    assert ParsedLength(first[1..]) == ParsedLength(s[1..]);
    assert first[1 + p.1..1 + p.1 + p.0] == s[1 + p.1..1 + p.1 + p.0];
    assert first[1 + p.1 + p.0..] == [];
  }

  /* ----- Signed attributes ----- */

  /** Attribute ::= SEQUENCE { type, SET { value } }. */
  function AttributeDer(lib: CmsLib, id: Oid, value: Bytes): (s: Bytes)
    requires |value| < 0x2_0000
    ensures |s| < 0x4_0000
  {
    TlvSize(0x06, lib.encOid(id));
    TlvSize(0x31, value);
    TlvSize(0x30, Tlv(0x06, lib.encOid(id)) + Tlv(0x31, value));
    Tlv(0x30, Tlv(0x06, lib.encOid(id)) + Tlv(0x31, value))
  }

  predicate LexLeq(a: Bytes, b: Bytes) {
    a == [] || (b != [] && (a[0] < b[0] || (a[0] == b[0] && LexLeq(a[1..], b[1..]))))
  }

  function ContentTypeAttribute(lib: CmsLib, contentType: Oid): (s: Bytes)
    ensures |s| < 0x4_0000
  {
    TlvSize(0x06, lib.encOid(contentType));
    AttributeDer(lib, ContentTypeOid, Tlv(0x06, lib.encOid(contentType)))
  }

  function DigestAttribute(lib: CmsLib, digest: ShortBytes): (s: Bytes)
    ensures |s| < 0x4_0000
  {
    TlvSize(0x04, digest);
    AttributeDer(lib, MessageDigestOid, Tlv(0x04, digest))
  }

  /** The contents of the DER-sorted SET of the two attributes. */
  function SignedAttributes(lib: CmsLib, contentType: Oid, digest: ShortBytes): (s: Bytes)
    ensures |s| < 0x8_0000
  {
    var ct, md := ContentTypeAttribute(lib, contentType), DigestAttribute(lib, digest);
    if LexLeq(ct, md) then ct + md else md + ct
  }

  /** `a` comes before `b` in dictionary order: it is a beginning of it, or smaller where they first differ. */
  ghost predicate ComesBefore(a: Bytes, b: Bytes) {
    || (|a| <= |b| && a == b[..|a|])
    || exists k :: 0 <= k < |a| && k < |b| && a[..k] == b[..k] && a[k] < b[k]
  }

  lemma LexSameHead(a: Bytes, b: Bytes)
    requires a != [] && b != [] && a[0] == b[0]
    ensures ComesBefore(a, b) <==> ComesBefore(a[1..], b[1..])
  {
    var x, y := a[1..], b[1..];
    assert a == [a[0]] + x && b == [a[0]] + y;
    if |a| <= |b| {
      assert b[..|a|] == [a[0]] + y[..|x|];
      assert a == b[..|a|] <==> x == y[..|x|] by {
        if a == b[..|a|] {
          assert x == b[..|a|][1..];
        }
      }
    }
    forall k | 0 <= k < |x| && k < |y|
      ensures x[..k] == y[..k] <==> a[..k + 1] == b[..k + 1]
      ensures x[k] == a[k + 1] && y[k] == b[k + 1]
    {
      assert a[..k + 1] == [a[0]] + x[..k] && b[..k + 1] == [a[0]] + y[..k];
      if a[..k + 1] == b[..k + 1] {
        assert x[..k] == a[..k + 1][1..];
      }
    }
    if k :| 0 <= k < |x| && k < |y| && x[..k] == y[..k] && x[k] < y[k] {
      assert a[..k + 1] == b[..k + 1] && a[k + 1] < b[k + 1];
    }
    if k :| 0 <= k < |a| && k < |b| && a[..k] == b[..k] && a[k] < b[k] {
      assert k > 0;
      assert x[..k - 1] == y[..k - 1] && x[k - 1] < y[k - 1];
    }
  }

  lemma {:induction false} LexLeqExactly(a: Bytes, b: Bytes)
    ensures LexLeq(a, b) <==> ComesBefore(a, b)
  {
    if a == [] || b == [] {
    } else if a[0] != b[0] {
      assert a[..0] == b[..0];
      if a[0] > b[0] {
        assert forall k :: 0 < k < |a| && k < |b| ==> a[..k][0] != b[..k][0];
        assert |a| <= |b| ==> a[0] != b[..|a|][0];
      }
    } else {
      LexLeqExactly(a[1..], b[1..]);
      LexSameHead(a, b);
    }
  }

  lemma {:induction false} LexTotal(a: Bytes, b: Bytes)
    ensures LexLeq(a, b) || LexLeq(b, a)
  {
    if a == [] || b == [] {
    } else {
      LexTotal(a[1..], b[1..]);
    }
  }

  /** The signed SET is in DER order (X.690 section 11.6). */
  lemma SignedAttributesInOrder(lib: CmsLib, contentType: Oid, digest: ShortBytes)
    ensures exists a, b ::
              && SignedAttributes(lib, contentType, digest) == a + b && ComesBefore(a, b)
              && {a, b} == {ContentTypeAttribute(lib, contentType), DigestAttribute(lib, digest)}
  {
    hide ContentTypeAttribute, DigestAttribute, LexLeq, ComesBefore;
    var ct, md := ContentTypeAttribute(lib, contentType), DigestAttribute(lib, digest);
    LexTotal(ct, md);
    LexLeqExactly(ct, md);
    LexLeqExactly(md, ct);
    if LexLeq(ct, md) {
      assert SignedAttributes(lib, contentType, digest) == ct + md;
    } else {
      assert SignedAttributes(lib, contentType, digest) == md + ct;
      assert {md, ct} == {ct, md};
    }
  }

  /** An identifier of FIPS 204, or a composite with one. */
  predicate IsMlDsa(o: Oid) {
    match o
    case MlDsa44Oid => true
    case MlDsa65Oid => true
    case MlDsa87Oid => true
    case CompositeMlDsaOid(_) => true
    case _ => false
  }

  /** Post-quantum signers, ML-DSA and composite ML-DSA alike, use SHA-512, and all others SHA-256. */
  lemma SignerDigestExactly(lib: CmsLib, cert: Bytes)
    ensures DigestForSigner(lib, cert)
         == if lib.certInfo(cert).Some? && IsMlDsa(lib.certInfo(cert).value.keyOid) then Sha512 else Sha256
    ensures forall o :: IsPqSignatureOid(o) <==> IsMlDsa(o)
  {
  }

  /** `retag_as_set`: the stored contents under a SET tag again. */
  function RetaggedAsSet(content: Bytes): Bytes
    requires |content| < USIZE_LIMIT
  {
    [0x31] + LengthOctets(|content|) + content
  }

  method RetagAsSet(content: Bytes) returns (r: Bytes)
    requires |content| < USIZE_LIMIT
    ensures r == RetaggedAsSet(content)
  {
    var buffer := new ByteBuffer();
    buffer.Push(0x31);
    DerEncodeLength(|content|, buffer);
    buffer.Extend(content);
    r := buffer.data;
  }

  /**
   Stripping a signed SET and re-tagging its contents gives the signed bytes
   back, for every SET below 2^32 bytes (section 5.4 of RFC 5652).
   */
  lemma RetagRestoresSignedBytes(content: Bytes)
    requires |content| < U32_LIMIT
    ensures Enter(0x31, Tlv(0x31, content)) == Some(content)
    ensures RetaggedAsSet(content) == Tlv(0x31, content)
  {
    EnterEncoded(0x31, content);
  }

  /** An attribute read off the front: its type, its SET of values, and what follows. */
  datatype ParsedAttribute = ParsedAttribute(id: Oid, values: Bytes, rest: Bytes)

  function ReadAttribute(lib: CmsLib, data: Bytes): (r: Option<ParsedAttribute>)
    ensures r.Some? ==> |r.value.rest| < |data|
  {
    var outer := ReadTlv(data);
    if outer.None? || outer.value.tag != 0x30 then None
    else
      var id := ReadTlv(outer.value.content);
      if id.None? || id.value.tag != 0x06 || lib.decOid(id.value.content).None? then None
      else Some(ParsedAttribute(lib.decOid(id.value.content).value, id.value.rest, outer.value.rest))
  }

  lemma ReadAttributeAt(lib: CmsLib, data: Bytes, content: Bytes, id: Oid, values: Bytes, rest: Bytes)
    requires lib.Lawful()
    requires ReadTlv(data) == Some(Element(0x30, content, rest))
    requires ReadTlv(content) == Some(Element(0x06, lib.encOid(id), values))
    ensures ReadAttribute(lib, data) == Some(ParsedAttribute(id, values, rest))
  {
    hide ReadTlv;
  }

  lemma ReadEncodedAttribute(lib: CmsLib, id: Oid, value: Bytes, rest: Bytes)
    requires lib.Lawful() && |value| < 0x2_0000
    ensures ReadAttribute(lib, AttributeDer(lib, id, value) + rest)
         == Some(ParsedAttribute(id, Tlv(0x31, value), rest))
  {
    TlvSize(0x06, lib.encOid(id));
    TlvSize(0x31, value);
    var content := Tlv(0x06, lib.encOid(id)) + Tlv(0x31, value);
    ReadEncodedTlv(0x30, content, rest);
    ReadEncodedTlv(0x06, lib.encOid(id), Tlv(0x31, value));
    ReadAttributeAt(lib, AttributeDer(lib, id, value) + rest, content, id, Tlv(0x31, value), rest);
  }

  /** The values of the first attribute of the given type; a malformed one before it is an error. */
  function FindAttribute(lib: CmsLib, attrs: Bytes, id: Oid): (r: Fallible<Bytes>)
    ensures r.Err? ==> r.error == CmsVerifyFailed
    decreases |attrs|
  {
    if attrs == [] then Err(CmsVerifyFailed)
    else
      var a := ReadAttribute(lib, attrs);
      if a.None? then Err(CmsVerifyFailed)
      else if a.value.id == id then Ok(a.value.values)
      else FindAttribute(lib, a.value.rest, id)
  }

  /** The first element of a SET of values, under the expected tag. */
  function FirstValue(values: Bytes, tag: byte): (r: Fallible<Bytes>)
    ensures r.Err? ==> r.error == CmsVerifyFailed
  {
    var inner := Enter(0x31, values);
    if inner.None? then Err(CmsVerifyFailed)
    else
      var v := Enter(tag, inner.value);
      if v.None? then Err(CmsVerifyFailed) else Ok(v.value)
  }

  function MessageDigestCheck(lib: CmsLib, attrs: Bytes, expected: Bytes): (r: Fallible<()>)
    ensures r.Err? ==> r.error == CmsVerifyFailed
  {
    var values :- FindAttribute(lib, attrs, MessageDigestOid);
    var digest :- FirstValue(values, 0x04);
    if digest == expected then Ok(()) else Err(CmsVerifyFailed)
  }

  function ContentTypeCheck(lib: CmsLib, attrs: Bytes, expected: Oid): (r: Fallible<()>)
    ensures r.Err? ==> r.error == CmsVerifyFailed
  {
    var values :- FindAttribute(lib, attrs, ContentTypeOid);
    var oid :- FirstValue(values, 0x06);
    if lib.decOid(oid) == Some(expected) then Ok(()) else Err(CmsVerifyFailed)
  }

  /* ----- Which attribute is found ----- */

  /** One whole attribute, of this type and with these values. */
  predicate IsAttribute(lib: CmsLib, a: Bytes, id: Oid, values: Bytes) {
    ReadAttribute(lib, a) == Some(ParsedAttribute(id, values, []))
  }

  /** One whole attribute of another type. */
  predicate IsOther(lib: CmsLib, a: Bytes, id: Oid) {
    ReadAttribute(lib, a).Some? && ReadAttribute(lib, a).value.rest == [] && ReadAttribute(lib, a).value.id != id
  }

  /** Whole attributes of other types, then one of this type with these values, then anything. */
  ghost predicate IsFirstAttribute(lib: CmsLib, attrs: Bytes, id: Oid, values: Bytes, before: seq<Bytes>, attr: Bytes,
                                   rest: Bytes)
  {
    && attrs == Concat(before) + (attr + rest)
    && (forall i :: 0 <= i < |before| ==> IsOther(lib, before[i], id))
    && IsAttribute(lib, attr, id, values)
  }

  /** The first attribute of this type, after well-formed ones only, has these values. */
  ghost predicate FirstHasValues(lib: CmsLib, attrs: Bytes, id: Oid, values: Bytes) {
    exists before, attr, rest :: IsFirstAttribute(lib, attrs, id, values, before, attr, rest)
  }

  /** A SET whose first element has this tag and content. */
  ghost predicate FirstElementIs(values: Bytes, tag: byte, content: Bytes) {
    exists elements, after, others ::
      ReadTlv(values) == Some(Element(0x31, elements, after))
      && ReadTlv(elements) == Some(Element(tag, content, others))
  }

  /** The first attribute of this type carries this content. */
  ghost predicate Carries(lib: CmsLib, attrs: Bytes, id: Oid, tag: byte, content: Bytes) {
    exists values :: FirstHasValues(lib, attrs, id, values) && FirstElementIs(values, tag, content)
  }

  /** An attribute is read the same whatever follows it. */
  lemma ReadAttributePrefix(lib: CmsLib, a: Bytes, rest: Bytes)
    requires ReadAttribute(lib, a).Some? && ReadAttribute(lib, a).value.rest == []
    ensures ReadAttribute(lib, a + rest) == Some(ReadAttribute(lib, a).value.(rest := rest))
  {
    ReadTlvPrefix(a, rest);
  }

  /** What is read off the front is one whole attribute. */
  lemma FirstAttribute(lib: CmsLib, data: Bytes)
    requires ReadAttribute(lib, data).Some?
    ensures var p := ReadAttribute(lib, data).value;
            && |p.rest| < |data| && data == data[..|data| - |p.rest|] + p.rest
            && ReadAttribute(lib, data[..|data| - |p.rest|]) == Some(p.(rest := []))
  {
    FirstTlv(data);
  }

  lemma FirstAtFront(lib: CmsLib, attr: Bytes, rest: Bytes, id: Oid, values: Bytes)
    requires IsAttribute(lib, attr, id, values)
    ensures FirstHasValues(lib, attr + rest, id, values)
  {
    hide IsAttribute, IsOther;
    assert attr + rest == Concat([]) + (attr + rest);
    assert IsFirstAttribute(lib, attr + rest, id, values, [], attr, rest);
  }

  lemma FirstAfterOther(lib: CmsLib, other: Bytes, attrs: Bytes, id: Oid, values: Bytes)
    requires IsOther(lib, other, id) && FirstHasValues(lib, attrs, id, values)
    ensures FirstHasValues(lib, other + attrs, id, values)
  {
    hide IsOther, IsAttribute;
    var before, attr, rest :| IsFirstAttribute(lib, attrs, id, values, before, attr, rest);
    assert ([other] + before)[1..] == before;
    assert other + attrs == Concat([other] + before) + (attr + rest);
    assert IsFirstAttribute(lib, other + attrs, id, values, [other] + before, attr, rest);
  }

  lemma {:induction false} FoundIsFirst(lib: CmsLib, attrs: Bytes, id: Oid, values: Bytes)
    requires FindAttribute(lib, attrs, id) == Ok(values)
    ensures FirstHasValues(lib, attrs, id, values)
    decreases |attrs|
  {
    FirstAttribute(lib, attrs);
    var p := ReadAttribute(lib, attrs).value;
    var attr := attrs[..|attrs| - |p.rest|];
    hide ReadAttribute;
    if p.id == id {
      FirstAtFront(lib, attr, p.rest, id, values);
    } else {
      FoundIsFirst(lib, p.rest, id, values);
      FirstAfterOther(lib, attr, p.rest, id, values);
    }
  }

  lemma FoundAtFront(lib: CmsLib, attr: Bytes, rest: Bytes, id: Oid, values: Bytes)
    requires IsAttribute(lib, attr, id, values)
    ensures FindAttribute(lib, attr + rest, id) == Ok(values)
  {
    ReadAttributePrefix(lib, attr, rest);
    hide ReadAttribute;
  }

  lemma FoundPastOther(lib: CmsLib, other: Bytes, attrs: Bytes, id: Oid)
    requires IsOther(lib, other, id)
    ensures FindAttribute(lib, other + attrs, id) == FindAttribute(lib, attrs, id)
  {
    ReadAttributePrefix(lib, other, attrs);
    hide ReadAttribute;
  }

  lemma {:induction false} FirstIsFound(lib: CmsLib, attrs: Bytes, id: Oid, values: Bytes, before: seq<Bytes>,
                                        attr: Bytes, rest: Bytes)
    requires IsFirstAttribute(lib, attrs, id, values, before, attr, rest)
    ensures FindAttribute(lib, attrs, id) == Ok(values)
    decreases |before|
  {
    hide IsAttribute, IsOther, FindAttribute;
    if before == [] {
      assert attrs == attr + rest;
      FoundAtFront(lib, attr, rest, id, values);
    } else {
      var tail := Concat(before[1..]) + (attr + rest);
      assert attrs == before[0] + tail;
      FirstIsFound(lib, tail, id, values, before[1..], attr, rest);
      FoundPastOther(lib, before[0], tail, id);
    }
  }

  /** The search succeeds exactly on the first attribute of the type, after well-formed ones only. */
  lemma FindAttributeExactly(lib: CmsLib, attrs: Bytes, id: Oid, values: Bytes)
    ensures FindAttribute(lib, attrs, id) == Ok(values) <==> FirstHasValues(lib, attrs, id, values)
  {
    hide FindAttribute;
    if FindAttribute(lib, attrs, id) == Ok(values) {
      FoundIsFirst(lib, attrs, id, values);
    }
    if before, attr, rest :| IsFirstAttribute(lib, attrs, id, values, before, attr, rest) {
      FirstIsFound(lib, attrs, id, values, before, attr, rest);
    }
  }

  lemma FirstValueExactly(values: Bytes, tag: byte, content: Bytes)
    ensures FirstValue(values, tag) == Ok(content) <==> FirstElementIs(values, tag, content)
  {
    hide ReadTlv;
    var outer := ReadTlv(values);
    if outer.Some? {
      var inner := ReadTlv(outer.value.content);
      if inner.Some? {
        assert outer == Some(Element(outer.value.tag, outer.value.content, outer.value.rest));
        assert inner == Some(Element(inner.value.tag, inner.value.content, inner.value.rest));
      }
    }
  }

  /** The content that the first attribute of a type yields is the one it carries. */
  lemma CarriesExactly(lib: CmsLib, attrs: Bytes, id: Oid, tag: byte, content: Bytes)
    ensures var values := FindAttribute(lib, attrs, id);
            (values.Ok? && FirstValue(values.value, tag) == Ok(content)) <==> Carries(lib, attrs, id, tag, content)
  {
    hide FirstHasValues, FirstElementIs, FindAttribute, FirstValue;
    forall values
      ensures FindAttribute(lib, attrs, id) == Ok(values) <==> FirstHasValues(lib, attrs, id, values)
      ensures FirstValue(values, tag) == Ok(content) <==> FirstElementIs(values, tag, content)
    {
      FindAttributeExactly(lib, attrs, id, values);
      FirstValueExactly(values, tag, content);
    }
  }

  /** The attributes are those of a message with this digest: their first digest attribute carries it. */
  lemma MessageDigestExactly(lib: CmsLib, attrs: Bytes, expected: Bytes)
    ensures MessageDigestCheck(lib, attrs, expected).Ok? <==>
            Carries(lib, attrs, MessageDigestOid, 0x04, expected)
  {
    hide FindAttribute, FirstValue, Carries;
    CarriesExactly(lib, attrs, MessageDigestOid, 0x04, expected);
  }

  /** Their first contentType attribute carries an identifier that reads as this one. */
  ghost predicate CarriesType(lib: CmsLib, attrs: Bytes, contentType: Oid) {
    exists oid :: lib.decOid(oid) == Some(contentType) && Carries(lib, attrs, ContentTypeOid, 0x06, oid)
  }

  lemma ContentTypeExactly(lib: CmsLib, attrs: Bytes, expected: Oid)
    ensures ContentTypeCheck(lib, attrs, expected).Ok? <==> CarriesType(lib, attrs, expected)
  {
    hide FindAttribute, FirstValue, Carries;
    forall oid
      ensures var values := FindAttribute(lib, attrs, ContentTypeOid);
              (values.Ok? && FirstValue(values.value, 0x06) == Ok(oid)) <==>
              Carries(lib, attrs, ContentTypeOid, 0x06, oid)
    {
      CarriesExactly(lib, attrs, ContentTypeOid, 0x06, oid);
    }
  }

  method VerifyMessageDigest(lib: CmsLib, attrs: Bytes, expected: Bytes) returns (r: Fallible<()>)
    ensures r == MessageDigestCheck(lib, attrs, expected)
    ensures r.Ok? <==> Carries(lib, attrs, MessageDigestOid, 0x04, expected)
  {
    MessageDigestExactly(lib, attrs, expected);
    hide Carries, FirstValue, ReadAttribute;
    var dec := attrs;
    while dec != []
      invariant FindAttribute(lib, attrs, MessageDigestOid) == FindAttribute(lib, dec, MessageDigestOid)
      decreases |dec|
    {
      var attr := ReadAttribute(lib, dec);
      if attr.None? {
        return Err(CmsVerifyFailed);
      }
      if attr.value.id == MessageDigestOid {
        var digest :- FirstValue(attr.value.values, 0x04);
        return if digest == expected then Ok(()) else Err(CmsVerifyFailed);
      }
      dec := attr.value.rest;
    }
    r := Err(CmsVerifyFailed);
  }

  method VerifyContentType(lib: CmsLib, attrs: Bytes, expected: Oid) returns (r: Fallible<()>)
    ensures r == ContentTypeCheck(lib, attrs, expected)
    ensures r.Ok? <==> CarriesType(lib, attrs, expected)
  {
    ContentTypeExactly(lib, attrs, expected);
    hide CarriesType, FirstValue, ReadAttribute;
    var dec := attrs;
    while dec != []
      invariant FindAttribute(lib, attrs, ContentTypeOid) == FindAttribute(lib, dec, ContentTypeOid)
      decreases |dec|
    {
      var attr := ReadAttribute(lib, dec);
      if attr.None? {
        return Err(CmsVerifyFailed);
      }
      if attr.value.id == ContentTypeOid {
        var oid :- FirstValue(attr.value.values, 0x06);
        return if lib.decOid(oid) == Some(expected) then Ok(()) else Err(CmsVerifyFailed);
      }
      dec := attr.value.rest;
    }
    r := Err(CmsVerifyFailed);
  }

  lemma FoundFirst(lib: CmsLib, id: Oid, value: Bytes, rest: Bytes, other: Oid)
    requires lib.Lawful() && |value| < 0x2_0000
    ensures var attrs := AttributeDer(lib, id, value) + rest;
            FindAttribute(lib, attrs, other)
            == if other == id then Ok(Tlv(0x31, value)) else FindAttribute(lib, rest, other)
  {
    ReadEncodedAttribute(lib, id, value, rest);
    hide AttributeDer, ReadAttribute;
  }

  lemma FoundInPair(lib: CmsLib, id: Oid, value: Bytes, id': Oid, value': Bytes)
    requires lib.Lawful() && |value| < 0x2_0000 && |value'| < 0x2_0000 && id != id'
    ensures var attrs := AttributeDer(lib, id, value) + AttributeDer(lib, id', value');
            && FindAttribute(lib, attrs, id) == Ok(Tlv(0x31, value))
            && FindAttribute(lib, attrs, id') == Ok(Tlv(0x31, value'))
  {
    hide AttributeDer;
    FoundFirst(lib, id, value, AttributeDer(lib, id', value'), id);
    FoundFirst(lib, id, value, AttributeDer(lib, id', value'), id');
    FoundFirst(lib, id', value', [], id');
    assert AttributeDer(lib, id', value') + [] == AttributeDer(lib, id', value');
  }

  lemma FirstValueOfSingleton(tag: byte, content: Bytes)
    requires |content| < 0x1_0000
    ensures |Tlv(tag, content)| < 0x2_0000
    ensures FirstValue(Tlv(0x31, Tlv(tag, content)), tag) == Ok(content)
  {
    TlvSize(tag, content);
    EnterEncoded(0x31, Tlv(tag, content));
    EnterEncoded(tag, content);
  }

  /** In whichever order DER sorts them, both attributes are found with their values. */
  lemma AttributesAreFound(lib: CmsLib, contentType: Oid, digest: ShortBytes)
    requires lib.Lawful()
    ensures var attrs := SignedAttributes(lib, contentType, digest);
            && ContentTypeCheck(lib, attrs, contentType) == Ok(())
            && MessageDigestCheck(lib, attrs, digest) == Ok(())
  {
    hide AttributeDer, FirstValue, FindAttribute;
    FirstValueOfSingleton(0x06, lib.encOid(contentType));
    FirstValueOfSingleton(0x04, digest);
    var ctValue, mdValue := Tlv(0x06, lib.encOid(contentType)), Tlv(0x04, digest);
    FoundInPair(lib, ContentTypeOid, ctValue, MessageDigestOid, mdValue);
    FoundInPair(lib, MessageDigestOid, mdValue, ContentTypeOid, ctValue);
  }

  /* ----- The certificates field ----- */

  function ExtractedCertificates(raw: Bytes): (r: Fallible<seq<Bytes>>)
    ensures r.Err? ==> r.error == CmsVerifyFailed
    decreases |raw|
  {
    if raw == [] then Ok([])
    else
      var e := ReadTlv(raw);
      if e.None? then Err(CmsVerifyFailed)
      else
        var rest :- ExtractedCertificates(e.value.rest);
        Ok([raw[..|raw| - |e.value.rest|]] + rest)
  }

  function Prepend(certs: seq<Bytes>, r: Fallible<seq<Bytes>>): Fallible<seq<Bytes>> {
    if r.Ok? then Ok(certs + r.value) else r
  }

  lemma PrependOne(certs: seq<Bytes>, cert: Bytes, r: Fallible<seq<Bytes>>)
    ensures Prepend(certs, Prepend([cert], r)) == Prepend(certs + [cert], r)
  {
    if r.Ok? {
      assert certs + ([cert] + r.value) == certs + [cert] + r.value;
    }
  }

  lemma PrependNothing(certs: seq<Bytes>, r: Fallible<seq<Bytes>>)
    ensures Prepend([], r) == r
    ensures Prepend(certs, Ok([])) == Ok(certs)
  {
    assert certs + [] == certs;
    if r.Ok? {
      assert [] + r.value == r.value;
    }
  }

  lemma ExtractNext(dec: Bytes)
    requires ReadTlv(dec).Some?
    ensures ExtractedCertificates(dec)
         == Prepend([dec[..|dec| - |ReadTlv(dec).value.rest|]], ExtractedCertificates(ReadTlv(dec).value.rest))
  {
  }

  lemma ExtractCons(cert: Bytes, tail: Bytes)
    requires IsTlv(cert)
    ensures ExtractedCertificates(cert + tail) == Prepend([cert], ExtractedCertificates(tail))
  {
    ReadTlvPrefix(cert, tail);
    assert (cert + tail)[..|cert|] == cert;
    hide ReadTlv;
  }

  lemma {:induction false} SplitOfTlvs(certs: seq<Bytes>)
    requires forall i :: 0 <= i < |certs| ==> IsTlv(certs[i])
    ensures ExtractedCertificates(Concat(certs)) == Ok(certs)
  {
    if certs == [] {
    } else {
      SplitOfTlvs(certs[1..]);
      hide IsTlv, ExtractedCertificates;
      ExtractCons(certs[0], Concat(certs[1..]));
      assert certs == [certs[0]] + certs[1..];
    }
  }

  /** `certs` are TLVs, and make up the field. */
  predicate IsSplit(raw: Bytes, certs: seq<Bytes>) {
    Concat(certs) == raw && forall i :: 0 <= i < |certs| ==> IsTlv(certs[i])
  }

  lemma {:induction false} PartsAreTlvs(raw: Bytes)
    ensures ExtractedCertificates(raw).Ok? ==> IsSplit(raw, ExtractedCertificates(raw).value)
    decreases |raw|
  {
    if raw == [] {
    } else if ReadTlv(raw).Some? && ExtractedCertificates(ReadTlv(raw).value.rest).Ok? {
      FirstTlv(raw);
      var rest := ReadTlv(raw).value.rest;
      PartsAreTlvs(rest);
      var certs := ExtractedCertificates(raw).value;
      assert certs[1..] == ExtractedCertificates(rest).value;
    }
  }

  /** The field splits into a list exactly if the list makes it up and every entry is one TLV. */
  lemma ExtractedExactly(raw: Bytes, certs: seq<Bytes>)
    ensures ExtractedCertificates(raw) == Ok(certs) <==> IsSplit(raw, certs)
  {
    hide ExtractedCertificates;
    PartsAreTlvs(raw);
    if IsSplit(raw, certs) {
      SplitOfTlvs(certs);
    }
  }

  method ExtractCertificates(raw: Bytes) returns (r: Fallible<seq<Bytes>>)
    ensures r == ExtractedCertificates(raw)
    ensures r.Ok? ==> IsSplit(raw, r.value)
    ensures r.Err? ==> forall certs :: !IsSplit(raw, certs)
  {
    forall certs
      ensures ExtractedCertificates(raw) == Ok(certs) <==> IsSplit(raw, certs)
    {
      ExtractedExactly(raw, certs);
    }
    hide ReadTlv, IsSplit;
    var certs: seq<Bytes> := [];
    var dec := raw;
    PrependNothing([], ExtractedCertificates(raw));
    while dec != []
      invariant ExtractedCertificates(raw) == Prepend(certs, ExtractedCertificates(dec))
      decreases |dec|
    {
      var e := ReadTlv(dec);
      if e.None? {
        return Err(CmsVerifyFailed);
      }
      ExtractNext(dec);
      PrependOne(certs, dec[..|dec| - |e.value.rest|], ExtractedCertificates(e.value.rest));
      certs := certs + [dec[..|dec| - |e.value.rest|]];
      dec := e.value.rest;
    }
    PrependNothing(certs, Ok([]));
    r := Ok(certs);
  }

  /** The first certificate with the signer's issuer and serial number. */
  function SignerCert(lib: CmsLib, certs: seq<Bytes>, sid: SignerId): (r: Fallible<Bytes>)
    ensures r.Err? ==> r.error == CmsVerifyFailed
  {
    if certs == [] then Err(CmsVerifyFailed)
    else
      var info := lib.certInfo(certs[0]);
      if info.None? then Err(CmsVerifyFailed)
      else if info.value.serial == sid.serial && info.value.issuer == sid.issuer then Ok(certs[0])
      else SignerCert(lib, certs[1..], sid)
  }

  predicate Matches(lib: CmsLib, cert: Bytes, sid: SignerId) {
    && lib.certInfo(cert).Some?
    && lib.certInfo(cert).value.issuer == sid.issuer && lib.certInfo(cert).value.serial == sid.serial
  }

  /** The certificate at `k` matches; those before it decode and do not. */
  ghost predicate FirstMatchAt(lib: CmsLib, certs: seq<Bytes>, sid: SignerId, k: nat) {
    && k < |certs| && Matches(lib, certs[k], sid)
    && forall i :: 0 <= i < k ==> lib.certInfo(certs[i]).Some? && !Matches(lib, certs[i], sid)
  }

  ghost predicate IsFirstMatch(lib: CmsLib, certs: seq<Bytes>, sid: SignerId, cert: Bytes) {
    exists k: nat :: FirstMatchAt(lib, certs, sid, k) && certs[k] == cert
  }

  lemma FirstMatchLater(lib: CmsLib, certs: seq<Bytes>, sid: SignerId, k: nat)
    requires certs != [] && lib.certInfo(certs[0]).Some? && !Matches(lib, certs[0], sid)
    ensures FirstMatchAt(lib, certs, sid, k + 1) <==> FirstMatchAt(lib, certs[1..], sid, k)
  {
    var rest := certs[1..];
    assert forall i :: 0 <= i < |rest| ==> rest[i] == certs[i + 1];
    if FirstMatchAt(lib, certs, sid, k + 1) {
      assert forall i :: 0 <= i < k ==> rest[i] == certs[i + 1];
    }
  }

  lemma {:induction false} SignerCertExactly(lib: CmsLib, certs: seq<Bytes>, sid: SignerId, cert: Bytes)
    ensures SignerCert(lib, certs, sid) == Ok(cert) <==> IsFirstMatch(lib, certs, sid, cert)
  {
    if certs == [] {
    } else if lib.certInfo(certs[0]).None? || Matches(lib, certs[0], sid) {
      if Matches(lib, certs[0], sid) {
        assert FirstMatchAt(lib, certs, sid, 0);
      }
      assert forall k: nat :: FirstMatchAt(lib, certs, sid, k) ==> k == 0;
    } else {
      var rest := certs[1..];
      SignerCertExactly(lib, rest, sid, cert);
      hide Matches;
      assert forall i :: 0 <= i < |rest| ==> rest[i] == certs[i + 1];
      if k: nat :| FirstMatchAt(lib, rest, sid, k) && rest[k] == cert {
        FirstMatchLater(lib, certs, sid, k);
      }
      if k: nat :| FirstMatchAt(lib, certs, sid, k) && certs[k] == cert {
        FirstMatchLater(lib, certs, sid, k - 1);
      }
    }
  }

  method FindSignerCert(lib: CmsLib, certs: seq<Bytes>, sid: SignerId) returns (r: Fallible<Bytes>)
    ensures r == SignerCert(lib, certs, sid)
    ensures r.Ok? ==> IsFirstMatch(lib, certs, sid, r.value)
    ensures r.Err? ==> forall k: nat :: !FirstMatchAt(lib, certs, sid, k)
  {
    for i := 0 to |certs|
      invariant SignerCert(lib, certs, sid) == SignerCert(lib, certs[i..], sid)
      invariant forall j :: 0 <= j < i ==> lib.certInfo(certs[j]).Some? && !Matches(lib, certs[j], sid)
    {
      var info := lib.certInfo(certs[i]);
      if info.None? {
        return Err(CmsVerifyFailed);
      }
      if info.value.serial == sid.serial && info.value.issuer == sid.issuer {
        assert FirstMatchAt(lib, certs, sid, i);
        return Ok(certs[i]);
      }
    }
    r := Err(CmsVerifyFailed);
  }

  /* ----- Creating and verifying ----- */

  datatype VerifiedSignedData = VerifiedSignedData(content: Bytes, contentType: Oid, signerCert: Bytes,
                                                   allCerts: seq<Bytes>, signerAlgorithm: Oid)

  /** A ContentInfo of type id-signedData around an EXPLICIT [0]; either encoding may fail. */
  function WrappedSignedData(lib: CmsLib, sd: SignedData): Fallible<Vec> {
    var inner := lib.encSignedData(sd);
    if inner.None? then Err(CmsSignFailed)
    else
      var der := lib.encContentInfo(ContentInfo(SignedDataOid, Tlv(0xA0, inner.value)));
      if der.None? then Err(CmsSignFailed) else Ok(der.value)
  }

  function CreateSignedData(lib: CmsLib, content: Bytes, contentType: Oid, key: Bytes, cert: Bytes,
                            extras: seq<Bytes>, h: HashName): Fallible<Vec>
  {
    var digest := lib.hash(h, content);
    if digest.None? then Err(CmsSignFailed)
    else
      var attrs := SignedAttributes(lib, contentType, digest.value);
      var signature := lib.sign(key, h, Tlv(0x31, attrs));
      if signature.None? then Err(CmsSignFailed)
      else
        var info := lib.certInfo(cert);
        if info.None? then Err(CmsSignFailed)
        else
          var sid := lib.encSid(SignerId(info.value.issuer, info.value.serial));
          if sid.None? then Err(CmsSignFailed)
          else
            var signer := SignerInfo(sid.value, DigestOid(h), Some(attrs), lib.signatureAlgorithm(key, h),
                                     signature.value);
            var certs := Concat([cert] + extras);
            var sd := SignedData(contentType, Some(content), if certs == [] then None else Some(certs), [signer]);
            WrappedSignedData(lib, sd)
  }

  function CreateUnsignedData(lib: CmsLib, content: Bytes, contentType: Oid): Fallible<Vec> {
    WrappedSignedData(lib, SignedData(contentType, Some(content), None, []))
  }

  /** The SignedData inside a ContentInfo of type id-signedData. */
  function OpenSignedData(lib: CmsLib, der: Bytes): (r: Fallible<SignedData>)
    ensures r.Err? ==> r.error == CmsVerifyFailed || r.error == CmsContentTypeMismatch
  {
    var ci := lib.decContentInfo(der);
    if ci.None? then Err(CmsVerifyFailed)
    else if ci.value.contentType != SignedDataOid then Err(CmsContentTypeMismatch)
    else
      var inner := Enter(0xA0, ci.value.content);
      if inner.None? then Err(CmsVerifyFailed)
      else
        var sd := lib.decSignedData(inner.value);
        if sd.None? then Err(CmsVerifyFailed) else Ok(sd.value)
  }

  function PresentedCertificates(sd: SignedData): (r: Fallible<seq<Bytes>>)
    ensures r.Err? ==> r.error == CmsVerifyFailed
  {
    if sd.certificates.None? then Ok([]) else ExtractedCertificates(sd.certificates.value)
  }

  /** The checks against one certificate: both signed attributes, then the signature over them. */
  function CheckSigner(lib: CmsLib, sd: SignedData, signer: SignerInfo, cert: Bytes): (r: Fallible<()>)
    ensures r.Err? ==> r.error == CmsVerifyFailed
  {
    var info := lib.certInfo(cert);
    var h := DigestName(signer.digestAlg);
    if info.None? || sd.eContent.None? || signer.signedAttrs.None? || h.None? then Err(CmsVerifyFailed)
    else
      var attrs := signer.signedAttrs.value;
      var digest := lib.hash(h.value, sd.eContent.value);
      if digest.None? then Err(CmsVerifyFailed)
      else
        var _ :- MessageDigestCheck(lib, attrs, digest.value);
        var _ :- ContentTypeCheck(lib, attrs, sd.eContentType);
        if lib.verifySignature(info.value.spki, RetaggedAsSet(attrs), signer.sigAlg, signer.signature) then Ok(())
        else Err(CmsVerifyFailed)
  }

  function VerifyOpened(lib: CmsLib, sd: SignedData): (r: Fallible<VerifiedSignedData>)
    ensures r.Err? ==> r.error == CmsVerifyFailed
  {
    if sd.signerInfos == [] then Err(CmsVerifyFailed)
    else
      var signer := sd.signerInfos[0];
      var allCerts :- PresentedCertificates(sd);
      var sid := lib.decSid(signer.sid);
      if sid.None? then Err(CmsVerifyFailed)
      else
        var cert :- SignerCert(lib, allCerts, sid.value);
        var _ :- CheckSigner(lib, sd, signer, cert);
        assert sd.eContent.Some?;
        Ok(VerifiedSignedData(sd.eContent.value, sd.eContentType, cert, allCerts, signer.sigAlg.oid))
  }

  function VerifySignedData(lib: CmsLib, der: Bytes): (r: Fallible<VerifiedSignedData>)
    ensures r.Err? ==> r.error == CmsVerifyFailed || r.error == CmsContentTypeMismatch
  {
    var sd :- OpenSignedData(lib, der);
    VerifyOpened(lib, sd)
  }

  /** Content of a SignedData that has no SignerInfo. */
  function ExtractUnsignedContent(lib: CmsLib, der: Bytes): Fallible<(Bytes, Oid)> {
    var sd :- OpenSignedData(lib, der);
    if sd.signerInfos != [] || sd.eContent.None? then Err(CmsVerifyFailed)
    else Ok((sd.eContent.value, sd.eContentType))
  }

  /** Content of a ContentInfo that carries an OCTET STRING directly. */
  function ExtractBareContent(lib: CmsLib, der: Bytes): Fallible<(Bytes, Oid)> {
    var ci := lib.decContentInfo(der);
    if ci.None? then Err(CmsVerifyFailed)
    else
      var inner := Enter(0xA0, ci.value.content);
      if inner.None? then Err(CmsVerifyFailed)
      else
        var content := Enter(0x04, inner.value);
        if content.None? then Err(CmsVerifyFailed) else Ok((content.value, ci.value.contentType))
  }

  /* ----- What verification establishes ----- */

  /** A ContentInfo of type id-signedData whose EXPLICIT [0] holds this SignedData. */
  ghost predicate IsSignedData(lib: CmsLib, der: Bytes, sd: SignedData) {
    exists content, inner ::
      && lib.decContentInfo(der) == Some(ContentInfo(SignedDataOid, content))
      && Enter(0xA0, content) == Some(inner)
      && lib.decSignedData(inner) == Some(sd)
  }

  lemma OpenedExactly(lib: CmsLib, der: Bytes, sd: SignedData)
    ensures OpenSignedData(lib, der) == Ok(sd) <==> IsSignedData(lib, der, sd)
  {
    hide Enter;
    var ci := lib.decContentInfo(der);
    if ci.Some? {
      assert ci == Some(ContentInfo(ci.value.contentType, ci.value.content));
    }
  }

  /** The certificates of the field, in order; an absent field has none. */
  predicate Presents(sd: SignedData, certs: seq<Bytes>) {
    if sd.certificates.None? then certs == [] else IsSplit(sd.certificates.value, certs)
  }

  /**
   The attributes are signed with the certificate's key, under the digest
   algorithm named, and carry that digest of the content and its type.
   */
  ghost predicate Vouches(lib: CmsLib, signer: SignerInfo, cert: Bytes, content: Bytes, contentType: Oid) {
    && signer.signedAttrs.Some? && lib.certInfo(cert).Some?
    && var attrs := signer.signedAttrs.value;
    && lib.verifySignature(lib.certInfo(cert).value.spki, RetaggedAsSet(attrs), signer.sigAlg, signer.signature)
    && CarriesType(lib, attrs, contentType)
    && exists h, digest ::
         && signer.digestAlg == DigestOid(h) && lib.hash(h, content) == Some(digest)
         && Carries(lib, attrs, MessageDigestOid, 0x04, digest)
  }

  /** The first SignerInfo names the first presented certificate that matches it, and that one vouches. */
  ghost predicate SignerVouches(lib: CmsLib, sd: SignedData, v: VerifiedSignedData) {
    && sd.eContent == Some(v.content) && sd.eContentType == v.contentType
    && Presents(sd, v.allCerts)
    && sd.signerInfos != []
    && var signer := sd.signerInfos[0];
    && v.signerAlgorithm == signer.sigAlg.oid
    && (exists sid :: lib.decSid(signer.sid) == Some(sid) && IsFirstMatch(lib, v.allCerts, sid, v.signerCert))
    && Vouches(lib, signer, v.signerCert, v.content, v.contentType)
  }

  ghost predicate SignedBy(lib: CmsLib, der: Bytes, v: VerifiedSignedData) {
    exists sd :: IsSignedData(lib, der, sd) && SignerVouches(lib, sd, v)
  }

  lemma CheckedExactly(lib: CmsLib, sd: SignedData, signer: SignerInfo, cert: Bytes)
    requires sd.eContent.Some?
    ensures CheckSigner(lib, sd, signer, cert).Ok? <==>
            Vouches(lib, signer, cert, sd.eContent.value, sd.eContentType)
  {
    hide MessageDigestCheck, ContentTypeCheck, Carries, CarriesType, RetaggedAsSet;
    assert forall h :: DigestName(signer.digestAlg) == Some(h) <==> signer.digestAlg == DigestOid(h);
    if signer.signedAttrs.Some? {
      var attrs := signer.signedAttrs.value;
      ContentTypeExactly(lib, attrs, sd.eContentType);
      forall digest
        ensures MessageDigestCheck(lib, attrs, digest).Ok? <==> Carries(lib, attrs, MessageDigestOid, 0x04, digest)
      {
        MessageDigestExactly(lib, attrs, digest);
      }
      var h := DigestName(signer.digestAlg);
      if h.Some? && lib.hash(h.value, sd.eContent.value).Some? {
        assert signer.digestAlg == DigestOid(h.value);
        assert lib.hash(h.value, sd.eContent.value) == Some(lib.hash(h.value, sd.eContent.value).value);
      }
    }
  }

  lemma PresentedExactly(sd: SignedData, certs: seq<Bytes>)
    ensures PresentedCertificates(sd) == Ok(certs) <==> Presents(sd, certs)
  {
    if sd.certificates.Some? {
      ExtractedExactly(sd.certificates.value, certs);
    }
  }

  lemma NothingToCheck(lib: CmsLib, sd: SignedData, signer: SignerInfo)
    requires sd.eContent.None?
    ensures forall cert :: CheckSigner(lib, sd, signer, cert).Err?
  {
  }

  lemma OpenVerifiedExactly(lib: CmsLib, sd: SignedData, v: VerifiedSignedData)
    ensures VerifyOpened(lib, sd) == Ok(v) <==> SignerVouches(lib, sd, v)
  {
    hide CheckSigner, Vouches, PresentedCertificates, Presents, SignerCert, IsFirstMatch;
    PresentedExactly(sd, v.allCerts);
    if sd.signerInfos != [] {
      var signer := sd.signerInfos[0];
      var sid := lib.decSid(signer.sid);
      if sid.Some? {
        SignerCertExactly(lib, v.allCerts, sid.value, v.signerCert);
      }
      if sd.eContent.Some? {
        CheckedExactly(lib, sd, signer, v.signerCert);
      } else {
        NothingToCheck(lib, sd, signer);
      }
    }
  }

  /** A message verifies exactly if it is signed so, and with exactly this outcome. */
  lemma VerifiedExactly(lib: CmsLib, der: Bytes, v: VerifiedSignedData)
    ensures VerifySignedData(lib, der) == Ok(v) <==> SignedBy(lib, der, v)
  {
    hide VerifyOpened, SignerVouches, OpenSignedData, IsSignedData;
    forall sd
      ensures OpenSignedData(lib, der) == Ok(sd) <==> IsSignedData(lib, der, sd)
      ensures VerifyOpened(lib, sd) == Ok(v) <==> SignerVouches(lib, sd, v)
    {
      OpenedExactly(lib, der, sd);
      OpenVerifiedExactly(lib, sd, v);
    }
    if OpenSignedData(lib, der).Ok? {
      assert IsSignedData(lib, der, OpenSignedData(lib, der).value);
    }
  }

  lemma OpenCreated(lib: CmsLib, sd: SignedData)
    requires lib.Lawful() && WrappedSignedData(lib, sd).Ok? && |WrappedSignedData(lib, sd).value| < U32_LIMIT
    ensures OpenSignedData(lib, WrappedSignedData(lib, sd).value) == Ok(sd)
    ensures lib.decContentInfo(WrappedSignedData(lib, sd).value).Some?
    ensures lib.decContentInfo(WrappedSignedData(lib, sd).value).value.contentType == SignedDataOid
  {
    TlvSize(0xA0, lib.encSignedData(sd).value);
    EnterEncoded(0xA0, lib.encSignedData(sd).value);
  }

  lemma CreatedSignerChecks(lib: CmsLib, sd: SignedData, signer: SignerInfo, key: Bytes, cert: Bytes, h: HashName)
    requires lib.Lawful() && lib.Certifies(cert, key)
    requires sd.eContent.Some? && lib.hash(h, sd.eContent.value).Some?
    requires var attrs := SignedAttributes(lib, sd.eContentType, lib.hash(h, sd.eContent.value).value);
             && lib.sign(key, h, Tlv(0x31, attrs)).Some?
             && signer == SignerInfo(signer.sid, DigestOid(h), Some(attrs), lib.signatureAlgorithm(key, h),
                                     lib.sign(key, h, Tlv(0x31, attrs)).value)
    ensures CheckSigner(lib, sd, signer, cert) == Ok(())
  {
    hide MessageDigestCheck, ContentTypeCheck, SignedAttributes;
    var digest := lib.hash(h, sd.eContent.value).value;
    AttributesAreFound(lib, sd.eContentType, digest);
    RetagRestoresSignedBytes(SignedAttributes(lib, sd.eContentType, digest));
  }

  lemma ConcatNotEmpty(cert: Bytes, extras: seq<Bytes>)
    requires IsTlv(cert)
    ensures Concat([cert] + extras) != []
  {
    assert ([cert] + extras)[0] == cert;
  }

  /**
   Whatever is signed with a certified key comes back from verification:
   content, type, signer, the certificates in order, and the algorithm.
   */
  lemma VerifyCreated(lib: CmsLib, content: Bytes, contentType: Oid, key: Bytes, cert: Bytes,
                      extras: seq<Bytes>, h: HashName)
    requires lib.Lawful() && lib.Certifies(cert, key)
    requires IsTlv(cert) && forall i :: 0 <= i < |extras| ==> IsTlv(extras[i])
    ensures var der := CreateSignedData(lib, content, contentType, key, cert, extras, h);
            der.Ok? && |der.value| < U32_LIMIT ==>
              VerifySignedData(lib, der.value)
              == Ok(VerifiedSignedData(content, contentType, cert, [cert] + extras,
                                       lib.signatureAlgorithm(key, h).oid))
  {
    hide CheckSigner, OpenSignedData, SignedAttributes, ExtractedCertificates, IsTlv;
    var der := CreateSignedData(lib, content, contentType, key, cert, extras, h);
    if der.Ok? && |der.value| < U32_LIMIT {
      var attrs := SignedAttributes(lib, contentType, lib.hash(h, content).value);
      var info := lib.certInfo(cert).value;
      var sid := SignerId(info.issuer, info.serial);
      var signer := SignerInfo(lib.encSid(sid).value, DigestOid(h), Some(attrs), lib.signatureAlgorithm(key, h),
                               lib.sign(key, h, Tlv(0x31, attrs)).value);
      ConcatNotEmpty(cert, extras);
      var sd := SignedData(contentType, Some(content), Some(Concat([cert] + extras)), [signer]);
      OpenCreated(lib, sd);
      ExtractedExactly(Concat([cert] + extras), [cert] + extras);
      assert SignerCert(lib, [cert] + extras, sid) == Ok(cert);
      CreatedSignerChecks(lib, sd, signer, key, cert, h);
    }
  }

  /** An unsigned message is recognised with its content, and never verifies as signed. */
  lemma UnsignedRoundTrip(lib: CmsLib, content: Bytes, contentType: Oid)
    requires lib.Lawful()
    requires CreateUnsignedData(lib, content, contentType).Ok?
    requires |CreateUnsignedData(lib, content, contentType).value| < U32_LIMIT
    ensures var der := CreateUnsignedData(lib, content, contentType).value;
            ExtractUnsignedContent(lib, der) == Ok((content, contentType)) && VerifySignedData(lib, der).Err?
  {
    OpenCreated(lib, SignedData(contentType, Some(content), None, []));
  }
}
