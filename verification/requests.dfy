/**
 One request on its way from the client to the KDC: the bytes the client sends,
 and everything the KDC makes of them.
 */
module Requests {
  import opened Wrappers
  import opened Der
  import opened Algorithms
  import opened Cms
  import opened Suite
  import opened Kdf
  import opened Client
  import opened Kdc
  import opened KdcAdmission

  /** What the next request of a client in state `s` asks for. */
  function Selected(s: ClientState): KeyExchange {
    if s.kemAlgorithm.Some? then Kem(s.kemAlgorithm.value) else Dh(s.dhGroup)
  }

  /** The state holds the key that its selection calls for, as it does once a request is built. */
  predicate HoldsKey(t: ClientState) {
    if t.kemAlgorithm.Some? then t.kemKey.Some? else t.dhKey.Some?
  }

  /** The public key in the latest request. */
  function SentKey(lib: Lib, t: ClientState): Spki
    requires HoldsKey(t)
  {
    if t.kemAlgorithm.Some? then KemSpki(lib, t.kemKey.value) else DhSpki(lib, t.dhKey.value)
  }

  /** The DH nonce in the latest request. */
  function SentNonce(t: ClientState): Option<Bytes> {
    if t.kemAlgorithm.Some? then None else t.dhNonce
  }

  predicate OwnGroup(s: ClientState) {
    s.dhKey.Some? ==> s.dhKey.value.group == s.dhGroup
  }

  /** A request that was just built asks for the selection, and carries the key and nonce now held. */
  lemma RequestCarries(lib: Lib, p: Policy, id: Identity, s: ClientState, inp: RequestInput)
    requires Built(lib, p, id, s, inp).1.Ok? && OwnGroup(s)
    ensures var (t, req) := Built(lib, p, id, s, inp);
            && HoldsKey(t) && OwnGroup(t) && inp.ctime.Some? && inp.checksums.Some?
            && Selected(t) == Selected(s) && t.keyExchange == Some(Selected(s)) && t.kemFloor == s.kemFloor
            && t.kemAlgorithm == s.kemAlgorithm
            && PresentsExchange(lib, Selected(s), SentKey(lib, t), SentNonce(t).Some?)
            && req == SealedRequest(lib, id, RequestPack(inp, SentKey(lib, t), SentNonce(t), s.kemAlgorithm.Some?))
  {
    hide SealedRequest, RequestPack;
  }

  /* ----- What is inside ----- */

  /** The structure inside a created message, whether or not its signature holds. */
  lemma CreatedStructure(lib: CmsLib, content: Bytes, contentType: Oid, key: Bytes, cert: Bytes, extras: seq<Bytes>,
                         h: HashName)
    requires lib.Lawful()
    ensures var der := CreateSignedData(lib, content, contentType, key, cert, extras, h);
            der.Ok? && |der.value| < U32_LIMIT ==>
              && OpenSignedData(lib, der.value).Ok?
              && OpenSignedData(lib, der.value).value.signerInfos != []
              && OpenSignedData(lib, der.value).value.eContent == Some(content)
              && lib.decContentInfo(der.value).Some?
              && lib.decContentInfo(der.value).value.contentType == SignedDataOid
  {
    hide OpenSignedData, SignedAttributes;
    var der := CreateSignedData(lib, content, contentType, key, cert, extras, h);
    if der.Ok? && |der.value| < U32_LIMIT {
      var attrs := SignedAttributes(lib, contentType, lib.hash(h, content).value);
      var info := lib.certInfo(cert).value;
      var signer := SignerInfo(lib.encSid(SignerId(info.issuer, info.serial)).value, DigestOid(h), Some(attrs),
                               lib.signatureAlgorithm(key, h), lib.sign(key, h, Tlv(0x31, attrs)).value);
      var certs := Concat([cert] + extras);
      OpenCreated(lib, SignedData(contentType, Some(content), if certs == [] then None else Some(certs), [signer]));
    }
  }

  lemma OpenedContent(lib: CmsLib, trust: TrustChecks, c: KdcConfig, content: Bytes, der: Bytes)
    requires OpenSignedData(lib, der).Ok? && OpenSignedData(lib, der).value.signerInfos != []
    requires OpenSignedData(lib, der).value.eContent == Some(content)
    requires lib.decContentInfo(der).Some? && lib.decContentInfo(der).value.contentType == SignedDataOid
    ensures OpenAuthPack(lib, trust, c, der).Ok? ==> OpenAuthPack(lib, trust, c, der).value.content == content
  {
    hide OpenSignedData, CheckSigner, PresentedCertificates, SignerCert, Enter;
    assert ExtractUnsignedContent(lib, der).Err?;
    assert ExtractBareContent(lib, der).Ok? ==> ExtractBareContent(lib, der).value.1 == SignedDataOid;
  }

  lemma SignedContent(lib: Lib, trust: TrustChecks, c: KdcConfig, id: Identity, content: Bytes, der: Bytes)
    requires lib.CodecsInvert() && |der| < U32_LIMIT && id.signingKey.Some?
    requires CreateSignedData(lib.cms, content, AuthDataOid, id.signingKey.value, id.cert, id.chain,
                              DigestForSigner(lib.cms, id.cert)) == Ok(der)
    ensures OpenAuthPack(lib.cms, trust, c, der).Ok? ==> OpenAuthPack(lib.cms, trust, c, der).value.content == content
  {
    hide CreateSignedData;
    CreatedStructure(lib.cms, content, AuthDataOid, id.signingKey.value, id.cert, id.chain,
                     DigestForSigner(lib.cms, id.cert));
    OpenedContent(lib.cms, trust, c, content, der);
  }

  /** Whatever the KDC verified came out of the pack the client sealed. */
  lemma SealedContent(lib: Lib, trust: TrustChecks, c: KdcConfig, id: Identity, pack: AuthPack)
    requires lib.CodecsInvert()
    ensures var req := SealedRequest(lib, id, pack);
            req.Ok? && |req.value| < U32_LIMIT ==>
              && lib.decPaReq(req.value).Some?
              && var e := OpenAuthPack(lib.cms, trust, c, lib.decPaReq(req.value).value);
                 e.Ok? ==> lib.encAuthPack(pack) == Some(e.value.content)
  {
    var req := SealedRequest(lib, id, pack);
    if req.Ok? && |req.value| < U32_LIMIT {
      var content := lib.encAuthPack(pack).value;
      var der := lib.decPaReq(req.value).value;
      hide Concat, SignedAttributes, CheckSigner, ExtractBareContent;
      if id.cert == [] {
        UnsignedRoundTrip(lib.cms, content, AuthDataOid);
      } else {
        SignedContent(lib, trust, c, id, content, der);
      }
    }
  }

  /** A client's identity: anonymous, or with a certificate for its key and well-formed certificates. */
  ghost predicate ProperClient(lib: CmsLib, id: Identity) {
    id.cert != [] ==>
      && id.signingKey.Some? && lib.Certifies(id.cert, id.signingKey.value)
      && IsTlv(id.cert) && forall i :: 0 <= i < |id.chain| ==> IsTlv(id.chain[i])
  }

  /** The KDC accepts the client's certificate: its path, and its EKU where that is asked for. */
  predicate ClientAccepted(trust: TrustChecks, c: KdcConfig, id: Identity) {
    id.cert != [] ==>
      && trust.validateChain(id.cert, [id.cert] + id.chain, c.requireCrlChecking).Ok?
      && (c.requireEku ==> trust.clientEku(id.cert, c.acceptSecondaryEku) == Ok(true))
  }

  lemma VerifiedOpens(lib: CmsLib, trust: TrustChecks, c: KdcConfig, der: Bytes, v: VerifiedSignedData)
    requires TagsDistinguish(lib) && VerifySignedData(lib, der) == Ok(v) && v.contentType == AuthDataOid
    ensures var e := OpenAuthPack(lib, trust, c, der);
            && (e.Ok? <==> CertificateAccepted(trust, c, v))
            && (e.Ok? ==> e.value == Envelope(v.content, v.signerCert, false))
  {
    VerifiedIsNotUnsigned(lib, der);
    hide VerifySignedData, ExtractUnsignedContent, ExtractBareContent, TagsDistinguish;
  }

  lemma SignedOpens(lib: Lib, trust: TrustChecks, c: KdcConfig, id: Identity, content: Bytes, der: Bytes)
    requires lib.CodecsInvert() && TagsDistinguish(lib.cms) && |der| < U32_LIMIT
    requires ProperClient(lib.cms, id) && id.cert != []
    requires CreateSignedData(lib.cms, content, AuthDataOid, id.signingKey.value, id.cert, id.chain,
                              DigestForSigner(lib.cms, id.cert)) == Ok(der)
    ensures var e := OpenAuthPack(lib.cms, trust, c, der);
            && (e.Ok? <==> ClientAccepted(trust, c, id))
            && (e.Ok? ==> e.value == Envelope(content, id.cert, false))
  {
    VerifyCreated(lib.cms, content, AuthDataOid, id.signingKey.value, id.cert, id.chain,
                  DigestForSigner(lib.cms, id.cert));
    hide CreateSignedData, VerifySignedData, OpenAuthPack, CmsLib.Certifies, IsTlv, TagsDistinguish;
    VerifiedOpens(lib.cms, trust, c, der, VerifySignedData(lib.cms, der).value);
  }

  lemma HasKey(lib: CmsLib, id: Identity)
    requires ProperClient(lib, id) && id.cert != []
    ensures id.signingKey.Some?
  {
  }

  /**
   The KDC opens the client's request exactly if it accepts the client's
   certificate, and finds what was sealed; an anonymous one it always opens.
   */
  lemma SealedOpens(lib: Lib, trust: TrustChecks, c: KdcConfig, id: Identity, pack: AuthPack)
    requires lib.CodecsInvert() && TagsDistinguish(lib.cms) && ProperClient(lib.cms, id)
    ensures var req := SealedRequest(lib, id, pack);
            req.Ok? && |req.value| < U32_LIMIT ==>
              && lib.decPaReq(req.value).Some? && lib.encAuthPack(pack).Some?
              && var e := OpenAuthPack(lib.cms, trust, c, lib.decPaReq(req.value).value);
              && (e.Ok? <==> ClientAccepted(trust, c, id))
              && (e.Ok? ==> e.value == Envelope(lib.encAuthPack(pack).value, id.cert, id.cert == []))
  {
    var req := SealedRequest(lib, id, pack);
    if req.Ok? && |req.value| < U32_LIMIT {
      var content := lib.encAuthPack(pack).value;
      var der := lib.decPaReq(req.value).value;
      hide CreateSignedData, VerifySignedData, ExtractUnsignedContent, ExtractBareContent, ProperClient;
      if id.cert == [] {
        UnsignedRoundTrip(lib.cms, content, AuthDataOid);
      } else {
        HasKey(lib.cms, id);
        SignedOpens(lib, trust, c, id, content, der);
      }
    }
  }

  /* ----- The KDC's verdict ----- */

  /** The KDC's reading of an honest request, up to the key exchange: signature, time, freshness, checksums. */
  function OtherChecks(lib: Lib, trust: TrustChecks, c: KdcConfig, req: Bytes, inp: RequestInput, body: Option<Bytes>,
                       maxSkew: int, now: int): Fallible<Envelope>
    requires inp.ctime.Some? && inp.checksums.Some?
  {
    var der :- OrElse(lib.decPaReq(req), Asn1);
    var envelope :- OpenAuthPack(lib.cms, trust, c, der);
    if AbsDiff(inp.ctime.value, now) > maxSkew then Err(ClockSkew)
    else if c.requireFreshness && inp.freshness.None? then Err(Config)
    else
      var _ :- if body.None? then Ok(())
               else trust.checksums(body.value, Some(inp.checksums.value.0),
                                    Some((inp.checksums.value.1, Sha256Oid)));
      Ok(envelope)
  }

  lemma CheckedPack(lib: Lib, trust: TrustChecks, c: KdcConfig, e: Envelope, inp: RequestInput, spki: Spki,
                    dhNonce: Option<Bytes>, kem: bool, body: Option<Bytes>, maxSkew: int, now: int)
    requires inp.ctime.Some? && inp.checksums.Some?
    requires lib.decAuthPack(e.content) == Some(RequestPack(inp, spki, dhNonce, kem))
    ensures CheckAuthPack(lib, trust, c, e, body, maxSkew, now)
         == if AbsDiff(inp.ctime.value, now) > maxSkew then Err(ClockSkew)
            else if c.requireFreshness && inp.freshness.None? then Err(Config)
            else
              var _ :- if body.None? then Ok(())
                       else trust.checksums(body.value, Some(inp.checksums.value.0),
                                            Some((inp.checksums.value.1, Sha256Oid)));
              var x :- KeyExchangeOf(lib, c, spki, dhNonce.Some?);
              Ok(VerifiedRequest(e.clientCert, spki, inp.nonce, SupportedKdfs(kem), dhNonce, e.isAnonymous, x))
  {
    hide KeyExchangeOf;
    NonceBijection(inp.nonce, EncodeNonce(inp.nonce));
  }

  /** What the KDC makes of a request whose other checks succeed: the client's own values, or a typed refusal. */
  predicate IsVerdict(c: KdcConfig, x: KeyExchange, spki: Spki, dhNonce: Option<Bytes>, inp: RequestInput, e: Envelope,
                      verdict: Fallible<VerifiedRequest>)
  {
    if AcceptsExchange(c, x) then
      verdict == Ok(VerifiedRequest(e.clientCert, spki, inp.nonce, SupportedKdfs(x.Kem?), dhNonce, e.isAnonymous, x))
    else
      verdict.Err? && ErrorClass(verdict.error) == EphemeralKeyParamsNotAccepted
  }

  /**
   From the client's state to the KDC's answer, through the bytes: the other
   checks decide first, and then the configuration and the exchange asked for.
   */
  lemma RequestDecision(lib: Lib, trust: TrustChecks, p: Policy, id: Identity, s: ClientState, inp: RequestInput,
                        c: KdcConfig, body: Option<Bytes>, maxSkew: int, now: int)
    requires lib.CodecsInvert() && lib.RecognizesGroups() && OwnGroup(s)
    requires Built(lib, p, id, s, inp).1.Ok? && |Built(lib, p, id, s, inp).1.value| < U32_LIMIT
    ensures inp.ctime.Some? && inp.checksums.Some?
    ensures var (t, req) := Built(lib, p, id, s, inp);
            var others := OtherChecks(lib, trust, c, req.value, inp, body, maxSkew, now);
            var verdict := VerifyAsReq(lib, trust, c, req.value, body, maxSkew, now);
            && HoldsKey(t)
            && (others.Err? ==> verdict == Err(others.error))
            && (others.Ok? ==> IsVerdict(c, Selected(s), SentKey(lib, t), SentNonce(t), inp, others.value, verdict))
  {
    RequestCarries(lib, p, id, s, inp);
    hide Built, SealedRequest, OpenAuthPack, KeyExchangeOf, AcceptsExchange, CheckAuthPack, RequestPack;
    var (t, req) := Built(lib, p, id, s, inp);
    var spki, dhNonce, kem := SentKey(lib, t), SentNonce(t), s.kemAlgorithm.Some?;
    var pack := RequestPack(inp, spki, dhNonce, kem);
    SealedContent(lib, trust, c, id, pack);
    ExchangeDecision(lib, c, Selected(s), spki, dhNonce.Some?);
    var envelope := OpenAuthPack(lib.cms, trust, c, lib.decPaReq(req.value).value);
    if envelope.Ok? {
      CheckedPack(lib, trust, c, envelope.value, inp, spki, dhNonce, kem, body, maxSkew, now);
    }
  }

  /**
   The request is within the clock skew, fresh and intact where that is asked
   for, and from a client whose certificate the KDC accepts.
   */
  predicate Admissible(trust: TrustChecks, c: KdcConfig, id: Identity, inp: RequestInput, body: Option<Bytes>,
                       maxSkew: int, now: int)
  {
    && inp.ctime.Some? && inp.checksums.Some?
    && now - maxSkew <= inp.ctime.value <= now + maxSkew
    && (c.requireFreshness ==> inp.freshness.Some?)
    && (body.Some? ==> trust.checksums(body.value, Some(inp.checksums.value.0),
                                       Some((inp.checksums.value.1, Sha256Oid))).Ok?)
    && ClientAccepted(trust, c, id)
  }

  /** The other checks let an honest request through exactly if it is admissible. */
  lemma OtherChecksExactly(lib: Lib, trust: TrustChecks, p: Policy, id: Identity, s: ClientState, inp: RequestInput,
                           c: KdcConfig, body: Option<Bytes>, maxSkew: int, now: int)
    requires lib.CodecsInvert() && TagsDistinguish(lib.cms) && ProperClient(lib.cms, id) && OwnGroup(s)
    requires Built(lib, p, id, s, inp).1.Ok? && |Built(lib, p, id, s, inp).1.value| < U32_LIMIT
    ensures inp.ctime.Some? && inp.checksums.Some?
    ensures var others := OtherChecks(lib, trust, c, Built(lib, p, id, s, inp).1.value, inp, body, maxSkew, now);
            && (others.Ok? <==> Admissible(trust, c, id, inp, body, maxSkew, now))
            && (others.Ok? ==> others.value.clientCert == id.cert && others.value.isAnonymous == (id.cert == []))
  {
    RequestCarries(lib, p, id, s, inp);
    hide Built, SealedRequest, OpenAuthPack, ClientAccepted, RequestPack, ProperClient, PresentsExchange;
    var t := Built(lib, p, id, s, inp).0;
    SealedOpens(lib, trust, c, id, RequestPack(inp, SentKey(lib, t), SentNonce(t), s.kemAlgorithm.Some?));
  }
}
