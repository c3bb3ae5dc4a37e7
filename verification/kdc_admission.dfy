/** Which requests the KDC admits, and for whom (section 3.2.2 of RFC 4556, section 4.1 of RFC 8062). */
module KdcAdmission {
  import opened Wrappers
  import opened Der
  import opened Algorithms
  import opened Cms
  import opened Suite
  import opened Kdc

  /** A SignedData is a SEQUENCE, so it never reads as an OCTET STRING. */
  ghost predicate TagsDistinguish(lib: CmsLib) {
    forall b :: lib.decSignedData(b).Some? ==> b != [] && b[0] == 0x30
  }

  /** A ContentInfo of this type whose EXPLICIT [0] holds an OCTET STRING. */
  ghost predicate IsBare(lib: CmsLib, der: Bytes, content: Bytes, contentType: Oid) {
    exists tagged, inner ::
      && lib.decContentInfo(der) == Some(ContentInfo(contentType, tagged))
      && Enter(0xA0, tagged) == Some(inner) && Enter(0x04, inner) == Some(content)
  }

  lemma BareExactly(lib: CmsLib, der: Bytes, content: Bytes, contentType: Oid)
    ensures ExtractBareContent(lib, der) == Ok((content, contentType)) <==> IsBare(lib, der, content, contentType)
  {
    hide Enter;
    var ci := lib.decContentInfo(der);
    if ci.Some? {
      assert ci == Some(ContentInfo(ci.value.contentType, ci.value.content));
    }
  }

  /** A SignedData of this content without any SignerInfo. */
  ghost predicate IsUnsigned(lib: CmsLib, der: Bytes, content: Bytes, contentType: Oid) {
    exists sd ::
      && IsSignedData(lib, der, sd)
      && sd.signerInfos == [] && sd.eContent == Some(content) && sd.eContentType == contentType
  }

  lemma UnsignedExactly(lib: CmsLib, der: Bytes, content: Bytes, contentType: Oid)
    ensures ExtractUnsignedContent(lib, der) == Ok((content, contentType)) <==>
            IsUnsigned(lib, der, content, contentType)
  {
    hide OpenSignedData, IsSignedData;
    forall sd
      ensures OpenSignedData(lib, der) == Ok(sd) <==> IsSignedData(lib, der, sd)
    {
      OpenedExactly(lib, der, sd);
    }
  }

  /** An AuthPack without any signature, in either form. */
  ghost predicate UnsignedPack(lib: CmsLib, der: Bytes, content: Bytes) {
    IsUnsigned(lib, der, content, AuthDataOid) || IsBare(lib, der, content, AuthDataOid)
  }

  /** With a SignerInfo, neither form of unsigned AuthPack is recognized. */
  lemma SignedIsNeverUnsigned(lib: CmsLib, der: Bytes, sd: SignedData)
    requires TagsDistinguish(lib)
    requires IsSignedData(lib, der, sd) && sd.signerInfos != []
    ensures ExtractUnsignedContent(lib, der).Err? && ExtractBareContent(lib, der).Err?
    ensures forall content :: !UnsignedPack(lib, der, content)
  {
    OpenedExactly(lib, der, sd);
    var inner := Enter(0xA0, lib.decContentInfo(der).value.content).value;
    assert inner[0] == 0x30;
    forall content
      ensures !UnsignedPack(lib, der, content)
    {
      UnsignedExactly(lib, der, content, AuthDataOid);
      BareExactly(lib, der, content, AuthDataOid);
    }
  }

  /** What is both a SignedData and bare content does not exist. */
  lemma SignedDataIsNotBare(lib: CmsLib, der: Bytes)
    requires TagsDistinguish(lib) && OpenSignedData(lib, der).Ok?
    ensures ExtractBareContent(lib, der).Err?
  {
    var inner := Enter(0xA0, lib.decContentInfo(der).value.content).value;
    assert inner[0] == 0x30;
  }

  /** Path, and EKU where the configuration asks for it. */
  predicate CertificateAccepted(trust: TrustChecks, c: KdcConfig, v: VerifiedSignedData) {
    && trust.validateChain(v.signerCert, v.allCerts, c.requireCrlChecking).Ok?
    && (c.requireEku ==> trust.clientEku(v.signerCert, c.acceptSecondaryEku) == Ok(true))
  }

  lemma OpenedUnsigned(lib: CmsLib, trust: TrustChecks, c: KdcConfig, der: Bytes, e: Envelope)
    requires TagsDistinguish(lib)
    ensures OpenAuthPack(lib, trust, c, der) == Ok(e) && e.isAnonymous <==>
            e.isAnonymous && e.clientCert == [] && UnsignedPack(lib, der, e.content)
  {
    UnsignedExactly(lib, der, e.content, AuthDataOid);
    BareExactly(lib, der, e.content, AuthDataOid);
    if ExtractUnsignedContent(lib, der).Ok? {
      SignedDataIsNotBare(lib, der);
    }
    hide VerifySignedData, ExtractUnsignedContent, ExtractBareContent, IsUnsigned, IsBare;
  }

  lemma VerifiedIsNotUnsigned(lib: CmsLib, der: Bytes)
    requires TagsDistinguish(lib) && VerifySignedData(lib, der).Ok?
    ensures ExtractUnsignedContent(lib, der).Err? && ExtractBareContent(lib, der).Err?
  {
    SignedDataIsNotBare(lib, der);
    hide CheckSigner, PresentedCertificates, SignerCert;
  }

  lemma OpenedSignedOnly(lib: CmsLib, trust: TrustChecks, c: KdcConfig, der: Bytes, e: Envelope)
    requires VerifySignedData(lib, der).Ok? ==>
               ExtractUnsignedContent(lib, der).Err? && ExtractBareContent(lib, der).Err?
    ensures OpenAuthPack(lib, trust, c, der) == Ok(e) && !e.isAnonymous <==>
            && VerifySignedData(lib, der).Ok?
            && var v := VerifySignedData(lib, der).value;
            && v.contentType == AuthDataOid && CertificateAccepted(trust, c, v)
            && e == Envelope(v.content, v.signerCert, false)
  {
    hide VerifySignedData, ExtractUnsignedContent, ExtractBareContent;
  }

  lemma OpenedSigned(lib: CmsLib, trust: TrustChecks, c: KdcConfig, der: Bytes, e: Envelope)
    requires TagsDistinguish(lib)
    ensures OpenAuthPack(lib, trust, c, der) == Ok(e) && !e.isAnonymous <==>
            exists v ::
              && SignedBy(lib, der, v)
              && v.contentType == AuthDataOid && CertificateAccepted(trust, c, v)
              && e == Envelope(v.content, v.signerCert, false)
  {
    hide SignedBy, CertificateAccepted;
    forall v
      ensures VerifySignedData(lib, der) == Ok(v) <==> SignedBy(lib, der, v)
    {
      VerifiedExactly(lib, der, v);
    }
    if VerifySignedData(lib, der).Ok? {
      VerifiedIsNotUnsigned(lib, der);
    }
    OpenedSignedOnly(lib, trust, c, der, e);
  }

  /** The AuthPack is timely, fresh and intact, and the request is what it asks for. */
  predicate PackAccepted(lib: Lib, trust: TrustChecks, c: KdcConfig, content: Bytes, body: Option<Bytes>,
                         maxSkew: int, now: int, v: VerifiedRequest)
  {
    && lib.decAuthPack(content).Some?
    && var pack := lib.decAuthPack(content).value;
    && now - maxSkew <= pack.ctime <= now + maxSkew
    && (c.requireFreshness ==> pack.freshnessToken.Some?)
    && (body.Some? && (pack.checksum.Some? || pack.checksum2.Some?) ==>
          trust.checksums(body.value, pack.checksum, pack.checksum2).Ok?)
    && pack.publicValue == Some(v.clientPublic) && pack.dhNonce == v.clientDhNonce
    && Establishes(lib, c, v.clientPublic, v.clientDhNonce.Some?, v.keyExchange)
    && pack.nonce == EncodeNonce(v.nonce)
    && v.supportedKdfs == if pack.supportedKdfs.Some? then pack.supportedKdfs.value else []
  }

  lemma PackAcceptedExactly(lib: Lib, trust: TrustChecks, c: KdcConfig, e: Envelope, body: Option<Bytes>,
                            maxSkew: int, now: int, v: VerifiedRequest)
    ensures CheckAuthPack(lib, trust, c, e, body, maxSkew, now) == Ok(v) <==>
            && PackAccepted(lib, trust, c, e.content, body, maxSkew, now, v)
            && v.clientCert == e.clientCert && v.isAnonymous == e.isAnonymous
  {
    hide KeyExchangeOf, Establishes;
    if lib.decAuthPack(e.content).Some? {
      var pack := lib.decAuthPack(e.content).value;
      KeyExchangeExactly(lib, c, v.clientPublic, pack.dhNonce.Some?, v.keyExchange);
      NonceBijection(v.nonce, pack.nonce);
    }
  }

  /** The plugin's whole decision on a request for a client, and what it then goes by. */
  predicate Admitted(lib: Lib, trust: TrustChecks, c: KdcConfig, paReq: Bytes, body: Option<Bytes>, maxSkew: int,
                     now: int, client: Option<ClientPrincipal>, v: VerifiedRequest)
  {
    && VerifyAsReq(lib, trust, c, paReq, body, maxSkew, now) == Ok(v)
    && AuthorizeClient(trust, c, v, client).Ok?
  }

  /** An unsigned request for WELLKNOWN/ANONYMOUS. */
  ghost predicate AnonymousRequest(lib: Lib, der: Bytes, content: Bytes, client: Option<ClientPrincipal>,
                                   v: VerifiedRequest)
  {
    && UnsignedPack(lib.cms, der, content) && v.isAnonymous && v.clientCert == []
    && client.Some? && client.value.anonymous
  }

  /** A request signed with a certificate that is valid for exactly this client. */
  ghost predicate AuthenticatedRequest(lib: Lib, trust: TrustChecks, c: KdcConfig, der: Bytes, content: Bytes,
                                       client: Option<ClientPrincipal>, v: VerifiedRequest)
  {
    && (exists s ::
          && SignedBy(lib.cms, der, s)
          && s.content == content && s.contentType == AuthDataOid && s.signerCert == v.clientCert
          && CertificateAccepted(trust, c, s))
    && !v.isAnonymous
    && client.Some? && client.value.name.Some?
    && trust.clientSan(v.clientCert, client.value.name.value, c.allowUpn) == Ok(true)
  }

  lemma AnonymousExactly(lib: Lib, trust: TrustChecks, c: KdcConfig, der: Bytes, e: Envelope,
                         client: Option<ClientPrincipal>, v: VerifiedRequest)
    requires TagsDistinguish(lib.cms)
    requires v.clientCert == e.clientCert && v.isAnonymous == e.isAnonymous && v.isAnonymous
    ensures OpenAuthPack(lib.cms, trust, c, der) == Ok(e) && AuthorizeClient(trust, c, v, client).Ok? <==>
            AnonymousRequest(lib, der, e.content, client, v)
  {
    hide OpenAuthPack, UnsignedPack;
    OpenedUnsigned(lib.cms, trust, c, der, e);
  }

  lemma AuthenticatedExactly(lib: Lib, trust: TrustChecks, c: KdcConfig, der: Bytes, e: Envelope,
                             client: Option<ClientPrincipal>, v: VerifiedRequest)
    requires TagsDistinguish(lib.cms)
    requires v.clientCert == e.clientCert && v.isAnonymous == e.isAnonymous && !v.isAnonymous
    ensures OpenAuthPack(lib.cms, trust, c, der) == Ok(e) && AuthorizeClient(trust, c, v, client).Ok? <==>
            AuthenticatedRequest(lib, trust, c, der, e.content, client, v)
  {
    hide OpenAuthPack, SignedBy, CertificateAccepted;
    OpenedSigned(lib.cms, trust, c, der, e);
  }

  /**
   A request is admitted, and understood as `v`, exactly if it is an acceptable
   AuthPack that says so, either unsigned and for the anonymous principal, or
   signed with everything the signer's certificate needs to speak for the
   client.
   */
  lemma AdmissionExactly(lib: Lib, trust: TrustChecks, c: KdcConfig, paReq: Bytes, body: Option<Bytes>, maxSkew: int,
                         now: int, client: Option<ClientPrincipal>, v: VerifiedRequest)
    requires TagsDistinguish(lib.cms)
    ensures Admitted(lib, trust, c, paReq, body, maxSkew, now, client, v) <==>
            exists der, content ::
              && lib.decPaReq(paReq) == Some(der)
              && PackAccepted(lib, trust, c, content, body, maxSkew, now, v)
              && (AnonymousRequest(lib, der, content, client, v)
                  || AuthenticatedRequest(lib, trust, c, der, content, client, v))
  {
    hide PackAccepted, CheckAuthPack, OpenAuthPack, AuthorizeClient, UnsignedPack, SignedBy;
    if lib.decPaReq(paReq).Some? {
      var der := lib.decPaReq(paReq).value;
      forall content
        ensures var e := Envelope(content, v.clientCert, v.isAnonymous);
                (OpenAuthPack(lib.cms, trust, c, der) == Ok(e)
                 && CheckAuthPack(lib, trust, c, e, body, maxSkew, now) == Ok(v)
                 && AuthorizeClient(trust, c, v, client).Ok?) <==>
                (PackAccepted(lib, trust, c, content, body, maxSkew, now, v)
                 && (AnonymousRequest(lib, der, content, client, v)
                     || AuthenticatedRequest(lib, trust, c, der, content, client, v)))
      {
        var e := Envelope(content, v.clientCert, v.isAnonymous);
        PackAcceptedExactly(lib, trust, c, e, body, maxSkew, now, v);
        if v.isAnonymous {
          AnonymousExactly(lib, trust, c, der, e, client, v);
        } else {
          AuthenticatedExactly(lib, trust, c, der, e, client, v);
        }
      }
      if OpenAuthPack(lib.cms, trust, c, der).Ok? {
        var e := OpenAuthPack(lib.cms, trust, c, der).value;
        PackAcceptedExactly(lib, trust, c, e, body, maxSkew, now, v);
        if CheckAuthPack(lib, trust, c, e, body, maxSkew, now) == Ok(v) {
          assert e == Envelope(e.content, v.clientCert, v.isAnonymous);
        }
      }
    }
  }

  /**
   The KDC's answer to a verified request for a client: a preauthentication
   failure without a client, for an unsigned request for anyone but the
   anonymous principal, and for a client without a name; a name mismatch for a
   certificate that does not speak for the client.
   */
  lemma AuthorizationExactly(trust: TrustChecks, c: KdcConfig, v: VerifiedRequest, client: Option<ClientPrincipal>)
    ensures AuthorizeClient(trust, c, v, client) == Err(PreauthFailedCode) <==>
            || client.None?
            || (v.isAnonymous && !client.value.anonymous)
            || (!v.isAnonymous && client.value.name.None?)
    ensures AuthorizeClient(trust, c, v, client) == Err(ClientNameMismatch) <==>
            && client.Some? && !v.isAnonymous && client.value.name.Some?
            && trust.clientSan(v.clientCert, client.value.name.value, c.allowUpn) != Ok(true)
  {
  }
}
