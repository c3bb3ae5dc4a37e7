/**
 One honest exchange, end to end: the client's request, the KDC's decision and
 reply, and the client's acceptance. Whatever the cryptography, if it obeys
 the laws of `Suite.Lib`, both ends hold the same reply key.
 */
module KeyAgreement {
  import opened Wrappers
  import opened Der
  import opened Algorithms
  import opened KemTypes
  import opened Cms
  import opened Suite
  import opened Kdf
  import opened Client
  import opened Kdc
  import opened KdcAdmission
  import opened Requests

  /** A KDC whose certificate matches its signing key and whose certificates are well-formed. */
  ghost predicate ProperIdentity(lib: CmsLib, id: KdcIdentity) {
    && id.signingKey.Some? && lib.Certifies(id.cert, id.signingKey.value)
    && IsTlv(id.cert) && forall i :: 0 <= i < |id.chain| ==> IsTlv(id.chain[i])
  }

  /** The two ends' views of one exchange: same nonce, enctype and request, and the same parties. */
  predicate SameExchange(lib: Lib, c: RepParams, k: ReplyParams) {
    && c.nonce == k.nonce && c.enctype == k.enctype && c.asReq == k.asReq
    && SameParty(lib, c.clientName, k.clientName) && SameParty(lib, c.serverName, k.serverName)
  }

  function KdcSignatureOid(lib: CmsLib, id: KdcIdentity): Oid
    requires id.signingKey.Some?
  {
    lib.signatureAlgorithm(id.signingKey.value, DigestForSigner(lib, id.cert)).oid
  }

  lemma SignedReplyVerifies(lib: CmsLib, id: KdcIdentity, content: Bytes, contentType: Oid)
    requires lib.Lawful() && ProperIdentity(lib, id)
    ensures var r := SignedReply(lib, id, content, contentType);
            r.Ok? && |r.value| < U32_LIMIT ==>
              VerifySignedData(lib, r.value)
              == Ok(VerifiedSignedData(content, contentType, id.cert, [id.cert] + id.chain, KdcSignatureOid(lib, id)))
  {
    hide VerifySignedData, CreateSignedData;
    VerifyCreated(lib, content, contentType, id.signingKey.value, id.cert, id.chain, DigestForSigner(lib, id.cert));
  }

  /* ----- The KEM path ----- */

  /** What the client makes of an honest reply, besides the key. */
  function Verdict(lib: Lib, p: Policy, id: KdcIdentity, kem: bool, chain: ChainCheck, key: DerivedKey)
    : Fallible<DerivedKey>
    requires id.signingKey.Some?
  {
    if kem && p.hasPqCertificate && !IsPqSignatureOid(KdcSignatureOid(lib.cms, id)) then Err(DowngradeRejected)
    else if chain(id.cert, [id.cert] + id.chain).Err? then Err(chain(id.cert, [id.cert] + id.chain).error)
    else Ok(key)
  }

  /**
   The client accepts the KDC's reply to its KEM key exactly if it trusts the
   KDC's certificate (and, with a post-quantum certificate of its own, the
   KDC's signature is post-quantum too), and then derives the KDC's key.
   */
  lemma KemKeysAgree(lib: Lib, p: Policy, id: KdcIdentity, own: KemKeyPair, v: VerifiedRequest,
                     kp: ReplyParams, random: ReplyRandom, cp: RepParams, chain: ChainCheck)
    requires lib.Lawful() && ProperIdentity(lib.cms, id) && SameExchange(lib, cp, kp)
    requires v.keyExchange == Kem(own.alg) && v.clientPublic == KemSpki(lib, own)
    ensures var r := BuildKemRep(lib, id, v, kp, random);
            r.Ok? && |r.value.0| < U32_LIMIT ==>
              && IsKemRep(r.value.0)
              && KemReplyKey(lib, p, own, r.value.0, cp, chain) == Verdict(lib, p, id, true, chain, r.value.1)
  {
    hide VerifySignedData, DecodeKemRepContent, DecodeKemRepInfo, KemRepInfoDer, CreateSignedData, PkinitKemKdf,
         SignedReply, IsTlv;
    var r := BuildKemRep(lib, id, v, kp, random);
    if r.Ok? && |r.value.0| < U32_LIMIT {
      var (ct, secret) := lib.kemEncapsulate(own.alg, v.clientPublic, random.key.value).value;
      var info := KemInfo(KemAlgId(own.alg), ct, AlgId(HkdfSha512Oid, None), Some(EncodeNonce(kp.nonce)), None);
      var content := lib.encKemInfo(info).value;
      var signedData := SignedReply(lib.cms, id, content, KemKeyDataOid).value;
      assert r.value.0 == KemRepWrapper(KemRepInfoDer(signedData));
      KemRepRoundTrip(signedData);
      SignedReplyVerifies(lib.cms, id, content, KemKeyDataOid);
      NonceBijection(kp.nonce, EncodeNonce(kp.nonce));
    }
  }

  /* ----- The DH path ----- */

  lemma SecretsAgree(lib: Lib, own: DhKeyPair, kdcOwn: Bytes)
    requires lib.DhCommutes()
    ensures lib.dhDerive(own.group, kdcOwn, DhSpki(lib, own))
         == lib.dhDerive(own.group, own.secret, Spki(GroupAlgId(own.group), lib.dhPublic(own.group, kdcOwn)))
  {
  }

  lemma DerivationsAgree(lib: Lib, secret: Bytes, ownNonce: Option<Bytes>, nonce: Bytes, rep: PaRep, raw: Bytes,
                         kp: ReplyParams, cp: RepParams)
    requires rep.DhInfo? && rep.serverNonce == Some(nonce) && SameExchange(lib, cp, kp)
    ensures DerivedFromDh(lib, secret, ownNonce, rep, raw, cp)
         == ReplyKeyFromDh(lib, secret, rep.kdf, ownNonce, nonce, raw, kp)
  {
    hide PkinitKdf, LegacyKey;
  }

  /**
   The same for DH, whatever KDFs the request listed: with a KDF both sides
   derive over the same context (section 6 of RFC 8636), without one both cut
   the secret and the two nonces alike.
   */
  lemma DhKeysAgree(lib: Lib, id: KdcIdentity, own: DhKeyPair, ownNonce: Option<Bytes>, v: VerifiedRequest,
                    kp: ReplyParams, random: ReplyRandom, cp: RepParams, chain: ChainCheck)
    requires lib.Lawful() && ProperIdentity(lib.cms, id) && SameExchange(lib, cp, kp)
    requires v.keyExchange == Dh(own.group) && v.clientPublic == DhSpki(lib, own) && v.clientDhNonce == ownNonce
    ensures var r := BuildDhRep(lib, id, v, kp, random);
            r.Ok? && |r.value.0| < U32_LIMIT ==>
              && !IsKemRep(r.value.0) && lib.decPaRep(r.value.0).Some?
              && var rep := lib.decPaRep(r.value.0).value;
              && rep.DhInfo?
              && DhReplyKey(lib, Some(own), ownNonce, rep, r.value.0, cp, chain)
                 == if chain(id.cert, [id.cert] + id.chain).Err? then Err(chain(id.cert, [id.cert] + id.chain).error)
                    else Ok(r.value.1)
  {
    hide VerifySignedData, SignedReply, PickKdfAlg, DerivedFromDh, ReplyKeyFromDh, ProperIdentity, SameParty;
    var r := BuildDhRep(lib, id, v, kp, random);
    if r.Ok? && |r.value.0| < U32_LIMIT {
      var g, kdcOwn, nonce := own.group, random.key.value, random.nonce.value;
      var secret := lib.dhDerive(g, kdcOwn, DhSpki(lib, own)).value;
      SecretsAgree(lib, own, kdcOwn);
      var info := DhKeyInfo(lib.dhPublic(g, kdcOwn), EncodeNonce(kp.nonce));
      var content := lib.encDhKeyInfo(info).value;
      var signedData := SignedReply(lib.cms, id, content, DhKeyDataOid).value;
      var kdf := PickKdfAlg(v.supportedKdfs);
      var rep := DhInfo(signedData, Some(nonce), kdf);
      assert Some(r.value.0) == lib.encPaRep(rep) && lib.decPaRep(r.value.0) == Some(rep);
      SignedReplyVerifies(lib.cms, id, content, DhKeyDataOid);
      NonceBijection(kp.nonce, EncodeNonce(kp.nonce));
      DerivationsAgree(lib, secret, ownNonce, nonce, rep, r.value.0, kp, cp);
    }
  }

  /* ----- From the request on ----- */

  lemma KemKeyOfSelection(lib: Lib, p: Policy, id: Identity, s: ClientState, inp: RequestInput)
    requires Built(lib, p, id, s, inp).1.Ok? && s.kemAlgorithm.Some?
    ensures var t := Built(lib, p, id, s, inp).0;
            t.kemKey.Some? && t.kemKey.value.alg == s.kemAlgorithm.value
  {
    hide SealedRequest, RequestPack;
  }

  /**
   Request, verification, reply, acceptance, from any client state. The KDC
   verifies the request exactly if it is admissible and asks for an exchange
   that the configuration takes; an admissible one it refuses with typed data.
   If the KDC then builds a reply to the request, the client's next step
   accepts that reply exactly if it trusts the KDC, and with the KDC's key.
   */
  lemma HonestExchangeAgrees(
      lib: Lib, trust: TrustChecks, p: Policy, c: KdcConfig, clientId: Identity, kdcId: KdcIdentity,
      s: ClientState, inp: RequestInput, body: Option<Bytes>, maxSkew: int, now: int,
      kp: ReplyParams, random: ReplyRandom, cp: RepParams, chain: ChainCheck)
    requires lib.Lawful() && TagsDistinguish(lib.cms) && OwnGroup(s)
    requires ProperIdentity(lib.cms, kdcId) && ProperClient(lib.cms, clientId)
    requires Built(lib, p, clientId, s, inp).1.Ok? && |Built(lib, p, clientId, s, inp).1.value| < U32_LIMIT
    requires cp.nonce == inp.nonce && SameExchange(lib, cp, kp.(nonce := inp.nonce))
    ensures var (t, req) := Built(lib, p, clientId, s, inp);
            var v := VerifyAsReq(lib, trust, c, req.value, body, maxSkew, now);
            var admissible := Admissible(trust, c, clientId, inp, body, maxSkew, now);
            && (v.Ok? <==> admissible && AcceptsExchange(c, Selected(s)))
            && (v.Err? && admissible ==> ErrorClass(v.error) == EphemeralKeyParamsNotAccepted)
            && (v.Ok? ==>
                  && v.value.keyExchange == Selected(s) && v.value.nonce == inp.nonce
                  && v.value.clientCert == clientId.cert && v.value.isAnonymous == (clientId.cert == [])
                  && var r := BuildAsRep(lib, kdcId, v.value, kp.(nonce := v.value.nonce), random);
                  && (r.Ok? && |r.value.0| < U32_LIMIT ==>
                        && IsKemRep(r.value.0) == s.kemAlgorithm.Some?
                        && Processed(lib, p, t, r.value.0, cp, chain).1
                           == Verdict(lib, p, kdcId, s.kemAlgorithm.Some?, chain, r.value.1)))
  {
    RequestDecision(lib, trust, p, clientId, s, inp, c, body, maxSkew, now);
    OtherChecksExactly(lib, trust, p, clientId, s, inp, c, body, maxSkew, now);
    RequestCarries(lib, p, clientId, s, inp);
    hide Built, VerifyAsReq, BuildKemRep, BuildDhRep, KemReplyKey, DhReplyKey, ProperIdentity, AcceptsExchange,
         OtherChecks, PresentsExchange, Admissible, ProperClient, TagsDistinguish;
    var (t, req) := Built(lib, p, clientId, s, inp);
    var v := VerifyAsReq(lib, trust, c, req.value, body, maxSkew, now);
    if v.Ok? {
      if s.kemAlgorithm.Some? {
        KemKeyOfSelection(lib, p, clientId, s, inp);
        KemKeysAgree(lib, p, kdcId, t.kemKey.value, v.value, kp.(nonce := inp.nonce), random, cp, chain);
      } else {
        DhKeysAgree(lib, kdcId, t.dhKey.value, t.dhNonce, v.value, kp.(nonce := inp.nonce), random, cp, chain);
      }
    }
  }

  /* ----- A DH reply after a switch to a KEM ----- */

  /** A DH reply is judged by the stored DH key and nonce alone. */
  lemma DhReplyIgnoresSelection(lib: Lib, p: Policy, s: ClientState, t: ClientState, rep: Bytes, cp: RepParams,
                                chain: ChainCheck)
    requires !IsKemRep(rep) && s.dhKey == t.dhKey && s.dhNonce == t.dhNonce
    ensures Processed(lib, p, s, rep, cp, chain).1 == Processed(lib, p, t, rep, cp, chain).1
  {
    hide DhReplyKey, KemReplyKey;
  }

  /** The client's state after it switches to a KEM and sends the next request. */
  function AfterSwitch(lib: Lib, p: Policy, id: Identity, s: ClientState, a: KemAlgorithm, inp: RequestInput)
    : ClientState
  {
    Built(lib, p, id, Applied(s, Kem(a)), inp).0
  }

  lemma SwitchKeepsDh(lib: Lib, p: Policy, id: Identity, s: ClientState, a: KemAlgorithm, inp: RequestInput)
    requires ReachesKeyGeneration(p, Applied(s, Kem(a)), inp)
    ensures var t := AfterSwitch(lib, p, id, s, a, inp);
            t.keyExchange == Some(Kem(a)) && t.dhKey == s.dhKey && t.dhNonce == s.dhNonce
  {
    hide SealedRequest, RequestPack;
  }

  /**
   The mode of a DH reply need not be that of the latest request. An honest DH
   request is verified and answered; the client then switches to a KEM, as a
   retry makes it do, and sends a KEM request; and the answer to the DH request
   is still accepted, with the KDC's key.
   */
  lemma StaleDhReplyAccepted(
      lib: Lib, trust: TrustChecks, p: Policy, c: KdcConfig, clientId: Identity, kdcId: KdcIdentity,
      s: ClientState, inp: RequestInput, body: Option<Bytes>, maxSkew: int, now: int,
      kp: ReplyParams, random: ReplyRandom, cp: RepParams, chain: ChainCheck, a: KemAlgorithm, next: RequestInput)
    returns (rep: Bytes, key: DerivedKey)
    requires lib.Lawful() && TagsDistinguish(lib.cms) && OwnGroup(s) && s.kemAlgorithm.None?
    requires ProperIdentity(lib.cms, kdcId) && ProperClient(lib.cms, clientId)
    requires var req := Built(lib, p, clientId, s, inp).1;
             && req.Ok? && |req.value| < U32_LIMIT
             && VerifyAsReq(lib, trust, c, req.value, body, maxSkew, now).Ok?
             && var r := BuildAsRep(lib, kdcId, VerifyAsReq(lib, trust, c, req.value, body, maxSkew, now).value,
                                    kp.(nonce := inp.nonce), random);
                r.Ok? && |r.value.0| < U32_LIMIT
    requires cp.nonce == inp.nonce && SameExchange(lib, cp, kp.(nonce := inp.nonce))
    requires chain(kdcId.cert, [kdcId.cert] + kdcId.chain).Ok?
    requires var t := Built(lib, p, clientId, s, inp).0;
             AcceptsOffer(p, t, Kem(a)) && ReachesKeyGeneration(p, Applied(t, Kem(a)), next)
    ensures var (t, req) := Built(lib, p, clientId, s, inp);
            var v := VerifyAsReq(lib, trust, c, req.value, body, maxSkew, now).value;
            var later := AfterSwitch(lib, p, clientId, t, a, next);
            && BuildAsRep(lib, kdcId, v, kp.(nonce := inp.nonce), random) == Ok((rep, key))
            && t.keyExchange == Some(Dh(s.dhGroup)) && later.keyExchange == Some(Kem(a))
            && Processed(lib, p, later, rep, cp, chain).1 == Ok(key)
  {
    HonestExchangeAgrees(lib, trust, p, c, clientId, kdcId, s, inp, body, maxSkew, now, kp, random, cp, chain);
    RequestCarries(lib, p, clientId, s, inp);
    hide Built, VerifyAsReq, BuildAsRep, Processed, ProperIdentity, AcceptsExchange, AfterSwitch, PresentsExchange,
         Admissible, ProperClient, TagsDistinguish;
    var (t, req) := Built(lib, p, clientId, s, inp);
    var v := VerifyAsReq(lib, trust, c, req.value, body, maxSkew, now).value;
    var r := BuildAsRep(lib, kdcId, v, kp.(nonce := inp.nonce), random).value;
    rep, key := r.0, r.1;
    SwitchKeepsDh(lib, p, clientId, t, a, next);
    DhReplyIgnoresSelection(lib, p, t, AfterSwitch(lib, p, clientId, t, a, next), rep, cp, chain);
  }

  /** The KDC can answer this key: some request with it gets a reply, for some random bytes. */
  ghost predicate Answers(lib: Lib, id: KdcIdentity, kp: ReplyParams, own: DhKeyPair, dhNonce: Option<Bytes>) {
    exists v: VerifiedRequest, random ::
      && v.keyExchange == Dh(own.group) && v.clientPublic == DhSpki(lib, own) && v.clientDhNonce == dhNonce
      && var r := BuildDhRep(lib, id, v, kp, random);
      && r.Ok? && |r.value.0| < U32_LIMIT
  }

  lemma DhKeyAccepts(lib: Lib, p: Policy, kdcId: KdcIdentity, t: ClientState, kp: ReplyParams, cp: RepParams,
                     chain: ChainCheck) returns (rep: Bytes)
    requires lib.Lawful() && ProperIdentity(lib.cms, kdcId) && SameExchange(lib, cp, kp)
    requires chain(kdcId.cert, [kdcId.cert] + kdcId.chain).Ok?
    requires t.dhKey.Some? && Answers(lib, kdcId, kp, t.dhKey.value, t.dhNonce)
    ensures !IsKemRep(rep) && Processed(lib, p, t, rep, cp, chain).1.Ok?
  {
    hide BuildDhRep, DhReplyKey, ProperIdentity, KemReplyKey;
    var own := t.dhKey.value;
    var v: VerifiedRequest, random :|
      && v.keyExchange == Dh(own.group) && v.clientPublic == DhSpki(lib, own) && v.clientDhNonce == t.dhNonce
      && var r := BuildDhRep(lib, kdcId, v, kp, random);
      && r.Ok? && |r.value.0| < U32_LIMIT;
    DhKeysAgree(lib, kdcId, own, t.dhNonce, v, kp, random, cp, chain);
    rep := BuildDhRep(lib, kdcId, v, kp, random).value.0;
  }

  lemma NoDhKeyRefuses(lib: Lib, p: Policy, t: ClientState, rep: Bytes, cp: RepParams, chain: ChainCheck)
    requires t.dhKey.None? && !IsKemRep(rep)
    ensures Processed(lib, p, t, rep, cp, chain).1.Err?
  {
    hide VerifySignedData, DerivedFromDh;
  }

  /**
   After a switch to a KEM, whose request has been sent, a DH reply can yield a
   key exactly if a DH key is stored, whatever it was made for: with none,
   every DH reply is refused; with one, a KDC that the client trusts and that
   can answer DH keys makes a reply that the client accepts.
   */
  lemma StaleDhReplyExactly(lib: Lib, p: Policy, id: Identity, kdcId: KdcIdentity, s: ClientState, a: KemAlgorithm,
                            next: RequestInput, kp: ReplyParams, cp: RepParams, chain: ChainCheck)
    requires lib.Lawful() && ProperIdentity(lib.cms, kdcId) && SameExchange(lib, cp, kp)
    requires chain(kdcId.cert, [kdcId.cert] + kdcId.chain).Ok?
    requires forall own, dhNonce :: Answers(lib, kdcId, kp, own, dhNonce)
    requires ReachesKeyGeneration(p, Applied(s, Kem(a)), next)
    ensures var t := AfterSwitch(lib, p, id, s, a, next);
            && t.keyExchange == Some(Kem(a))
            && ((exists rep :: !IsKemRep(rep) && Processed(lib, p, t, rep, cp, chain).1.Ok?) <==> s.dhKey.Some?)
  {
    SwitchKeepsDh(lib, p, id, s, a, next);
    hide ProperIdentity, Answers, AfterSwitch, Processed;
    var t := AfterSwitch(lib, p, id, s, a, next);
    if s.dhKey.Some? {
      var rep := DhKeyAccepts(lib, p, kdcId, t, kp, cp, chain);
    } else {
      forall rep | !IsKemRep(rep)
        ensures Processed(lib, p, t, rep, cp, chain).1.Err?
      {
        NoDhKeyRefuses(lib, p, t, rep, cp, chain);
      }
    }
  }
}
