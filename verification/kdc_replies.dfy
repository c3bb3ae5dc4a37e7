/** Exactly which replies the KDC builds, and with which key. */
module KdcReplies {
  import opened Wrappers
  import opened Der
  import opened Algorithms
  import opened KemTypes
  import opened Cms
  import opened Suite
  import opened Kdf
  import opened Client
  import opened Replies
  import opened Kdc

  /** The KDC's KDF for a request that lists these: SHA-256, else SHA-1, else SHA-512, else none. */
  predicate IsPreferredKdf(listed: seq<Oid>, kdf: Option<Oid>) {
    if KdfSha256Oid in listed then kdf == Some(KdfSha256Oid)
    else if KdfSha1Oid in listed then kdf == Some(KdfSha1Oid)
    else if KdfSha512Oid in listed then kdf == Some(KdfSha512Oid)
    else kdf.None?
  }

  lemma PreferredExactly(listed: seq<Oid>, kdf: Option<Oid>)
    ensures PickKdfAlg(listed) == kdf <==> IsPreferredKdf(listed, kdf)
  {
    assert forall o :: o in KDF_PREFERENCE_ORDER <==> o == KdfSha256Oid || o == KdfSha1Oid || o == KdfSha512Oid;
  }

  /** What a client lists: HKDF-SHA-512 with a KEM, and the three agile KDFs otherwise. */
  lemma ListedKdfs(o: Oid)
    ensures o in SupportedKdfs(true) <==> o == HkdfSha512Oid
    ensures o in SupportedKdfs(false) <==> o == KdfSha256Oid || o == KdfSha512Oid || o == KdfSha1Oid
  {
  }

  /* ----- KEM ----- */

  /** The ciphertext for the client's key, in signed data for its nonce, and the key from the encapsulated secret. */
  ghost predicate IsKemRepFor(lib: Lib, id: KdcIdentity, v: VerifiedRequest, kp: ReplyParams, random: ReplyRandom,
                              rep: Bytes, key: DerivedKey)
    requires v.keyExchange.Kem?
  {
    var alg := v.keyExchange.alg;
    && (v.supportedKdfs == [] || HkdfSha512Oid in v.supportedKdfs)
    && exists coins, ct, secret, content, signedData: Vec ::
         && random.key == Some(coins) && lib.kemEncapsulate(alg, v.clientPublic, coins) == Some((ct, secret))
         && HasCiphertextLength(alg, |ct|)
         && lib.encKemInfo(KemInfo(AlgId(KemOid(alg), None), ct, AlgId(HkdfSha512Oid, None),
                                   Some(EncodeNonce(kp.nonce)), None)) == Some(content)
         && SignedReply(lib.cms, id, content, KemKeyDataOid) == Ok(signedData)
         && rep == KemRepWrapper(KemRepInfoDer(signedData))
         && KemKdfYields(lib, secret, KemContext(kp.enctype, kp.asReq, signedData), key)
  }

  lemma KemRepMeans(lib: Lib, id: KdcIdentity, v: VerifiedRequest, kp: ReplyParams, random: ReplyRandom, rep: Bytes,
                    key: DerivedKey)
    requires v.keyExchange.Kem? && BuildKemRep(lib, id, v, kp, random) == Ok((rep, key))
    ensures IsKemRepFor(lib, id, v, kp, random, rep, key)
  {
    hide SignedReply, PkinitKemKdf, KemKdfYields, KemRepInfoDer, KemRepWrapper;
    var alg := v.keyExchange.alg;
    var coins := random.key.value;
    var (ct, secret) := lib.kemEncapsulate(alg, v.clientPublic, coins).value;
    var info := KemInfo(KemAlgId(alg), ct, AlgId(HkdfSha512Oid, None), Some(EncodeNonce(kp.nonce)), None);
    var content := lib.encKemInfo(info).value;
    var signedData := SignedReply(lib.cms, id, content, KemKeyDataOid).value;
    PkinitKemKdfExactly(lib, secret, KemContext(kp.enctype, kp.asReq, signedData), key);
    assert random.key == Some(coins) && lib.encKemInfo(info) == Some(content);
    assert SignedReply(lib.cms, id, content, KemKeyDataOid) == Ok(signedData);
  }

  lemma KemRepIsBuilt(lib: Lib, id: KdcIdentity, v: VerifiedRequest, kp: ReplyParams, random: ReplyRandom, rep: Bytes,
                      key: DerivedKey, coins: Bytes, ct: Bytes, secret: Bytes, content: Bytes, signedData: Vec)
    requires v.keyExchange.Kem? && (v.supportedKdfs == [] || HkdfSha512Oid in v.supportedKdfs)
    requires random.key == Some(coins)
    requires lib.kemEncapsulate(v.keyExchange.alg, v.clientPublic, coins) == Some((ct, secret))
    requires HasCiphertextLength(v.keyExchange.alg, |ct|)
    requires lib.encKemInfo(KemInfo(AlgId(KemOid(v.keyExchange.alg), None), ct, AlgId(HkdfSha512Oid, None),
                                    Some(EncodeNonce(kp.nonce)), None)) == Some(content)
    requires SignedReply(lib.cms, id, content, KemKeyDataOid) == Ok(signedData)
    requires rep == KemRepWrapper(KemRepInfoDer(signedData))
    requires KemKdfYields(lib, secret, KemContext(kp.enctype, kp.asReq, signedData), key)
    ensures BuildKemRep(lib, id, v, kp, random) == Ok((rep, key))
  {
    PkinitKemKdfExactly(lib, secret, KemContext(kp.enctype, kp.asReq, signedData), key);
    hide SignedReply, PkinitKemKdf, KemKdfYields, KemRepInfoDer, KemRepWrapper;
  }

  lemma KemRepExactly(lib: Lib, id: KdcIdentity, v: VerifiedRequest, kp: ReplyParams, random: ReplyRandom, rep: Bytes,
                      key: DerivedKey)
    requires v.keyExchange.Kem?
    ensures BuildKemRep(lib, id, v, kp, random) == Ok((rep, key)) <==> IsKemRepFor(lib, id, v, kp, random, rep, key)
  {
    hide BuildKemRep, SignedReply, KemKdfYields, KemRepInfoDer, KemRepWrapper;
    if BuildKemRep(lib, id, v, kp, random) == Ok((rep, key)) {
      KemRepMeans(lib, id, v, kp, random, rep, key);
    }
    if IsKemRepFor(lib, id, v, kp, random, rep, key) {
      var coins, ct, secret, content, signedData: Vec :|
        && random.key == Some(coins)
        && lib.kemEncapsulate(v.keyExchange.alg, v.clientPublic, coins) == Some((ct, secret))
        && HasCiphertextLength(v.keyExchange.alg, |ct|)
        && lib.encKemInfo(KemInfo(AlgId(KemOid(v.keyExchange.alg), None), ct, AlgId(HkdfSha512Oid, None),
                                  Some(EncodeNonce(kp.nonce)), None)) == Some(content)
        && SignedReply(lib.cms, id, content, KemKeyDataOid) == Ok(signedData)
        && rep == KemRepWrapper(KemRepInfoDer(signedData))
        && KemKdfYields(lib, secret, KemContext(kp.enctype, kp.asReq, signedData), key);
      KemRepIsBuilt(lib, id, v, kp, random, rep, key, coins, ct, secret, content, signedData);
    }
  }

  lemma SigningErrors(lib: Lib, id: KdcIdentity)
    ensures forall content, t ::
              var r := SignedReply(lib.cms, id, content, t);
              r.Err? ==> r.error == IdentityLoadFailed || r.error == CmsSignFailed
  {
    hide SignedAttributes, Concat;
  }

  /** A KEM request that lists KDFs, and not HKDF-SHA-512, is refused before anything else. */
  lemma OtherKdfsRefused(lib: Lib, id: KdcIdentity, v: VerifiedRequest, kp: ReplyParams, random: ReplyRandom)
    requires v.keyExchange.Kem? && v.supportedKdfs != []
    ensures HkdfSha512Oid !in v.supportedKdfs ==> BuildKemRep(lib, id, v, kp, random) == Err(NoAcceptableKdf)
    ensures HkdfSha512Oid in v.supportedKdfs ==> BuildKemRep(lib, id, v, kp, random) != Err(NoAcceptableKdf)
  {
    hide SuppPubInfoDer, KemRepInfoDer, KemRepWrapper, CreateSignedData;
    SigningErrors(lib, id);
  }

  /* ----- DH ----- */

  /** The KDC's own key for a DH reply: the agile derivation over the reply, or the legacy one over both nonces. */
  ghost predicate KdcDerivation(lib: Lib, secret: Bytes, kdf: Option<Oid>, clientNonce: Option<Bytes>, nonce: Bytes,
                                rep: Bytes, kp: ReplyParams, key: DerivedKey)
  {
    match kdf
    case Some(oid) =>
      exists partyU, partyV ::
        && EncodePrincipal(lib, kp.clientName) == Ok(partyU) && EncodePrincipal(lib, kp.serverName) == Ok(partyV)
        && KdfYields(lib, secret, oid, kp.enctype, partyU, partyV, kp.asReq, rep, key)
    case None => LegacyYields(lib, secret + (OrEmpty(clientNonce) + nonce), kp.enctype, key)
  }

  lemma KdcDerivedExactly(lib: Lib, secret: Bytes, kdf: Option<Oid>, clientNonce: Option<Bytes>, nonce: Bytes,
                          rep: Bytes, kp: ReplyParams, key: DerivedKey)
    ensures ReplyKeyFromDh(lib, secret, kdf, clientNonce, nonce, rep, kp) == Ok(key) <==>
            KdcDerivation(lib, secret, kdf, clientNonce, nonce, rep, kp, key)
  {
    hide PkinitKdf, LegacyKey, KdfYields, LegacyYields, EncodePrincipal;
    match kdf
    case Some(oid) =>
      var u, v := EncodePrincipal(lib, kp.clientName), EncodePrincipal(lib, kp.serverName);
      if u.Ok? && v.Ok? {
        PkinitKdfExactly(lib, secret, oid, kp.enctype, u.value, v.value, kp.asReq, rep, key);
        assert u == Ok(u.value) && v == Ok(v.value);
      }
    case None =>
      LegacyKeyExactly(lib, secret + (OrEmpty(clientNonce) + nonce), kp.enctype, key);
  }

  /** The KDC's public key in signed data for the client's nonce, the preferred KDF, and the agreed key. */
  ghost predicate IsDhRepFor(lib: Lib, id: KdcIdentity, v: VerifiedRequest, kp: ReplyParams, random: ReplyRandom,
                             rep: Bytes, key: DerivedKey)
    requires v.keyExchange.Dh?
  {
    var group := v.keyExchange.group;
    exists own, secret, content, signedData, nonce, kdf ::
      && random.key == Some(own) && random.nonce == Some(nonce) && IsPreferredKdf(v.supportedKdfs, kdf)
      && lib.dhDerive(group, own, v.clientPublic) == Some(secret)
      && lib.encDhKeyInfo(DhKeyInfo(lib.dhPublic(group, own), EncodeNonce(kp.nonce))) == Some(content)
      && SignedReply(lib.cms, id, content, DhKeyDataOid) == Ok(signedData)
      && lib.encPaRep(DhInfo(signedData, Some(nonce), kdf)) == Some(rep)
      && KdcDerivation(lib, secret, kdf, v.clientDhNonce, nonce, rep, kp, key)
  }

  lemma DhRepMeans(lib: Lib, id: KdcIdentity, v: VerifiedRequest, kp: ReplyParams, random: ReplyRandom, rep: Bytes,
                   key: DerivedKey)
    requires v.keyExchange.Dh? && BuildDhRep(lib, id, v, kp, random) == Ok((rep, key))
    ensures IsDhRepFor(lib, id, v, kp, random, rep, key)
  {
    hide SignedReply, PickKdfAlg, IsPreferredKdf, ReplyKeyFromDh, KdcDerivation;
    var group, own, nonce := v.keyExchange.group, random.key.value, random.nonce.value;
    var kdf := PickKdfAlg(v.supportedKdfs);
    PreferredExactly(v.supportedKdfs, kdf);
    var secret := lib.dhDerive(group, own, v.clientPublic).value;
    var content := lib.encDhKeyInfo(DhKeyInfo(lib.dhPublic(group, own), EncodeNonce(kp.nonce))).value;
    var signedData := SignedReply(lib.cms, id, content, DhKeyDataOid).value;
    KdcDerivedExactly(lib, secret, kdf, v.clientDhNonce, nonce, rep, kp, key);
    assert random.key == Some(own) && random.nonce == Some(nonce);
    assert lib.encDhKeyInfo(DhKeyInfo(lib.dhPublic(group, own), EncodeNonce(kp.nonce))) == Some(content);
    assert SignedReply(lib.cms, id, content, DhKeyDataOid) == Ok(signedData);
    assert lib.encPaRep(DhInfo(signedData, Some(nonce), kdf)) == Some(rep);
  }

  lemma DhRepExactly(lib: Lib, id: KdcIdentity, v: VerifiedRequest, kp: ReplyParams, random: ReplyRandom, rep: Bytes,
                     key: DerivedKey)
    requires v.keyExchange.Dh?
    ensures BuildDhRep(lib, id, v, kp, random) == Ok((rep, key)) <==> IsDhRepFor(lib, id, v, kp, random, rep, key)
  {
    hide SignedReply, PickKdfAlg, IsPreferredKdf, ReplyKeyFromDh, KdcDerivation;
    if BuildDhRep(lib, id, v, kp, random) == Ok((rep, key)) {
      DhRepMeans(lib, id, v, kp, random, rep, key);
    }
    if own, secret, content, signedData, nonce, kdf :|
      && random.key == Some(own) && random.nonce == Some(nonce) && IsPreferredKdf(v.supportedKdfs, kdf)
      && lib.dhDerive(v.keyExchange.group, own, v.clientPublic) == Some(secret)
      && lib.encDhKeyInfo(DhKeyInfo(lib.dhPublic(v.keyExchange.group, own), EncodeNonce(kp.nonce))) == Some(content)
      && SignedReply(lib.cms, id, content, DhKeyDataOid) == Ok(signedData)
      && lib.encPaRep(DhInfo(signedData, Some(nonce), kdf)) == Some(rep)
      && KdcDerivation(lib, secret, kdf, v.clientDhNonce, nonce, rep, kp, key)
    {
      PreferredExactly(v.supportedKdfs, kdf);
      KdcDerivedExactly(lib, secret, kdf, v.clientDhNonce, nonce, rep, kp, key);
    }
  }

  /** The client's own requests are never refused for their KDFs, and DH ones are answered with SHA-256. */
  lemma OwnKdfsAreTaken(lib: Lib, id: KdcIdentity, v: VerifiedRequest, kp: ReplyParams, random: ReplyRandom, rep: Bytes,
                        key: DerivedKey)
    requires v.supportedKdfs == SupportedKdfs(v.keyExchange.Kem?)
    ensures v.keyExchange.Kem? ==> BuildAsRep(lib, id, v, kp, random) != Err(NoAcceptableKdf)
    ensures v.keyExchange.Dh? ==> PickKdfAlg(v.supportedKdfs) == Some(KdfSha256Oid)
  {
    ListedKdfs(HkdfSha512Oid);
    ListedKdfs(KdfSha256Oid);
    hide BuildKemRep, BuildDhRep;
    if v.keyExchange.Kem? {
      OtherKdfsRefused(lib, id, v, kp, random);
    }
  }
}
