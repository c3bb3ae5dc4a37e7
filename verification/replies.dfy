/** Exactly which replies the client accepts, and with which key. */
module Replies {
  import opened Wrappers
  import opened Der
  import opened Algorithms
  import opened KemTypes
  import opened Cms
  import opened Suite
  import opened Kdf
  import opened Client

  /** The message is signed, of this content type, and its signer passes the chain check. */
  ghost predicate TrustedMessage(lib: Lib, chain: ChainCheck, der: Bytes, contentType: Oid, v: VerifiedSignedData) {
    SignedBy(lib.cms, der, v) && v.contentType == contentType && chain(v.signerCert, v.allCerts).Ok?
  }

  /* ----- DH ----- */

  /** The agile derivation over both parties' names if the reply names a KDF, else the legacy one over both nonces. */
  ghost predicate DhDerivation(lib: Lib, secret: Bytes, dhNonce: Option<Bytes>, rep: PaRep, raw: Bytes,
                               params: RepParams, key: DerivedKey)
    requires rep.DhInfo?
  {
    match rep.kdf
    case Some(kdf) =>
      exists partyU, partyV ::
        && EncodePrincipal(lib, params.clientName) == Ok(partyU)
        && EncodePrincipal(lib, params.serverName) == Ok(partyV)
        && KdfYields(lib, secret, kdf, params.enctype, partyU, partyV, params.asReq, raw, key)
    case None =>
      LegacyYields(lib, secret + (OrEmpty(dhNonce) + OrEmpty(rep.serverNonce)), params.enctype, key)
  }

  lemma DerivedExactly(lib: Lib, secret: Bytes, dhNonce: Option<Bytes>, rep: PaRep, raw: Bytes, params: RepParams,
                       key: DerivedKey)
    requires rep.DhInfo?
    ensures DerivedFromDh(lib, secret, dhNonce, rep, raw, params) == Ok(key) <==>
            DhDerivation(lib, secret, dhNonce, rep, raw, params, key)
  {
    hide PkinitKdf, LegacyKey, KdfYields, LegacyYields, EncodePrincipal;
    match rep.kdf
    case Some(kdf) =>
      var u, v := EncodePrincipal(lib, params.clientName), EncodePrincipal(lib, params.serverName);
      if u.Ok? && v.Ok? {
        PkinitKdfExactly(lib, secret, kdf, params.enctype, u.value, v.value, params.asReq, raw, key);
        assert u == Ok(u.value) && v == Ok(v.value);
      }
    case None =>
      LegacyKeyExactly(lib, secret + (OrEmpty(dhNonce) + OrEmpty(rep.serverNonce)), params.enctype, key);
  }

  /** The KDC's public key and the client's nonce, in a trusted message. */
  ghost predicate AnswersDh(lib: Lib, chain: ChainCheck, signedData: Bytes, nonce: i32, info: DhKeyInfo) {
    && info.nonce == EncodeNonce(nonce)
    && exists v :: TrustedMessage(lib, chain, signedData, DhKeyDataOid, v) && lib.decDhKeyInfo(v.content) == Some(info)
  }

  /** The key comes from the agreement of the stored key with the public key of the answer. */
  ghost predicate DhAccepted(lib: Lib, dhKey: Option<DhKeyPair>, dhNonce: Option<Bytes>, rep: PaRep, raw: Bytes,
                             params: RepParams, chain: ChainCheck, key: DerivedKey)
    requires rep.DhInfo?
  {
    exists info, own, secret ::
      && AnswersDh(lib, chain, rep.signedData, params.nonce, info)
      && dhKey == Some(own)
      && lib.dhDerive(own.group, own.secret, Spki(GroupAlgId(own.group), info.publicKey)) == Some(secret)
      && DhDerivation(lib, secret, dhNonce, rep, raw, params, key)
  }

  lemma AcceptedMeans(lib: Lib, dhKey: Option<DhKeyPair>, dhNonce: Option<Bytes>, rep: PaRep, raw: Bytes,
                      params: RepParams, chain: ChainCheck, key: DerivedKey)
    requires rep.DhInfo? && DhReplyKey(lib, dhKey, dhNonce, rep, raw, params, chain) == Ok(key)
    ensures DhAccepted(lib, dhKey, dhNonce, rep, raw, params, chain, key)
  {
    hide VerifySignedData, SignedBy, DerivedFromDh, DhDerivation;
    var v := VerifySignedData(lib.cms, rep.signedData).value;
    VerifiedExactly(lib.cms, rep.signedData, v);
    assert TrustedMessage(lib, chain, rep.signedData, DhKeyDataOid, v);
    var info := lib.decDhKeyInfo(v.content).value;
    NonceBijection(params.nonce, info.nonce);
    var own := dhKey.value;
    var secret := lib.dhDerive(own.group, own.secret, Spki(GroupAlgId(own.group), info.publicKey)).value;
    DerivedExactly(lib, secret, dhNonce, rep, raw, params, key);
    assert AnswersDh(lib, chain, rep.signedData, params.nonce, info) && dhKey == Some(own);
  }

  lemma DhReplyExactly(lib: Lib, dhKey: Option<DhKeyPair>, dhNonce: Option<Bytes>, rep: PaRep, raw: Bytes,
                       params: RepParams, chain: ChainCheck, key: DerivedKey)
    requires rep.DhInfo?
    ensures DhReplyKey(lib, dhKey, dhNonce, rep, raw, params, chain) == Ok(key) <==>
            DhAccepted(lib, dhKey, dhNonce, rep, raw, params, chain, key)
  {
    hide VerifySignedData, SignedBy, DerivedFromDh, DhDerivation;
    forall v
      ensures VerifySignedData(lib.cms, rep.signedData) == Ok(v) <==> SignedBy(lib.cms, rep.signedData, v)
    {
      VerifiedExactly(lib.cms, rep.signedData, v);
    }
    forall secret
      ensures DerivedFromDh(lib, secret, dhNonce, rep, raw, params) == Ok(key) <==>
              DhDerivation(lib, secret, dhNonce, rep, raw, params, key)
    {
      DerivedExactly(lib, secret, dhNonce, rep, raw, params, key);
    }
    forall wire
      ensures DecodeNonce(wire) == Ok(params.nonce) <==> wire == EncodeNonce(params.nonce)
    {
      NonceBijection(params.nonce, wire);
    }
    hide DecodeNonce, EncodeNonce;
    if DhReplyKey(lib, dhKey, dhNonce, rep, raw, params, chain) == Ok(key) {
      AcceptedMeans(lib, dhKey, dhNonce, rep, raw, params, chain, key);
    }
  }

  /* ----- KEM ----- */

  /** FIPS 203, and the composite KEMs' concatenations. */
  predicate HasCiphertextLength(alg: KemAlgorithm, n: nat) {
    match alg
    case MlKem512 => n == 768
    case MlKem768 => n == 1088
    case MlKem1024 => n == 1568
    case MlKem768X25519 => n == 1120
    case MlKem768EcdhP256 => n == 1153
    case MlKem1024EcdhP384 => n == 1665
  }

  /** The signed data of a KEM reply, under both of its wrappers. */
  ghost predicate CarriesSignedData(rep: Bytes, signedData: Bytes) {
    exists content, after, inner ::
      && ReadTlv(rep) == Some(Element(0xA2, content, after))
      && Enter(0x30, content) == Some(inner) && Enter(0x80, inner) == Some(signedData)
  }

  lemma CarriesSignedDataExactly(rep: Bytes, signedData: Bytes)
    requires IsKemRep(rep)
    ensures CarriesSignedData(rep, signedData) <==>
            DecodeKemRepContent(rep).Ok? && DecodeKemRepInfo(DecodeKemRepContent(rep).value) == Ok(signedData)
  {
    hide ParsedLength, Enter;
    var read := ReadTlv(rep);
    if read.Some? {
      assert DecodeKemRepContent(rep) == Ok(read.value.content);
      assert read == Some(Element(0xA2, read.value.content, read.value.rest));
    }
  }

  /** The KDC's answer to this algorithm and nonce, under the one KDF the client offers, in a trusted message. */
  ghost predicate AnswersKem(lib: Lib, p: Policy, chain: ChainCheck, signedData: Bytes, alg: KemAlgorithm, nonce: i32,
                             info: KemInfo)
  {
    && info.kemAlgorithm == AlgId(KemOid(alg), None) && info.kdfAlgorithm == AlgId(HkdfSha512Oid, None)
    && info.nonce == Some(EncodeNonce(nonce)) && info.serverNonce.None?
    && HasCiphertextLength(alg, |info.ciphertext|)
    && exists v ::
         && TrustedMessage(lib, chain, signedData, KemKeyDataOid, v) && lib.decKemInfo(v.content) == Some(info)
         && (p.hasPqCertificate ==> IsPqSignatureOid(v.signerAlgorithm))
  }

  ghost predicate KemAccepted(lib: Lib, p: Policy, key: KemKeyPair, rep: Bytes, params: RepParams, chain: ChainCheck,
                              derived: DerivedKey)
  {
    exists signedData, info, secret ::
      && CarriesSignedData(rep, signedData)
      && AnswersKem(lib, p, chain, signedData, key.alg, params.nonce, info)
      && lib.kemDecapsulate(key.alg, key.secret, info.ciphertext) == Some(secret)
      && KemKdfYields(lib, secret, KemContext(params.enctype, params.asReq, signedData), derived)
  }

  lemma KemAcceptedMeans(lib: Lib, p: Policy, key: KemKeyPair, rep: Bytes, params: RepParams, chain: ChainCheck,
                         derived: DerivedKey)
    requires IsKemRep(rep) && KemReplyKey(lib, p, key, rep, params, chain) == Ok(derived)
    ensures KemAccepted(lib, p, key, rep, params, chain, derived)
  {
    hide VerifySignedData, SignedBy, PkinitKemKdf, KemKdfYields, DecodeKemRepContent, DecodeKemRepInfo,
         CarriesSignedData, IsPqSignatureOid;
    var signedData := DecodeKemRepInfo(DecodeKemRepContent(rep).value).value;
    CarriesSignedDataExactly(rep, signedData);
    var v := VerifySignedData(lib.cms, signedData).value;
    VerifiedExactly(lib.cms, signedData, v);
    assert TrustedMessage(lib, chain, signedData, KemKeyDataOid, v);
    var info := lib.decKemInfo(v.content).value;
    NonceBijection(params.nonce, info.nonce.value);
    assert AnswersKem(lib, p, chain, signedData, key.alg, params.nonce, info);
    var secret := lib.kemDecapsulate(key.alg, key.secret, info.ciphertext).value;
    PkinitKemKdfExactly(lib, secret, KemContext(params.enctype, params.asReq, signedData), derived);
    assert lib.kemDecapsulate(key.alg, key.secret, info.ciphertext) == Some(secret);
  }

  lemma KemAnswerIsTaken(lib: Lib, p: Policy, key: KemKeyPair, rep: Bytes, params: RepParams, chain: ChainCheck,
                         derived: DerivedKey, signedData: Bytes, info: KemInfo, secret: Bytes)
    requires IsKemRep(rep) && CarriesSignedData(rep, signedData)
    requires AnswersKem(lib, p, chain, signedData, key.alg, params.nonce, info)
    requires lib.kemDecapsulate(key.alg, key.secret, info.ciphertext) == Some(secret)
    requires KemKdfYields(lib, secret, KemContext(params.enctype, params.asReq, signedData), derived)
    ensures KemReplyKey(lib, p, key, rep, params, chain) == Ok(derived)
  {
    hide VerifySignedData, SignedBy, PkinitKemKdf, KemKdfYields, DecodeKemRepContent, DecodeKemRepInfo,
         CarriesSignedData, IsPqSignatureOid;
    CarriesSignedDataExactly(rep, signedData);
    var v :| TrustedMessage(lib, chain, signedData, KemKeyDataOid, v) && lib.decKemInfo(v.content) == Some(info)
             && (p.hasPqCertificate ==> IsPqSignatureOid(v.signerAlgorithm));
    VerifiedExactly(lib.cms, signedData, v);
    NonceBijection(params.nonce, EncodeNonce(params.nonce));
    PkinitKemKdfExactly(lib, secret, KemContext(params.enctype, params.asReq, signedData), derived);
  }

  lemma KemReplyExactly(lib: Lib, p: Policy, key: KemKeyPair, rep: Bytes, params: RepParams, chain: ChainCheck,
                        derived: DerivedKey)
    requires IsKemRep(rep)
    ensures KemReplyKey(lib, p, key, rep, params, chain) == Ok(derived) <==>
            KemAccepted(lib, p, key, rep, params, chain, derived)
  {
    hide KemReplyKey, CarriesSignedData, AnswersKem, KemKdfYields;
    if KemReplyKey(lib, p, key, rep, params, chain) == Ok(derived) {
      KemAcceptedMeans(lib, p, key, rep, params, chain, derived);
    }
    if signedData, info, secret :|
      && CarriesSignedData(rep, signedData)
      && AnswersKem(lib, p, chain, signedData, key.alg, params.nonce, info)
      && lib.kemDecapsulate(key.alg, key.secret, info.ciphertext) == Some(secret)
      && KemKdfYields(lib, secret, KemContext(params.enctype, params.asReq, signedData), derived)
    {
      KemAnswerIsTaken(lib, p, key, rep, params, chain, derived, signedData, info, secret);
    }
  }

  /* ----- Either ----- */

  /** What a reply must be, and what its key is made from, in the state that it meets. */
  ghost predicate Accepted(lib: Lib, p: Policy, s: ClientState, rep: Bytes, params: RepParams, chain: ChainCheck,
                           derived: DerivedKey)
  {
    if IsKemRep(rep) then s.kemKey.Some? && KemAccepted(lib, p, s.kemKey.value, rep, params, chain, derived)
    else
      && lib.decPaRep(rep).Some? && lib.decPaRep(rep).value.DhInfo?
      && DhAccepted(lib, s.dhKey, s.dhNonce, lib.decPaRep(rep).value, rep, params, chain, derived)
  }

  /** In every state, a reply yields a key exactly if it is such a reply, and exactly that key. */
  lemma ReplyExactly(lib: Lib, p: Policy, s: ClientState, rep: Bytes, params: RepParams, chain: ChainCheck,
                     derived: DerivedKey)
    ensures Processed(lib, p, s, rep, params, chain).1 == Ok(derived) <==>
            Accepted(lib, p, s, rep, params, chain, derived)
  {
    hide KemReplyKey, DhReplyKey, KemAccepted, DhAccepted;
    if IsKemRep(rep) {
      if s.kemKey.Some? {
        KemReplyExactly(lib, p, s.kemKey.value, rep, params, chain, derived);
      }
    } else if lib.decPaRep(rep).Some? && lib.decPaRep(rep).value.DhInfo? {
      DhReplyExactly(lib, s.dhKey, s.dhNonce, lib.decPaRep(rep).value, rep, params, chain, derived);
    }
  }

  /* ----- Why a reply is refused ----- */

  lemma NonceErrors()
    ensures forall n :: DecodeNonce(n).Err? ==> DecodeNonce(n).error == Asn1
  {
  }

  /** The error for a signed DH message, by the first check that fails. */
  lemma DhRefusals(lib: Lib, dhKey: Option<DhKeyPair>, dhNonce: Option<Bytes>, rep: PaRep, raw: Bytes,
                   params: RepParams, chain: ChainCheck, v: VerifiedSignedData)
    requires rep.DhInfo? && SignedBy(lib.cms, rep.signedData, v)
    ensures var r := DhReplyKey(lib, dhKey, dhNonce, rep, raw, params, chain);
            var checked := chain(v.signerCert, v.allCerts);
            var info := lib.decDhKeyInfo(v.content);
            if v.contentType != DhKeyDataOid then r == Err(CmsContentTypeMismatch)
            else if checked.Err? then r == Err(checked.error)
            else if info.None? then r == Err(Asn1)
            else
              var nonce := DecodeNonce(info.value.nonce);
              if nonce.Err? then r == Err(Asn1)
              else if nonce.value != params.nonce then r == Err(NonceMismatch(params.nonce, nonce.value))
              else dhKey.None? ==> r == Err(DhAgreementFailed)
  {
    VerifiedExactly(lib.cms, rep.signedData, v);
    NonceErrors();
    hide VerifySignedData, SignedBy, DerivedFromDh, DecodeNonce;
  }

  /** The error for a signed KEM message that is not of the right kind or not trusted. */
  lemma KemMessageRefusals(lib: Lib, p: Policy, key: KemKeyPair, rep: Bytes, params: RepParams, chain: ChainCheck,
                           signedData: Bytes, v: VerifiedSignedData)
    requires IsKemRep(rep) && CarriesSignedData(rep, signedData) && SignedBy(lib.cms, signedData, v)
    ensures var r := KemReplyKey(lib, p, key, rep, params, chain);
            var checked := chain(v.signerCert, v.allCerts);
            if v.contentType != KemKeyDataOid then r == Err(CmsContentTypeMismatch)
            else if p.hasPqCertificate && !IsPqSignatureOid(v.signerAlgorithm) then r == Err(DowngradeRejected)
            else if checked.Err? then r == Err(checked.error)
            else lib.decKemInfo(v.content).None? ==> r == Err(Asn1)
  {
    CarriesSignedDataExactly(rep, signedData);
    VerifiedExactly(lib.cms, signedData, v);
    hide VerifySignedData, SignedBy, DecodeKemRepContent, DecodeKemRepInfo, CarriesSignedData, PkinitKemKdf,
         IsPqSignatureOid, DecodeNonce, KemOid, CiphertextLen;
  }

  /** A trusted KEM message is judged by its contents. */
  lemma KemContents(lib: Lib, p: Policy, key: KemKeyPair, rep: Bytes, params: RepParams, chain: ChainCheck,
                    signedData: Bytes, v: VerifiedSignedData, info: KemInfo)
    requires IsKemRep(rep) && CarriesSignedData(rep, signedData)
    requires TrustedMessage(lib, chain, signedData, KemKeyDataOid, v) && lib.decKemInfo(v.content) == Some(info)
    requires p.hasPqCertificate ==> IsPqSignatureOid(v.signerAlgorithm)
    ensures KemReplyKey(lib, p, key, rep, params, chain) == KemContentKey(lib, key, info, signedData, params)
  {
    CarriesSignedDataExactly(rep, signedData);
    VerifiedExactly(lib.cms, signedData, v);
    hide VerifySignedData, SignedBy, DecodeKemRepContent, DecodeKemRepInfo, CarriesSignedData, IsPqSignatureOid,
         KemContentKey;
  }

  /** The error for the contents of a KEM message, by the first check that fails. */
  lemma KemRefusals(lib: Lib, key: KemKeyPair, info: KemInfo, signedData: Bytes, params: RepParams)
    ensures var r := KemContentKey(lib, key, info, signedData, params);
            if info.serverNonce.Some? then r == Err(KemDecapFailed)
            else if info.nonce.None? || DecodeNonce(info.nonce.value).Err? then r == Err(Asn1)
            else if DecodeNonce(info.nonce.value).value != params.nonce then
              r == Err(NonceMismatch(params.nonce, DecodeNonce(info.nonce.value).value))
            else if info.kemAlgorithm.oid != KemOid(key.alg) then r == Err(KemAlgorithmMismatch)
            else if info.kemAlgorithm.params.Some? then r == Err(Asn1)
            else if info.kdfAlgorithm != AlgId(HkdfSha512Oid, None) then r == Err(KdfNotOffered)
            else if !HasCiphertextLength(key.alg, |info.ciphertext|) then r == Err(KemCiphertextLengthInvalid)
            else lib.kemDecapsulate(key.alg, key.secret, info.ciphertext).None? ==> r == Err(KemDecapFailed)
  {
    NonceErrors();
    assert HasCiphertextLength(key.alg, |info.ciphertext|) <==> |info.ciphertext| == CiphertextLen(key.alg);
    hide PkinitKemKdf, DecodeNonce, KemOid, CiphertextLen, HasCiphertextLength;
  }

  /** Replies that carry no signed message at all, and KEM replies when no KEM key is waiting. */
  lemma UnsignedRefusals(lib: Lib, p: Policy, s: ClientState, rep: Bytes, params: RepParams, chain: ChainCheck)
    ensures var r := Processed(lib, p, s, rep, params, chain).1;
            if IsKemRep(rep) then s.kemKey.None? ==> r == Err(KemDecapFailed)
            else
              && (lib.decPaRep(rep).None? ==> r == Err(Asn1))
              && (lib.decPaRep(rep) == Some(EncKeyPack) ==> r == Err(Unsupported))
  {
    hide KemReplyKey, DhReplyKey;
  }
}
