/**
 The PKINIT client: which key exchange it selects, which keys it holds, and
 what it accepts as a reply.

 `ClientState` is the part of the client that changes. The functions on it say
 what each operation does; the class performs the operations on its fields.
 */
module Client {
  import opened Wrappers
  import opened Der
  import opened Algorithms
  import opened KemTypes
  import opened Cms
  import opened Suite
  import opened Kdf

  datatype DhKeyPair = DhKeyPair(group: DhGroup, secret: Bytes)

  datatype KemKeyPair = KemKeyPair(alg: KemAlgorithm, secret: Bytes)

  /** An empty certificate marks an anonymous identity. */
  datatype Identity = Identity(cert: Bytes, signingKey: Option<Bytes>, chain: seq<Bytes>)

  /** What the caller configures. */
  datatype ClientConfig = ClientConfig(requireKem: bool, dhMinBits: nat, dhGroup: DhGroup,
                                       kemAlgorithm: Option<KemAlgorithm>)

  /** What never changes after construction. */
  datatype Policy = Policy(requireKem: bool, dhMinBits: nat, hasPqCertificate: bool)

  datatype ClientState = ClientState(
    kemFloor: Option<KemAlgorithm>,
    kemAlgorithm: Option<KemAlgorithm>,
    dhGroup: DhGroup,
    dhKey: Option<DhKeyPair>,
    kemKey: Option<KemKeyPair>,
    dhNonce: Option<Bytes>,
    keyExchange: Option<KeyExchange>)

  function HasPqCertificate(lib: CmsLib, id: Identity): bool {
    id.cert != [] && IsPqCertificate(lib, id.cert)
  }

  /** The certificate's own key decides, and an anonymous identity has none. */
  lemma PqCertificateExactly(lib: CmsLib, id: Identity)
    ensures HasPqCertificate(lib, id) <==>
            id.cert != [] && lib.certInfo(id.cert).Some? && IsMlDsa(lib.certInfo(id.cert).value.keyOid)
  {
  }

  /** The configured minimum, which `require_kem` defaults to ML-KEM-768. */
  function Floor(c: ClientConfig): Option<KemAlgorithm> {
    if c.requireKem && c.kemAlgorithm.None? then Some(MlKem768) else c.kemAlgorithm
  }

  function InitialState(c: ClientConfig): ClientState {
    ClientState(Floor(c), Floor(c), c.dhGroup, None, None, None, None)
  }

  /* ----- Selecting a key exchange ----- */

  function WithDhGroup(s: ClientState, g: DhGroup): ClientState {
    s.(dhGroup := g, kemAlgorithm := None, dhKey := None, kemKey := None, keyExchange := None)
  }

  /** Note that a DH key from an earlier request stays. */
  function WithKemAlgorithm(s: ClientState, a: KemAlgorithm): ClientState {
    s.(kemAlgorithm := Some(a), kemKey := None, keyExchange := None)
  }

  function Applied(s: ClientState, offer: KeyExchange): ClientState {
    match offer
    case Kem(a) => WithKemAlgorithm(s, a)
    case Dh(g) => WithDhGroup(s, g)
  }

  /** The algorithm an identifier names, if this client implements it. */
  function Recognize(p: Policy, a: AlgId): Option<KeyExchange> {
    var kem := KemFromOid(a.oid);
    if kem.Some? then Some(Kem(kem.value))
    else
      var group := GroupFromAlgId(a, p.dhMinBits);
      if group.Some? then Some(Dh(group.value)) else None
  }

  predicate DhAllowed(p: Policy, s: ClientState) {
    && !p.requireKem
    && !(p.hasPqCertificate && (s.kemFloor.Some? || (s.keyExchange.Some? && s.keyExchange.value.Kem?)))
  }

  predicate AcceptsOffer(p: Policy, s: ClientState, offer: KeyExchange) {
    match offer
    case Kem(a) => s.kemFloor.None? || Strength(a) >= Strength(s.kemFloor.value)
    case Dh(_) => DhAllowed(p, s)
  }

  /** The recognized algorithms of a list, in its order. */
  function Offers(p: Policy, advertised: seq<AlgId>): seq<KeyExchange> {
    if advertised == [] then []
    else
      var first := Recognize(p, advertised[0]);
      (if first.Some? then [first.value] else []) + Offers(p, advertised[1..])
  }

  lemma {:induction false} OffersAreRecognized(p: Policy, advertised: seq<AlgId>)
    ensures forall x :: x in Offers(p, advertised) <==>
                        exists i :: 0 <= i < |advertised| && Recognize(p, advertised[i]) == Some(x)
  {
    if advertised == [] {
    } else {
      var rest := advertised[1..];
      OffersAreRecognized(p, rest);
      forall x
        ensures x in Offers(p, advertised) <==>
                exists i :: 0 <= i < |advertised| && Recognize(p, advertised[i]) == Some(x)
      {
        assert forall i :: 0 <= i < |rest| ==> rest[i] == advertised[i + 1];
        if i :| 0 <= i < |advertised| && Recognize(p, advertised[i]) == Some(x) {
          assert i > 0 ==> rest[i - 1] == advertised[i];
        }
      }
    }
  }

  function Without(offers: seq<KeyExchange>, sent: Option<KeyExchange>): (r: seq<KeyExchange>)
    ensures forall x :: x in r <==> x in offers && sent != Some(x)
  {
    if offers == [] then []
    else (if sent == Some(offers[0]) then [] else [offers[0]]) + Without(offers[1..], sent)
  }

  /** The first acceptable offer. */
  function FirstAccepted(p: Policy, s: ClientState, offers: seq<KeyExchange>): (r: Option<KeyExchange>)
    ensures r.Some? ==> r.value in offers && AcceptsOffer(p, s, r.value)
    ensures r.None? <==> forall x :: x in offers ==> !AcceptsOffer(p, s, x)
  {
    if offers == [] then None
    else if AcceptsOffer(p, s, offers[0]) then Some(offers[0])
    else FirstAccepted(p, s, offers[1..])
  }

  /** The selection a hint leads to: the configured KEM if advertised, else the first acceptable offer. */
  function AfterHint(p: Policy, s: ClientState, advertised: seq<AlgId>): Fallible<ClientState> {
    var offers := Offers(p, advertised);
    if advertised == [] then Ok(s)
    else if s.kemAlgorithm.Some? && Kem(s.kemAlgorithm.value) in offers && AcceptsOffer(p, s, Kem(s.kemAlgorithm.value))
    then Ok(s)
    else
      var choice := FirstAccepted(p, s, offers);
      if choice.None? then Err(NoAcceptableKeyExchange) else Ok(Applied(s, choice.value))
  }

  /** The selection after a rejection that lists what the KDC takes. */
  function RetryChoice(p: Policy, s: ClientState, advertised: seq<AlgId>): Fallible<KeyExchange> {
    var offers := Without(Offers(p, advertised), s.keyExchange);
    var choice := FirstAccepted(p, s, offers);
    if choice.Some? then Ok(choice.value)
    else if exists g :: Dh(g) in offers then Err(DowngradeRejected)
    else Err(NoAcceptableKeyExchange)
  }

  datatype RetryAction = Retry(exchange: KeyExchange) | RetryWithCerts | NoRetry

  datatype TypedDataKind = DhParameters | TrustedCertifiers | CmsCertificates | OtherKind

  datatype TypedData = TypedData(kind: TypedDataKind, value: Bytes)

  /** The first entry of a known kind decides. */
  function RetryFor(lib: Lib, p: Policy, s: ClientState, data: seq<TypedData>): Fallible<RetryAction> {
    if data == [] then Ok(NoRetry)
    else
      match data[0].kind
      case DhParameters =>
        var advertised :- OrElse(lib.algIds.dec(data[0].value), Asn1);
        var choice :- RetryChoice(p, s, advertised);
        Ok(Retry(choice))
      case TrustedCertifiers => Ok(RetryWithCerts)
      case CmsCertificates => Ok(RetryWithCerts)
      case OtherKind => RetryFor(lib, p, s, data[1..])
  }

  /* ----- Requests ----- */

  /** The caller's values and the platform's answers that one request is built from. */
  datatype RequestInput = RequestInput(
    nonce: i32,
    ctime: Option<int>,
    checksums: Option<(Bytes, Bytes)>,
    freshness: Option<Bytes>,
    keyRandom: Option<Bytes>,
    nonceRandom: Option<Bytes>)

  function KemSpki(lib: Lib, k: KemKeyPair): Spki {
    Spki(KemAlgId(k.alg), lib.kemPublic(k.alg, k.secret))
  }

  function DhSpki(lib: Lib, k: DhKeyPair): Spki {
    Spki(GroupAlgId(k.group), lib.dhPublic(k.group, k.secret))
  }

  /** The KDFs listed in a request. */
  function SupportedKdfs(kem: bool): seq<Oid> {
    if kem then [HkdfSha512Oid] else [KdfSha256Oid, KdfSha512Oid, KdfSha1Oid]
  }

  function RequestPack(inp: RequestInput, publicValue: Spki, dhNonce: Option<Bytes>, kem: bool): AuthPack
    requires inp.ctime.Some? && inp.checksums.Some?
  {
    AuthPack(EncodeNonce(inp.nonce), inp.ctime.value, Some(inp.checksums.value.0),
             Some((inp.checksums.value.1, Sha256Oid)), inp.freshness, Some(publicValue), dhNonce,
             Some(SupportedKdfs(kem)))
  }

  /** The AuthPack under the identity's signature, or unsigned for an anonymous one. */
  function SealedRequest(lib: Lib, id: Identity, pack: AuthPack): Fallible<Bytes> {
    var content :- OrElse(lib.encAuthPack(pack), Asn1);
    if id.cert == [] then
      var unsigned :- CreateUnsignedData(lib.cms, content, AuthDataOid);
      OrElse(lib.encPaReq(unsigned), Asn1)
    else
      var key :- OrElse(id.signingKey, IdentityLoadFailed);
      var signed :- CreateSignedData(lib.cms, content, AuthDataOid, key, id.cert, id.chain,
                                     DigestForSigner(lib.cms, id.cert));
      OrElse(lib.encPaReq(signed), Asn1)
  }

  /** The checks that come before any change of state. */
  predicate ReachesKeyGeneration(p: Policy, s: ClientState, inp: RequestInput) {
    inp.checksums.Some? && inp.ctime.Some? && !(p.requireKem && s.kemAlgorithm.None?)
  }

  /** The state after building a request, and the request. */
  function Built(lib: Lib, p: Policy, id: Identity, s: ClientState, inp: RequestInput): (ClientState, Fallible<Bytes>) {
    if inp.checksums.None? then (s, Err(Ossl))
    else if inp.ctime.None? then (s, Err(Asn1))
    else if p.requireKem && s.kemAlgorithm.None? then (s, Err(DowngradeRejected))
    else
      match s.kemAlgorithm
      case Some(a) =>
        var s1 := s.(keyExchange := Some(Kem(a)));
        if inp.keyRandom.None? then (s1, Err(KemEncapFailed))
        else
          var key := KemKeyPair(a, inp.keyRandom.value);
          (s1.(kemKey := Some(key)), SealedRequest(lib, id, RequestPack(inp, KemSpki(lib, key), None, true)))
      case None =>
        var s1 := s.(keyExchange := Some(Dh(s.dhGroup)));
        if s.dhKey.None? && inp.keyRandom.None? then (s1, Err(Ossl))
        else
          var key := if s.dhKey.Some? then s.dhKey.value else DhKeyPair(s.dhGroup, inp.keyRandom.value);
          var s2 := s1.(dhKey := Some(key));
          if inp.nonceRandom.None? then (s2, Err(Ossl))
          else
            (s2.(dhNonce := inp.nonceRandom),
             SealedRequest(lib, id, RequestPack(inp, DhSpki(lib, key), inp.nonceRandom, false)))
  }

  /* ----- Replies ----- */

  datatype RepParams = RepParams(nonce: i32, enctype: i32, asReq: Bytes, clientName: string, serverName: string)

  /** `validate_kdc_chain` as a function of the signer and the presented certificates. */
  type ChainCheck = (Bytes, seq<Bytes>) -> Fallible<()>

  /** What the contents of a KEM reply yield for a key. */
  function KemContentKey(lib: Lib, key: KemKeyPair, info: KemInfo, signedData: Bytes, params: RepParams)
    : Fallible<DerivedKey>
  {
    if info.serverNonce.Some? then Err(KemDecapFailed)
    else
      var wireNonce :- OrElse(info.nonce, Asn1);
      var nonce :- DecodeNonce(wireNonce);
      if nonce != params.nonce then Err(NonceMismatch(params.nonce, nonce))
      else if info.kemAlgorithm.oid != KemOid(key.alg) then Err(KemAlgorithmMismatch)
      else if info.kemAlgorithm.params.Some? then Err(Asn1)
      else if info.kdfAlgorithm != AlgId(HkdfSha512Oid, None) then Err(KdfNotOffered)
      else if |info.ciphertext| != CiphertextLen(key.alg) then Err(KemCiphertextLengthInvalid)
      else
        var secret :- OrElse(lib.kemDecapsulate(key.alg, key.secret, info.ciphertext), KemDecapFailed);
        PkinitKemKdf(lib, secret, KemContext(params.enctype, params.asReq, signedData))
  }

  /** What a KEM reply yields for the one key it may be answered with. */
  function KemReplyKey(lib: Lib, p: Policy, key: KemKeyPair, rep: Bytes, params: RepParams, chain: ChainCheck)
    : Fallible<DerivedKey>
  {
    var content :- DecodeKemRepContent(rep);
    var signedData :- DecodeKemRepInfo(content);
    var verified :- VerifySignedData(lib.cms, signedData);
    if verified.contentType != KemKeyDataOid then Err(CmsContentTypeMismatch)
    else if p.hasPqCertificate && !IsPqSignatureOid(verified.signerAlgorithm) then Err(DowngradeRejected)
    else
      var _ :- chain(verified.signerCert, verified.allCerts);
      var info :- OrElse(lib.decKemInfo(verified.content), Asn1);
      KemContentKey(lib, key, info, signedData, params)
  }

  function OrEmpty(o: Option<Bytes>): Bytes {
    if o.Some? then o.value else []
  }

  /** With a KDF from the reply, the agile derivation; without one, the legacy one over both nonces. */
  function DerivedFromDh(lib: Lib, secret: Bytes, dhNonce: Option<Bytes>, rep: PaRep, raw: Bytes, params: RepParams)
    : Fallible<DerivedKey>
    requires rep.DhInfo?
  {
    match rep.kdf
    case Some(kdf) =>
      var partyU :- EncodePrincipal(lib, params.clientName);
      var partyV :- EncodePrincipal(lib, params.serverName);
      PkinitKdf(lib, secret, kdf, params.enctype, partyU, partyV, params.asReq, raw)
    case None =>
      LegacyKey(lib, secret + (OrEmpty(dhNonce) + OrEmpty(rep.serverNonce)), params.enctype)
  }

  /** What a DH reply yields for the keys held; it does not ask which mode the request was in. */
  function DhReplyKey(lib: Lib, dhKey: Option<DhKeyPair>, dhNonce: Option<Bytes>, rep: PaRep, raw: Bytes,
                      params: RepParams, chain: ChainCheck): Fallible<DerivedKey>
    requires rep.DhInfo?
  {
    var verified :- VerifySignedData(lib.cms, rep.signedData);
    if verified.contentType != DhKeyDataOid then Err(CmsContentTypeMismatch)
    else
      var _ :- chain(verified.signerCert, verified.allCerts);
      var info :- OrElse(lib.decDhKeyInfo(verified.content), Asn1);
      var nonce :- DecodeNonce(info.nonce);
      if nonce != params.nonce then Err(NonceMismatch(params.nonce, nonce))
      else
        var key :- OrElse(dhKey, DhAgreementFailed);
        var secret :- OrElse(lib.dhDerive(key.group, key.secret, Spki(GroupAlgId(key.group), info.publicKey)),
                             DhAgreementFailed);
        DerivedFromDh(lib, secret, dhNonce, rep, raw, params)
  }

  /** The state after a reply, and the key. A KEM key is spent on the first KEM reply, whatever comes of it. */
  function Processed(lib: Lib, p: Policy, s: ClientState, rep: Bytes, params: RepParams, chain: ChainCheck)
    : (ClientState, Fallible<DerivedKey>)
  {
    if IsKemRep(rep) then
      (s.(kemKey := None),
       if s.kemKey.None? then Err(KemDecapFailed) else KemReplyKey(lib, p, s.kemKey.value, rep, params, chain))
    else
      (s,
       match lib.decPaRep(rep)
       case None => Err(Asn1)
       case Some(EncKeyPack) => Err(Unsupported)
       case Some(DhInfo(sd, sn, kdf)) =>
         DhReplyKey(lib, s.dhKey, s.dhNonce, DhInfo(sd, sn, kdf), rep, params, chain))
  }

  /* ----- The client ----- */

  class PkinitClientState {
    const identity: Identity
    const policy: Policy
    var kemFloor: Option<KemAlgorithm>
    var kemAlgorithm: Option<KemAlgorithm>
    var dhGroup: DhGroup
    var dhKey: Option<DhKeyPair>
    var kemKey: Option<KemKeyPair>
    var dhNonce: Option<Bytes>
    var keyExchange: Option<KeyExchange>

    function View(): ClientState
      reads this
    {
      ClientState(kemFloor, kemAlgorithm, dhGroup, dhKey, kemKey, dhNonce, keyExchange)
    }

    constructor (lib: CmsLib, id: Identity, config: ClientConfig)
      ensures identity == id
      ensures policy == Policy(config.requireKem, config.dhMinBits, HasPqCertificate(lib, id))
      ensures View() == InitialState(config)
    {
      identity := id;
      policy := Policy(config.requireKem, config.dhMinBits, HasPqCertificate(lib, id));
      var algorithm := config.kemAlgorithm;
      if config.requireKem && algorithm.None? {
        algorithm := Some(MlKem768);
      }
      kemAlgorithm := algorithm;
      kemFloor := algorithm;
      dhGroup := config.dhGroup;
      dhKey, kemKey, dhNonce, keyExchange := None, None, None, None;
    }

    method SetDhGroup(group: DhGroup)
      modifies this
      ensures View() == WithDhGroup(old(View()), group)
    {
      dhGroup := group;
      kemAlgorithm := None;
      dhKey := None;
      kemKey := None;
      keyExchange := None;
    }

    method SetKemAlgorithm(alg: KemAlgorithm)
      modifies this
      ensures View() == WithKemAlgorithm(old(View()), alg)
    {
      kemAlgorithm := Some(alg);
      kemKey := None;
      keyExchange := None;
    }

    method Apply(offer: KeyExchange)
      modifies this
      ensures View() == Applied(old(View()), offer)
    {
      match offer
      case Kem(a) => SetKemAlgorithm(a);
      case Dh(g) => SetDhGroup(g);
    }

    method ProcessPkinitHint(lib: Lib, hint: Bytes) returns (r: Fallible<()>)
      modifies this
      ensures var list := ParsePkinitHint(lib.algIds, hint);
              var after := if list.Ok? then AfterHint(policy, old(View()), list.value) else Err(list.error);
              if after.Ok? then r == Ok(()) && View() == after.value
              else r == Err(after.error) && View() == old(View())
    {
      var advertised :- ParsePkinitHint(lib.algIds, hint);
      if advertised == [] {
        return Ok(());
      }
      var offers := Offers(policy, advertised);
      if kemAlgorithm.Some? {
        var current := Kem(kemAlgorithm.value);
        if current in offers && AcceptsOffer(policy, View(), current) {
          return Ok(());
        }
      }
      var choice := FirstAccepted(policy, View(), offers);
      match choice
      case Some(offer) =>
        Apply(offer);
        r := Ok(());
      case None =>
        r := Err(NoAcceptableKeyExchange);
    }

    method HandleTryagainTypedData(lib: Lib, data: seq<TypedData>) returns (r: Fallible<RetryAction>)
      modifies this
      ensures r == RetryFor(lib, policy, old(View()), data)
      ensures View() == if r.Ok? && r.value.Retry? then Applied(old(View()), r.value.exchange) else old(View())
    {
      for i := 0 to |data|
        invariant View() == old(View())
        invariant RetryFor(lib, policy, old(View()), data) == RetryFor(lib, policy, old(View()), data[i..])
      {
        match data[i].kind
        case DhParameters =>
          var advertised :- OrElse(lib.algIds.dec(data[i].value), Asn1);
          var offers := Without(Offers(policy, advertised), keyExchange);
          var choice := FirstAccepted(policy, View(), offers);
          if choice.Some? {
            Apply(choice.value);
            return Ok(Retry(choice.value));
          }
          if exists g :: Dh(g) in offers {
            return Err(DowngradeRejected);
          }
          return Err(NoAcceptableKeyExchange);
        case TrustedCertifiers =>
          return Ok(RetryWithCerts);
        case CmsCertificates =>
          return Ok(RetryWithCerts);
        case OtherKind =>
      }
      r := Ok(NoRetry);
    }

    method BuildAsReq(lib: Lib, inp: RequestInput) returns (r: Fallible<Bytes>)
      modifies this
      ensures (View(), r) == Built(lib, policy, identity, old(View()), inp)
    {
      hide SealedRequest, RequestPack;
      if inp.checksums.None? {
        return Err(Ossl);
      }
      if inp.ctime.None? {
        return Err(Asn1);
      }
      if policy.requireKem && kemAlgorithm.None? {
        return Err(DowngradeRejected);
      }
      var useKem := kemAlgorithm.Some?;
      var spki;
      var nonce: Option<Bytes> := None;
      if useKem {
        keyExchange := Some(Kem(kemAlgorithm.value));
        var random :- OrElse(inp.keyRandom, KemEncapFailed);
        var key := KemKeyPair(kemAlgorithm.value, random);
        kemKey := Some(key);
        spki := KemSpki(lib, key);
      } else {
        keyExchange := Some(Dh(dhGroup));
        if dhKey.None? {
          var random :- OrElse(inp.keyRandom, Ossl);
          dhKey := Some(DhKeyPair(dhGroup, random));
        }
        spki := DhSpki(lib, dhKey.value);
        var random :- OrElse(inp.nonceRandom, Ossl);
        dhNonce := Some(random);
        nonce := Some(random);
      }
      r := SealedRequest(lib, identity, RequestPack(inp, spki, nonce, useKem));
    }

    method ProcessAsRep(lib: Lib, rep: Bytes, params: RepParams, chain: ChainCheck) returns (r: Fallible<DerivedKey>)
      modifies this`kemKey
      ensures (View(), r) == Processed(lib, policy, old(View()), rep, params, chain)
    {
      if IsKemRep(rep) {
        var taken := kemKey;
        kemKey := None;
        var key :- OrElse(taken, KemDecapFailed);
        r := KemReplyKey(lib, policy, key, rep, params, chain);
        return;
      }
      var paRep :- OrElse(lib.decPaRep(rep), Asn1);
      match paRep
      case DhInfo(_, _, _) =>
        r := DhReplyKey(lib, dhKey, dhNonce, paRep, rep, params, chain);
      case EncKeyPack =>
        r := Err(Unsupported);
    }
  }
}
