/**
 The libraries the protocol code calls, as uninterpreted functions, and the
 laws the protocol relies on.
 */
module Suite {
  import opened Wrappers
  import opened Der
  import opened Algorithms
  import opened KemTypes
  import opened Cms

  /* ----- Messages, as the ASN.1 library decodes them ----- */

  /** AuthPack with its PKAuthenticator. */
  datatype AuthPack = AuthPack(
    nonce: int,
    ctime: int,
    checksum: Option<Bytes>,
    checksum2: Option<(Bytes, Oid)>,
    freshnessToken: Option<Bytes>,
    publicValue: Option<Spki>,
    dhNonce: Option<Bytes>,
    supportedKdfs: Option<seq<Oid>>)

  datatype DhKeyInfo = DhKeyInfo(publicKey: Bytes, nonce: int)

  datatype KemInfo = KemInfo(kemAlgorithm: AlgId, ciphertext: Bytes, kdfAlgorithm: AlgId, nonce: Option<int>,
                             serverNonce: Option<Bytes>)

  datatype PaRep = DhInfo(signedData: Bytes, serverNonce: Option<Bytes>, kdf: Option<Oid>) | EncKeyPack

  datatype DerivedKey = DerivedKey(enctype: i32, keyData: Bytes)

  /* ----- What a key looks like to the crypto library ----- */

  datatype GroupName = P256Name | P384Name | P521Name | Modp2048Name | Modp4096Name | OtherName

  datatype Prime = Oakley2048Prime | Oakley4096Prime | OtherPrime

  datatype KeyShape = KeyShape(groupName: Option<GroupName>, bits: nat, prime: Option<Prime>)

  predicate ShapeOf(g: DhGroup, shape: KeyShape) {
    match g
    case EcP256 => shape.groupName == Some(P256Name) && shape.bits == 256
    case EcP384 => shape.groupName == Some(P384Name) && shape.bits == 384
    case EcP521 => shape.groupName == Some(P521Name) && shape.bits == 521
    case Oakley2048 =>
      && shape.bits == 2048
      && (shape.groupName == Some(Modp2048Name) || (shape.groupName.None? && shape.prime == Some(Oakley2048Prime)))
    case Oakley4096 =>
      && shape.bits == 4096
      && (shape.groupName == Some(Modp4096Name) || (shape.groupName.None? && shape.prime == Some(Oakley4096Prime)))
  }

  datatype Lib = Lib(
    cms: CmsLib,
    // Key pairs, from the random bytes they are generated with.
    dhPublic: (DhGroup, Bytes) -> Bytes,
    dhDerive: (DhGroup, Bytes, Spki) -> Option<Bytes>,
    inspectKey: Spki -> Option<KeyShape>,
    kemPublic: (KemAlgorithm, Bytes) -> Bytes,
    kemEncapsulate: (KemAlgorithm, Spki, Bytes) -> Option<(Bytes, Bytes)>,
    kemDecapsulate: (KemAlgorithm, Bytes, Bytes) -> Option<Bytes>,
    // Key derivation.
    sskdf: (HashName, Bytes, Bytes, nat) -> Option<Bytes>,
    hkdf: (Bytes, Bytes, nat) -> Option<Bytes>,
    otherInfo: (Oid, Bytes, Bytes, i32, Bytes, Bytes) -> Bytes,
    randomLength: i32 -> Option<nat>,
    randomToKey: (i32, Bytes) -> Option<Bytes>,
    isAnonymousPrincipal: string -> bool,
    anonymousDer: Option<Bytes>,
    principalDer: string -> Option<Bytes>,
    // Codecs.
    encAuthPack: AuthPack -> Option<Vec>,
    decAuthPack: Bytes -> Option<AuthPack>,
    encPaReq: Bytes -> Option<Vec>,
    decPaReq: Bytes -> Option<Bytes>,
    encDhKeyInfo: DhKeyInfo -> Option<Vec>,
    decDhKeyInfo: Bytes -> Option<DhKeyInfo>,
    encKemInfo: KemInfo -> Option<Vec>,
    decKemInfo: Bytes -> Option<KemInfo>,
    encPaRep: PaRep -> Option<Vec>,
    decPaRep: Bytes -> Option<PaRep>,
    algIds: ListCodec<AlgId>
  ) {
    /**
     Every message that has an encoding is decoded from it, an encoding is no
     shorter than what it carries, and the dhInfo arm has a tag of its own.
     */
    ghost predicate CodecsInvert() {
      && cms.Lawful()
      && (forall m :: encAuthPack(m).Some? ==> decAuthPack(encAuthPack(m).value) == Some(m))
      && (forall m :: encPaReq(m).Some? ==>
            decPaReq(encPaReq(m).value) == Some(m) && |m| <= |encPaReq(m).value|)
      && (forall m :: encDhKeyInfo(m).Some? ==> decDhKeyInfo(encDhKeyInfo(m).value) == Some(m))
      && (forall m :: encKemInfo(m).Some? ==> decKemInfo(encKemInfo(m).value) == Some(m))
      && (forall m :: encPaRep(m).Some? ==>
            && decPaRep(encPaRep(m).value) == Some(m) && !IsKemRep(encPaRep(m).value)
            && (m.DhInfo? ==> |m.signedData| <= |encPaRep(m).value|))
      && (forall m :: algIds.enc(m).Some? ==> algIds.dec(algIds.enc(m).value) == Some(m))
    }

    /** Both ends of an agreement in one group compute the same secret. */
    ghost predicate DhCommutes() {
      forall g, a, b ::
        dhDerive(g, a, Spki(GroupAlgId(g), dhPublic(g, b))) == dhDerive(g, b, Spki(GroupAlgId(g), dhPublic(g, a)))
    }

    /** Decapsulation with the private key inverts encapsulation with the public one. */
    ghost predicate KemInverts() {
      forall a, secret, coins ::
        var e := kemEncapsulate(a, Spki(KemAlgId(a), kemPublic(a, secret)), coins);
        e.Some? ==> kemDecapsulate(a, secret, e.value.0) == Some(e.value.1)
    }

    /** The library recognizes a generated key in one of our groups, by group name or by prime. */
    ghost predicate RecognizesGroups() {
      forall g, secret ::
        var shape := inspectKey(Spki(GroupAlgId(g), dhPublic(g, secret)));
        shape.Some? && ShapeOf(g, shape.value)
    }

    ghost predicate Lawful() {
      CodecsInvert() && DhCommutes() && KemInverts() && RecognizesGroups()
    }
  }
}
