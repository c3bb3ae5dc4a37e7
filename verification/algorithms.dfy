/** Key-exchange algorithms, their identifiers, and their strengths. */
module Algorithms {
  import opened Wrappers
  import opened Der

  datatype DhGroup = Oakley2048 | Oakley4096 | EcP256 | EcP384 | EcP521

  datatype KemAlgorithm =
    | MlKem512
    | MlKem768
    | MlKem1024
    | MlKem768X25519
    | MlKem768EcdhP256
    | MlKem1024EcdhP384

  datatype KeyExchange = Dh(group: DhGroup) | Kem(alg: KemAlgorithm)

  type u32 = x: int | 0 <= x < U32_LIMIT

  /** Composite KEMs and composite signatures are numbered below one arc. */
  const COMPOSITE_ARC: seq<u32> := [1, 3, 6, 1, 5, 5, 7, 6]

  /** The sub-arcs of composite ML-DSA. */
  type MlDsaSubArc = x: int | 37 <= x <= 54 witness 37

  /** The arcs of the identifiers that have a name here, composite ML-DSA aside. */
  const NAMED_ARCS: seq<seq<u32>> := [
    [2, 16, 840, 1, 101, 3, 4, 4, 1], [2, 16, 840, 1, 101, 3, 4, 4, 2], [2, 16, 840, 1, 101, 3, 4, 4, 3],
    COMPOSITE_ARC + [58], COMPOSITE_ARC + [59], COMPOSITE_ARC + [63],
    [1, 2, 840, 10045, 2, 1], [1, 2, 840, 10046, 2, 1],
    [1, 2, 840, 10045, 3, 1, 7], [1, 3, 132, 0, 34], [1, 3, 132, 0, 35],
    [1, 2, 840, 113549, 1, 7, 2], [1, 2, 840, 113549, 1, 9, 3], [1, 2, 840, 113549, 1, 9, 4],
    [1, 3, 6, 1, 5, 2, 3, 1], [1, 3, 6, 1, 5, 2, 3, 2], [1, 3, 6, 1, 5, 2, 3, 7],
    [1, 3, 6, 1, 5, 2, 3, 6, 1], [1, 3, 6, 1, 5, 2, 3, 6, 2], [1, 3, 6, 1, 5, 2, 3, 6, 3],
    [1, 3, 14, 3, 2, 26],
    [2, 16, 840, 1, 101, 3, 4, 2, 1], [2, 16, 840, 1, 101, 3, 4, 2, 2], [2, 16, 840, 1, 101, 3, 4, 2, 3],
    [1, 2, 840, 113549, 1, 9, 16, 3, 30],
    [2, 16, 840, 1, 101, 3, 4, 3, 17], [2, 16, 840, 1, 101, 3, 4, 3, 18], [2, 16, 840, 1, 101, 3, 4, 3, 19]]

  predicate HasName(arcs: seq<u32>) {
    || arcs in NAMED_ARCS
    || (|arcs| == |COMPOSITE_ARC| + 1 && COMPOSITE_ARC <= arcs && 37 <= arcs[|COMPOSITE_ARC|] <= 54)
  }

  /** The arcs of any other identifier, far fewer than any length limit is about. */
  type OtherArcs = s: seq<u32> |
    && 2 <= |s| <= 0x1000 && s[0] <= 2 && (s[0] < 2 ==> s[1] < 40)
    && !HasName(s)
    witness [2, 999]

  /** Object identifiers, as distinct constants; `OtherOid` is any identifier without a name here. */
  datatype Oid =
    | MlKem512Oid
    | MlKem768Oid
    | MlKem1024Oid
    | MlKem768X25519Oid
    | MlKem768EcdhP256Oid
    | MlKem1024EcdhP384Oid
    | EcPublicKeyOid
    | DhPublicNumberOid
    | Secp256r1Oid
    | Secp384r1Oid
    | Secp521r1Oid
    | SignedDataOid
    | AuthDataOid
    | DhKeyDataOid
    | KemKeyDataOid
    | ContentTypeOid
    | MessageDigestOid
    | Sha1Oid
    | Sha256Oid
    | Sha384Oid
    | Sha512Oid
    | HkdfSha512Oid
    | KdfSha1Oid
    | KdfSha256Oid
    | KdfSha512Oid
    | MlDsa44Oid
    | MlDsa65Oid
    | MlDsa87Oid
    | CompositeMlDsaOid(subArc: MlDsaSubArc)
    | OtherOid(arcs: OtherArcs)

  /** Algorithm parameters as far as this library tells them apart. */
  datatype AlgParams =
    | NamedCurve(curve: Oid)
    | OakleyParams2048
    | OakleyParams4096
    | OtherParams(raw: Bytes)

  datatype AlgId = AlgId(oid: Oid, params: Option<AlgParams>)

  /** A SubjectPublicKeyInfo. */
  datatype Spki = Spki(algorithm: AlgId, bits: Bytes)

  const ALL_GROUPS := [EcP521, EcP384, EcP256, Oakley4096, Oakley2048]

  function MinBits(g: DhGroup): nat {
    match g
    case Oakley2048 => 2048
    case Oakley4096 => 4096
    case EcP256 => 256
    case EcP384 => 384
    case EcP521 => 521
  }

  predicate IsEc(g: DhGroup) {
    g.EcP256? || g.EcP384? || g.EcP521?
  }

  predicate IsComposite(a: KemAlgorithm) {
    a.MlKem768X25519? || a.MlKem768EcdhP256? || a.MlKem1024EcdhP384?
  }

  /** NIST security category. */
  function Strength(a: KemAlgorithm): nat {
    match a
    case MlKem512 => 1
    case MlKem768 => 3
    case MlKem1024 => 5
    case MlKem768X25519 => 3
    case MlKem768EcdhP256 => 3
    case MlKem1024EcdhP384 => 5
  }

  function CiphertextLen(a: KemAlgorithm): nat {
    match a
    case MlKem512 => 768
    case MlKem768 => 1088
    case MlKem1024 => 1568
    case MlKem768X25519 => 1088 + 32
    case MlKem768EcdhP256 => 1088 + 65
    case MlKem1024EcdhP384 => 1568 + 97
  }

  function KemOid(a: KemAlgorithm): Oid {
    match a
    case MlKem512 => MlKem512Oid
    case MlKem768 => MlKem768Oid
    case MlKem1024 => MlKem1024Oid
    case MlKem768X25519 => MlKem768X25519Oid
    case MlKem768EcdhP256 => MlKem768EcdhP256Oid
    case MlKem1024EcdhP384 => MlKem1024EcdhP384Oid
  }

  function KemFromOid(o: Oid): (r: Option<KemAlgorithm>)
    ensures forall a :: r == Some(a) <==> o == KemOid(a)
  {
    if o == MlKem512Oid then Some(MlKem512)
    else if o == MlKem768Oid then Some(MlKem768)
    else if o == MlKem1024Oid then Some(MlKem1024)
    else if o == MlKem768X25519Oid then Some(MlKem768X25519)
    else if o == MlKem768EcdhP256Oid then Some(MlKem768EcdhP256)
    else if o == MlKem1024EcdhP384Oid then Some(MlKem1024EcdhP384)
    else None
  }

  function LowerAscii(s: string): string {
    seq(|s|, i requires 0 <= i < |s| =>
      if 'A' <= s[i] <= 'Z' then (s[i] as int + 32) as char else s[i])
  }

  function KemFromName(name: string): Option<KemAlgorithm> {
    var s := LowerAscii(name);
    if s == "ml-kem-512" || s == "mlkem512" then Some(MlKem512)
    else if s == "ml-kem-768" || s == "mlkem768" then Some(MlKem768)
    else if s == "ml-kem-1024" || s == "mlkem1024" then Some(MlKem1024)
    else if s == "ml-kem-768-x25519" || s == "mlkem768-x25519" then Some(MlKem768X25519)
    else if s == "ml-kem-768-ecdh-p256" || s == "mlkem768-ecdh-p256" then Some(MlKem768EcdhP256)
    else if s == "ml-kem-1024-ecdh-p384" || s == "mlkem1024-ecdh-p384" then Some(MlKem1024EcdhP384)
    else None
  }

  /** The two spellings of a name, with and without the first hyphen. */
  predicate Spells(name: string, a: KemAlgorithm) {
    match a
    case MlKem512 => name == "ml-kem-512" || name == "mlkem512"
    case MlKem768 => name == "ml-kem-768" || name == "mlkem768"
    case MlKem1024 => name == "ml-kem-1024" || name == "mlkem1024"
    case MlKem768X25519 => name == "ml-kem-768-x25519" || name == "mlkem768-x25519"
    case MlKem768EcdhP256 => name == "ml-kem-768-ecdh-p256" || name == "mlkem768-ecdh-p256"
    case MlKem1024EcdhP384 => name == "ml-kem-1024-ecdh-p384" || name == "mlkem1024-ecdh-p384"
  }

  /** Equal but for the case of ASCII letters. */
  predicate SameIgnoringCase(s: string, t: string) {
    |s| == |t| && forall i :: 0 <= i < |s| ==>
      s[i] == t[i] || ('A' <= s[i] <= 'Z' && t[i] as int == s[i] as int + 32)
  }

  lemma SpelledInLowerCase(t: string, a: KemAlgorithm)
    requires Spells(t, a)
    ensures forall i :: 0 <= i < |t| ==> !('A' <= t[i] <= 'Z')
  {
  }

  lemma SpellingsDiffer(s: string, a: KemAlgorithm)
    ensures forall b :: Spells(s, a) && Spells(s, b) ==> a == b
  {
  }

  /** A name means a KEM exactly if it is one of its two spellings, in whatever case. */
  lemma NamesExactly(name: string, a: KemAlgorithm)
    ensures KemFromName(name) == Some(a) <==> exists s :: Spells(s, a) && SameIgnoringCase(name, s)
  {
    var s := LowerAscii(name);
    assert SameIgnoringCase(name, s);
    assert KemFromName(name) == Some(a) <==> Spells(s, a) by {
      SpellingsDiffer(s, a);
    }
    forall t | Spells(t, a) && SameIgnoringCase(name, t)
      ensures t == s
    {
      SpelledInLowerCase(t, a);
    }
  }

  /** The NIST categories, a composite's being its ML-KEM's. */
  predicate InCategory(a: KemAlgorithm, n: nat) {
    match n
    case 1 => a == MlKem512
    case 3 => a == MlKem768 || a == MlKem768X25519 || a == MlKem768EcdhP256
    case 5 => a == MlKem1024 || a == MlKem1024EcdhP384
    case _ => false
  }

  lemma StrengthExactly(a: KemAlgorithm, n: nat)
    ensures Strength(a) == n <==> InCategory(a, n)
  {
  }

  function StrongEnough(algorithms: seq<KemAlgorithm>, floor: KemAlgorithm): seq<KemAlgorithm> {
    if algorithms == [] then []
    else if Strength(algorithms[0]) >= Strength(floor) then [algorithms[0]] + StrongEnough(algorithms[1..], floor)
    else StrongEnough(algorithms[1..], floor)
  }

  lemma {:induction false} StrongEnoughMembers(algorithms: seq<KemAlgorithm>, floor: KemAlgorithm)
    ensures forall a :: a in StrongEnough(algorithms, floor) <==> a in algorithms && Strength(a) >= Strength(floor)
  {
    if algorithms == [] {
    } else {
      StrongEnoughMembers(algorithms[1..], floor);
    }
  }

  /** Pure ML-KEM at or above the category of `floor`. */
  function AlgorithmsAtOrAbove(floor: KemAlgorithm): (r: seq<KemAlgorithm>)
    ensures forall a :: a in r <==> !IsComposite(a) && Strength(a) >= Strength(floor)
  {
    assert MlKem512 in [MlKem512, MlKem768, MlKem1024] && MlKem768 in [MlKem512, MlKem768, MlKem1024]
        && MlKem1024 in [MlKem512, MlKem768, MlKem1024];
    StrongEnoughMembers([MlKem512, MlKem768, MlKem1024], floor);
    StrongEnough([MlKem512, MlKem768, MlKem1024], floor)
  }

  function KemAlgId(a: KemAlgorithm): AlgId {
    AlgId(KemOid(a), None)
  }

  /** `group_algorithm_oid_and_params`. */
  function GroupAlgId(g: DhGroup): AlgId {
    match g
    case EcP256 => AlgId(EcPublicKeyOid, Some(NamedCurve(Secp256r1Oid)))
    case EcP384 => AlgId(EcPublicKeyOid, Some(NamedCurve(Secp384r1Oid)))
    case EcP521 => AlgId(EcPublicKeyOid, Some(NamedCurve(Secp521r1Oid)))
    case Oakley2048 => AlgId(DhPublicNumberOid, Some(OakleyParams2048))
    case Oakley4096 => AlgId(DhPublicNumberOid, Some(OakleyParams4096))
  }

  function ExchangeAlgId(x: KeyExchange): AlgId {
    match x
    case Dh(g) => GroupAlgId(g)
    case Kem(a) => KemAlgId(a)
  }

  /** `group_from_algorithm_identifier`: the minimum applies to MODP groups only. */
  function GroupFromAlgId(a: AlgId, minBits: nat): Option<DhGroup> {
    if a.oid == EcPublicKeyOid then
      match a.params
      case Some(NamedCurve(c)) =>
        if c == Secp256r1Oid then Some(EcP256)
        else if c == Secp384r1Oid then Some(EcP384)
        else if c == Secp521r1Oid then Some(EcP521)
        else None
      case _ => None
    else if a.oid == DhPublicNumberOid then
      var g := if a.params == Some(OakleyParams2048) then Some(Oakley2048)
               else if a.params == Some(OakleyParams4096) then Some(Oakley4096)
               else None;
      if g.Some? && MinBits(g.value) >= minBits then g else None
    else None
  }

  /** The two directions between groups and identifiers are inverse, up to the minimum. */
  lemma GroupAlgIdRoundTrip(a: AlgId, g: DhGroup, minBits: nat)
    ensures GroupFromAlgId(a, minBits) == Some(g) <==> a == GroupAlgId(g) && (IsEc(g) || MinBits(g) >= minBits)
  {
  }
}
