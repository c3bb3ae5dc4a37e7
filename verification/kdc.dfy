/**
 The KDC: which key exchanges it advertises and accepts, which requests it
 admits for which client, and the replies it builds.
 */
module Kdc {
  import opened Wrappers
  import opened Der
  import opened Algorithms
  import opened KemTypes
  import opened Cms
  import opened Suite
  import opened Kdf

  datatype KdcConfig = KdcConfig(
    requireEku: bool,
    acceptSecondaryEku: bool,
    allowUpn: bool,
    requireCrlChecking: bool,
    requireFreshness: bool,
    dhMinBits: nat,
    kems: seq<KemAlgorithm>,
    composites: seq<KemAlgorithm>,
    requireKem: bool)

  /** `require_kem` without any KEM means every pure ML-KEM. */
  function Normalized(c: KdcConfig): KdcConfig {
    if c.requireKem && c.kems == [] && c.composites == [] then c.(kems := AlgorithmsAtOrAbove(MlKem512)) else c
  }

  /* ----- The advertised list ----- */

  predicate ByStrength(s: seq<KemAlgorithm>) {
    forall i, j :: 0 <= i < j < |s| ==> Strength(s[i]) >= Strength(s[j])
  }

  /** The elements of strength `k`, in order. */
  function OfStrength(s: seq<KemAlgorithm>, k: nat): seq<KemAlgorithm> {
    if s == [] then []
    else (if Strength(s[0]) == k then [s[0]] else []) + OfStrength(s[1..], k)
  }

  function Insert(a: KemAlgorithm, s: seq<KemAlgorithm>): seq<KemAlgorithm> {
    if s == [] || Strength(a) >= Strength(s[0]) then [a] + s else [s[0]] + Insert(a, s[1..])
  }

  /** The library's stable sort by decreasing strength. */
  function SortByStrength(s: seq<KemAlgorithm>): seq<KemAlgorithm> {
    if s == [] then [] else Insert(s[0], SortByStrength(s[1..]))
  }

  lemma {:induction false} InsertPermutes(a: KemAlgorithm, s: seq<KemAlgorithm>)
    ensures multiset(Insert(a, s)) == multiset(s) + multiset{a}
  {
    if s == [] || Strength(a) >= Strength(s[0]) {
    } else {
      InsertPermutes(a, s[1..]);
      assert s == [s[0]] + s[1..];
    }
  }

  lemma {:induction false} InsertSorts(a: KemAlgorithm, s: seq<KemAlgorithm>)
    requires ByStrength(s)
    ensures ByStrength(Insert(a, s))
  {
    if s == [] || Strength(a) >= Strength(s[0]) {
    } else {
      var t := Insert(a, s[1..]);
      InsertSorts(a, s[1..]);
      InsertPermutes(a, s[1..]);
      forall j | 0 <= j < |t|
        ensures Strength(s[0]) >= Strength(t[j])
      {
        assert t[j] in multiset(t);
        assert t[j] == a || t[j] in s[1..];
      }
    }
  }

  lemma OfStrengthCons(a: KemAlgorithm, s: seq<KemAlgorithm>, k: nat)
    ensures OfStrength([a] + s, k) == (if Strength(a) == k then [a] else []) + OfStrength(s, k)
  {
    assert ([a] + s)[1..] == s;
  }

  lemma {:induction false} InsertKeepsOrder(a: KemAlgorithm, s: seq<KemAlgorithm>, k: nat)
    ensures OfStrength(Insert(a, s), k) == OfStrength([a] + s, k)
  {
    if s == [] || Strength(a) >= Strength(s[0]) {
    } else {
      InsertKeepsOrder(a, s[1..], k);
      assert s == [s[0]] + s[1..];
      OfStrengthCons(a, s, k);
      OfStrengthCons(a, s[1..], k);
      OfStrengthCons(s[0], s[1..], k);
      OfStrengthCons(s[0], Insert(a, s[1..]), k);
    }
  }

  /** A permutation, strongest first, that keeps the configured order among equals. */
  lemma {:induction false} SortByStrengthSorts(s: seq<KemAlgorithm>, k: nat)
    ensures ByStrength(SortByStrength(s))
    ensures multiset(SortByStrength(s)) == multiset(s)
    ensures OfStrength(SortByStrength(s), k) == OfStrength(s, k)
  {
    if s == [] {
    } else {
      var t := SortByStrength(s[1..]);
      SortByStrengthSorts(s[1..], k);
      InsertSorts(s[0], t);
      InsertPermutes(s[0], t);
      InsertKeepsOrder(s[0], t, k);
      OfStrengthCons(s[0], t, k);
      assert s == [s[0]] + s[1..];
    }
  }

  function KemExchanges(algorithms: seq<KemAlgorithm>): seq<KeyExchange> {
    seq(|algorithms|, i requires 0 <= i < |algorithms| => Kem(algorithms[i]))
  }

  predicate AdvertisesGroup(c: KdcConfig, g: DhGroup) {
    !c.requireKem && MinBits(g) >= c.dhMinBits
  }

  function AdvertisedGroups(c: KdcConfig, groups: seq<DhGroup>): (r: seq<KeyExchange>)
    ensures forall x :: x in r <==> x.Dh? && x.group in groups && AdvertisesGroup(c, x.group)
  {
    if groups == [] then []
    else (if AdvertisesGroup(c, groups[0]) then [Dh(groups[0])] else []) + AdvertisedGroups(c, groups[1..])
  }

  /** Pure ML-KEM by category, then composites as configured, then curves and groups. */
  function Advertised(c: KdcConfig): seq<KeyExchange> {
    KemExchanges(SortByStrength(c.kems)) + KemExchanges(c.composites) + AdvertisedGroups(c, ALL_GROUPS)
  }

  function AlgIdsOf(exchanges: seq<KeyExchange>): seq<AlgId> {
    seq(|exchanges|, i requires 0 <= i < |exchanges| => ExchangeAlgId(exchanges[i]))
  }

  /** `acceptable_key_establishment_alg_ids`. */
  function AcceptableAlgIds(c: KdcConfig): seq<AlgId> {
    AlgIdsOf(Advertised(c))
  }

  lemma EveryGroupListed(g: DhGroup)
    ensures g in ALL_GROUPS
  {
    assert ALL_GROUPS[0] == EcP521 && ALL_GROUPS[1] == EcP384 && ALL_GROUPS[2] == EcP256
        && ALL_GROUPS[3] == Oakley4096 && ALL_GROUPS[4] == Oakley2048;
  }

  lemma KemExchangesMembers(algorithms: seq<KemAlgorithm>, x: KeyExchange)
    ensures x in KemExchanges(algorithms) <==> x.Kem? && x.alg in algorithms
  {
    if x.Kem? && x.alg in algorithms {
      var i :| 0 <= i < |algorithms| && algorithms[i] == x.alg;
      assert KemExchanges(algorithms)[i] == x;
    }
  }

  lemma AdvertisedMembers(c: KdcConfig, x: KeyExchange)
    ensures x in Advertised(c) <==>
            match x
            case Kem(a) => a in c.kems || a in c.composites
            case Dh(g) => AdvertisesGroup(c, g)
  {
    SortByStrengthSorts(c.kems, 0);
    assert forall a :: a in SortByStrength(c.kems) <==> a in multiset(c.kems);
    KemExchangesMembers(SortByStrength(c.kems), x);
    KemExchangesMembers(c.composites, x);
    if x.Dh? {
      EveryGroupListed(x.group);
    }
  }

  /** P-521, P-384, P-256, then 4096 and 2048 bits. */
  function Place(g: DhGroup): nat {
    match g
    case EcP521 => 0
    case EcP384 => 1
    case EcP256 => 2
    case Oakley4096 => 3
    case Oakley2048 => 4
  }

  /** Exchanges of groups in that order, each at most once. */
  predicate InPlace(s: seq<KeyExchange>) {
    && (forall i :: 0 <= i < |s| ==> s[i].Dh?)
    && (forall i, j :: 0 <= i < j < |s| ==> Place(s[i].group) < Place(s[j].group))
  }

  predicate Ordered(groups: seq<DhGroup>) {
    forall i, j :: 0 <= i < j < |groups| ==> Place(groups[i]) < Place(groups[j])
  }

  lemma LaterGroups(groups: seq<DhGroup>, g: DhGroup)
    requires groups != [] && Ordered(groups) && g in groups[1..]
    ensures Place(groups[0]) < Place(g) && Ordered(groups[1..])
  {
    hide Place;
    var k :| 0 <= k < |groups[1..]| && groups[1..][k] == g;
    assert groups[k + 1] == g;
  }

  lemma InPlaceCons(x: KeyExchange, rest: seq<KeyExchange>)
    requires x.Dh? && InPlace(rest) && forall j :: 0 <= j < |rest| ==> Place(x.group) < Place(rest[j].group)
    ensures InPlace([x] + rest)
  {
    hide Place;
  }

  lemma {:induction false} GroupsInPlace(c: KdcConfig, groups: seq<DhGroup>)
    requires Ordered(groups)
    ensures InPlace(AdvertisedGroups(c, groups))
  {
    if groups == [] {
    } else {
      assert Ordered(groups[1..]);
      var rest := AdvertisedGroups(c, groups[1..]);
      GroupsInPlace(c, groups[1..]);
      forall j | 0 <= j < |rest|
        ensures Place(groups[0]) < Place(rest[j].group)
      {
        assert rest[j] in rest;
        LaterGroups(groups, rest[j].group);
      }
      hide AdvertisesGroup, Place, Ordered;
      InPlaceCons(Dh(groups[0]), rest);
      hide InPlace;
      assert [] + rest == rest;
    }
  }

  function KemsOf(s: seq<KeyExchange>): seq<KemAlgorithm>
    requires forall i :: 0 <= i < |s| ==> s[i].Kem?
  {
    seq(|s|, i requires 0 <= i < |s| => s[i].alg)
  }

  lemma KemsOfExchanges(algorithms: seq<KemAlgorithm>)
    ensures var s := KemExchanges(algorithms);
            |s| == |algorithms| && (forall i :: 0 <= i < |s| ==> s[i].Kem?) && KemsOf(s) == algorithms
  {
  }

  lemma ThreeParts(a: seq<KeyExchange>, b: seq<KeyExchange>, d: seq<KeyExchange>)
    requires forall i :: 0 <= i < |a| ==> a[i].Kem?
    requires forall i :: 0 <= i < |b| ==> b[i].Kem?
    ensures var list := a + b + d;
            && list[..|a|] == a && list[|a|..|a| + |b|] == b && list[|a| + |b|..] == d
            && forall i :: 0 <= i < |a| + |b| ==> list[i].Kem?
  {
  }

  /**
   The list by position: the configured pure ML-KEM first, strongest first and
   as configured among equals; then the composites as configured; then the
   groups in their order.
   */
  lemma AdvertisedInOrder(c: KdcConfig, k: nat)
    ensures var list, n, m := Advertised(c), |c.kems|, |c.kems| + |c.composites|;
            && m <= |list|
            && (forall i :: 0 <= i < m ==> list[i].Kem?)
            && var kems := KemsOf(list[..n]);
            && ByStrength(kems) && multiset(kems) == multiset(c.kems) && OfStrength(kems, k) == OfStrength(c.kems, k)
            && KemsOf(list[n..m]) == c.composites
            && InPlace(list[m..])
  {
    var sorted := SortByStrength(c.kems);
    SortByStrengthSorts(c.kems, k);
    assert |sorted| == |multiset(sorted)| == |c.kems|;
    GroupsInPlace(c, ALL_GROUPS);
    hide SortByStrength, AdvertisedGroups, OfStrength, InPlace, ByStrength, KemExchanges, KemsOf;
    KemsOfExchanges(sorted);
    KemsOfExchanges(c.composites);
    ThreeParts(KemExchanges(sorted), KemExchanges(c.composites), AdvertisedGroups(c, ALL_GROUPS));
  }

  /* ----- What is accepted ----- */

  predicate AcceptsKem(c: KdcConfig, a: KemAlgorithm) {
    if IsComposite(a) then a in c.composites else c.kems == [] || a in c.kems
  }

  /** The KEM of a public key, or `None` for any other key; a KEM key has no parameters. */
  function DetectSpkiAlgorithm(spki: Spki): Fallible<Option<KemAlgorithm>> {
    var kem := KemFromOid(spki.algorithm.oid);
    if kem.Some? && spki.algorithm.params.Some? then Err(KemAlgorithmNotSupported) else Ok(kem)
  }

  function IdentifyOakleyGroup(prime: Prime, bits: nat): Fallible<DhGroup> {
    if 2048 <= bits < 4096 && prime == Oakley2048Prime then Ok(Oakley2048)
    else if bits >= 4096 && prime == Oakley4096Prime then Ok(Oakley4096)
    else Err(DhParamsRejected)
  }

  /** Curves are accepted by name, whatever `minBits` says. */
  function ValidateDhParams(lib: Lib, spki: Spki, minBits: nat): Fallible<DhGroup> {
    var shape := lib.inspectKey(spki);
    if shape.None? then Err(DhParamsRejected)
    else
      var bits := shape.value.bits;
      match shape.value.groupName
      case Some(P256Name) => Ok(EcP256)
      case Some(P384Name) => Ok(EcP384)
      case Some(P521Name) => Ok(EcP521)
      case Some(other) =>
        if bits < minBits then Err(DhParamsRejected)
        else if other == Modp2048Name then Ok(Oakley2048)
        else if other == Modp4096Name then Ok(Oakley4096)
        else Err(DhParamsRejected)
      case None =>
        if bits < minBits then Err(DhParamsRejected)
        else if shape.value.prime.Some? then IdentifyOakleyGroup(shape.value.prime.value, bits)
        else Err(DhParamsRejected)
  }

  /** The key exchange a request asks for, if the KDC takes part in it. */
  function KeyExchangeOf(lib: Lib, c: KdcConfig, spki: Spki, hasDhNonce: bool): Fallible<KeyExchange> {
    var kem :- DetectSpkiAlgorithm(spki);
    match kem
    case Some(a) =>
      if !AcceptsKem(c, a) then Err(KemAlgorithmNotSupported)
      else if hasDhNonce then Err(KemNonceNotAllowed)
      else Ok(Kem(a))
    case None =>
      if c.requireKem then Err(DhParamsRejected)
      else
        var group :- ValidateDhParams(lib, spki, c.dhMinBits);
        Ok(Dh(group))
  }

  /** A key in the group: by its name, or by its prime and size. */
  predicate KeyInGroup(shape: KeyShape, g: DhGroup) {
    match g
    case EcP256 => shape.groupName == Some(P256Name)
    case EcP384 => shape.groupName == Some(P384Name)
    case EcP521 => shape.groupName == Some(P521Name)
    case Oakley2048 =>
      || shape.groupName == Some(Modp2048Name)
      || (shape.groupName.None? && shape.prime == Some(Oakley2048Prime) && 2048 <= shape.bits < 4096)
    case Oakley4096 =>
      || shape.groupName == Some(Modp4096Name)
      || (shape.groupName.None? && shape.prime == Some(Oakley4096Prime) && 4096 <= shape.bits)
  }

  /** The key asks for an exchange that the configuration takes; the minimum is for MODP groups. */
  predicate Establishes(lib: Lib, c: KdcConfig, spki: Spki, hasDhNonce: bool, x: KeyExchange) {
    match x
    case Kem(a) => spki.algorithm == KemAlgId(a) && AcceptsKem(c, a) && !hasDhNonce
    case Dh(g) =>
      && KemFromOid(spki.algorithm.oid).None? && !c.requireKem
      && lib.inspectKey(spki).Some? && KeyInGroup(lib.inspectKey(spki).value, g)
      && (IsEc(g) || lib.inspectKey(spki).value.bits >= c.dhMinBits)
  }

  /** Which key is taken for which exchange, for every key whatsoever. */
  lemma KeyExchangeExactly(lib: Lib, c: KdcConfig, spki: Spki, hasDhNonce: bool, x: KeyExchange)
    ensures KeyExchangeOf(lib, c, spki, hasDhNonce) == Ok(x) <==> Establishes(lib, c, spki, hasDhNonce, x)
  {
    var kem := KemFromOid(spki.algorithm.oid);
    if kem.Some? {
      assert spki.algorithm.oid == KemOid(kem.value);
    }
    if x.Kem? {
      assert KemFromOid(KemOid(x.alg)) == Some(x.alg);
    }
    hide AcceptsKem;
  }

  /** A key in the given exchange, as a client presents it. */
  ghost predicate PresentsExchange(lib: Lib, x: KeyExchange, spki: Spki, hasDhNonce: bool) {
    && spki.algorithm == ExchangeAlgId(x) && (hasDhNonce ==> x.Dh?)
    && (x.Dh? ==> exists secret :: spki.bits == lib.dhPublic(x.group, secret))
  }

  predicate AcceptsExchange(c: KdcConfig, x: KeyExchange) {
    match x
    case Kem(a) => AcceptsKem(c, a)
    case Dh(g) => !c.requireKem && (IsEc(g) || MinBits(g) >= c.dhMinBits)
  }

  /** The decision depends on the exchange alone, and a refusal carries typed data. */
  lemma ExchangeDecision(lib: Lib, c: KdcConfig, x: KeyExchange, spki: Spki, hasDhNonce: bool)
    requires lib.RecognizesGroups() && PresentsExchange(lib, x, spki, hasDhNonce)
    ensures AcceptsExchange(c, x) ==> KeyExchangeOf(lib, c, spki, hasDhNonce) == Ok(x)
    ensures !AcceptsExchange(c, x) ==>
              KeyExchangeOf(lib, c, spki, hasDhNonce).Err?
              && ErrorClass(KeyExchangeOf(lib, c, spki, hasDhNonce).error) == EphemeralKeyParamsNotAccepted
  {
    match x
    case Kem(a) =>
      assert KemFromOid(KemOid(a)) == Some(a);
    case Dh(g) =>
      assert KemFromOid(GroupAlgId(g).oid).None?;
      var secret :| spki.bits == lib.dhPublic(g, secret);
      assert spki == Spki(GroupAlgId(g), lib.dhPublic(g, secret));
  }

  /** Configured lists that agree with the split into pure and composite. */
  predicate Consistent(c: KdcConfig) {
    && (forall a :: a in c.kems ==> !IsComposite(a) || a in c.composites)
    && (forall a :: a in c.composites ==> IsComposite(a) || c.kems == [] || a in c.kems)
  }

  predicate ReadConfig(c: KdcConfig) {
    (forall a :: a in c.kems ==> !IsComposite(a)) && (forall a :: a in c.composites ==> IsComposite(a))
  }

  /** Everything advertised is accepted exactly for consistent lists, such as those read from a profile. */
  lemma AdvertisedIsAccepted(c: KdcConfig)
    ensures Consistent(c) <==> forall x :: x in Advertised(c) ==> AcceptsExchange(c, x)
    ensures ReadConfig(c) ==> Consistent(c)
    ensures ReadConfig(c) ==> ReadConfig(Normalized(c))
  {
    forall x
      ensures x in Advertised(c) <==>
              match x
              case Kem(a) => a in c.kems || a in c.composites
              case Dh(g) => AdvertisesGroup(c, g)
    {
      AdvertisedMembers(c, x);
    }
    if forall x :: x in Advertised(c) ==> AcceptsExchange(c, x) {
      forall a | a in c.kems
        ensures !IsComposite(a) || a in c.composites
      {
        assert Kem(a) in Advertised(c);
      }
      forall a | a in c.composites
        ensures IsComposite(a) || c.kems == [] || a in c.kems
      {
        assert Kem(a) in Advertised(c);
      }
    }
  }

  /**
   What is accepted but not advertised: curves below the minimum, and every
   pure ML-KEM when none is configured.
   */
  lemma AcceptedBeyondAdvertised(c: KdcConfig, x: KeyExchange)
    requires ReadConfig(c)
    ensures AcceptsExchange(c, x) <==>
            || x in Advertised(c)
            || (x.Dh? && IsEc(x.group) && MinBits(x.group) < c.dhMinBits && !c.requireKem)
            || (x.Kem? && !IsComposite(x.alg) && c.kems == [])
  {
    AdvertisedMembers(c, x);
  }

  /** The KDC's configuration where nothing is configured. */
  const DEFAULT_CONFIG := KdcConfig(true, false, false, false, false, 2048, [], [], false)

  /** The default configuration takes P-256, and does not list it. */
  lemma DefaultTakesUnlisted()
    ensures AcceptsExchange(DEFAULT_CONFIG, Dh(EcP256)) && Dh(EcP256) !in Advertised(DEFAULT_CONFIG)
  {
    hide Advertised;
    AdvertisedMembers(DEFAULT_CONFIG, Dh(EcP256));
  }

  /**
   The configurations whose list is exactly what they take: the lists respect
   the split, pure ML-KEM is configured rather than left open, and groups are
   either refused altogether or listed down to the smallest curve.
   */
  lemma ListedExactlyIfAccepted(c: KdcConfig)
    ensures (forall x :: x in Advertised(c) <==> AcceptsExchange(c, x)) <==>
            && Consistent(c)
            && (c.kems == [] ==> forall a :: !IsComposite(a) ==> a in c.composites)
            && (c.requireKem || c.dhMinBits <= 256)
  {
    hide Advertised;
    AdvertisedIsAccepted(c);
    forall x
      ensures x in Advertised(c) <==>
              match x
              case Kem(a) => a in c.kems || a in c.composites
              case Dh(g) => AdvertisesGroup(c, g)
    {
      AdvertisedMembers(c, x);
    }
    if forall x :: x in Advertised(c) <==> AcceptsExchange(c, x) {
      assert Dh(EcP256) in Advertised(c) <==> AcceptsExchange(c, Dh(EcP256));
      forall a | c.kems == [] && !IsComposite(a)
        ensures a in c.composites
      {
        assert Kem(a) in Advertised(c) <==> AcceptsExchange(c, Kem(a));
      }
    }
  }

  /** With `require_kem`, some KEM is always taken: every pure ML-KEM if none is configured. */
  lemma NormalizedTakesKem(c: KdcConfig)
    ensures var e := Normalized(c);
            && (c.requireKem && c.kems == [] && c.composites == [] ==>
                  forall a :: a in e.kems <==> !IsComposite(a))
            && (!(c.requireKem && c.kems == [] && c.composites == []) ==> e == c)
            && e.(kems := c.kems) == c
            && (c.requireKem && ReadConfig(c) ==> exists a :: Kem(a) in Advertised(e) && AcceptsKem(e, a))
  {
    var e := Normalized(c);
    assert forall a :: Strength(a) >= Strength(MlKem512);
    hide Advertised;
    if c.requireKem && ReadConfig(c) {
      var a := if c.kems == [] && c.composites == [] then MlKem512
               else if c.kems != [] then c.kems[0] else c.composites[0];
      AdvertisedMembers(e, Kem(a));
      assert a in e.kems || a in e.composites;
    }
  }

  /* ----- Admitting a request ----- */

  /** Path validation, EKU and SAN checks, and checksum verification. */
  datatype TrustChecks = TrustChecks(
    validateChain: (Bytes, seq<Bytes>, bool) -> Fallible<()>,
    clientEku: (Bytes, bool) -> Fallible<bool>,
    clientSan: (Bytes, string, bool) -> Fallible<bool>,
    checksums: (Bytes, Option<Bytes>, Option<(Bytes, Oid)>) -> Fallible<()>)

  datatype Envelope = Envelope(content: Bytes, clientCert: Bytes, isAnonymous: bool)

  /** The AuthPack and who signed it; an unsigned one is recognized by its structure alone. */
  function OpenAuthPack(lib: CmsLib, trust: TrustChecks, c: KdcConfig, der: Bytes): Fallible<Envelope> {
    var unsigned := if ExtractUnsignedContent(lib, der).Ok? then ExtractUnsignedContent(lib, der)
                    else ExtractBareContent(lib, der);
    if unsigned.Ok? then
      if unsigned.value.1 != AuthDataOid then Err(CmsContentTypeMismatch)
      else Ok(Envelope(unsigned.value.0, [], true))
    else
      var v :- VerifySignedData(lib, der);
      if v.contentType != AuthDataOid then Err(CmsContentTypeMismatch)
      else
        var _ :- trust.validateChain(v.signerCert, v.allCerts, c.requireCrlChecking);
        if c.requireEku then
          var eku :- trust.clientEku(v.signerCert, c.acceptSecondaryEku);
          if eku then Ok(Envelope(v.content, v.signerCert, false)) else Err(EkuMismatch)
        else Ok(Envelope(v.content, v.signerCert, false))
  }

  datatype VerifiedRequest = VerifiedRequest(
    clientCert: Bytes,
    clientPublic: Spki,
    nonce: i32,
    supportedKdfs: seq<Oid>,
    clientDhNonce: Option<Bytes>,
    isAnonymous: bool,
    keyExchange: KeyExchange)

  function AbsDiff(a: int, b: int): nat {
    if a > b then a - b else b - a
  }

  /** The checks on the AuthPack itself. */
  function CheckAuthPack(lib: Lib, trust: TrustChecks, c: KdcConfig, envelope: Envelope, body: Option<Bytes>,
                         maxSkew: int, now: int): Fallible<VerifiedRequest>
  {
    var pack :- OrElse(lib.decAuthPack(envelope.content), Asn1);
    if AbsDiff(pack.ctime, now) > maxSkew then Err(ClockSkew)
    else if c.requireFreshness && pack.freshnessToken.None? then Err(Config)
    else
      var _ :- if body.Some? && (pack.checksum.Some? || pack.checksum2.Some?)
               then trust.checksums(body.value, pack.checksum, pack.checksum2) else Ok(());
      var spki :- OrElse(pack.publicValue, DhParamsRejected);
      var exchange :- KeyExchangeOf(lib, c, spki, pack.dhNonce.Some?);
      var nonce :- DecodeNonce(pack.nonce);
      Ok(VerifiedRequest(envelope.clientCert, spki, nonce,
                         if pack.supportedKdfs.Some? then pack.supportedKdfs.value else [],
                         pack.dhNonce, envelope.isAnonymous, exchange))
  }

  function VerifyAsReq(lib: Lib, trust: TrustChecks, c: KdcConfig, paReq: Bytes, body: Option<Bytes>, maxSkew: int,
                       now: int): Fallible<VerifiedRequest>
  {
    var der :- OrElse(lib.decPaReq(paReq), Asn1);
    var envelope :- OpenAuthPack(lib.cms, trust, c, der);
    CheckAuthPack(lib, trust, c, envelope, body, maxSkew, now)
  }

  /** The requested client: whether it is WELLKNOWN/ANONYMOUS, and its name. */
  datatype ClientPrincipal = ClientPrincipal(anonymous: bool, name: Option<string>)

  datatype KdcError = PreauthFailedCode | ClientNameMismatch

  function AuthorizeClient(trust: TrustChecks, c: KdcConfig, v: VerifiedRequest, client: Option<ClientPrincipal>)
    : Result<(), KdcError>
  {
    if client.None? then Err(PreauthFailedCode)
    else if v.isAnonymous then if client.value.anonymous then Ok(()) else Err(PreauthFailedCode)
    else if client.value.name.None? then Err(PreauthFailedCode)
    else
      var san := trust.clientSan(v.clientCert, client.value.name.value, c.allowUpn);
      if san == Ok(true) then Ok(()) else Err(ClientNameMismatch)
  }

  /* ----- Replies ----- */

  datatype KdcIdentity = KdcIdentity(cert: Bytes, signingKey: Option<Bytes>, chain: seq<Bytes>)

  datatype ReplyParams = ReplyParams(nonce: i32, enctype: i32, asReq: Bytes, clientName: string, serverName: string)

  /** Random bytes for the KDC's key or encapsulation, and for its DH nonce. */
  datatype ReplyRandom = ReplyRandom(key: Option<Bytes>, nonce: Option<Bytes>)

  function SignedReply(lib: CmsLib, id: KdcIdentity, content: Bytes, contentType: Oid): Fallible<Vec> {
    var key :- OrElse(id.signingKey, IdentityLoadFailed);
    CreateSignedData(lib, content, contentType, key, id.cert, id.chain, DigestForSigner(lib, id.cert))
  }

  function BuildKemRep(lib: Lib, id: KdcIdentity, v: VerifiedRequest, params: ReplyParams, random: ReplyRandom)
    : Fallible<(Bytes, DerivedKey)>
    requires v.keyExchange.Kem?
  {
    var alg := v.keyExchange.alg;
    if v.supportedKdfs != [] && HkdfSha512Oid !in v.supportedKdfs then Err(NoAcceptableKdf)
    else
      var coins :- OrElse(random.key, KemEncapFailed);
      var (ct, secret) :- OrElse(lib.kemEncapsulate(alg, v.clientPublic, coins), KemEncapFailed);
      if |ct| != CiphertextLen(alg) then Err(KemCiphertextLengthInvalid)
      else
        var info := KemInfo(KemAlgId(alg), ct, AlgId(HkdfSha512Oid, None), Some(EncodeNonce(params.nonce)), None);
        var content :- OrElse(lib.encKemInfo(info), Asn1);
        var signedData :- SignedReply(lib.cms, id, content, KemKeyDataOid);
        var rep := KemRepWrapper(KemRepInfoDer(signedData));
        var key :- PkinitKemKdf(lib, secret, KemContext(params.enctype, params.asReq, signedData));
        Ok((rep, key))
  }

  function ReplyKeyFromDh(lib: Lib, secret: Bytes, kdf: Option<Oid>, clientNonce: Option<Bytes>, nonce: Bytes,
                          rep: Bytes, params: ReplyParams): Fallible<DerivedKey>
  {
    match kdf
    case Some(oid) =>
      var partyU :- EncodePrincipal(lib, params.clientName);
      var partyV :- EncodePrincipal(lib, params.serverName);
      PkinitKdf(lib, secret, oid, params.enctype, partyU, partyV, params.asReq, rep)
    case None =>
      LegacyKey(lib, secret + ((if clientNonce.Some? then clientNonce.value else []) + nonce), params.enctype)
  }

  function BuildDhRep(lib: Lib, id: KdcIdentity, v: VerifiedRequest, params: ReplyParams, random: ReplyRandom)
    : Fallible<(Bytes, DerivedKey)>
    requires v.keyExchange.Dh?
  {
    var group := v.keyExchange.group;
    var own :- OrElse(random.key, Ossl);
    var secret :- OrElse(lib.dhDerive(group, own, v.clientPublic), DhAgreementFailed);
    var info := DhKeyInfo(lib.dhPublic(group, own), EncodeNonce(params.nonce));
    var content :- OrElse(lib.encDhKeyInfo(info), Asn1);
    var signedData :- SignedReply(lib.cms, id, content, DhKeyDataOid);
    var nonce :- OrElse(random.nonce, Ossl);
    var kdf := PickKdfAlg(v.supportedKdfs);
    var rep :- OrElse(lib.encPaRep(DhInfo(signedData, Some(nonce), kdf)), Asn1);
    var key :- ReplyKeyFromDh(lib, secret, kdf, v.clientDhNonce, nonce, rep, params);
    Ok((rep, key))
  }

  function BuildAsRep(lib: Lib, id: KdcIdentity, v: VerifiedRequest, params: ReplyParams, random: ReplyRandom)
    : Fallible<(Bytes, DerivedKey)>
  {
    match v.keyExchange
    case Dh(_) => BuildDhRep(lib, id, v, params, random)
    case Kem(_) => BuildKemRep(lib, id, v, params, random)
  }

  /* ----- The KDC ----- */

  class PkinitKdcState {
    const identity: KdcIdentity
    const config: KdcConfig
    const supportedAlgorithmsHint: Option<Bytes>
    const tdEphemeralKeyParams: Bytes

    constructor With(id: KdcIdentity, c: KdcConfig, hint: Option<Bytes>, td: Bytes)
      ensures identity == id && config == c && supportedAlgorithmsHint == hint && tdEphemeralKeyParams == td
    {
      identity := id;
      config := c;
      supportedAlgorithmsHint := hint;
      tdEphemeralKeyParams := td;
    }

    /**
     The normalized configuration, and the two advertisements made from it once
     and for all; an error exactly if the list has no encoding.
     */
    static method New(lib: Lib, id: KdcIdentity, c: KdcConfig) returns (r: Fallible<PkinitKdcState>)
      ensures var list := lib.algIds.enc(AcceptableAlgIds(Normalized(c)));
              if list.None? then r == Err(Asn1)
              else
                && r.Ok? && fresh(r.value) && r.value.identity == id && r.value.config == Normalized(c)
                && r.value.tdEphemeralKeyParams == list.value
                && r.value.supportedAlgorithmsHint
                   == if AcceptableAlgIds(Normalized(c)) == [] then None else Some(HintDer(list.value))
    {
      var effective := c;
      if c.requireKem && c.kems == [] && c.composites == [] {
        effective := c.(kems := AlgorithmsAtOrAbove(MlKem512));
      }
      var algIds := AcceptableAlgIds(effective);
      var hint: Option<Bytes> := None;
      if algIds != [] {
        var encoded := EncodePkinitHint(lib.algIds, algIds);
        var der :- encoded;
        hint := Some(der);
      }
      var td :- OrElse(lib.algIds.enc(algIds), Asn1);
      var state := new PkinitKdcState.With(id, effective, hint, td);
      r := Ok(state);
    }
  }
}
