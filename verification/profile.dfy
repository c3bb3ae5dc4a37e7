/**
 The key-exchange relations of a krb5 profile, as the client and the KDC read
 them, and what equal settings on both sides lead to.
 */
module Profile {
  import opened Wrappers
  import opened Der
  import opened Algorithms
  import opened Client
  import opened Kdc
  import opened Requests
  import opened Negotiation

  datatype Section = Realms(realm: string) | Defaults

  /** A profile, with each relation under the type its reader asks for; absent ones are not in the maps. */
  datatype ProfileData = ProfileData(
    strings: map<(Section, string), seq<string>>,
    booleans: map<(Section, string), bool>,
    integers: map<(Section, string), i32>)

  /** A realm's own relation wins over the defaults section. */
  datatype Lookup = Lookup(profile: ProfileData, realm: Option<string>) {
    predicate InStrings(section: Section, key: string) {
      (section, key) in profile.strings && profile.strings[(section, key)] != []
    }

    function Values(key: string): Option<seq<string>> {
      if realm.Some? && InStrings(Realms(realm.value), key) then Some(profile.strings[(Realms(realm.value), key)])
      else if InStrings(Defaults, key) then Some(profile.strings[(Defaults, key)])
      else None
    }

    function String(key: string): Option<string> {
      var v := Values(key);
      if v.Some? && v.value != [] then Some(v.value[0]) else None
    }

    function Boolean(key: string, current: bool): bool {
      var v := if (Defaults, key) in profile.booleans then profile.booleans[(Defaults, key)] else current;
      if realm.Some? && (Realms(realm.value), key) in profile.booleans
      then profile.booleans[(Realms(realm.value), key)] else v
    }

    function Integer(key: string, current: i32): i32 {
      var v := if (Defaults, key) in profile.integers then profile.integers[(Defaults, key)] else current;
      if realm.Some? && (Realms(realm.value), key) in profile.integers
      then profile.integers[(Realms(realm.value), key)] else v
    }
  }

  /** The realm's relation wins; an absent one leaves the defaults section, and then the value before. */
  lemma RealmWins(l: Lookup, key: string, b: bool, n: i32)
    ensures l.realm.Some? && (Realms(l.realm.value), key) in l.profile.booleans ==>
              l.Boolean(key, b) == l.profile.booleans[(Realms(l.realm.value), key)]
    ensures (l.realm.None? || (Realms(l.realm.value), key) !in l.profile.booleans) ==>
              l.Boolean(key, b)
              == if (Defaults, key) in l.profile.booleans then l.profile.booleans[(Defaults, key)] else b
    ensures l.realm.Some? && (Realms(l.realm.value), key) in l.profile.integers ==>
              l.Integer(key, n) == l.profile.integers[(Realms(l.realm.value), key)]
    ensures (l.realm.None? || (Realms(l.realm.value), key) !in l.profile.integers) ==>
              l.Integer(key, n)
              == if (Defaults, key) in l.profile.integers then l.profile.integers[(Defaults, key)] else n
  {
  }

  /** The same for strings, where a relation without values counts as absent, and a single value is the first. */
  lemma RealmStringsWin(l: Lookup, key: string)
    ensures l.realm.Some? && (Realms(l.realm.value), key) in l.profile.strings
            && |l.profile.strings[(Realms(l.realm.value), key)]| > 0 ==>
              && l.Values(key) == Some(l.profile.strings[(Realms(l.realm.value), key)])
              && l.String(key) == Some(l.profile.strings[(Realms(l.realm.value), key)][0])
    ensures (l.realm.None? || (Realms(l.realm.value), key) !in l.profile.strings
             || |l.profile.strings[(Realms(l.realm.value), key)]| == 0) ==>
              if (Defaults, key) in l.profile.strings && |l.profile.strings[(Defaults, key)]| > 0 then
                && l.Values(key) == Some(l.profile.strings[(Defaults, key)])
                && l.String(key) == Some(l.profile.strings[(Defaults, key)][0])
              else
                l.Values(key).None? && l.String(key).None?
  {
  }

  const DH_MIN_BITS := "pkinit_dh_min_bits"
  const REQUIRE_KEM := "pkinit_require_kem"
  const MIN_ALGORITHM := "pkinit_pqc_min_algorithm"
  const COMPOSITES := "pkinit_pqc_composite_algorithms"

  /** The `as u32` and `as i32` casts. */
  function ToU32(v: i32): u32 {
    if v < 0 then v + U32_LIMIT else v
  }

  function ToI32(v: u32): i32 {
    if v >= 0x8000_0000 then v - U32_LIMIT else v
  }

  datatype ConfigError = UnknownKem | NotComposite

  function DhGroupFromMinBits(minBits: u32): DhGroup {
    if minBits <= 256 then EcP256
    else if minBits <= 2048 then Oakley2048
    else Oakley4096
  }

  /** The smallest of P-256 and the two MODP groups that reaches the minimum, and the largest if none does. */
  lemma SmallestThatReaches(minBits: u32)
    ensures var g := DhGroupFromMinBits(minBits);
            && (g == EcP256 <==> minBits <= 256) && (g == Oakley2048 <==> 256 < minBits <= 2048)
            && (g == Oakley4096 <==> 2048 < minBits)
            && (minBits <= 4096 ==> MinBits(g) >= minBits)
  {
  }

  /** The casts between the profile's signed integers and the settings keep every bit pattern. */
  lemma CastsInvert(v: i32, w: u32)
    ensures ToI32(ToU32(v)) == v && ToU32(ToI32(w)) == w && (ToU32(v) - v) % U32_LIMIT == 0
  {
  }

  /** The client's configuration after reading a profile over `before`. */
  function ClientRead(lookup: Lookup, before: ClientConfig): Result<ClientConfig, ConfigError>
    requires before.dhMinBits < U32_LIMIT
  {
    var bits := ToU32(lookup.Integer(DH_MIN_BITS, ToI32(before.dhMinBits)));
    var name := lookup.String(MIN_ALGORITHM);
    if name.Some? && KemFromName(name.value).None? then Err(UnknownKem)
    else Ok(ClientConfig(lookup.Boolean(REQUIRE_KEM, before.requireKem), bits, DhGroupFromMinBits(bits),
                         if name.Some? then KemFromName(name.value) else before.kemAlgorithm))
  }

  /** The client's settings, which the caller may have filled in before the profile is read. */
  class ClientSettings {
    var dhMinBits: u32
    var dhGroup: DhGroup
    var kemAlgorithm: Option<KemAlgorithm>
    var requireKem: bool

    constructor ()
      ensures dhMinBits == 2048 && dhGroup == Oakley2048 && kemAlgorithm.None? && !requireKem
    {
      dhMinBits, dhGroup, kemAlgorithm, requireKem := 2048, Oakley2048, None, false;
    }

    function View(): ClientConfig
      reads this
    {
      ClientConfig(requireKem, dhMinBits, dhGroup, kemAlgorithm)
    }

    /** An unknown KEM name stops the reading after the minimum has been taken over. */
    method ReadClientConfig(lookup: Lookup) returns (r: Result<(), ConfigError>)
      modifies this
      ensures match ClientRead(lookup, old(View()))
              case Ok(config) => r == Ok(()) && View() == config
              case Err(e) =>
                r == Err(e)
                && View() == old(View()).(dhMinBits := ToU32(lookup.Integer(DH_MIN_BITS, ToI32(old(dhMinBits)))))
    {
      dhMinBits := ToU32(lookup.Integer(DH_MIN_BITS, ToI32(dhMinBits)));
      var name := lookup.String(MIN_ALGORITHM);
      if name.Some? {
        var alg := KemFromName(name.value);
        if alg.None? {
          return Err(UnknownKem);
        }
        kemAlgorithm := alg;
      }
      requireKem := lookup.Boolean(REQUIRE_KEM, requireKem);
      dhGroup := DhGroupFromMinBits(dhMinBits);
      r := Ok(());
    }
  }

  /** Every name must be that of a composite KEM. */
  function CompositesFrom(names: seq<string>): (r: Result<seq<KemAlgorithm>, ConfigError>)
    ensures r.Ok? ==> forall a :: a in r.value ==> IsComposite(a)
  {
    if names == [] then Ok([])
    else
      var alg := KemFromName(names[0]);
      if alg.None? || !IsComposite(alg.value) then Err(NotComposite)
      else
        var rest := CompositesFrom(names[1..]);
        if rest.Err? then rest else Ok([alg.value] + rest.value)
  }

  lemma {:induction false} CompositesFromExactly(names: seq<string>)
    ensures CompositesFrom(names).Ok? <==>
            forall name :: name in names ==> KemFromName(name).Some? && IsComposite(KemFromName(name).value)
  {
    hide KemFromName;
    if names == [] {
    } else {
      CompositesFromExactly(names[1..]);
      assert names == [names[0]] + names[1..];
    }
  }

  /** The KDC's configuration for a realm; the other settings are passed through. */
  function KdcRead(lookup: Lookup, others: KdcConfig): Result<KdcConfig, ConfigError> {
    var name := lookup.String(MIN_ALGORITHM);
    if name.Some? && KemFromName(name.value).None? then Err(UnknownKem)
    else
      var names := lookup.Values(COMPOSITES);
      var composites := if names.Some? then CompositesFrom(names.value) else Ok([]);
      if composites.Err? then Err(composites.error)
      else Ok(others.(
                dhMinBits := ToU32(lookup.Integer(DH_MIN_BITS, 2048)),
                kems := if name.Some? then AlgorithmsAtOrAbove(KemFromName(name.value).value) else [],
                composites := composites.value,
                requireKem := lookup.Boolean(REQUIRE_KEM, false)))
  }

  method ReadKdcConfig(lookup: Lookup, others: KdcConfig) returns (r: Result<KdcConfig, ConfigError>)
    ensures r == KdcRead(lookup, others)
    ensures r.Ok? ==> ReadConfig(r.value)
    ensures r.Ok? <==>
            && (lookup.String(MIN_ALGORITHM).Some? ==> KemFromName(lookup.String(MIN_ALGORITHM).value).Some?)
            && (lookup.Values(COMPOSITES).Some? ==>
                  forall name :: name in lookup.Values(COMPOSITES).value ==>
                                   KemFromName(name).Some? && IsComposite(KemFromName(name).value))
  {
    hide KemFromName, AlgorithmsAtOrAbove, CompositesFrom, Lookup.Values, Lookup.String, Lookup.Boolean, Lookup.Integer;
    var kems: seq<KemAlgorithm> := [];
    var composites: seq<KemAlgorithm> := [];
    var minBits := ToU32(lookup.Integer(DH_MIN_BITS, 2048));
    var name := lookup.String(MIN_ALGORITHM);
    if name.Some? {
      var alg := KemFromName(name.value);
      if alg.None? {
        return Err(UnknownKem);
      }
      kems := AlgorithmsAtOrAbove(alg.value);
    }
    var names := lookup.Values(COMPOSITES);
    if names.Some? {
      CompositesFromExactly(names.value);
      var parsed := CompositesFrom(names.value);
      if parsed.Err? {
        return Err(parsed.error);
      }
      composites := parsed.value;
    }
    var requireKem := lookup.Boolean(REQUIRE_KEM, false);
    r := Ok(others.(dhMinBits := minBits, kems := kems, composites := composites, requireKem := requireKem));
  }

  /** What was read says the same about the KEM minimum, and the composites are composites. */
  lemma KdcReadMinimum(lookup: Lookup, others: KdcConfig, minimum: KemAlgorithm)
    requires lookup.String(MIN_ALGORITHM).Some? && KemFromName(lookup.String(MIN_ALGORITHM).value) == Some(minimum)
    requires KdcRead(lookup, others).Ok?
    ensures var c := KdcRead(lookup, others).value;
            && c.kems == AlgorithmsAtOrAbove(minimum) && Normalized(c) == c
            && forall a :: a in c.composites ==> IsComposite(a)
  {
    hide KemFromName, Lookup.Values, Lookup.String, Lookup.Boolean, Lookup.Integer;
    assert MlKem1024 in AlgorithmsAtOrAbove(minimum);
  }

  /** The client and the KDC are constructed from what they read. */
  predicate ReadFrom(client: Lookup, before: ClientConfig, kdc: Lookup, others: KdcConfig, config: ClientConfig,
                     x: Setting)
    requires before.dhMinBits < U32_LIMIT
  {
    && ClientRead(client, before) == Ok(config)
    && KdcRead(kdc, others).Ok? && x.c == Normalized(KdcRead(kdc, others).value)
    && x.p == Policy(config.requireKem, config.dhMinBits, HasPqCertificate(x.lib.cms, x.id))
  }

  /** A known minimum is always read by the client; the KDC also reads the composites, which must be some. */
  lemma KnownMinimumIsRead(client: Lookup, before: ClientConfig, kdc: Lookup, others: KdcConfig, minimum: KemAlgorithm)
    requires before.dhMinBits < U32_LIMIT
    requires client.String(MIN_ALGORITHM).Some? && KemFromName(client.String(MIN_ALGORITHM).value) == Some(minimum)
    requires kdc.String(MIN_ALGORITHM).Some? && KemFromName(kdc.String(MIN_ALGORITHM).value) == Some(minimum)
    ensures ClientRead(client, before).Ok? && ClientRead(client, before).value.kemAlgorithm == Some(minimum)
    ensures KdcRead(kdc, others).Ok? <==>
            (kdc.Values(COMPOSITES).Some? ==>
               forall name :: name in kdc.Values(COMPOSITES).value ==>
                                KemFromName(name).Some? && IsComposite(KemFromName(name).value))
  {
    hide KemFromName, Lookup.Values, Lookup.String, Lookup.Boolean, Lookup.Integer, AlgorithmsAtOrAbove;
    if kdc.Values(COMPOSITES).Some? {
      CompositesFromExactly(kdc.Values(COMPOSITES).value);
    }
  }

  /**
   The same KEM minimum in two profiles, whatever else they say: requests that
   go through end in a KEM at or above the minimum after at most one rejection.
   */
  lemma SameMinimumAgrees(client: Lookup, before: ClientConfig, kdc: Lookup, others: KdcConfig, minimum: KemAlgorithm,
                          config: ClientConfig, x: Setting, rounds: seq<Round>)
    requires before.dhMinBits < U32_LIMIT && ReadFrom(client, before, kdc, others, config, x)
    requires client.String(MIN_ALGORITHM).Some? && KemFromName(client.String(MIN_ALGORITHM).value) == Some(minimum)
    requires kdc.String(MIN_ALGORITHM).Some? && KemFromName(kdc.String(MIN_ALGORITHM).value) == Some(minimum)
    requires Lawful(x) && |rounds| >= 2 && Fits(x, InitialState(config), rounds)
    ensures var out := Negotiate(x, InitialState(config), rounds);
            if !GoesThrough(x, InitialState(config), rounds) then CutShort(x.p, InitialState(config), out)
            else out.Agreed? && out.rejections <= 1 && out.exchange.Kem?
                 && Strength(out.exchange.alg) >= Strength(minimum)
  {
    hide KemFromName, Lookup.Values, Lookup.String, Lookup.Boolean, Lookup.Integer, Negotiate, CutShort, GoesThrough,
         Fits, Lawful, AlgorithmsAtOrAbove;
    KnownMinimumIsRead(client, before, kdc, others, minimum);
    KdcReadMinimum(kdc, others, minimum);
    hide ClientRead, KdcRead;
    MatchingKemMinimum(x, config, minimum, rounds);
  }

  lemma SameMinBitsTaken(config: ClientConfig, c: KdcConfig, bits: i32)
    requires config.kemAlgorithm.None? && !config.requireKem && !c.requireKem
    requires config.dhMinBits == c.dhMinBits == ToU32(bits) && config.dhGroup == DhGroupFromMinBits(ToU32(bits))
    ensures Selected(InitialState(config)) == Dh(config.dhGroup)
    ensures AcceptsExchange(c, Selected(InitialState(config))) <==> 0 <= bits <= 4096
  {
  }

  /**
   Without a KEM and with the same `pkinit_dh_min_bits` in two profiles, the
   client's first request, if it is sent, is agreed on exactly for values from
   0 to 4096: beyond them no group is strong enough, and a negative value is a
   huge one.
   */
  lemma SameMinBitsAgrees(client: Lookup, before: ClientConfig, kdc: Lookup, others: KdcConfig, bits: i32,
                          config: ClientConfig, x: Setting, rounds: seq<Round>)
    requires before.dhMinBits < U32_LIMIT && before.kemAlgorithm.None?
    requires ReadFrom(client, before, kdc, others, config, x)
    requires client.Integer(DH_MIN_BITS, ToI32(before.dhMinBits)) == bits == kdc.Integer(DH_MIN_BITS, 2048)
    requires client.String(MIN_ALGORITHM).None? && !client.Boolean(REQUIRE_KEM, before.requireKem)
    requires !kdc.Boolean(REQUIRE_KEM, false)
    requires Lawful(x) && rounds != [] && Fits(x, InitialState(config), rounds)
    ensures var s := InitialState(config);
            var out := Negotiate(x, s, rounds);
            if Sends(x, s, rounds[0]) then out == Agreed(Dh(config.dhGroup), 0) <==> 0 <= bits <= 4096
            else CutShort(x.p, s, out)
  {
    hide KemFromName, Lookup.Values, Lookup.String, Lookup.Boolean, Lookup.Integer, Negotiate, AlgorithmsAtOrAbove,
         CompositesFrom, CutShort, Lawful, Fits, Sends;
    SameMinBitsTaken(config, x.c, bits);
    assert OwnGroup(InitialState(config));
    AcceptedAtOnce(x, InitialState(config), rounds);
  }
}
