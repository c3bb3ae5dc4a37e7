/**
 Runs of the client against an arbitrary peer: hints, typed data, replies and
 the libraries' answers are all unconstrained.
 */
module ClientRuns {
  import opened Wrappers
  import opened Der
  import opened Algorithms
  import opened KemTypes
  import opened Cms
  import opened Suite
  import opened Kdf
  import opened Client
  import Replies

  /** One call on the client. */
  datatype Event =
    | SetGroup(group: DhGroup)
    | Hint(der: Bytes)
    | Tryagain(data: seq<TypedData>)
    | Request(input: RequestInput)
    | Reply(rep: Bytes, params: RepParams, chain: ChainCheck)

  datatype Setup = Setup(lib: Lib, id: Identity, config: ClientConfig) {
    function Policy(): Policy {
      Client.Policy(config.requireKem, config.dhMinBits, HasPqCertificate(lib.cms, id))
    }
  }

  function AfterHintBytes(lib: Lib, p: Policy, s: ClientState, der: Bytes): Fallible<ClientState> {
    var list :- ParsePkinitHint(lib.algIds, der);
    AfterHint(p, s, list)
  }

  function Step(x: Setup, s: ClientState, e: Event): ClientState {
    match e
    case SetGroup(g) => WithDhGroup(s, g)
    case Hint(der) =>
      var after := AfterHintBytes(x.lib, x.Policy(), s, der);
      if after.Ok? then after.value else s
    case Tryagain(data) =>
      var r := RetryFor(x.lib, x.Policy(), s, data);
      if r.Ok? && r.value.Retry? then Applied(s, r.value.exchange) else s
    case Request(input) => Built(x.lib, x.Policy(), x.id, s, input).0
    case Reply(rep, params, chain) => Processed(x.lib, x.Policy(), s, rep, params, chain).0
  }

  /** The state after a run from construction. */
  function After(x: Setup, events: seq<Event>): ClientState {
    if events == [] then InitialState(x.config)
    else Step(x, After(x, events[..|events| - 1]), events[|events| - 1])
  }

  function At(x: Setup, events: seq<Event>, i: nat): ClientState
    requires i <= |events|
  {
    After(x, events[..i])
  }

  lemma AtStep(x: Setup, events: seq<Event>, i: nat)
    requires i < |events|
    ensures At(x, events, i + 1) == Step(x, At(x, events, i), events[i])
  {
    assert events[..i + 1][..i] == events[..i];
  }

  /** The key a reply yields in the state it meets. */
  function KeyFrom(x: Setup, s: ClientState, e: Event): Fallible<DerivedKey>
    requires e.Reply?
  {
    Processed(x.lib, x.Policy(), s, e.rep, e.params, e.chain).1
  }

  /* ----- What every single operation keeps ----- */

  /** Stored keys belong to the current selection, and the selection to the latest request. */
  predicate KeysMatch(s: ClientState) {
    && (s.dhKey.Some? ==> s.dhKey.value.group == s.dhGroup)
    && (s.kemKey.Some? ==> s.kemAlgorithm == Some(s.kemKey.value.alg)
                           && s.keyExchange == Some(Kem(s.kemKey.value.alg)))
    && (s.keyExchange.Some? ==> s.keyExchange
                                == Some(if s.kemAlgorithm.Some? then Kem(s.kemAlgorithm.value) else Dh(s.dhGroup)))
  }

  predicate MeetsFloor(s: ClientState) {
    s.kemAlgorithm.Some? && s.kemFloor.Some? ==> Strength(s.kemAlgorithm.value) >= Strength(s.kemFloor.value)
  }

  /** No DH key exists, and a KEM is selected. */
  predicate KemOnly(s: ClientState) {
    s.dhKey.None? && s.kemAlgorithm.Some?
  }

  lemma AppliedKeeps(p: Policy, s: ClientState, offer: KeyExchange)
    requires KeysMatch(s) && AcceptsOffer(p, s, offer)
    ensures var t := Applied(s, offer);
            && KeysMatch(t) && MeetsFloor(t) && t.kemFloor == s.kemFloor
            && (p.requireKem ==> offer.Kem? && t.dhKey == s.dhKey)
            && (p.hasPqCertificate && s.kemFloor.Some? && KemOnly(s) ==> offer.Kem? && KemOnly(t))
  {
  }

  lemma {:induction false} RetryIsAccepted(lib: Lib, p: Policy, s: ClientState, data: seq<TypedData>)
    ensures var r := RetryFor(lib, p, s, data);
            r.Ok? && r.value.Retry? ==> AcceptsOffer(p, s, r.value.exchange) && s.keyExchange != Some(r.value.exchange)
  {
    if data == [] || !data[0].kind.OtherKind? {
    } else {
      RetryIsAccepted(lib, p, s, data[1..]);
    }
  }

  /** What a step from `s` to `t` keeps; `byPeer` if the caller did not pick a group. */
  predicate Kept(p: Policy, s: ClientState, t: ClientState, byPeer: bool) {
    && KeysMatch(t) && MeetsFloor(t) && t.kemFloor == s.kemFloor
    && (p.requireKem && s.dhKey.None? ==> t.dhKey.None?)
    && (p.hasPqCertificate && s.kemFloor.Some? && KemOnly(s) && byPeer ==> KemOnly(t))
  }

  lemma HintKeeps(x: Setup, s: ClientState, der: Bytes)
    requires KeysMatch(s) && MeetsFloor(s)
    ensures Kept(x.Policy(), s, Step(x, s, Hint(der)), true)
  {
    hide ParsePkinitHint, Offers, AcceptsOffer;
    var p := x.Policy();
    var list := ParsePkinitHint(x.lib.algIds, der);
    if list.Ok? {
      var choice := FirstAccepted(p, s, Offers(p, list.value));
      if choice.Some? {
        AppliedKeeps(p, s, choice.value);
      }
    }
  }

  lemma TryagainKeeps(x: Setup, s: ClientState, data: seq<TypedData>)
    requires KeysMatch(s) && MeetsFloor(s)
    ensures Kept(x.Policy(), s, Step(x, s, Tryagain(data)), true)
  {
    hide RetryFor, AcceptsOffer;
    RetryIsAccepted(x.lib, x.Policy(), s, data);
    var r := RetryFor(x.lib, x.Policy(), s, data);
    if r.Ok? && r.value.Retry? {
      AppliedKeeps(x.Policy(), s, r.value.exchange);
    }
  }

  lemma RequestKeeps(x: Setup, s: ClientState, input: RequestInput)
    requires KeysMatch(s) && MeetsFloor(s)
    ensures Kept(x.Policy(), s, Step(x, s, Request(input)), true)
  {
    hide SealedRequest, RequestPack;
  }

  lemma ReplyKeeps(x: Setup, s: ClientState, e: Event)
    requires KeysMatch(s) && MeetsFloor(s) && e.Reply?
    ensures Kept(x.Policy(), s, Step(x, s, e), true)
  {
    hide KemReplyKey, DhReplyKey;
  }

  lemma StepKeeps(x: Setup, s: ClientState, e: Event)
    requires KeysMatch(s) && MeetsFloor(s)
    ensures Kept(x.Policy(), s, Step(x, s, e), !e.SetGroup?)
  {
    match e
    case SetGroup(g) =>
    case Hint(der) => HintKeeps(x, s, der);
    case Tryagain(data) => TryagainKeeps(x, s, data);
    case Request(input) => RequestKeeps(x, s, input);
    case Reply(rep, params, chain) => ReplyKeeps(x, s, e);
  }

  /* ----- Downgrade safety and key state, over every run ----- */

  ghost predicate NeverSetsGroup(events: seq<Event>) {
    forall i :: 0 <= i < |events| ==> !events[i].SetGroup?
  }

  /**
   Whatever the peer sends: the floor is the configured one, the selected KEM
   meets it, stored keys match the selection, `require_kem` rules out DH keys,
   and so does a post-quantum certificate with a floor, unless the caller
   itself switches to a group.
   */
  lemma {:induction false} DowngradeSafety(x: Setup, events: seq<Event>)
    ensures var s, p := After(x, events), x.Policy();
            && s.kemFloor == Floor(x.config) && MeetsFloor(s) && KeysMatch(s)
            && (p.requireKem ==> s.dhKey.None?)
            && (p.hasPqCertificate && Floor(x.config).Some? && NeverSetsGroup(events) ==> KemOnly(s))
  {
    if events == [] {
    } else {
      var before := events[..|events| - 1];
      DowngradeSafety(x, before);
      StepKeeps(x, After(x, before), events[|events| - 1]);
      hide Step;
    }
  }

  ghost predicate DhRuledOut(x: Setup, events: seq<Event>) {
    x.config.requireKem || (x.Policy().hasPqCertificate && Floor(x.config).Some? && NeverSetsGroup(events))
  }

  lemma AcceptedDhReplyUsesKey(x: Setup, s: ClientState, e: Event)
    requires e.Reply? && KeyFrom(x, s, e).Ok? && !IsKemRep(e.rep)
    ensures s.dhKey.Some?
  {
    hide VerifySignedData, DerivedFromDh;
  }

  /** Where DH is ruled out, no reply ever yields a key from a DH agreement. */
  lemma NoDhDerivedKey(x: Setup, events: seq<Event>, e: Event)
    requires DhRuledOut(x, events)
    requires e.Reply? && KeyFrom(x, After(x, events), e).Ok?
    ensures IsKemRep(e.rep)
  {
    DowngradeSafety(x, events);
    hide KeyFrom;
    if !IsKemRep(e.rep) {
      AcceptedDhReplyUsesKey(x, After(x, events), e);
    }
  }

  /** Where DH is ruled out, every request that is sent carries a KEM key at or above the floor. */
  lemma RequestsCarryKem(x: Setup, events: seq<Event>, input: RequestInput)
    requires DhRuledOut(x, events)
    requires Built(x.lib, x.Policy(), x.id, After(x, events), input).1.Ok?
    ensures var (t, req) := Built(x.lib, x.Policy(), x.id, After(x, events), input);
            && t.kemKey.Some? && t.dhKey.None?
            && Floor(x.config).Some? && Strength(t.kemKey.value.alg) >= Strength(Floor(x.config).value)
            && req == SealedRequest(x.lib, x.id, RequestPack(input, KemSpki(x.lib, t.kemKey.value), None, true))
  {
    DowngradeSafety(x, events);
    hide SealedRequest, RequestPack;
  }

  /* ----- Where keys come from, and how often they are used ----- */

  /** A request that generates the KEM key `k`. */
  ghost predicate GeneratesKem(x: Setup, s: ClientState, e: Event, k: KemKeyPair) {
    e.Request? && ReachesKeyGeneration(x.Policy(), s, e.input)
    && s.kemAlgorithm == Some(k.alg) && e.input.keyRandom == Some(k.secret)
  }

  /** A request that generates the DH key `k`. */
  ghost predicate GeneratesDh(x: Setup, s: ClientState, e: Event, k: DhKeyPair) {
    e.Request? && ReachesKeyGeneration(x.Policy(), s, e.input)
    && s.kemAlgorithm.None? && s.dhKey.None? && s.dhGroup == k.group && e.input.keyRandom == Some(k.secret)
  }

  predicate IsKemReply(e: Event) {
    e.Reply? && IsKemRep(e.rep)
  }

  lemma ByRequest(x: Setup, s: ClientState, e: Event, k: KemKeyPair)
    requires GeneratesKem(x, s, e, k)
    ensures e.Request?
  {
  }

  lemma GeneratedIsStored(x: Setup, s: ClientState, e: Event)
    ensures forall k :: GeneratesKem(x, s, e, k) ==> Step(x, s, e).kemKey == Some(k)
  {
    hide SealedRequest, RequestPack;
  }

  lemma KemKeyStep(x: Setup, s: ClientState, e: Event, k: KemKeyPair)
    requires Step(x, s, e).kemKey == Some(k)
    ensures GeneratesKem(x, s, e, k) || (s.kemKey == Some(k) && !IsKemReply(e))
  {
    hide SealedRequest, RequestPack, KemReplyKey, DhReplyKey;
  }

  lemma DhKeyStep(x: Setup, s: ClientState, e: Event, k: DhKeyPair)
    requires Step(x, s, e).dhKey == Some(k)
    ensures GeneratesDh(x, s, e, k) || (s.dhKey == Some(k) && !e.SetGroup?)
  {
    hide SealedRequest, RequestPack, KemReplyKey, DhReplyKey;
  }

  /** A stored KEM key was generated by a request; no key was generated and no KEM reply came since. */
  lemma {:induction false} KemKeyOrigin(x: Setup, events: seq<Event>, i: nat, k: KemKeyPair) returns (j: nat)
    requires i <= |events| && At(x, events, i).kemKey == Some(k)
    ensures j < i && GeneratesKem(x, At(x, events, j), events[j], k)
    ensures forall m :: j < m < i ==> !IsKemReply(events[m])
    ensures forall m, other :: j < m < i ==> !GeneratesKem(x, At(x, events, m), events[m], other)
    ensures forall m :: j < m <= i ==> At(x, events, m).kemKey == Some(k)
  {
    assert i > 0;
    AtStep(x, events, i - 1);
    KemKeyStep(x, At(x, events, i - 1), events[i - 1], k);
    GeneratedIsStored(x, At(x, events, i - 1), events[i - 1]);
    hide Step, GeneratesKem, At, IsKemReply;
    if GeneratesKem(x, At(x, events, i - 1), events[i - 1], k) {
      j := i - 1;
    } else {
      j := KemKeyOrigin(x, events, i - 1, k);
    }
  }

  /** A stored DH key was generated by a DH request, with no switch of group since. */
  lemma {:induction false} DhKeyOrigin(x: Setup, events: seq<Event>, i: nat, k: DhKeyPair) returns (j: nat)
    requires i <= |events| && At(x, events, i).dhKey == Some(k)
    ensures j < i && GeneratesDh(x, At(x, events, j), events[j], k)
    ensures forall m :: j < m < i ==> !events[m].SetGroup?
    ensures forall m :: j < m <= i ==> At(x, events, m).dhKey == Some(k)
  {
    assert i > 0;
    AtStep(x, events, i - 1);
    DhKeyStep(x, At(x, events, i - 1), events[i - 1], k);
    hide Step, GeneratesDh;
    if GeneratesDh(x, At(x, events, i - 1), events[i - 1], k) {
      j := i - 1;
    } else {
      j := DhKeyOrigin(x, events, i - 1, k);
    }
  }

  /** A reply that carries KDCKEMInfo signed by an acceptable KDC for this algorithm and nonce. */
  ghost predicate AnswersKem(x: Setup, e: Event, alg: KemAlgorithm)
    requires e.Reply?
  {
    exists v: VerifiedSignedData, info: KemInfo ::
      && DecodeKemRepContent(e.rep).Ok? && DecodeKemRepInfo(DecodeKemRepContent(e.rep).value).Ok?
      && VerifySignedData(x.lib.cms, DecodeKemRepInfo(DecodeKemRepContent(e.rep).value).value) == Ok(v)
      && v.contentType == KemKeyDataOid && e.chain(v.signerCert, v.allCerts).Ok?
      && (x.Policy().hasPqCertificate ==> IsPqSignatureOid(v.signerAlgorithm))
      && x.lib.decKemInfo(v.content) == Some(info)
      && info.kemAlgorithm == KemAlgId(alg) && info.kdfAlgorithm == AlgId(HkdfSha512Oid, None)
      && info.nonce == Some(EncodeNonce(e.params.nonce)) && info.serverNonce.None?
  }

  lemma AcceptedKemReply(x: Setup, e: Event, key: KemKeyPair)
    requires e.Reply? && KemReplyKey(x.lib, x.Policy(), key, e.rep, e.params, e.chain).Ok?
    ensures AnswersKem(x, e, key.alg)
  {
    hide VerifySignedData, PkinitKemKdf, DecodeKemRepContent, DecodeKemRepInfo;
    var signedData := DecodeKemRepInfo(DecodeKemRepContent(e.rep).value).value;
    var v := VerifySignedData(x.lib.cms, signedData).value;
    var info := x.lib.decKemInfo(v.content).value;
    NonceBijection(e.params.nonce, info.nonce.value);
  }

  lemma AcceptedKemReplySpends(x: Setup, s: ClientState, e: Event) returns (k: KemKeyPair)
    requires IsKemReply(e) && KeyFrom(x, s, e).Ok?
    ensures s.kemKey == Some(k) && AnswersKem(x, e, k.alg) && Step(x, s, e).kemKey.None?
  {
    hide KemReplyKey, DhReplyKey, AnswersKem;
    k := s.kemKey.value;
    AcceptedKemReply(x, e, k);
  }

  /**
   A KEM reply is accepted only in answer to the latest request that generated
   a KEM key, for that algorithm and the nonce that the caller gives for it,
   and only once.
   */
  lemma KemReplyAnswersLatestRequest(x: Setup, events: seq<Event>, i: nat) returns (j: nat, k: KemKeyPair)
    requires i < |events| && IsKemReply(events[i]) && KeyFrom(x, At(x, events, i), events[i]).Ok?
    ensures j < i && GeneratesKem(x, At(x, events, j), events[j], k)
    ensures forall m :: j < m < i ==> !IsKemReply(events[m])
    ensures forall m, other :: j < m < i ==> !GeneratesKem(x, At(x, events, m), events[m], other)
    ensures forall m :: j < m <= i ==> At(x, events, m).kemKey == Some(k)
    ensures At(x, events, i).keyExchange == Some(Kem(k.alg)) && AnswersKem(x, events[i], k.alg)
    ensures At(x, events, i + 1).kemKey.None?
  {
    k := AcceptedKemReplySpends(x, At(x, events, i), events[i]);
    AtStep(x, events, i);
    hide KeyFrom, Step, AnswersKem;
    j := KemKeyOrigin(x, events, i, k);
    DowngradeSafety(x, events[..i]);
  }

  /** Between two accepted KEM replies there is a request that generates a key. */
  lemma OneReplyPerKemKey(x: Setup, events: seq<Event>, a: nat, b: nat) returns (j: nat, k: KemKeyPair)
    requires a < b < |events| && IsKemReply(events[a]) && IsKemReply(events[b])
    requires KeyFrom(x, At(x, events, b), events[b]).Ok?
    ensures a < j < b && GeneratesKem(x, At(x, events, j), events[j], k)
  {
    k := AcceptedKemReplySpends(x, At(x, events, b), events[b]);
    hide After, At, KeyFrom, GeneratesKem;
    j := KemKeyOrigin(x, events, b, k);
    ByRequest(x, At(x, events, j), events[j], k);
  }

  /** What the key of an accepted DH reply is made from: the stored key, and the answer to the caller's nonce. */
  ghost predicate DerivesFrom(x: Setup, e: Event, dhNonce: Option<Bytes>, k: DhKeyPair, info: DhKeyInfo,
                              key: DerivedKey)
    requires e.Reply?
  {
    && x.lib.decPaRep(e.rep).Some? && x.lib.decPaRep(e.rep).value.DhInfo?
    && var rep := x.lib.decPaRep(e.rep).value;
    && Replies.AnswersDh(x.lib, e.chain, rep.signedData, e.params.nonce, info)
    && var secret := x.lib.dhDerive(k.group, k.secret, Spki(GroupAlgId(k.group), info.publicKey));
    && secret.Some? && Replies.DhDerivation(x.lib, secret.value, dhNonce, rep, e.rep, e.params, key)
  }

  lemma AcceptedDhReply(x: Setup, s: ClientState, e: Event) returns (k: DhKeyPair, info: DhKeyInfo)
    requires e.Reply? && !IsKemReply(e) && KeyFrom(x, s, e).Ok?
    ensures s.dhKey == Some(k) && DerivesFrom(x, e, s.dhNonce, k, info, KeyFrom(x, s, e).value)
  {
    hide Processed, Replies.AnswersDh, Replies.DhDerivation;
    var key := KeyFrom(x, s, e).value;
    Replies.ReplyExactly(x.lib, x.Policy(), s, e.rep, e.params, e.chain, key);
    var rep := x.lib.decPaRep(e.rep).value;
    var i: DhKeyInfo, own: DhKeyPair, secret: Bytes :|
      && Replies.AnswersDh(x.lib, e.chain, rep.signedData, e.params.nonce, i)
      && s.dhKey == Some(own)
      && x.lib.dhDerive(own.group, own.secret, Spki(GroupAlgId(own.group), i.publicKey)) == Some(secret)
      && Replies.DhDerivation(x.lib, secret, s.dhNonce, rep, e.rep, e.params, key);
    k, info := own, i;
  }

  /**
   A DH-derived key comes from a trusted message that answers the caller's
   nonce and from the key of an earlier DH request of that group; without such
   a request, no DH reply is accepted.
   */
  lemma DhReplyNeedsDhRequest(x: Setup, events: seq<Event>, i: nat) returns (j: nat, k: DhKeyPair, info: DhKeyInfo)
    requires i < |events| && events[i].Reply? && !IsKemReply(events[i])
    requires KeyFrom(x, At(x, events, i), events[i]).Ok?
    ensures j < i && GeneratesDh(x, At(x, events, j), events[j], k)
    ensures forall m :: j < m < i ==> !events[m].SetGroup?
    ensures At(x, events, i).dhKey == Some(k) && k.group == At(x, events, i).dhGroup
    ensures DerivesFrom(x, events[i], At(x, events, i).dhNonce, k, info, KeyFrom(x, At(x, events, i), events[i]).value)
  {
    k, info := AcceptedDhReply(x, At(x, events, i), events[i]);
    hide KeyFrom, DerivesFrom;
    j := DhKeyOrigin(x, events, i, k);
    DowngradeSafety(x, events[..i]);
  }

  /* ----- The commitment to a KEM, in the order the plugin makes the calls ----- */

  datatype PluginEvent =
    | HintThenRequest(der: Bytes, input: RequestInput)
    | RetryThenRequest(data: seq<TypedData>, input: RequestInput)
    | PluginReply(rep: Bytes, params: RepParams, chain: ChainCheck)

  /** A malformed hint is ignored; a retry is followed by a request at once. */
  function PluginStep(x: Setup, s: ClientState, e: PluginEvent): ClientState {
    match e
    case HintThenRequest(der, input) =>
      var after := if der == [] then Ok(s) else AfterHintBytes(x.lib, x.Policy(), s, der);
      if after.Ok? then Built(x.lib, x.Policy(), x.id, after.value, input).0
      else if after.error == Asn1 then Built(x.lib, x.Policy(), x.id, s, input).0
      else s
    case RetryThenRequest(data, input) =>
      var r := RetryFor(x.lib, x.Policy(), s, data);
      if r.Ok? && r.value.Retry? then Built(x.lib, x.Policy(), x.id, Applied(s, r.value.exchange), input).0 else s
    case PluginReply(rep, params, chain) => Processed(x.lib, x.Policy(), s, rep, params, chain).0
  }

  function PluginAfter(x: Setup, s: ClientState, events: seq<PluginEvent>): ClientState {
    if events == [] then s
    else PluginStep(x, PluginAfter(x, s, events[..|events| - 1]), events[|events| - 1])
  }

  predicate Committed(s: ClientState) {
    s.kemAlgorithm.Some? && s.keyExchange == Some(Kem(s.kemAlgorithm.value))
  }

  /** The call leads the client to another selection. */
  predicate ChangesSelection(x: Setup, s: ClientState, e: PluginEvent) {
    match e
    case HintThenRequest(der, input) =>
      der != [] && AfterHintBytes(x.lib, x.Policy(), s, der).Ok? && AfterHintBytes(x.lib, x.Policy(), s, der).value != s
    case RetryThenRequest(data, input) =>
      var r := RetryFor(x.lib, x.Policy(), s, data);
      r.Ok? && r.value.Retry?
    case PluginReply(_, _, _) => false
  }

  /** The request after a new selection gets as far as its record: the clock is read and the checksums are computed. */
  predicate RequestFollows(x: Setup, s: ClientState, e: PluginEvent) {
    ChangesSelection(x, s, e) ==> e.input.checksums.Some? && e.input.ctime.Some?
  }

  lemma RequestKeepsCommitment(x: Setup, s: ClientState, input: RequestInput)
    requires Committed(s)
    ensures var t := Built(x.lib, x.Policy(), x.id, s, input).0;
            Committed(t) && t.dhKey == s.dhKey && t.dhNonce == s.dhNonce
  {
    hide SealedRequest, RequestPack;
  }

  lemma RequestAfterSelection(x: Setup, s: ClientState, a: KemAlgorithm, input: RequestInput)
    ensures var t := Built(x.lib, x.Policy(), x.id, Applied(s, Kem(a)), input).0;
            && (Committed(t) <==> input.checksums.Some? && input.ctime.Some?)
            && t.dhKey == s.dhKey && t.dhNonce == s.dhNonce
  {
    hide SealedRequest, RequestPack;
  }

  lemma HintSelects(x: Setup, s: ClientState, der: Bytes)
    requires x.Policy().hasPqCertificate && Committed(s)
    ensures var after := AfterHintBytes(x.lib, x.Policy(), s, der);
            after.Ok? && after.value != s ==> exists a :: after.value == Applied(s, Kem(a))
  {
    hide ParsePkinitHint, Offers;
    var p := x.Policy();
    var list := ParsePkinitHint(x.lib.algIds, der);
    if list.Ok? {
      var choice := FirstAccepted(p, s, Offers(p, list.value));
      if choice.Some? {
        assert choice.value.Kem?;
        assert Applied(s, choice.value) == Applied(s, Kem(choice.value.alg));
      }
    }
  }

  lemma CommittedStep(x: Setup, s: ClientState, e: PluginEvent)
    requires x.Policy().hasPqCertificate && Committed(s)
    ensures var t := PluginStep(x, s, e);
            && (Committed(t) <==> RequestFollows(x, s, e))
            && t.dhKey == s.dhKey && t.dhNonce == s.dhNonce
  {
    hide Built, KemReplyKey, DhReplyKey, RetryFor, AfterHintBytes;
    match e
    case HintThenRequest(der, input) =>
      HintSelects(x, s, der);
      RequestKeepsCommitment(x, s, input);
      var after := AfterHintBytes(x.lib, x.Policy(), s, der);
      if ChangesSelection(x, s, e) {
        var a :| after.value == Applied(s, Kem(a));
        RequestAfterSelection(x, s, a, input);
      }
    case RetryThenRequest(data, input) =>
      RetryIsAccepted(x.lib, x.Policy(), s, data);
      var r := RetryFor(x.lib, x.Policy(), s, data);
      if r.Ok? && r.value.Retry? {
        assert r.value.exchange.Kem?;
        RequestAfterSelection(x, s, r.value.exchange.alg, input);
      }
    case PluginReply(rep, params, chain) =>
  }

  predicate EveryRequestFollows(x: Setup, s: ClientState, events: seq<PluginEvent>) {
    forall i :: 0 <= i < |events| ==> RequestFollows(x, PluginAfter(x, s, events[..i]), events[i])
  }

  /**
   Once a client with a post-quantum certificate has sent a KEM key, no hint
   and no typed data makes it generate a DH key or send a DH request, floor or
   no floor, as long as every new selection is followed by its request.
   `CommittedStep` says that this is exactly what each step needs.
   */
  lemma {:induction false} KemCommitment(x: Setup, s: ClientState, events: seq<PluginEvent>)
    requires x.Policy().hasPqCertificate && Committed(s)
    requires EveryRequestFollows(x, s, events)
    ensures var t := PluginAfter(x, s, events); Committed(t) && t.dhKey == s.dhKey && t.dhNonce == s.dhNonce
  {
    if events == [] {
    } else {
      var n := |events| - 1;
      var before := events[..n];
      forall i | 0 <= i < n
        ensures RequestFollows(x, PluginAfter(x, s, before[..i]), before[i])
      {
        assert before[..i] == events[..i];
      }
      KemCommitment(x, s, before);
      CommittedStep(x, PluginAfter(x, s, before), events[n]);
    }
  }

  lemma RetryChoiceOfOne(p: Policy, s: ClientState, id: AlgId, offer: KeyExchange)
    requires Recognize(p, id) == Some(offer) && s.keyExchange != Some(offer)
    ensures RetryChoice(p, s, [id])
         == if AcceptsOffer(p, s, offer) then Ok(offer)
            else if offer.Dh? then Err(DowngradeRejected)
            else Err(NoAcceptableKeyExchange)
  {
    hide Recognize, AcceptsOffer;
    assert Offers(p, [id]) == [offer] by {
      assert [id][1..] == [];
      assert Offers(p, [id][1..]) == [];
    }
    assert Without([offer], s.keyExchange) == [offer] by {
      assert [offer][1..] == [];
      assert Without([offer][1..], s.keyExchange) == [];
    }
    assert offer in [offer];
  }

  /**
   Why the request after each retry matters: selecting a KEM on a retry clears
   the record of the request, and before the next request a list of groups is
   then accepted that was refused before.
   */
  lemma CommitmentNeedsRequest(p: Policy, s: ClientState, a: KemAlgorithm, g: DhGroup)
    requires p.hasPqCertificate && !p.requireKem && s.kemFloor.None? && Committed(s)
    requires s.kemAlgorithm != Some(a) && (IsEc(g) || MinBits(g) >= p.dhMinBits)
    ensures RetryChoice(p, s, [GroupAlgId(g)]) == Err(DowngradeRejected)
    ensures RetryChoice(p, s, [KemAlgId(a)]) == Ok(Kem(a))
    ensures RetryChoice(p, Applied(s, Kem(a)), [GroupAlgId(g)]) == Ok(Dh(g))
  {
    GroupAlgIdRoundTrip(GroupAlgId(g), g, p.dhMinBits);
    RetryChoiceOfOne(p, s, GroupAlgId(g), Dh(g));
    RetryChoiceOfOne(p, s, KemAlgId(a), Kem(a));
    RetryChoiceOfOne(p, Applied(s, Kem(a)), GroupAlgId(g), Dh(g));
  }
}
