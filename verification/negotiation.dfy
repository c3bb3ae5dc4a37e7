/**
 The negotiation between this client and this KDC: what the KDC's lists do to
 the client's selection, and how many rejections it takes.
 */
module Negotiation {
  import opened Wrappers
  import opened Der
  import opened Algorithms
  import opened KemTypes
  import opened Cms
  import opened Suite
  import opened Client
  import opened Kdc
  import opened KdcAdmission
  import opened Requests
  import opened Selection

  /** The client implements the algorithm, as far as its minimum for MODP groups goes. */
  predicate Implements(p: Policy, x: KeyExchange) {
    x.Dh? ==> IsEc(x.group) || MinBits(x.group) >= p.dhMinBits
  }

  /** A KDC as constructed from a configuration that was read from a profile. */
  predicate ProperKdc(c: KdcConfig) {
    ReadConfig(c) && c == Normalized(c)
  }

  lemma RecognizeListed(p: Policy, x: KeyExchange)
    ensures Recognize(p, ExchangeAlgId(x)) == if Implements(p, x) then Some(x) else None
  {
    match x
    case Kem(a) =>
      assert KemFromOid(KemOid(a)) == Some(a);
    case Dh(g) =>
      assert KemFromOid(GroupAlgId(g).oid).None?;
      GroupAlgIdRoundTrip(GroupAlgId(g), g, p.dhMinBits);
      assert forall h :: GroupAlgId(g) == GroupAlgId(h) ==> g == h;
      var r := GroupFromAlgId(GroupAlgId(g), p.dhMinBits);
      if r.Some? {
        GroupAlgIdRoundTrip(GroupAlgId(g), r.value, p.dhMinBits);
      }
  }

  /** From a list of exchanges to identifiers and back: those the client implements, in order. */
  function Implemented(p: Policy, list: seq<KeyExchange>): seq<KeyExchange> {
    if list == [] then []
    else (if Implements(p, list[0]) then [list[0]] else []) + Implemented(p, list[1..])
  }

  lemma {:induction false} OffersOfList(p: Policy, list: seq<KeyExchange>)
    ensures Offers(p, AlgIdsOf(list)) == Implemented(p, list)
  {
    if list == [] {
    } else {
      RecognizeListed(p, list[0]);
      OffersOfList(p, list[1..]);
      assert AlgIdsOf(list)[1..] == AlgIdsOf(list[1..]);
    }
  }

  lemma {:induction false} ImplementedMembers(p: Policy, list: seq<KeyExchange>, x: KeyExchange)
    ensures x in Implemented(p, list) <==> x in list && Implements(p, x)
  {
    if list == [] {
    } else {
      ImplementedMembers(p, list[1..], x);
      assert list == [list[0]] + list[1..];
    }
  }

  lemma OffersOfKdc(p: Policy, c: KdcConfig, x: KeyExchange)
    ensures x in Offers(p, AcceptableAlgIds(c)) <==> x in Advertised(c) && Implements(p, x)
  {
    OffersOfList(p, Advertised(c));
    ImplementedMembers(p, Advertised(c), x);
  }

  /** Some advertised algorithm is implemented and meets the client's policy. */
  ghost predicate CommonGround(p: Policy, s: ClientState, c: KdcConfig) {
    exists x :: x in Advertised(c) && Implements(p, x) && AcceptsOffer(p, s, x)
  }

  /* ----- With a hint ----- */

  lemma HintOutcome(p: Policy, s: ClientState, c: KdcConfig)
    requires ProperKdc(c) && AcceptableAlgIds(c) != []
    ensures var after := AfterHint(p, s, AcceptableAlgIds(c));
            && (after.Ok? <==> CommonGround(p, s, c))
            && (after.Err? ==> after.error == NoAcceptableKeyExchange)
            && (after.Ok? ==> Selected(after.value) in Advertised(c) && AcceptsExchange(c, Selected(after.value)))
  {
    hide Advertised, AcceptableAlgIds, Offers, AcceptsExchange, AcceptsOffer, Implements;
    forall x
      ensures x in Offers(p, AcceptableAlgIds(c)) <==> x in Advertised(c) && Implements(p, x)
    {
      OffersOfKdc(p, c, x);
    }
    AdvertisedIsAccepted(c);
    var offers := Offers(p, AcceptableAlgIds(c));
    var choice := FirstAccepted(p, s, offers);
    if s.kemAlgorithm.Some? && Kem(s.kemAlgorithm.value) in offers {
      assert Selected(s) in offers;
    }
    if choice.Some? {
      assert Selected(Applied(s, choice.value)) == choice.value;
    }
  }

  /* ----- Without a hint ----- */

  /** The typed data the KDC attaches to a rejection of the key exchange. */
  function Rejection(td: Bytes): seq<TypedData> {
    [TypedData(DhParameters, td)]
  }

  /** The list that a KDC of this configuration was constructed with. */
  predicate IsListOf(lib: Lib, c: KdcConfig, td: Bytes) {
    lib.algIds.enc(AcceptableAlgIds(c)) == Some(td)
  }

  /**
   A rejected client either gives up, exactly when nothing advertised meets
   its policy, or retries with something the KDC accepts.
   */
  lemma RetryConverges(lib: Lib, p: Policy, s: ClientState, c: KdcConfig, td: Bytes)
    requires lib.CodecsInvert() && ProperKdc(c) && IsListOf(lib, c, td)
    requires s.keyExchange == Some(Selected(s)) && !AcceptsExchange(c, Selected(s))
    ensures var r := RetryFor(lib, p, s, Rejection(td));
            && (r.Ok? <==> CommonGround(p, s, c))
            && (r.Ok? ==> r.value.Retry? && AcceptsExchange(c, r.value.exchange)
                          && AcceptsOffer(p, s, r.value.exchange)
                          && Selected(Applied(s, r.value.exchange)) == r.value.exchange)
            && (r.Err? ==> r.error == DowngradeRejected || r.error == NoAcceptableKeyExchange)
  {
    hide Advertised, AcceptableAlgIds, Offers, AcceptsExchange, AcceptsOffer, Implements;
    forall x
      ensures x in Offers(p, AcceptableAlgIds(c)) <==> x in Advertised(c) && Implements(p, x)
    {
      OffersOfKdc(p, c, x);
    }
    AdvertisedIsAccepted(c);
    assert lib.algIds.dec(td) == Some(AcceptableAlgIds(c));
    var offers := Without(Offers(p, AcceptableAlgIds(c)), s.keyExchange);
    assert forall x :: x in offers <==> x in Offers(p, AcceptableAlgIds(c));
  }

  /* ----- The whole negotiation ----- */

  /** Both sides, the list the KDC was constructed with, and how far their clocks may differ. */
  datatype Setting = Setting(lib: Lib, trust: TrustChecks, p: Policy, id: Identity, c: KdcConfig, td: Bytes,
                             maxSkew: int)

  /** One request: what the client builds it from, and the request body and clock that the KDC checks it against. */
  datatype Round = Round(input: RequestInput, body: Option<Bytes>, now: int)

  /** Certificate and checksum checks report errors of their own, not that of a rejected key exchange. */
  ghost predicate OwnErrors(trust: TrustChecks) {
    && (forall cert, certs, crl ::
          var r := trust.validateChain(cert, certs, crl);
          r.Err? ==> ErrorClass(r.error) != EphemeralKeyParamsNotAccepted)
    && (forall cert, secondary ::
          var r := trust.clientEku(cert, secondary);
          r.Err? ==> ErrorClass(r.error) != EphemeralKeyParamsNotAccepted)
    && (forall body, checksum, checksum2 ::
          var r := trust.checksums(body, checksum, checksum2);
          r.Err? ==> ErrorClass(r.error) != EphemeralKeyParamsNotAccepted)
  }

  ghost predicate Lawful(x: Setting) {
    && x.lib.CodecsInvert() && x.lib.RecognizesGroups() && TagsDistinguish(x.lib.cms)
    && ProperClient(x.lib.cms, x.id) && OwnErrors(x.trust) && IsListOf(x.lib, x.c, x.td)
  }

  /** Failures of the client's own libraries and key material, as against its policy. */
  predicate IsLocal(e: PkinitError) {
    e == Ossl || e == Asn1 || e == KemEncapFailed || e == CmsSignFailed || e == IdentityLoadFailed
  }

  /** The client must use a KEM and has none selected. */
  predicate LacksKem(p: Policy, s: ClientState) {
    p.requireKem && s.kemAlgorithm.None?
  }

  lemma BuildFailure(lib: Lib, p: Policy, id: Identity, s: ClientState, inp: RequestInput)
    requires Built(lib, p, id, s, inp).1.Err?
    ensures var e := Built(lib, p, id, s, inp).1.error; IsLocal(e) || (e == DowngradeRejected && LacksKem(p, s))
  {
    hide RequestPack, SignedAttributes, Concat;
  }

  /**
   How a negotiation ends. `NotBuilt` is a failure to make a request at all,
   `Refused` a KDC error that has nothing to do with the key exchange.
   */
  datatype Outcome =
    | Agreed(exchange: KeyExchange, rejections: nat)
    | GivenUp(error: PkinitError, rejections: nat)
    | NotBuilt(error: PkinitError)
    | Refused(error: PkinitError)
    | StillGoing

  /** The KRB-ERROR's typed data: the list of what is taken, for a rejected key exchange only. */
  function ErrorData(td: Bytes, e: PkinitError): seq<TypedData> {
    if ErrorClass(e) == EphemeralKeyParamsNotAccepted then Rejection(td) else []
  }

  datatype RoundResult = Stopped(out: Outcome) | Retrying(next: ClientState)

  /** The client sends a request, the KDC verifies its bytes, and the client acts on the error's typed data. */
  function RoundOf(x: Setting, s: ClientState, round: Round): RoundResult {
    var (t, req) := Built(x.lib, x.p, x.id, s, round.input);
    if req.Err? then Stopped(NotBuilt(req.error))
    else
      var verdict := VerifyAsReq(x.lib, x.trust, x.c, req.value, round.body, x.maxSkew, round.now);
      if verdict.Ok? then Stopped(Agreed(verdict.value.keyExchange, 0))
      else
        var r := RetryFor(x.lib, x.p, t, ErrorData(x.td, verdict.error));
        if r.Err? then Stopped(GivenUp(r.error, 1))
        else if !r.value.Retry? then Stopped(Refused(verdict.error))
        else Retrying(Applied(t, r.value.exchange))
  }

  function OneMoreRejection(out: Outcome): Outcome {
    match out
    case Agreed(x, n) => Agreed(x, n + 1)
    case GivenUp(e, n) => GivenUp(e, n + 1)
    case _ => out
  }

  /** One round after the other, as long as the client retries. */
  function Negotiate(x: Setting, s: ClientState, rounds: seq<Round>): Outcome
    decreases |rounds|
  {
    if rounds == [] then StillGoing
    else
      match RoundOf(x, s, rounds[0])
      case Stopped(out) => out
      case Retrying(next) => OneMoreRejection(Negotiate(x, next, rounds[1..]))
  }

  /** The request, if it is built, stays below 4 GiB. */
  predicate RequestFits(x: Setting, s: ClientState, round: Round) {
    var req := Built(x.lib, x.p, x.id, s, round.input).1;
    req.Ok? ==> |req.value| < U32_LIMIT
  }

  /** So does every request that the negotiation gets to. */
  predicate Fits(x: Setting, s: ClientState, rounds: seq<Round>)
    decreases |rounds|
  {
    rounds != [] ==>
      && RequestFits(x, s, rounds[0])
      && var r := RoundOf(x, s, rounds[0]);
         r.Retrying? ==> Fits(x, r.next, rounds[1..])
  }

  /** The client's own steps work out, and the request is admissible, whatever its key exchange. */
  predicate Sends(x: Setting, s: ClientState, round: Round) {
    && Built(x.lib, x.p, x.id, s, round.input).1.Ok?
    && Admissible(x.trust, x.c, x.id, round.input, round.body, x.maxSkew, round.now)
  }

  /** So do those of every request that the negotiation gets to. */
  predicate GoesThrough(x: Setting, s: ClientState, rounds: seq<Round>)
    decreases |rounds|
  {
    rounds != [] ==>
      && Sends(x, s, rounds[0])
      && var r := RoundOf(x, s, rounds[0]);
         r.Retrying? ==> GoesThrough(x, r.next, rounds[1..])
  }

  /** The negotiation ended for a reason other than the KDC's choice of key exchanges. */
  predicate CutShort(p: Policy, s: ClientState, out: Outcome) {
    || (out.NotBuilt? && (IsLocal(out.error) || (out.error == DowngradeRejected && LacksKem(p, s))))
    || (out.Refused? && ErrorClass(out.error) != EphemeralKeyParamsNotAccepted)
  }

  lemma OpeningErrors(lib: CmsLib, trust: TrustChecks, c: KdcConfig, der: Bytes)
    requires OwnErrors(trust)
    ensures var r := OpenAuthPack(lib, trust, c, der);
            r.Err? ==> ErrorClass(r.error) != EphemeralKeyParamsNotAccepted
  {
    hide VerifySignedData, ExtractUnsignedContent, ExtractBareContent;
  }

  lemma ChecksumErrors(trust: TrustChecks, body: Bytes, checksum: Option<Bytes>, checksum2: Option<(Bytes, Oid)>)
    requires OwnErrors(trust)
    ensures var r := trust.checksums(body, checksum, checksum2);
            r.Err? ==> ErrorClass(r.error) != EphemeralKeyParamsNotAccepted
  {
  }

  lemma OtherErrors(x: Setting, req: Bytes, round: Round)
    requires OwnErrors(x.trust) && round.input.ctime.Some? && round.input.checksums.Some?
    ensures var r := OtherChecks(x.lib, x.trust, x.c, req, round.input, round.body, x.maxSkew, round.now);
            r.Err? ==> ErrorClass(r.error) != EphemeralKeyParamsNotAccepted
  {
    hide OpenAuthPack;
    if x.lib.decPaReq(req).Some? {
      OpeningErrors(x.lib.cms, x.trust, x.c, x.lib.decPaReq(req).value);
    }
    if round.body.Some? {
      var sums := round.input.checksums.value;
      ChecksumErrors(x.trust, round.body.value, Some(sums.0), Some((sums.1, Sha256Oid)));
    }
    hide OwnErrors;
  }

  lemma ErrorEnds(x: Setting, t: ClientState, e: PkinitError)
    ensures var r := RetryFor(x.lib, x.p, t, ErrorData(x.td, e));
            if ErrorClass(e) == EphemeralKeyParamsNotAccepted then
              r == RetryFor(x.lib, x.p, t, Rejection(x.td)) && (r.Ok? ==> r.value.Retry?)
            else r == Ok(NoRetry)
  {
    hide RetryChoice;
  }

  /**
   One round, exactly: unless the request is sent, the negotiation is cut
   short; a request that is sent is agreed on if the KDC takes its exchange,
   and otherwise the client acts on the KDC's list.
   */
  lemma RoundExactly(x: Setting, s: ClientState, round: Round)
    requires Lawful(x) && OwnGroup(s) && RequestFits(x, s, round)
    ensures var r := RoundOf(x, s, round);
            if !Sends(x, s, round) then r.Stopped? && CutShort(x.p, s, r.out)
            else if AcceptsExchange(x.c, Selected(s)) then r == Stopped(Agreed(Selected(s), 0))
            else
              var t := Built(x.lib, x.p, x.id, s, round.input).0;
              var retry := RetryFor(x.lib, x.p, t, Rejection(x.td));
              && (retry.Err? ==> r == Stopped(GivenUp(retry.error, 1)))
              && (retry.Ok? ==> retry.value.Retry? && r == Retrying(Applied(t, retry.value.exchange)))
  {
    var (t, req) := Built(x.lib, x.p, x.id, s, round.input);
    if req.Err? {
      BuildFailure(x.lib, x.p, x.id, s, round.input);
    } else {
      RequestDecision(x.lib, x.trust, x.p, x.id, s, round.input, x.c, round.body, x.maxSkew, round.now);
      OtherChecksExactly(x.lib, x.trust, x.p, x.id, s, round.input, x.c, round.body, x.maxSkew, round.now);
      OtherErrors(x, req.value, round);
      var verdict := VerifyAsReq(x.lib, x.trust, x.c, req.value, round.body, x.maxSkew, round.now);
      if verdict.Err? {
        ErrorEnds(x, t, verdict.error);
      }
    }
    hide Built, VerifyAsReq, OtherChecks, AcceptsExchange, RetryFor, Rejection, IsLocal, ErrorClass, Admissible, Lawful,
         Applied, ErrorData;
  }

  /** Acceptable offers depend on the floor and the latest request only. */
  lemma SameGround(p: Policy, s: ClientState, t: ClientState, c: KdcConfig)
    requires s.kemFloor == t.kemFloor && s.keyExchange == t.keyExchange
    ensures CommonGround(p, s, c) <==> CommonGround(p, t, c)
  {
    hide Advertised, Implements;
    assert forall x :: AcceptsOffer(p, s, x) <==> AcceptsOffer(p, t, x);
  }

  /** The state after the request is on its way, as far as offers are concerned. */
  function Sent(s: ClientState): ClientState {
    s.(keyExchange := Some(Selected(s)))
  }

  /**
   After a rejection the client gives up, or goes on with a selection that the
   KDC takes, as there is common ground or not.
   */
  lemma RejectedRound(x: Setting, s: ClientState, round: Round)
    requires Lawful(x) && ProperKdc(x.c) && OwnGroup(s) && RequestFits(x, s, round)
    requires Sends(x, s, round) && !AcceptsExchange(x.c, Selected(s))
    ensures var r := RoundOf(x, s, round);
            if CommonGround(x.p, Sent(s), x.c) then
              && r.Retrying? && AcceptsExchange(x.c, Selected(r.next))
              && OwnGroup(r.next) && !LacksKem(x.p, r.next)
            else
              r == Stopped(GivenUp(DowngradeRejected, 1)) || r == Stopped(GivenUp(NoAcceptableKeyExchange, 1))
  {
    RoundExactly(x, s, round);
    RequestCarries(x.lib, x.p, x.id, s, round.input);
    hide AcceptsExchange, RetryFor, CommonGround, Built, Rejection, RoundOf, CutShort, PresentsExchange, Admissible,
         IsListOf, ProperClient, OwnErrors;
    var t := Built(x.lib, x.p, x.id, s, round.input).0;
    SameGround(x.p, Sent(s), t, x.c);
    RetryConverges(x.lib, x.p, t, x.c, x.td);
  }

  lemma FirstFits(x: Setting, s: ClientState, rounds: seq<Round>)
    requires rounds != [] && Fits(x, s, rounds)
    ensures RequestFits(x, s, rounds[0])
  {
  }

  /** What one round settles. */
  lemma FirstRound(x: Setting, s: ClientState, rounds: seq<Round>)
    requires Lawful(x) && OwnGroup(s) && rounds != [] && Fits(x, s, rounds)
    ensures var out := Negotiate(x, s, rounds);
            && (!Sends(x, s, rounds[0]) ==> CutShort(x.p, s, out) && !GoesThrough(x, s, rounds))
            && (Sends(x, s, rounds[0]) && AcceptsExchange(x.c, Selected(s)) ==>
                  out == Agreed(Selected(s), 0) && GoesThrough(x, s, rounds))
            && (Sends(x, s, rounds[0]) && !AcceptsExchange(x.c, Selected(s)) ==> out != Agreed(Selected(s), 0))
  {
    hide Lawful, Sends, AcceptsExchange, RoundOf, CutShort, OwnGroup, RetryFor, Built, Rejection, Applied, RequestFits;
    FirstFits(x, s, rounds);
    RoundExactly(x, s, rounds[0]);
  }

  /** A retry with something the KDC takes is the end of it. */
  lemma SecondRound(x: Setting, s: ClientState, rounds: seq<Round>)
    requires Lawful(x) && |rounds| >= 2 && Fits(x, s, rounds) && Sends(x, s, rounds[0])
    requires var r := RoundOf(x, s, rounds[0]);
             && r.Retrying? && OwnGroup(r.next) && AcceptsExchange(x.c, Selected(r.next)) && !LacksKem(x.p, r.next)
    ensures var out := Negotiate(x, s, rounds);
            if GoesThrough(x, s, rounds) then out == Agreed(Selected(RoundOf(x, s, rounds[0]).next), 1)
            else CutShort(x.p, s, out)
  {
    hide Lawful, Sends, AcceptsExchange, RoundOf, OwnGroup, IsLocal, ErrorClass, RequestFits;
    FirstRound(x, RoundOf(x, s, rounds[0]).next, rounds[1..]);
  }

  /** A request that is sent is agreed on without any rejection exactly if the KDC takes its exchange. */
  lemma AcceptedAtOnce(x: Setting, s: ClientState, rounds: seq<Round>)
    requires Lawful(x) && OwnGroup(s) && rounds != [] && Fits(x, s, rounds)
    ensures var out := Negotiate(x, s, rounds);
            if Sends(x, s, rounds[0]) then out == Agreed(Selected(s), 0) <==> AcceptsExchange(x.c, Selected(s))
            else CutShort(x.p, s, out)
  {
    hide Lawful, Sends, AcceptsExchange, CutShort, OwnGroup, Fits, GoesThrough, Negotiate;
    FirstRound(x, s, rounds);
  }

  /**
   At most one rejection. If its requests go through, the client agrees with
   the KDC on its first choice if the KDC takes that, on something else the
   KDC takes if the two sides have anything in common, and gives up after that
   one rejection if they have not.
   */
  lemma AtMostOneRejection(x: Setting, s: ClientState, rounds: seq<Round>)
    requires Lawful(x) && ProperKdc(x.c) && OwnGroup(s) && |rounds| >= 2 && Fits(x, s, rounds)
    ensures var out := Negotiate(x, s, rounds);
            if !GoesThrough(x, s, rounds) then CutShort(x.p, s, out)
            else if AcceptsExchange(x.c, Selected(s)) then out == Agreed(Selected(s), 0)
            else if CommonGround(x.p, Sent(s), x.c) then
              out.Agreed? && out.rejections == 1 && AcceptsExchange(x.c, out.exchange)
            else out == GivenUp(DowngradeRejected, 1) || out == GivenUp(NoAcceptableKeyExchange, 1)
  {
    hide Lawful, Sends, AcceptsExchange, RoundOf, CommonGround, OwnGroup, ProperKdc, CutShort, RequestFits;
    FirstRound(x, s, rounds);
    if Sends(x, s, rounds[0]) && !AcceptsExchange(x.c, Selected(s)) {
      RejectedRound(x, s, rounds[0]);
      if RoundOf(x, s, rounds[0]).Retrying? {
        SecondRound(x, s, rounds);
      }
    }
  }

  lemma HintKeepsGroup(p: Policy, s: ClientState, advertised: seq<AlgId>)
    requires OwnGroup(s) && AfterHint(p, s, advertised).Ok?
    ensures OwnGroup(AfterHint(p, s, advertised).value)
  {
    hide Offers, AcceptsOffer;
  }

  /** A request after a hint that left the client a choice. */
  lemma HintedRequest(x: Setting, s: ClientState, rounds: seq<Round>)
    requires Lawful(x) && ProperKdc(x.c) && OwnGroup(s) && rounds != [] && AcceptableAlgIds(x.c) != []
    requires var after := AfterHint(x.p, s, AcceptableAlgIds(x.c)); after.Ok? ==> Fits(x, after.value, rounds)
    ensures var after := AfterHint(x.p, s, AcceptableAlgIds(x.c));
            && (after.Ok? <==> CommonGround(x.p, s, x.c))
            && (after.Err? ==> after.error == NoAcceptableKeyExchange)
            && (after.Ok? ==>
                  && Selected(after.value) in Advertised(x.c)
                  && var out := Negotiate(x, after.value, rounds);
                     if Sends(x, after.value, rounds[0]) then out == Agreed(Selected(after.value), 0)
                     else CutShort(x.p, after.value, out))
  {
    HintOutcome(x.p, s, x.c);
    var after := AfterHint(x.p, s, AcceptableAlgIds(x.c));
    if after.Ok? {
      HintKeepsGroup(x.p, s, AcceptableAlgIds(x.c));
      AcceptedAtOnce(x, after.value, rounds);
    }
    hide Advertised, AcceptableAlgIds, AfterHint, AcceptsExchange, Negotiate, CommonGround, CutShort, Sends, Lawful,
         OwnGroup;
  }

  /**
   After a non-empty hint the client either fails, exactly when the two sides
   have nothing in common, or its next request asks for something the KDC
   takes, and is agreed on if it is sent at all.
   */
  lemma HintConverges(x: Setting, s: ClientState, rounds: seq<Round>)
    requires Lawful(x) && ProperKdc(x.c) && OwnGroup(s) && rounds != []
    requires AcceptableAlgIds(x.c) != [] && |x.td| < U32_LIMIT - 6
    requires var after := AfterHint(x.p, s, AcceptableAlgIds(x.c)); after.Ok? ==> Fits(x, after.value, rounds)
    ensures var list := ParsePkinitHint(x.lib.algIds, HintDer(x.td));
            && list == Ok(AcceptableAlgIds(x.c))
            && var after := AfterHint(x.p, s, list.value);
               && (after.Ok? <==> CommonGround(x.p, s, x.c))
               && (after.Err? ==> after.error == NoAcceptableKeyExchange)
               && (after.Ok? ==>
                     && Selected(after.value) in Advertised(x.c)
                     && var out := Negotiate(x, after.value, rounds);
                        if Sends(x, after.value, rounds[0]) then out == Agreed(Selected(after.value), 0)
                        else CutShort(x.p, after.value, out))
  {
    HintRoundTrip(x.lib.algIds, AcceptableAlgIds(x.c), []);
    assert HintDer(x.td) + [] == HintDer(x.td);
    HintedRequest(x, s, rounds);
    hide HintDer, Advertised, AcceptableAlgIds, AfterHint, Negotiate, CommonGround, CutShort, Sends;
  }

  /* ----- What the order of the list does ----- */

  lemma {:induction false} FirstOfKems(p: Policy, s: ClientState, list: seq<KeyExchange>, m: nat)
    requires m <= |list| && forall i :: 0 <= i < m ==> list[i].Kem?
    requires exists i :: 0 <= i < m && AcceptsOffer(p, s, list[i])
    ensures var choice := FirstAccepted(p, s, Implemented(p, list)); choice.Some? && choice.value.Kem?
    decreases m
  {
    hide AcceptsOffer;
    var rest := Implemented(p, list[1..]);
    assert Implemented(p, list) == [list[0]] + rest;
    AcceptedCons(p, s, list[0], rest);
    if AcceptsOffer(p, s, list[0]) {
    } else {
      var i :| 0 <= i < m && AcceptsOffer(p, s, list[i]);
      assert list[1..][i - 1] == list[i];
      FirstOfKems(p, s, list[1..], m - 1);
    }
  }

  /**
   A client that takes some KEM on the list never comes to select a group by
   the hint: every KEM stands before every group.
   */
  lemma HintPrefersKem(p: Policy, s: ClientState, c: KdcConfig, a: KemAlgorithm)
    requires Kem(a) in Advertised(c) && AcceptsOffer(p, s, Kem(a))
    ensures var after := AfterHint(p, s, AcceptableAlgIds(c)); after.Ok? && after.value.kemAlgorithm.Some?
  {
    AdvertisedInOrder(c, 0);
    OffersOfList(p, Advertised(c));
    hide AcceptsOffer, Advertised, OfStrength, ByStrength, KemsOf, Implements;
    var list, m := Advertised(c), |c.kems| + |c.composites|;
    var i :| 0 <= i < |list| && list[i] == Kem(a);
    assert i < m;
    FirstOfKems(p, s, list, m);
  }

  /* ----- Configurations that match ----- */

  lemma StrongestOf(s: seq<KemAlgorithm>)
    requires MlKem1024 in s && forall a :: a in s ==> !IsComposite(a)
    ensures SortByStrength(s) != [] && SortByStrength(s)[0] == MlKem1024
  {
    var sorted := SortByStrength(s);
    SortByStrengthSorts(s, 0);
    hide SortByStrength, OfStrength;
    assert MlKem1024 in multiset(sorted);
    var i :| 0 <= i < |sorted| && sorted[i] == MlKem1024;
    assert i > 0 ==> Strength(sorted[0]) >= Strength(sorted[i]);
    assert sorted[0] in multiset(sorted);
    assert sorted[0] in s;
  }

  lemma HeadOfAdvertised(c: KdcConfig)
    requires SortByStrength(c.kems) != []
    ensures Advertised(c) != [] && Advertised(c)[0] == Kem(SortByStrength(c.kems)[0])
  {
    hide SortByStrength, AdvertisedGroups;
    assert KemExchanges(SortByStrength(c.kems))[0] == Kem(SortByStrength(c.kems)[0]);
  }

  /** The KDC is configured with pure ML-KEM up to the strongest. */
  predicate TakesStrongest(c: KdcConfig) {
    MlKem1024 in c.kems && forall a :: a in c.kems ==> !IsComposite(a)
  }

  /** The strongest pure ML-KEM then heads the list. */
  lemma StrongestFirst(c: KdcConfig)
    requires TakesStrongest(c)
    ensures Advertised(c) != [] && Advertised(c)[0] == Kem(MlKem1024)
  {
    StrongestOf(c.kems);
    HeadOfAdvertised(c);
  }

  lemma FirstOfferTaken(p: Policy, s: ClientState, list: seq<KeyExchange>, sent: Option<KeyExchange>)
    requires list != [] && Implements(p, list[0]) && AcceptsOffer(p, s, list[0]) && sent != Some(list[0])
    ensures FirstAccepted(p, s, Without(Offers(p, AlgIdsOf(list)), sent)) == Some(list[0])
  {
    OffersOfList(p, list);
    assert Implemented(p, list)[0] == list[0];
  }

  lemma RetryTakesFirst(lib: Lib, p: Policy, s: ClientState, c: KdcConfig, td: Bytes)
    requires lib.CodecsInvert() && IsListOf(lib, c, td) && Advertised(c) != []
    requires var first := Advertised(c)[0];
             Implements(p, first) && AcceptsOffer(p, s, first) && s.keyExchange != Some(first)
    ensures RetryFor(lib, p, s, Rejection(td)) == Ok(Retry(Advertised(c)[0]))
  {
    hide Advertised;
    assert lib.algIds.dec(td) == Some(AcceptableAlgIds(c));
    FirstOfferTaken(p, s, Advertised(c), s.keyExchange);
  }

  lemma RetryListsStrongest(x: Setting, t: ClientState, minimum: KemAlgorithm)
    requires Lawful(x) && TakesStrongest(x.c) && !AcceptsKem(x.c, minimum)
    requires t.keyExchange == Some(Kem(minimum)) && t.kemFloor == Some(minimum)
    ensures RetryFor(x.lib, x.p, t, Rejection(x.td)) == Ok(Retry(Kem(MlKem1024)))
  {
    hide Advertised, RetryFor;
    StrongestFirst(x.c);
    RetryTakesFirst(x.lib, x.p, t, x.c, x.td);
  }

  lemma SendsIsBuilt(x: Setting, s: ClientState, round: Round)
    requires Sends(x, s, round)
    ensures Built(x.lib, x.p, x.id, s, round.input).1.Ok?
  {
  }

  /** A KEM that is not taken is followed by the strongest pure ML-KEM. */
  lemma RetryWithStrongest(x: Setting, s: ClientState, minimum: KemAlgorithm, round: Round)
    requires Lawful(x) && OwnGroup(s) && RequestFits(x, s, round) && Sends(x, s, round)
    requires s.kemAlgorithm == Some(minimum) && s.kemFloor == Some(minimum)
    requires TakesStrongest(x.c) && !AcceptsKem(x.c, minimum)
    ensures var r := RoundOf(x, s, round);
            && r.Retrying? && Selected(r.next) == Kem(MlKem1024) && OwnGroup(r.next) && !LacksKem(x.p, r.next)
            && AcceptsExchange(x.c, Selected(r.next))
  {
    assert AcceptsExchange(x.c, Kem(MlKem1024)) && !AcceptsExchange(x.c, Selected(s));
    SendsIsBuilt(x, s, round);
    hide RetryFor, Built, RoundOf, RequestFits, PresentsExchange, Rejection, CutShort, Lawful, Sends, AcceptsExchange,
         AcceptsKem, TakesStrongest;
    RoundExactly(x, s, round);
    RequestCarries(x.lib, x.p, x.id, s, round.input);
    RetryListsStrongest(x, Built(x.lib, x.p, x.id, s, round.input).0, minimum);
  }

  lemma FromMinimum(x: Setting, s: ClientState, minimum: KemAlgorithm, rounds: seq<Round>)
    requires Lawful(x) && OwnGroup(s) && |rounds| >= 2 && Fits(x, s, rounds) && TakesStrongest(x.c)
    requires s.kemAlgorithm == Some(minimum) && s.kemFloor == Some(minimum)
    ensures var out := Negotiate(x, s, rounds);
            if !GoesThrough(x, s, rounds) then CutShort(x.p, s, out)
            else out == if AcceptsKem(x.c, minimum) then Agreed(Kem(minimum), 0) else Agreed(Kem(MlKem1024), 1)
  {
    assert AcceptsExchange(x.c, Selected(s)) <==> AcceptsKem(x.c, minimum);
    hide Lawful, Sends, RoundOf, OwnGroup, CutShort, Fits, GoesThrough, Negotiate, RequestFits, LacksKem, AcceptsKem,
         AcceptsExchange, TakesStrongest;
    FirstRound(x, s, rounds);
    if Sends(x, s, rounds[0]) && !AcceptsKem(x.c, minimum) {
      FirstFits(x, s, rounds);
      RetryWithStrongest(x, s, minimum, rounds[0]);
      SecondRound(x, s, rounds);
    }
  }

  lemma MinimumTakesStrongest(c: KdcConfig, minimum: KemAlgorithm)
    requires c.kems == AlgorithmsAtOrAbove(minimum)
    ensures TakesStrongest(c)
  {
  }

  /**
   The same KEM minimum on both sides always works: with any composites opted
   in on the KDC and `require_kem` set or not, requests that go through end in
   a KEM at or above the minimum after at most one rejection, even if the
   minimum is a composite the KDC does not take.
   */
  lemma MatchingKemMinimum(x: Setting, config: ClientConfig, minimum: KemAlgorithm, rounds: seq<Round>)
    requires Lawful(x) && |rounds| >= 2 && Fits(x, InitialState(config), rounds)
    requires config.kemAlgorithm == Some(minimum) && x.c.kems == AlgorithmsAtOrAbove(minimum)
    ensures var out := Negotiate(x, InitialState(config), rounds);
            if !GoesThrough(x, InitialState(config), rounds) then CutShort(x.p, InitialState(config), out)
            else out == if AcceptsKem(x.c, minimum) then Agreed(Kem(minimum), 0) else Agreed(Kem(MlKem1024), 1)
    ensures Strength(MlKem1024) >= Strength(minimum)
  {
    hide Negotiate, Fits, GoesThrough, CutShort, Lawful, TakesStrongest, AcceptsKem, AlgorithmsAtOrAbove;
    MinimumTakesStrongest(x.c, minimum);
    FromMinimum(x, InitialState(config), minimum, rounds);
  }

  /** The same with a hint: the first request already carries such a KEM, and is agreed on if it is sent. */
  lemma MatchingKemMinimumWithHint(x: Setting, config: ClientConfig, minimum: KemAlgorithm, rounds: seq<Round>)
    requires Lawful(x) && rounds != []
    requires config.kemAlgorithm == Some(minimum) && x.p.requireKem == config.requireKem
    requires x.c.kems == AlgorithmsAtOrAbove(minimum) && forall a :: a in x.c.composites ==> IsComposite(a)
    requires var after := AfterHint(x.p, InitialState(config), AcceptableAlgIds(x.c));
             after.Ok? ==> Fits(x, after.value, rounds)
    ensures var after := AfterHint(x.p, InitialState(config), AcceptableAlgIds(x.c));
            && after.Ok? && Selected(after.value).Kem?
            && Strength(Selected(after.value).alg) >= Strength(minimum)
            && var out := Negotiate(x, after.value, rounds);
               if Sends(x, after.value, rounds[0]) then out == Agreed(Selected(after.value), 0)
               else CutShort(x.p, after.value, out)
  {
    hide Advertised, AlgorithmsAtOrAbove, Offers, Negotiate, CutShort, Lawful, AcceptsExchange, Fits, Sends;
    var s := InitialState(config);
    assert TakesStrongest(x.c);
    StrongestFirst(x.c);
    FirstOfferTaken(x.p, s, Advertised(x.c), None);
    WithoutNothing(Offers(x.p, AcceptableAlgIds(x.c)));
    assert Strength(MlKem1024) >= Strength(minimum);
    assert MlKem1024 in x.c.kems && ProperKdc(x.c);
    HintedRequest(x, s, rounds);
  }
}
