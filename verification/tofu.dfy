/**
 Trust on first use, end to end: the client's validation of a KDC certificate,
 with the broker's pin store behind it.
 */
module Tofu {
  import opened Wrappers
  import opened Der
  import opened Strings
  import opened PinStore
  import opened PinHistory
  import opened BrokerRuns

  /** What the client knows when it validates a KDC: whether a broker is there, who the KDC is, and how it asks. */
  datatype KdcView = KdcView(
    brokerInstalled: bool,
    brokerReachable: bool,
    kdcPrincipal: Option<string>,
    kdcHostname: Option<string>,
    isAnonymous: bool)

  /** The configured anchors, and the EKU and SAN checks. */
  datatype Checks = Checks(
    configured: (Bytes, seq<Bytes>) -> Fallible<()>,
    kdcEku: Bytes -> Fallible<()>,
    kdcSan: (Bytes, string, Option<string>) -> Fallible<()>)

  /** The text between the first `@` and the next one. */
  function RealmOf(principal: string): Option<string> {
    var parts := SplitOn(principal, '@');
    if |parts| >= 2 then Some(parts[1]) else None
  }

  /** Broker-approved anchors must themselves validate the chain. */
  function ValidateBrokerAnchors(pki: Pki, now: u64, anchors: seq<Bytes>, signer: Bytes, presented: seq<Bytes>)
    : Fallible<()>
  {
    if (forall a :: a in anchors ==> pki.parses(a)) && (forall c :: c in presented ==> pki.parses(c))
       && pki.parses(signer) && pki.verify(anchors, signer, presented, now)
    then Ok(())
    else Err(KdcCaTrustDenied)
  }

  /** The checks that run whichever anchors validated. */
  function EkuAndSan(checks: Checks, v: KdcView, signer: Bytes): Fallible<()> {
    var _ :- checks.kdcEku(signer);
    if v.kdcPrincipal.Some? then checks.kdcSan(signer, v.kdcPrincipal.value, v.kdcHostname) else Ok(())
  }

  /** The realm a broker would be asked about, if there is one to ask and a realm to ask about. */
  function BrokerRealm(v: KdcView): Option<string> {
    if v.brokerInstalled && v.kdcPrincipal.Some? then RealmOf(v.kdcPrincipal.value) else None
  }

  /** The client's request: only an anonymous exchange may establish trust. */
  function BrokerCall(v: KdcView, realm: string, signer: Bytes, presented: seq<Bytes>, now: u64,
                      answer: Option<GrantTtl>, write: WriteOutcome): Call
  {
    Call(Request(realm, signer, presented, v.isAnonymous), now, answer, write)
  }

  function AfterBroker(pki: Pki, now: u64, reply: Reply, signer: Bytes, presented: seq<Bytes>): Fallible<()> {
    match reply
    case Trusted(anchors) => ValidateBrokerAnchors(pki, now, anchors, signer, presented)
    case Denied(_) => Err(KdcCaTrustDenied)
    case Unknown => Err(KdcCaTrustUnknown)
  }

  /** `validate_kdc_chain`: the broker's pins afterwards, and the verdict. */
  function Validated(pki: Pki, checks: Checks, v: KdcView, pins: Pins, signer: Bytes, presented: seq<Bytes>, now: u64,
                     answer: Option<GrantTtl>, write: WriteOutcome): (Pins, Fallible<()>)
  {
    var configured := checks.configured(signer, presented);
    if configured.Ok? then (pins, EkuAndSan(checks, v, signer))
    else if BrokerRealm(v).None? then (pins, configured)
    else if !v.brokerReachable then (pins, Err(Config))
    else
      var out := Decided(pki, pins, BrokerCall(v, BrokerRealm(v).value, signer, presented, now, answer, write));
      var anchored := AfterBroker(pki, now, out.reply, signer, presented);
      (out.pins, if anchored.Err? then anchored else EkuAndSan(checks, v, signer))
  }

  /** The broker is consulted: there is one, it answers, and the configured anchors do not validate. */
  predicate BrokerAsked(checks: Checks, v: KdcView, signer: Bytes, presented: seq<Bytes>) {
    checks.configured(signer, presented).Err? && BrokerRealm(v).Some? && v.brokerReachable
  }

  method ValidateKdcChain(pki: Pki, checks: Checks, v: KdcView, store: PinStore, signer: Bytes, presented: seq<Bytes>,
                          now: u64, answer: Option<GrantTtl>, write: WriteOutcome) returns (r: Fallible<()>)
    modifies store, store.file
    ensures (store.pins, r)
         == Validated(pki, checks, v, old(store.pins), signer, presented, now, answer, write)
    ensures store.file != null ==>
              store.file.content
              == if BrokerAsked(checks, v, signer, presented)
                    && Approves(pki, old(store.pins),
                                BrokerCall(v, BrokerRealm(v).value, signer, presented, now, answer, write))
                 then AfterWrite(store.pins, write) else old(store.file.content)
  {
    var configured := checks.configured(signer, presented);
    if configured.Err? {
      if !v.brokerInstalled || v.kdcPrincipal.None? {
        return configured;
      }
      var realm := RealmOf(v.kdcPrincipal.value);
      if realm.None? {
        return configured;
      }
      if !v.brokerReachable {
        return Err(Config);
      }
      var reply, _ := store.Decide(pki, BrokerCall(v, realm.value, signer, presented, now, answer, write));
      match reply {
        case Trusted(anchors) =>
          var _ :- ValidateBrokerAnchors(pki, now, anchors, signer, presented);
        case Denied(_) =>
          return Err(KdcCaTrustDenied);
        case Unknown =>
          return Err(KdcCaTrustUnknown);
      }
    }
    r := EkuAndSan(checks, v, signer);
  }

  /* ----- Exactly when a chain is accepted ----- */

  predicate IsCut(principal: string, name: string, realm: string, rest: string) {
    && '@' !in name && '@' !in realm && (rest == "" || rest[0] == '@')
    && principal == name + "@" + realm + rest
  }

  /** The realm of `name@REALM`: what stands between the first `@` and the next one, or the end. */
  ghost predicate NamesRealm(principal: string, realm: string) {
    exists name, rest :: IsCut(principal, name, realm, rest)
  }

  lemma SplitUncut(name: string)
    requires '@' !in name
    ensures SplitOn(name, '@') == [name]
  {
    SplitOnAppend("", name, '@');
    assert "" + name == name;
  }

  lemma ExtendBehind(first: string, parts: seq<string>, tail: string)
    requires parts != []
    ensures ExtendLast([first] + parts, tail) == [first] + ExtendLast(parts, tail)
  {
  }

  lemma {:induction false} SplitAtFirst(name: string, s: string)
    requires '@' !in name
    ensures SplitOn(name + "@" + s, '@') == [name] + SplitOn(s, '@')
    decreases |s|
  {
    hide SplitOn, ExtendLast;
    if s == "" {
      SplitUncut(name);
      SplitUncut("");
      SplitOnSnoc(name, '@', '@');
      assert name + "@" + s == name + ['@'];
    } else {
      var init, last := s[..|s| - 1], s[|s| - 1];
      SplitAtFirst(name, init);
      SplitOnSnoc(name + "@" + init, last, '@');
      SplitOnSnoc(init, last, '@');
      assert s == init + [last];
      assert name + "@" + s == (name + "@" + init) + [last];
      var front := SplitOn(init, '@');
      ExtendBehind(name, front, [last]);
      assert ([name] + front) + [""] == [name] + (front + [""]);
    }
  }

  lemma RealmOfNamed(name: string, realm: string, rest: string)
    requires '@' !in name && '@' !in realm && (rest == "" || rest[0] == '@')
    ensures RealmOf(name + "@" + realm + rest) == Some(realm)
  {
    assert name + "@" + realm + rest == name + "@" + (realm + rest);
    SplitAtFirst(name, realm + rest);
    if rest == "" {
      assert realm + rest == realm;
      SplitOnAppend("", realm, '@');
      assert "" + realm == realm;
    } else {
      assert realm + rest == realm + "@" + rest[1..];
      SplitAtFirst(realm, rest[1..]);
    }
  }

  /** The first `@` of a text, and the text around it. */
  lemma CutAtFirst(s: string) returns (name: string, rest: string)
    requires '@' in s
    ensures '@' !in name && s == name + "@" + rest
  {
    var i := 0;
    while s[i] != '@'
      invariant 0 <= i < |s| && '@' in s[i..] && '@' !in s[..i]
      decreases |s| - i
    {
      i := i + 1;
    }
    name, rest := s[..i], s[i + 1..];
  }

  lemma NamedAs(principal: string, name: string, realm: string, rest: string)
    requires IsCut(principal, name, realm, rest)
    ensures NamesRealm(principal, realm) && RealmOf(principal) == Some(realm)
  {
    RealmOfNamed(name, realm, rest);
  }

  lemma NoRealm(principal: string)
    requires '@' !in principal
    ensures RealmOf(principal).None?
  {
    SplitUncut(principal);
  }

  lemma RealmIsNamed(principal: string)
    requires RealmOf(principal).Some?
    ensures NamesRealm(principal, RealmOf(principal).value)
  {
    hide RealmOf, NamesRealm;
    if '@' in principal {
      var name, tail := CutAtFirst(principal);
      if '@' in tail {
        var r, rest := CutAtFirst(tail);
        assert principal == name + "@" + r + ("@" + rest);
        NamedAs(principal, name, r, "@" + rest);
      } else {
        assert principal == name + "@" + tail + "";
        NamedAs(principal, name, tail, "");
      }
    } else {
      NoRealm(principal);
    }
  }

  lemma RealmOfExactly(principal: string, realm: string)
    ensures RealmOf(principal) == Some(realm) <==> NamesRealm(principal, realm)
  {
    hide RealmOf;
    if NamesRealm(principal, realm) {
      var name, rest :| IsCut(principal, name, realm, rest);
      NamedAs(principal, name, realm, rest);
    }
    hide NamesRealm;
    if RealmOf(principal) == Some(realm) {
      RealmIsNamed(principal);
    }
  }

  /** There is a broker to ask about this realm. */
  ghost predicate CanAsk(v: KdcView, realm: string) {
    v.brokerInstalled && v.brokerReachable && v.kdcPrincipal.Some? && NamesRealm(v.kdcPrincipal.value, realm)
  }

  /** The chain validates to this anchor now, with all presented certificates at hand. */
  predicate PathTo(pki: Pki, now: u64, anchor: Bytes, signer: Bytes, presented: seq<Bytes>) {
    && pki.parses(anchor) && pki.parses(signer) && (forall c :: c in presented ==> pki.parses(c))
    && pki.verify([anchor], signer, presented, now)
  }

  /**
   The anchor is that of the realm's pin, which has not expired and whose
   fingerprint is the selected CA's; or there is no such pin, the exchange is
   anonymous, and the user has just approved the selected CA.
   */
  predicate IsAnchor(pki: Pki, v: KdcView, pins: Pins, realm: string, signer: Bytes, presented: seq<Bytes>, now: u64,
                     answer: Option<GrantTtl>, anchor: Bytes)
  {
    var ca := SelectedCa(pki, now, signer, presented);
    && ca.Some? && pki.sha256(ca.value).Some?
    && if HoldsPin(pins, realm, now) then
         anchor == pins[realm].ca && pins[realm].fingerprint == pki.sha256(ca.value).value
       else
         v.isAnonymous && answer.Some? && anchor == ca.value
  }

  /** EKU, and the SAN if the KDC's principal is known. */
  predicate IsKdc(checks: Checks, v: KdcView, signer: Bytes) {
    && checks.kdcEku(signer).Ok?
    && (v.kdcPrincipal.Some? ==> checks.kdcSan(signer, v.kdcPrincipal.value, v.kdcHostname).Ok?)
  }

  lemma BrokerAnswersExactly(pki: Pki, v: KdcView, pins: Pins, realm: string, signer: Bytes, presented: seq<Bytes>,
                             now: u64, answer: Option<GrantTtl>, write: WriteOutcome)
    ensures var reply := Decided(pki, pins, BrokerCall(v, realm, signer, presented, now, answer, write)).reply;
            AfterBroker(pki, now, reply, signer, presented).Ok? <==>
            exists anchor :: IsAnchor(pki, v, pins, realm, signer, presented, now, answer, anchor)
                             && PathTo(pki, now, anchor, signer, presented)
  {
    hide SelectedCa;
    var reply := Decided(pki, pins, BrokerCall(v, realm, signer, presented, now, answer, write)).reply;
    if reply.Trusted? {
      var anchor := reply.anchors[0];
      assert reply.anchors == [anchor];
      assert forall a :: a in reply.anchors <==> a == anchor;
      assert IsAnchor(pki, v, pins, realm, signer, presented, now, answer, anchor);
      assert forall a :: IsAnchor(pki, v, pins, realm, signer, presented, now, answer, a) ==> a == anchor;
    }
  }

  /**
   A chain is accepted, in anonymous and authenticated exchanges alike, exactly
   if its signer is a KDC by EKU and SAN and the chain validates: to the
   configured anchors, or to an anchor of the realm's that a broker stands for.
   */
  lemma AcceptedExactly(pki: Pki, checks: Checks, v: KdcView, pins: Pins, signer: Bytes, presented: seq<Bytes>,
                        now: u64, answer: Option<GrantTtl>, write: WriteOutcome)
    ensures Validated(pki, checks, v, pins, signer, presented, now, answer, write).1.Ok? <==>
            && IsKdc(checks, v, signer)
            && (checks.configured(signer, presented).Ok?
                || exists realm, anchor ::
                     && CanAsk(v, realm)
                     && IsAnchor(pki, v, pins, realm, signer, presented, now, answer, anchor)
                     && PathTo(pki, now, anchor, signer, presented))
  {
    hide IsAnchor, PathTo, NamesRealm, RealmOf, AfterBroker, Decided;
    if v.kdcPrincipal.Some? {
      forall realm
        ensures RealmOf(v.kdcPrincipal.value) == Some(realm) <==> NamesRealm(v.kdcPrincipal.value, realm)
      {
        RealmOfExactly(v.kdcPrincipal.value, realm);
      }
    }
    if BrokerRealm(v).Some? {
      BrokerAnswersExactly(pki, v, pins, BrokerRealm(v).value, signer, presented, now, answer, write);
    }
  }

  /** Why a chain is refused that the configured anchors do not validate. */
  lemma RefusedExactly(pki: Pki, checks: Checks, v: KdcView, pins: Pins, signer: Bytes, presented: seq<Bytes>,
                       now: u64, answer: Option<GrantTtl>, write: WriteOutcome)
    requires checks.configured(signer, presented).Err?
    ensures var (after, verdict) := Validated(pki, checks, v, pins, signer, presented, now, answer, write);
            && ((forall realm :: v.kdcPrincipal.Some? ==> !NamesRealm(v.kdcPrincipal.value, realm))
                || !v.brokerInstalled ==>
                  verdict == checks.configured(signer, presented) && after == pins)
            && (forall realm :: CanAsk(v.(brokerReachable := true), realm) && !v.brokerReachable ==>
                                  verdict == Err(Config) && after == pins)
            && (forall realm :: CanAsk(v, realm) ==>
                  var ca := SelectedCa(pki, now, signer, presented);
                  if ca.None? || pki.sha256(ca.value).None? then
                    verdict == Err(KdcCaTrustDenied) && after == pins
                  else if HoldsPin(pins, realm, now) then
                    after == pins
                    && (pins[realm].fingerprint != pki.sha256(ca.value).value ==> verdict == Err(KdcCaTrustDenied))
                  else
                    && (!v.isAnonymous ==> verdict == Err(KdcCaTrustUnknown) && after == pins - {realm})
                    && (v.isAnonymous && answer.None? ==> verdict == Err(KdcCaTrustDenied) && after == pins - {realm}))
  {
    hide NamesRealm, RealmOf, SelectedCa, ValidateBrokerAnchors;
    if v.kdcPrincipal.Some? {
      forall realm
        ensures RealmOf(v.kdcPrincipal.value) == Some(realm) <==> NamesRealm(v.kdcPrincipal.value, realm)
      {
        RealmOfExactly(v.kdcPrincipal.value, realm);
      }
    }
  }

  /** An anonymous exchange in which the user approves the selected CA pins it, for as long as the user said. */
  lemma ProbeGrants(pki: Pki, checks: Checks, v: KdcView, pins: Pins, realm: string, signer: Bytes,
                    presented: seq<Bytes>, now: u64, ttl: GrantTtl, write: WriteOutcome, ca: Bytes, fp: Bytes)
    requires v.isAnonymous && checks.configured(signer, presented).Err? && CanAsk(v, realm)
    requires !HoldsPin(pins, realm, now)
    requires SelectedCa(pki, now, signer, presented) == Some(ca) && pki.sha256(ca) == Some(fp)
    ensures var (after, verdict) := Validated(pki, checks, v, pins, signer, presented, now, Some(ttl), write);
            && after.Keys == pins.Keys + {realm} && (forall r :: r in pins && r != realm ==> after[r] == pins[r])
            && after[realm].ca == ca && after[realm].fingerprint == fp
            && (forall t: u64 :: HoldsPin(after, realm, t) <==> Covers(ttl, now, t))
            && (PathTo(pki, now, ca, signer, presented) && IsKdc(checks, v, signer) <==> verdict.Ok?)
  {
    AcceptedExactly(pki, checks, v, pins, signer, presented, now, Some(ttl), write);
    RealmOfExactly(v.kdcPrincipal.value, realm);
    hide SelectedCa, ValidateBrokerAnchors, NamesRealm, RealmOf, EkuAndSan, IsKdc, PathTo;
    forall other | CanAsk(v, other)
      ensures other == realm
    {
      RealmOfExactly(v.kdcPrincipal.value, other);
    }
  }

  /** An authenticated exchange adds no trust: whatever is pinned afterwards was pinned before. */
  lemma AuthenticatedAddsNoTrust(pki: Pki, checks: Checks, v: KdcView, pins: Pins, signer: Bytes, presented: seq<Bytes>,
                                 now: u64, answer: Option<GrantTtl>, write: WriteOutcome, realm: string)
    requires !v.isAnonymous
    ensures var after := Validated(pki, checks, v, pins, signer, presented, now, answer, write).0;
            realm in after ==> realm in pins && after[realm] == pins[realm]
  {
    hide SelectedCa, EkuAndSan, AfterBroker, BrokerRealm;
  }

  /** What justifies a broker's trust in a presented chain: an earlier, live, interactive approval of the realm. */
  ghost predicate EarlierApproval(pki: Pki, events: seq<Event>, realm: string, signer: Bytes, presented: seq<Bytes>,
                                  now: u64, pin: Pin)
  {
    && Granted(pki, events, realm, pin) && Live(pin, now)
    && SelectedCa(pki, now, signer, presented).Some?
    && pki.sha256(SelectedCa(pki, now, signer, presented).value) == Some(pin.fingerprint)
    && ValidateBrokerAnchors(pki, now, [pin.ca], signer, presented).Ok?
  }

  /**
   Whatever the broker was asked before, under any clock and with restarts
   anywhere: an authenticated exchange succeeds only with EKU and SAN in order,
   and with a chain that either the configured anchors validate or the CA of an
   earlier, unexpired, interactive approval of that realm does.
   */
  lemma AuthenticatedIsJustified(pki: Pki, checks: Checks, v: KdcView, events: seq<Event>, signer: Bytes,
                                 presented: seq<Bytes>, now: u64, answer: Option<GrantTtl>, write: WriteOutcome)
    requires !v.isAnonymous && WritesForgeNothing(pki, events)
    requires Validated(pki, checks, v, BrokerAfter(pki, events).memory, signer, presented, now, answer, write).1.Ok?
    ensures checks.kdcEku(signer).Ok?
    ensures v.kdcPrincipal.Some? ==> checks.kdcSan(signer, v.kdcPrincipal.value, v.kdcHostname).Ok?
    ensures checks.configured(signer, presented).Ok?
            || (BrokerRealm(v).Some?
                && exists pin :: EarlierApproval(pki, events, BrokerRealm(v).value, signer, presented, now, pin))
  {
    hide BrokerAfter, WritesForgeNothing, Granted, SelectedCa;
    if checks.configured(signer, presented).Err? {
      var realm := BrokerRealm(v).value;
      var c := BrokerCall(v, realm, signer, presented, now, answer, write);
      var pin := TrustedAcrossRestarts(pki, events, c);
      assert EarlierApproval(pki, events, realm, signer, presented, now, pin);
    }
  }

  /* ----- The broker's anchors and the client's own check ----- */

  ghost predicate InjectiveHash(pki: Pki) {
    forall a, b :: pki.sha256(a).Some? && pki.sha256(a) == pki.sha256(b) ==> a == b
  }

  /** More intermediates never break a path. */
  ghost predicate MonotonePaths(pki: Pki) {
    forall anchors, leaf, some, more, now ::
      pki.verify(anchors, leaf, some, now) && (forall c :: c in some ==> c in more) ==>
        pki.verify(anchors, leaf, more, now)
  }

  /** An eligible CA passes the client's check, which also counts the signer and the CA as intermediates. */
  lemma EligiblePassesClientCheck(pki: Pki, now: u64, ca: Bytes, signer: Bytes, presented: seq<Bytes>)
    requires MonotonePaths(pki) && ca in presented && Eligible(pki, now, ca, signer, presented)
    ensures ValidateBrokerAnchors(pki, now, [ca], signer, presented).Ok?
  {
    var some := Intermediates(presented, signer, ca);
    assert pki.verify([ca], signer, some, now);
    assert forall c :: c in some ==> c in presented;
    forall c | c in presented
      ensures pki.parses(c)
    {
      assert c == signer || c == ca || c in some;
    }
  }

  lemma PinsAreHashed(pki: Pki, events: seq<Event>, c: Call, pin: Pin)
    requires || Grants(pki, BrokerAfter(pki, events).memory, c, c.request.realm, pin)
             || Granted(pki, events, c.request.realm, pin)
    ensures pki.sha256(pin.ca) == Some(pin.fingerprint)
  {
    hide BrokerAfter, Decided;
  }

  /**
   Of the broker as it runs, under any clock and with restarts anywhere: the
   anchor of a trusted reply is the selected CA itself, and it passes the
   client's own check.
   */
  lemma TrustedAnchorValidates(pki: Pki, events: seq<Event>, c: Call)
    requires InjectiveHash(pki) && MonotonePaths(pki) && WritesForgeNothing(pki, events)
    requires Decided(pki, BrokerAfter(pki, events).memory, c).reply.Trusted?
    ensures var r := c.request;
            var ca := SelectedCa(pki, c.now, r.signer, r.presented);
            var reply := Decided(pki, BrokerAfter(pki, events).memory, c).reply;
            && ca.Some? && reply == Trusted([ca.value])
            && AfterBroker(pki, c.now, reply, r.signer, r.presented).Ok?
  {
    var r := c.request;
    var pin := TrustedAcrossRestarts(pki, events, c);
    var ca := SelectedCa(pki, c.now, r.signer, r.presented).value;
    assert pki.sha256(pin.ca) == pki.sha256(ca) by {
      PinsAreHashed(pki, events, c, pin);
    }
    hide BrokerAfter, Decided, WritesForgeNothing;
    SelectedIsEligible(pki, c.now, r.signer, r.presented, |r.presented|);
    EligiblePassesClientCheck(pki, c.now, ca, r.signer, r.presented);
  }

  /** From event `i` to event `m`, the realm is asked about only within the lifetime of the grant. */
  predicate AskedWhileCovered(events: seq<Event>, i: nat, m: nat, realm: string, ttl: GrantTtl, granted: u64)
    requires m <= |events|
  {
    forall k :: i <= k < m && events[k].Ask? && events[k].call.request.realm == realm ==>
                  Covers(ttl, granted, events[k].call.now)
  }

  /** An anonymous exchange that reached the broker as event `i`, in which the user approved this CA. */
  ghost predicate Approved(pki: Pki, events: seq<Event>, i: nat, v: KdcView, realm: string, signer: Bytes,
                           presented: seq<Bytes>, granted: u64, ttl: GrantTtl, ca: Bytes)
  {
    && i < |events| && v.isAnonymous && CanAsk(v, realm)
    && (exists write :: events[i] == Ask(BrokerCall(v, realm, signer, presented, granted, Some(ttl), write)))
    && !HoldsPin(BrokerAt(pki, events, i).memory, realm, granted)
    && SelectedCa(pki, granted, signer, presented) == Some(ca) && pki.sha256(ca).Some?
  }

  lemma ApprovedIsGranted(pki: Pki, events: seq<Event>, i: nat, v: KdcView, realm: string, signer: Bytes,
                          presented: seq<Bytes>, granted: u64, ttl: GrantTtl, ca: Bytes) returns (pin: Pin)
    requires Approved(pki, events, i, v, realm, signer, presented, granted, ttl, ca)
    ensures GrantedAt(pki, events, i, realm, pin) && pin.ca == ca
    ensures forall t: u64 :: Live(pin, t) <==> Covers(ttl, granted, t)
  {
    hide SelectedCa, NamesRealm, BrokerAt;
    pin := Pin(ca, pki.sha256(ca).value, ExpiresAt(ttl, granted));
  }

  /** From a grant of the realm, with restarts anywhere, to an authenticated exchange while it lasts. */
  lemma GrantedThenTrusted(pki: Pki, checks: Checks, v: KdcView, events: seq<Event>, i: nat, pin: Pin, signer: Bytes,
                           presented: seq<Bytes>, now: u64, answer: Option<GrantTtl>, write: WriteOutcome)
    requires InjectiveHash(pki) && MonotonePaths(pki) && WritesSucceed(events)
    requires !v.isAnonymous && v.brokerReachable && BrokerRealm(v).Some?
    requires GrantedAt(pki, events, i, BrokerRealm(v).value, pin) && Live(pin, now)
    requires EventsWhileLive(events, i + 1, |events|, BrokerRealm(v).value, pin)
    requires SelectedCa(pki, now, signer, presented) == Some(pin.ca)
    requires checks.configured(signer, presented).Err?
    ensures var pins := BrokerAfter(pki, events).memory;
            Validated(pki, checks, v, pins, signer, presented, now, answer, write)
            == (pins, EkuAndSan(checks, v, signer))
  {
    var realm := BrokerRealm(v).value;
    var c := BrokerCall(v, realm, signer, presented, now, answer, write);
    assert events[..|events|] == events;
    BrokerPinStays(pki, events, i, |events|, realm, pin);
    SuccessForgesNothing(pki, events);
    var pins := BrokerAfter(pki, events).memory;
    assert pki.sha256(pin.ca) == Some(pin.fingerprint);
    hide BrokerAfter, WritesForgeNothing, WritesSucceed, GrantedAt, EventsWhileLive, SelectedCa;
    LivePinDecides(pki, pins, c, realm);
    TrustedAnchorValidates(pki, events, c);
  }

  /**
   First use, then use: after an anonymous exchange whose CA the user approved,
   an authenticated exchange presenting that CA succeeds without asking
   anybody, as long as the grant lasts, whatever the broker is asked in
   between, however often it is restarted, and whatever the clock does, if the
   realm is not asked about after the expiry. Only EKU and SAN remain.
   */
  lemma ApprovedThenTrusted(pki: Pki, checks: Checks, v: KdcView, realm: string, events: seq<Event>, i: nat,
                            probe: KdcView, probeSigner: Bytes, probePresented: seq<Bytes>, granted: u64, ttl: GrantTtl,
                            ca: Bytes, signer: Bytes, presented: seq<Bytes>, now: u64, answer: Option<GrantTtl>,
                            write: WriteOutcome)
    requires InjectiveHash(pki) && MonotonePaths(pki) && WritesSucceed(events)
    requires Approved(pki, events, i, probe, realm, probeSigner, probePresented, granted, ttl, ca)
    requires Covers(ttl, granted, now) && AskedWhileCovered(events, i + 1, |events|, realm, ttl, granted)
    requires !v.isAnonymous && CanAsk(v, realm)
    requires SelectedCa(pki, now, signer, presented) == Some(ca) && checks.configured(signer, presented).Err?
    ensures var pins := BrokerAfter(pki, events).memory;
            var (after, verdict) := Validated(pki, checks, v, pins, signer, presented, now, answer, write);
            && after == pins && verdict == EkuAndSan(checks, v, signer)
            && (verdict.Ok? <==> IsKdc(checks, v, signer))
  {
    var pin := ApprovedIsGranted(pki, events, i, probe, realm, probeSigner, probePresented, granted, ttl, ca);
    RealmOfExactly(v.kdcPrincipal.value, realm);
    hide Approved, SelectedCa, NamesRealm, RealmOf, BrokerAfter, GrantedAt, Covers, Live, WritesSucceed, Validated;
    GrantedThenTrusted(pki, checks, v, events, i, pin, signer, presented, now, answer, write);
  }
}
