/** Histories of the pin store: where trust comes from, and how long it lasts. */
module PinHistory {
  import opened Wrappers
  import opened Der
  import opened PinStore

  function PinsAfter(pki: Pki, start: Pins, calls: seq<Call>): Pins {
    if calls == [] then start
    else Decided(pki, PinsAfter(pki, start, calls[..|calls| - 1]), calls[|calls| - 1]).pins
  }

  /** The pins that call number `i` meets. */
  function At(pki: Pki, start: Pins, calls: seq<Call>, i: nat): Pins
    requires i <= |calls|
  {
    PinsAfter(pki, start, calls[..i])
  }

  lemma AtStep(pki: Pki, start: Pins, calls: seq<Call>, i: nat)
    requires i < |calls|
    ensures At(pki, start, calls, i + 1) == Decided(pki, At(pki, start, calls, i), calls[i]).pins
  {
    assert calls[..i + 1][..i] == calls[..i];
  }

  /* ----- Every trusted reply goes back to an approval ----- */

  /** The pin that an approval of call `c` makes. */
  predicate Grants(pki: Pki, pins: Pins, c: Call, realm: string, pin: Pin) {
    && Approves(pki, pins, c) && c.request.interactive && c.request.realm == realm
    && SelectedCa(pki, c.now, c.request.signer, c.request.presented) == Some(pin.ca)
    && pki.sha256(pin.ca) == Some(pin.fingerprint)
    && pin.expiresAt == ExpiresAt(c.answer.value, c.now)
  }

  lemma PinStep(pki: Pki, pins: Pins, c: Call, realm: string)
    requires realm in Decided(pki, pins, c).pins
    ensures var pin := Decided(pki, pins, c).pins[realm];
            Grants(pki, pins, c, realm, pin) || (realm in pins && pins[realm] == pin)
  {
  }

  /** A pin goes back to the latest approval of its realm, and has been there since. */
  lemma {:induction false} PinOrigin(pki: Pki, calls: seq<Call>, i: nat, realm: string) returns (j: nat)
    requires i <= |calls| && realm in At(pki, map[], calls, i)
    ensures j < i && Grants(pki, At(pki, map[], calls, j), calls[j], realm, At(pki, map[], calls, i)[realm])
    ensures forall m :: j < m <= i ==> realm in At(pki, map[], calls, m)
                                       && At(pki, map[], calls, m)[realm] == At(pki, map[], calls, i)[realm]
  {
    assert i > 0;
    AtStep(pki, map[], calls, i - 1);
    PinStep(pki, At(pki, map[], calls, i - 1), calls[i - 1], realm);
    var pin := At(pki, map[], calls, i)[realm];
    hide Grants, Decided;
    if Grants(pki, At(pki, map[], calls, i - 1), calls[i - 1], realm, pin) {
      j := i - 1;
    } else {
      j := PinOrigin(pki, calls, i - 1, realm);
    }
  }

  /**
   From an empty store, a trusted reply hands out the CA of an interactive
   approval of that realm, with the fingerprint of the CA now presented: made
   in this very call, or earlier and not expired.
   */
  lemma TrustedIsJustified(pki: Pki, calls: seq<Call>, i: nat) returns (j: nat, pin: Pin)
    requires i < |calls| && Decided(pki, At(pki, map[], calls, i), calls[i]).reply.Trusted?
    ensures j <= i && Grants(pki, At(pki, map[], calls, j), calls[j], calls[i].request.realm, pin)
    ensures Decided(pki, At(pki, map[], calls, i), calls[i]).reply == Trusted([pin.ca])
    ensures SelectedCa(pki, calls[i].now, calls[i].request.signer, calls[i].request.presented).Some?
            && pki.sha256(SelectedCa(pki, calls[i].now, calls[i].request.signer, calls[i].request.presented).value)
               == Some(pin.fingerprint)
    ensures j < i ==> Live(pin, calls[i].now)
    ensures j == i ==> calls[i].request.interactive
    ensures forall m :: j < m <= i ==> calls[i].request.realm in At(pki, map[], calls, m)
                                       && At(pki, map[], calls, m)[calls[i].request.realm] == pin
  {
    var pins, c := At(pki, map[], calls, i), calls[i];
    if Approves(pki, pins, c) {
      j := i;
      pin := Decided(pki, pins, c).pins[c.request.realm];
    } else {
      pin := pins[c.request.realm];
      j := PinOrigin(pki, calls, i, c.request.realm);
    }
  }

  /* ----- A live pin is not replaced ----- */

  /** While a pin is live, requests for its realm are decided by it alone, and nobody is asked. */
  lemma LivePinDecides(pki: Pki, pins: Pins, c: Call, realm: string)
    requires realm in pins && Live(pins[realm], c.now)
    ensures var out := Decided(pki, pins, c);
            && realm in out.pins && out.pins[realm] == pins[realm]
            && (c.request.realm == realm ==>
                  && !out.prompted && out.pins == pins
                  && var ca := SelectedCa(pki, c.now, c.request.signer, c.request.presented);
                  && (ca.None? ==> out.reply == Denied(NoValidCa))
                  && (ca.Some? && pki.sha256(ca.value).Some? ==>
                        out.reply == if pki.sha256(ca.value).value == pins[realm].fingerprint
                                     then Trusted([pins[realm].ca]) else Denied(CaChanged)))
  {
  }

  /** A request leaves the pins of other realms alone. */
  lemma OthersKept(pki: Pki, pins: Pins, c: Call, k: string)
    requires k != c.request.realm
    ensures var after := Decided(pki, pins, c).pins;
            (k in after <==> k in pins) && (k in pins ==> after[k] == pins[k])
  {
    hide SelectedCa;
  }

  /** A pin for the realm that has not expired. */
  predicate HoldsPin(pins: Pins, realm: string, now: u64) {
    realm in pins && (pins[realm].expiresAt.None? || now < pins[realm].expiresAt.value)
  }

  /**
   Without a live pin: only an interactive request asks the user, only a yes
   leaves a pin, and whatever pin the realm had is gone.
   */
  lemma NoLivePinDecides(pki: Pki, pins: Pins, c: Call, ca: Bytes, fp: Bytes)
    requires !HoldsPin(pins, c.request.realm, c.now)
    requires SelectedCa(pki, c.now, c.request.signer, c.request.presented) == Some(ca) && pki.sha256(ca) == Some(fp)
    ensures var out := Decided(pki, pins, c);
            && out.prompted == c.request.interactive
            && (!c.request.interactive ==> out.reply == Unknown && c.request.realm !in out.pins)
            && (c.request.interactive && c.answer.None? ==>
                  out.reply == Denied(UserDeclined) && c.request.realm !in out.pins)
            && (c.request.interactive && c.answer.Some? ==>
                  && out.reply == Trusted([ca])
                  && c.request.realm in out.pins
                  && out.pins[c.request.realm].ca == ca && out.pins[c.request.realm].fingerprint == fp)
  {
  }

  /** The time is within the lifetime of a grant made at `now`; no clock shows more than the last second. */
  predicate Covers(ttl: GrantTtl, now: u64, t: u64) {
    match ttl
    case Forever => true
    case For(d) => t < now + d && t < U64_MAX
  }

  /**
   A grant lasts exactly as long as the user said: a later request that
   presents the approved CA, with nobody to ask, is trusted while the lifetime
   runs and unknown afterwards, and the realm is listed just as long.
   */
  lemma GrantLasts(pki: Pki, pins: Pins, approval: Call, later: Call)
    requires Approves(pki, pins, approval)
    requires later.request.realm == approval.request.realm && !later.request.interactive
    requires SelectedCa(pki, later.now, later.request.signer, later.request.presented)
          == SelectedCa(pki, approval.now, approval.request.signer, approval.request.presented)
    ensures var after := Decided(pki, pins, approval).pins;
            var ca := SelectedCa(pki, approval.now, approval.request.signer, approval.request.presented);
            var covered := Covers(approval.answer.value, approval.now, later.now);
            && ca.Some?
            && Decided(pki, after, later).reply == (if covered then Trusted([ca.value]) else Unknown)
            && (approval.request.realm in LivePart(after, later.now) <==> covered)
  {
    hide SelectedCa;
  }

  /** From call `i` to call `m`, the realm is asked about only while the pin is live. */
  predicate AskedWhileLive(calls: seq<Call>, i: nat, m: nat, realm: string, pin: Pin)
    requires m <= |calls|
  {
    forall k :: i <= k < m && calls[k].request.realm == realm ==> Live(pin, calls[k].now)
  }

  /** A pin stays as long as its realm is not asked about after the expiry, whatever the clock does. */
  lemma {:induction false} LivePinStays(pki: Pki, start: Pins, calls: seq<Call>, i: nat, m: nat, realm: string)
    requires i <= m <= |calls| && realm in At(pki, start, calls, i)
    requires AskedWhileLive(calls, i, m, realm, At(pki, start, calls, i)[realm])
    ensures realm in At(pki, start, calls, m) && At(pki, start, calls, m)[realm] == At(pki, start, calls, i)[realm]
    decreases m
  {
    if m == i {
    } else {
      LivePinStays(pki, start, calls, i, m - 1, realm);
      AtStep(pki, start, calls, m - 1);
      if calls[m - 1].request.realm == realm {
        LivePinDecides(pki, At(pki, start, calls, m - 1), calls[m - 1], realm);
      } else {
        OthersKept(pki, At(pki, start, calls, m - 1), calls[m - 1], realm);
      }
    }
  }

  /** A clock set back past an expiry does not bring the pin back: it was forgotten in between. */
  lemma ClockSetBackForgets(pki: Pki, realm: string, pin: Pin, late: Call, early: Call)
    requires pin.expiresAt.Some? && early.now < pin.expiresAt.value <= late.now
    requires late.request.realm == early.request.realm == realm
    requires !late.request.interactive && !early.request.interactive
    requires forall c :: c in {late, early} ==>
               SelectedCa(pki, c.now, c.request.signer, c.request.presented) == Some(pin.ca)
    requires pki.sha256(pin.ca) == Some(pin.fingerprint)
    ensures Decided(pki, map[realm := pin], early).reply == Trusted([pin.ca])
    ensures Decided(pki, Decided(pki, map[realm := pin], late).pins, early).reply == Unknown
  {
    assert late in {late, early} && early in {late, early};
  }

  /* ----- The listing ----- */

  /** A realm is listed exactly if a request that presents the pinned CA is trusted without asking. */
  lemma ListingAgrees(pki: Pki, pins: Pins, c: Call)
    requires !c.request.interactive
    requires var ca := SelectedCa(pki, c.now, c.request.signer, c.request.presented);
             ca.Some? && pki.sha256(ca.value).Some?
    ensures var realm := c.request.realm;
            var fp := pki.sha256(SelectedCa(pki, c.now, c.request.signer, c.request.presented).value).value;
            var listed := LivePart(pins, c.now);
            var reply := Decided(pki, pins, c).reply;
            && (reply.Trusted? <==> realm in listed && listed[realm].fingerprint == fp)
            && (reply == Denied(CaChanged) <==> realm in listed && listed[realm].fingerprint != fp)
            && (reply == Unknown <==> realm !in listed)
            && (reply.Trusted? ==> reply.anchors == [listed[realm].ca])
  {
  }

  /** A decision looks at the pin of its own realm only. */
  lemma DecidedByOwnPin(pki: Pki, p: Pins, q: Pins, c: Call)
    requires c.request.realm in p <==> c.request.realm in q
    requires c.request.realm in p ==> p[c.request.realm] == q[c.request.realm]
    ensures Decided(pki, p, c).reply == Decided(pki, q, c).reply
    ensures Decided(pki, p, c).prompted == Decided(pki, q, c).prompted
  {
    hide SelectedCa;
  }

  /** A request leaves every other realm's listing and decisions alone. */
  lemma OtherRealmsUnchanged(pki: Pki, pins: Pins, c: Call, other: Call, now: u64)
    requires other.request.realm != c.request.realm
    ensures var after := Decided(pki, pins, c).pins;
            && Without(LivePart(after, now), c.request.realm) == Without(LivePart(pins, now), c.request.realm)
            && Decided(pki, after, other).reply == Decided(pki, pins, other).reply
            && Decided(pki, after, other).prompted == Decided(pki, pins, other).prompted
  {
    hide Decided;
    var after := Decided(pki, pins, c).pins;
    OthersKept(pki, pins, c, other.request.realm);
    DecidedByOwnPin(pki, after, pins, other);
    forall k | k != c.request.realm
      ensures k in LivePart(after, now) <==> k in LivePart(pins, now)
      ensures k in LivePart(pins, now) ==> after[k] == pins[k]
    {
      OthersKept(pki, pins, c, k);
    }
  }

  /* ----- What a decision depends on ----- */

  /** A call changes the live pins only by an approval. */
  lemma LivePartOutcome(pki: Pki, pins: Pins, c: Call)
    ensures var out := Decided(pki, pins, c);
            LivePart(out.pins, c.now)
            == if Approves(pki, pins, c)
               then LivePart(LivePart(pins, c.now)[c.request.realm := out.pins[c.request.realm]], c.now)
               else LivePart(pins, c.now)
  {
  }

  /** Stores with the same live pins decide alike, and have the same live pins afterwards. */
  lemma LivePartDecides(pki: Pki, p: Pins, q: Pins, c: Call)
    requires LivePart(p, c.now) == LivePart(q, c.now)
    ensures var a, b := Decided(pki, p, c), Decided(pki, q, c);
            && a.reply == b.reply && a.prompted == b.prompted
            && LivePart(a.pins, c.now) == LivePart(b.pins, c.now)
  {
    hide SelectedCa;
    var realm := c.request.realm;
    assert realm in LivePart(p, c.now) <==> realm in LivePart(q, c.now);
    assert realm in LivePart(p, c.now) ==> p[realm] == LivePart(p, c.now)[realm] == q[realm];
    assert forall k :: k in LivePart(p, c.now) <==> k in LivePart(q, c.now);
    assert forall k :: k in LivePart(p, c.now) ==> p[k] == q[k];
    LivePartOutcome(pki, p, c);
    LivePartOutcome(pki, q, c);
  }
}
