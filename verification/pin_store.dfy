/**
 The trust broker's pin store: which CA of a presented chain it considers, the
 decision table, the listing, and the state file.

 Certificates are DER bytes; the base64 and hexadecimal renderings of CAs and
 digests are left aside.
 */
module PinStore {
  import opened Wrappers
  import opened Der

  const U64_MAX := 0xFFFF_FFFF_FFFF_FFFF

  type u64 = x: int | 0 <= x <= U64_MAX

  datatype Pin = Pin(ca: Bytes, fingerprint: Bytes, expiresAt: Option<u64>)

  type Pins = map<string, Pin>

  datatype GrantTtl = Forever | For(seconds: u64)

  /** The expiry of a grant made now; additions saturate. */
  function ExpiresAt(ttl: GrantTtl, now: u64): Option<u64> {
    match ttl
    case Forever => None
    case For(d) => Some(if now + d > U64_MAX then U64_MAX else now + d)
  }

  predicate Live(pin: Pin, now: u64) {
    pin.expiresAt.Some? ==> now < pin.expiresAt.value
  }

  /** Certificate parsing, path validation to a set of anchors at a time, and SHA-256. */
  datatype Pki = Pki(
    parses: Bytes -> bool,
    verify: (seq<Bytes>, Bytes, seq<Bytes>, u64) -> bool,
    sha256: Bytes -> Option<Bytes>)

  /* ----- Choosing a CA ----- */

  /** The presented certificates other than the signer and the candidate anchor. */
  function Intermediates(presented: seq<Bytes>, signer: Bytes, anchor: Bytes): (r: seq<Bytes>)
    ensures forall c :: c in r <==> c in presented && c != signer && c != anchor
  {
    if presented == [] then []
    else
      (if presented[0] == signer || presented[0] == anchor then [] else [presented[0]])
      + Intermediates(presented[1..], signer, anchor)
  }

  /** `anchor` is a CA that the signer's chain validates to, through the other presented certificates. */
  predicate ValidatesAsAnchor(pki: Pki, now: u64, anchor: Bytes, signer: Bytes, presented: seq<Bytes>) {
    && pki.parses(anchor) && pki.parses(signer)
    && (forall c :: c in Intermediates(presented, signer, anchor) ==> pki.parses(c))
    && pki.verify([anchor], signer, Intermediates(presented, signer, anchor), now)
  }

  predicate Eligible(pki: Pki, now: u64, ca: Bytes, signer: Bytes, presented: seq<Bytes>) {
    ca != signer && ValidatesAsAnchor(pki, now, ca, signer, presented)
  }

  /** The last eligible certificate among the first `n` presented. */
  function LastEligible(pki: Pki, now: u64, signer: Bytes, presented: seq<Bytes>, n: nat): Option<Bytes>
    requires n <= |presented|
  {
    if n == 0 then None
    else if Eligible(pki, now, presented[n - 1], signer, presented) then Some(presented[n - 1])
    else LastEligible(pki, now, signer, presented, n - 1)
  }

  function SelectedCa(pki: Pki, now: u64, signer: Bytes, presented: seq<Bytes>): Option<Bytes> {
    LastEligible(pki, now, signer, presented, |presented|)
  }

  method SelectCa(pki: Pki, now: u64, signer: Bytes, presented: seq<Bytes>) returns (r: Option<Bytes>)
    ensures r == SelectedCa(pki, now, signer, presented)
    ensures r.Some? ==>
              exists k :: 0 <= k < |presented| && r == Some(presented[k])
                          && Eligible(pki, now, presented[k], signer, presented)
                          && forall i :: k < i < |presented| ==> !Eligible(pki, now, presented[i], signer, presented)
    ensures r.None? <==> forall i :: 0 <= i < |presented| ==> !Eligible(pki, now, presented[i], signer, presented)
  {
    var n: nat := |presented|;
    while n > 0
      invariant n <= |presented|
      invariant SelectedCa(pki, now, signer, presented) == LastEligible(pki, now, signer, presented, n)
      invariant forall i :: n <= i < |presented| ==> !Eligible(pki, now, presented[i], signer, presented)
    {
      if Eligible(pki, now, presented[n - 1], signer, presented) {
        return Some(presented[n - 1]);
      }
      n := n - 1;
    }
    r := None;
  }

  lemma {:induction false} SelectedIsEligible(pki: Pki, now: u64, signer: Bytes, presented: seq<Bytes>, n: nat)
    requires n <= |presented|
    ensures var r := LastEligible(pki, now, signer, presented, n);
            r.Some? ==> r.value in presented && Eligible(pki, now, r.value, signer, presented)
  {
    if n == 0 {
    } else {
      SelectedIsEligible(pki, now, signer, presented, n - 1);
    }
  }

  /* ----- The decision table ----- */

  datatype Request = Request(realm: string, signer: Bytes, presented: seq<Bytes>, interactive: bool)

  datatype FileContent = Missing | Garbled | Saved(pins: Pins)

  /** The file is not replaced atomically, so a failed write may leave anything behind. */
  datatype WriteOutcome = Written | Failed(left: FileContent)

  /** A request with the clock, the prompter's answer if it is asked, and how a write would end. */
  datatype Call = Call(request: Request, now: u64, answer: Option<GrantTtl>, write: WriteOutcome)

  datatype Reason = NoValidCa | NoFingerprint | CaChanged | UserDeclined

  datatype Reply = Trusted(anchors: seq<Bytes>) | Denied(reason: Reason) | Unknown

  /** The new pins, the reply, and whether the prompter was asked. */
  datatype Outcome = Outcome(pins: Pins, reply: Reply, prompted: bool)

  function Without(pins: Pins, realm: string): Pins {
    pins - {realm}
  }

  function Decided(pki: Pki, pins: Pins, c: Call): Outcome {
    var r := c.request;
    var ca := SelectedCa(pki, c.now, r.signer, r.presented);
    if ca.None? then Outcome(pins, Denied(NoValidCa), false)
    else
      var fp := pki.sha256(ca.value);
      if fp.None? then Outcome(pins, Denied(NoFingerprint), false)
      else if r.realm in pins && Live(pins[r.realm], c.now) then
        if pins[r.realm].fingerprint == fp.value then Outcome(pins, Trusted([pins[r.realm].ca]), false)
        else Outcome(pins, Denied(CaChanged), false)
      else if !r.interactive then Outcome(Without(pins, r.realm), Unknown, false)
      else
        match c.answer
        case None => Outcome(Without(pins, r.realm), Denied(UserDeclined), true)
        case Some(ttl) =>
          Outcome(pins[r.realm := Pin(ca.value, fp.value, ExpiresAt(ttl, c.now))], Trusted([ca.value]), true)
  }

  /** The call is an approval: the user was asked and said yes. */
  predicate Approves(pki: Pki, pins: Pins, c: Call) {
    Decided(pki, pins, c).prompted && c.answer.Some?
  }

  /* ----- The store and its file ----- */

  class StateFile {
    var content: FileContent

    constructor (c: FileContent)
      ensures content == c
    {
      content := c;
    }
  }

  /** What a store opened on the file starts with: nothing, if it is missing or does not parse. */
  function Loaded(c: FileContent): Pins {
    if c.Saved? then c.pins else map[]
  }

  function AfterWrite(pins: Pins, write: WriteOutcome): FileContent {
    match write
    case Written => Saved(pins)
    case Failed(left) => left
  }

  /** The pins of a map that are live at a time. */
  function LivePart(pins: Pins, now: u64): Pins {
    map k | k in pins && Live(pins[k], now) :: pins[k]
  }

  class PinStore {
    var pins: Pins
    const file: StateFile?

    constructor InMemory()
      ensures pins == map[] && file == null
    {
      pins := map[];
      file := null;
    }

    constructor On(path: StateFile, loaded: Pins)
      ensures file == path && pins == loaded
    {
      file := path;
      pins := loaded;
    }

    /** An existing file that cannot be read is an error; one that does not parse is an empty start. */
    static method Open(path: StateFile, readable: bool) returns (r: Option<PinStore>)
      ensures r.None? <==> path.content != Missing && !readable
      ensures r.Some? ==> fresh(r.value) && r.value.file == path && r.value.pins == Loaded(path.content)
    {
      if path.content != Missing && !readable {
        return None;
      }
      var store := new PinStore.On(path, Loaded(path.content));
      r := Some(store);
    }

    method Persist(write: WriteOutcome)
      modifies file
      ensures file != null ==> file.content == AfterWrite(pins, write)
    {
      if file != null {
        match write
        case Written => file.content := Saved(pins);
        case Failed(left) => file.content := left;
      }
    }

    /** Only an approval is written out; forgetting an expired pin is not. */
    method Decide(pki: Pki, c: Call) returns (reply: Reply, prompted: bool)
      modifies this, file
      ensures Outcome(pins, reply, prompted) == Decided(pki, old(pins), c)
      ensures file != null ==>
                file.content == if Approves(pki, old(pins), c) then AfterWrite(pins, c.write) else old(file.content)
    {
      var r := c.request;
      var ca := SelectCa(pki, c.now, r.signer, r.presented);
      if ca.None? {
        return Denied(NoValidCa), false;
      }
      var fp := pki.sha256(ca.value);
      if fp.None? {
        return Denied(NoFingerprint), false;
      }
      if r.realm in pins {
        var existing := pins[r.realm];
        var expired := existing.expiresAt.Some? && c.now >= existing.expiresAt.value;
        if !expired {
          return if existing.fingerprint == fp.value then Trusted([existing.ca]) else Denied(CaChanged), false;
        }
      }
      pins := pins - {r.realm};
      if !r.interactive {
        return Unknown, false;
      }
      prompted := true;
      match c.answer
      case Some(ttl) =>
        pins := pins[r.realm := Pin(ca.value, fp.value, ExpiresAt(ttl, c.now))];
        assert pins == old(pins)[r.realm := Pin(ca.value, fp.value, ExpiresAt(ttl, c.now))];
        Persist(c.write);
        reply := Trusted([ca.value]);
      case None =>
        reply := Denied(UserDeclined);
    }

    /** The pins that are live now. */
    method TrustedRealms(now: u64) returns (r: Pins)
      ensures r == LivePart(pins, now)
    {
      r := map[];
      var rest := pins.Keys;
      while rest != {}
        invariant rest <= pins.Keys
        invariant r == map k | k in pins && k !in rest && Live(pins[k], now) :: pins[k]
      {
        var realm :| realm in rest;
        if Live(pins[realm], now) {
          r := r[realm := pins[realm]];
        }
        rest := rest - {realm};
      }
    }
  }
}
