/**
 Runs of the broker as it is operated: a store in memory, its file, and
 restarts. What a restart changes, exactly, and where trust comes from.
 */
module BrokerRuns {
  import opened Wrappers
  import opened PinStore
  import opened PinHistory

  datatype Event = Ask(call: Call) | Restart

  /** The running broker and its file. */
  datatype Broker = Broker(memory: Pins, disk: FileContent)

  /** An approval is written out, as far as that works; a restart loads what the file holds. */
  function BrokerStep(pki: Pki, b: Broker, e: Event): Broker {
    match e
    case Restart => Broker(Loaded(b.disk), b.disk)
    case Ask(c) =>
      var out := Decided(pki, b.memory, c);
      Broker(out.pins, if Approves(pki, b.memory, c) then AfterWrite(out.pins, c.write) else b.disk)
  }

  function BrokerAfter(pki: Pki, events: seq<Event>): Broker {
    if events == [] then Broker(map[], Missing)
    else BrokerStep(pki, BrokerAfter(pki, events[..|events| - 1]), events[|events| - 1])
  }

  function CallsOf(events: seq<Event>): seq<Call> {
    if events == [] then []
    else
      var last := events[|events| - 1];
      CallsOf(events[..|events| - 1]) + if last.Ask? then [last.call] else []
  }

  /** No call so far was made after `now`. */
  predicate UpTo(events: seq<Event>, now: u64) {
    forall i :: 0 <= i < |events| && events[i].Ask? ==> events[i].call.now <= now
  }

  predicate MonotoneEvents(events: seq<Event>) {
    forall i, j :: 0 <= i <= j < |events| && events[i].Ask? && events[j].Ask? ==>
                     events[i].call.now <= events[j].call.now
  }

  predicate WritesSucceed(events: seq<Event>) {
    forall i :: 0 <= i < |events| && events[i].Ask? ==> events[i].call.write.Written?
  }

  /** The broker that event number `i` meets. */
  function BrokerAt(pki: Pki, events: seq<Event>, i: nat): Broker
    requires i <= |events|
  {
    BrokerAfter(pki, events[..i])
  }

  lemma BrokerOneMore(pki: Pki, events: seq<Event>, e: Event)
    ensures BrokerAfter(pki, events + [e]) == BrokerStep(pki, BrokerAfter(pki, events), e)
  {
    assert (events + [e])[..|events|] == events;
  }

  /* ----- What the file remembers and the memory does not ----- */

  /** The request gets as far as looking at its realm's pin. */
  predicate SelectsCa(pki: Pki, c: Call) {
    var ca := SelectedCa(pki, c.now, c.request.signer, c.request.presented);
    ca.Some? && pki.sha256(ca.value).Some?
  }

  /** The file holds a live pin for the realm. */
  predicate LiveOnDisk(b: Broker, realm: string, now: u64) {
    realm in Loaded(b.disk) && Live(Loaded(b.disk)[realm], now)
  }

  /** The request makes the broker forget the realm's pin, without a word to the file. */
  predicate Drops(pki: Pki, b: Broker, c: Call) {
    SelectsCa(pki, c) && !LiveOnDisk(b, c.request.realm, c.now)
  }

  /** The realms whose pins have been forgotten since the file was last written or read. */
  function Forgotten(pki: Pki, events: seq<Event>): set<string> {
    if events == [] then {}
    else
      var before := events[..|events| - 1];
      match events[|events| - 1]
      case Restart => {}
      case Ask(c) =>
        var b := BrokerAfter(pki, before);
        if Approves(pki, b.memory, c) then {}
        else Forgotten(pki, before) + if Drops(pki, b, c) then {c.request.realm} else {}
  }

  /** The realms whose pins a broker that is never restarted would have forgotten. */
  function EverForgotten(pki: Pki, events: seq<Event>): set<string> {
    if events == [] then {}
    else
      var before := events[..|events| - 1];
      match events[|events| - 1]
      case Restart => EverForgotten(pki, before)
      case Ask(c) =>
        var b := BrokerAfter(pki, before);
        if Approves(pki, b.memory, c) then EverForgotten(pki, before) - {c.request.realm}
        else EverForgotten(pki, before) + if Drops(pki, b, c) then {c.request.realm} else {}
  }

  /** What a request that is not approved does to a store that lacks some of the file's pins. */
  lemma AskMinus(pki: Pki, b: Broker, pins: Pins, gone: set<string>, c: Call)
    requires pins == Loaded(b.disk) - gone && !Approves(pki, pins, c)
    ensures Decided(pki, pins, c).pins
         == Loaded(b.disk) - (gone + if Drops(pki, b, c) then {c.request.realm} else {})
  {
    hide SelectedCa;
  }

  /** Under any clock: the memory is the file without what has been forgotten. */
  lemma {:induction false} MemoryIsDiskMinusForgotten(pki: Pki, events: seq<Event>)
    requires WritesSucceed(events)
    ensures var b := BrokerAfter(pki, events); b.memory == Loaded(b.disk) - Forgotten(pki, events)
  {
    if events == [] {
    } else {
      var before := events[..|events| - 1];
      MemoryIsDiskMinusForgotten(pki, before);
      var b := BrokerAfter(pki, before);
      match events[|events| - 1]
      case Restart =>
      case Ask(c) =>
        assert c.write.Written? by {
          assert events[|events| - 1].Ask?;
        }
        hide Drops, Decided, Approves;
        if !Approves(pki, b.memory, c) {
          AskMinus(pki, b, b.memory, Forgotten(pki, before), c);
        }
    }
  }

  /**
   When the file and the memory agree on the live pins, under any clock:
   exactly if no pin that has been forgotten is live in the file.
   */
  lemma AgreeExactly(pki: Pki, events: seq<Event>, now: u64)
    requires WritesSucceed(events)
    ensures var b := BrokerAfter(pki, events);
            LivePart(b.memory, now) == LivePart(Loaded(b.disk), now) <==>
            forall realm :: realm in Forgotten(pki, events) ==> !LiveOnDisk(b, realm, now)
  {
    MemoryIsDiskMinusForgotten(pki, events);
    hide BrokerAfter, Forgotten;
    var b := BrokerAfter(pki, events);
    var memory, disk := LivePart(b.memory, now), LivePart(Loaded(b.disk), now);
    if memory == disk {
      forall realm | realm in Forgotten(pki, events)
        ensures !LiveOnDisk(b, realm, now)
      {
        assert realm in memory <==> realm in disk;
      }
    } else if forall realm :: realm in Forgotten(pki, events) ==> !LiveOnDisk(b, realm, now) {
      assert forall realm :: realm in memory <==> realm in disk;
    }
  }

  /** Two stores decide a request alike. */
  predicate SameDecision(pki: Pki, p: Pins, q: Pins, c: Call) {
    Decided(pki, p, c).reply == Decided(pki, q, c).reply && Decided(pki, p, c).prompted == Decided(pki, q, c).prompted
  }

  /** Of two stores that differ by what one has forgotten, exactly a live forgotten pin makes a difference. */
  lemma SameDecisionMinus(pki: Pki, b: Broker, less: set<string>, more: set<string>, c: Call)
    requires less <= more
    ensures SameDecision(pki, Loaded(b.disk) - less, Loaded(b.disk) - more, c) <==>
            !(SelectsCa(pki, c) && c.request.realm in more - less && LiveOnDisk(b, c.request.realm, c.now))
  {
    hide SelectedCa;
  }

  lemma SameDecisionSymmetric(pki: Pki, p: Pins, q: Pins, c: Call)
    ensures SameDecision(pki, p, q, c) <==> SameDecision(pki, q, p, c)
  {
    hide Decided;
  }

  /**
   When a restart at this point changes the decision on a request: exactly if
   the request gets to its realm's pin, that pin has been forgotten, and the
   file still has it live.
   */
  lemma RestartShowsExactly(pki: Pki, events: seq<Event>, c: Call)
    requires WritesSucceed(events)
    ensures var b := BrokerAfter(pki, events);
            !SameDecision(pki, b.memory, BrokerStep(pki, b, Restart).memory, c) <==>
            && SelectsCa(pki, c) && c.request.realm in Forgotten(pki, events)
            && LiveOnDisk(b, c.request.realm, c.now)
  {
    MemoryIsDiskMinusForgotten(pki, events);
    hide BrokerAfter, Forgotten, Decided;
    var b := BrokerAfter(pki, events);
    assert Loaded(b.disk) - {} == Loaded(b.disk);
    SameDecisionMinus(pki, b, {}, Forgotten(pki, events), c);
    hide SameDecision;
    SameDecisionSymmetric(pki, b.memory, Loaded(b.disk), c);
  }

  /* ----- When restarts are invisible over a whole run ----- */

  /** The request meets a live pin that a restart has brought back. */
  predicate MeetsRevived(pki: Pki, events: seq<Event>, c: Call) {
    && SelectsCa(pki, c)
    && c.request.realm in EverForgotten(pki, events) - Forgotten(pki, events)
    && LiveOnDisk(BrokerAfter(pki, events), c.request.realm, c.now)
  }

  predicate NoneRevived(pki: Pki, events: seq<Event>, n: nat)
    requires n <= |events|
  {
    forall i :: 0 <= i < n && events[i].Ask? ==> !MeetsRevived(pki, events[..i], events[i].call)
  }

  /** The store that was never restarted. */
  function Steady(pki: Pki, events: seq<Event>): Pins {
    PinsAfter(pki, map[], CallsOf(events))
  }

  lemma SteadyStep(pki: Pki, events: seq<Event>)
    requires events != []
    ensures var before, last := events[..|events| - 1], events[|events| - 1];
            Steady(pki, events)
            == if last.Ask? then Decided(pki, Steady(pki, before), last.call).pins else Steady(pki, before)
  {
    var before, last := events[..|events| - 1], events[|events| - 1];
    if last.Ask? {
      assert CallsOf(events)[..|CallsOf(events)| - 1] == CallsOf(before);
    } else {
      assert CallsOf(events) == CallsOf(before);
    }
  }

  /** An approval, by both stores. */
  lemma ApprovedMinus(pki: Pki, b: Broker, steady: Pins, less: set<string>, more: set<string>, c: Call)
    requires less <= more && b.memory == Loaded(b.disk) - less && steady == Loaded(b.disk) - more
    requires Approves(pki, b.memory, c) && Approves(pki, steady, c)
    ensures Decided(pki, steady, c).pins == Decided(pki, b.memory, c).pins - (more - {c.request.realm})
  {
    hide SelectedCa;
  }

  lemma SteadyAsk(pki: Pki, events: seq<Event>, before: seq<Event>, c: Call)
    requires events != [] && before == events[..|events| - 1] && events[|events| - 1] == Ask(c) && c.write.Written?
    requires Forgotten(pki, before) <= EverForgotten(pki, before) && !MeetsRevived(pki, before, c)
    requires var b := BrokerAfter(pki, before);
             && b.memory == Loaded(b.disk) - Forgotten(pki, before)
             && Steady(pki, before) == Loaded(b.disk) - EverForgotten(pki, before)
    ensures Forgotten(pki, events) <= EverForgotten(pki, events)
    ensures Decided(pki, Steady(pki, before), c).pins
         == Loaded(BrokerAfter(pki, events).disk) - EverForgotten(pki, events)
  {
    var b := BrokerAfter(pki, before);
    var steady := Steady(pki, before);
    var less, more := Forgotten(pki, before), EverForgotten(pki, before);
    SameDecisionMinus(pki, b, less, more, c);
    hide Decided, SelectsCa, Steady, LiveOnDisk;
    assert Approves(pki, b.memory, c) <==> Approves(pki, steady, c);
    if Approves(pki, b.memory, c) {
      ApprovedMinus(pki, b, steady, less, more, c);
    } else {
      AskMinus(pki, b, steady, more, c);
    }
  }

  /** As long as no revived pin is met, the steady store is the file without what was ever forgotten. */
  lemma {:induction false} SteadyIsDiskMinusForgotten(pki: Pki, events: seq<Event>)
    requires WritesSucceed(events) && NoneRevived(pki, events, |events|)
    ensures Forgotten(pki, events) <= EverForgotten(pki, events)
    ensures Steady(pki, events) == Loaded(BrokerAfter(pki, events).disk) - EverForgotten(pki, events)
  {
    if events == [] {
    } else {
      var n := |events| - 1;
      var before := events[..n];
      assert NoneRevived(pki, before, n) by {
        forall i | 0 <= i < n && before[i].Ask?
          ensures !MeetsRevived(pki, before[..i], before[i].call)
        {
          assert before[..i] == events[..i];
        }
      }
      SteadyIsDiskMinusForgotten(pki, before);
      MemoryIsDiskMinusForgotten(pki, before);
      SteadyStep(pki, events);
      match events[n]
      case Restart =>
      case Ask(c) =>
        assert c.write.Written? by {
          assert events[n].Ask?;
        }
        assert !MeetsRevived(pki, before, c);
        SteadyAsk(pki, events, before, c);
    }
  }

  /** Every request of the run is decided as by a broker that is never restarted. */
  predicate RestartsInvisible(pki: Pki, events: seq<Event>) {
    forall i :: 0 <= i < |events| && events[i].Ask? ==>
                  SameDecision(pki, BrokerAfter(pki, events[..i]).memory, Steady(pki, events[..i]), events[i].call)
  }

  lemma DecidedAlikeExactly(pki: Pki, events: seq<Event>, c: Call)
    requires WritesSucceed(events) && NoneRevived(pki, events, |events|)
    ensures SameDecision(pki, BrokerAfter(pki, events).memory, Steady(pki, events), c) <==>
            !MeetsRevived(pki, events, c)
  {
    MemoryIsDiskMinusForgotten(pki, events);
    SteadyIsDiskMinusForgotten(pki, events);
    SameDecisionMinus(pki, BrokerAfter(pki, events), Forgotten(pki, events), EverForgotten(pki, events), c);
    hide SameDecision, BrokerAfter, Steady, SelectsCa, LiveOnDisk;
  }

  lemma PrefixOf(pki: Pki, events: seq<Event>, i: nat)
    requires i <= |events| && WritesSucceed(events) && NoneRevived(pki, events, i)
    ensures WritesSucceed(events[..i]) && NoneRevived(pki, events[..i], |events[..i]|)
  {
    forall j | 0 <= j < i && events[..i][j].Ask?
      ensures !MeetsRevived(pki, events[..i][..j], events[..i][j].call)
    {
      assert events[..i][..j] == events[..j];
    }
  }

  lemma InvisibleStep(pki: Pki, events: seq<Event>, n: nat)
    requires 0 < n <= |events|
    ensures RestartsInvisible(pki, events[..n]) <==>
            && RestartsInvisible(pki, events[..n - 1])
            && (events[n - 1].Ask? ==>
                  SameDecision(pki, BrokerAfter(pki, events[..n - 1]).memory, Steady(pki, events[..n - 1]),
                               events[n - 1].call))
  {
    hide SameDecision, BrokerAfter, Steady;
    assert forall i :: 0 <= i < n ==> events[..n][i] == events[i] && events[..n][..i] == events[..i];
    assert forall i :: 0 <= i < n - 1 ==> events[..n - 1][i] == events[i] && events[..n - 1][..i] == events[..i];
  }

  /**
   Restarts, wherever they happen, are invisible in a whole run exactly if no
   request meets a live pin that a restart has brought back.
   */
  lemma {:induction false} InvisibleExactly(pki: Pki, events: seq<Event>, n: nat)
    requires n <= |events| && WritesSucceed(events)
    ensures RestartsInvisible(pki, events[..n]) <==> NoneRevived(pki, events, n)
  {
    hide SameDecision, MeetsRevived;
    if n == 0 {
    } else {
      InvisibleExactly(pki, events, n - 1);
      assert forall i :: 0 <= i < n ==> events[..n][i] == events[i] && events[..n][..i] == events[..i];
      assert forall i :: 0 <= i < n - 1 ==> events[..n - 1][i] == events[i] && events[..n - 1][..i] == events[..i];
      if NoneRevived(pki, events, n - 1) {
        PrefixOf(pki, events, n - 1);
        if events[n - 1].Ask? {
          DecidedAlikeExactly(pki, events[..n - 1], events[n - 1].call);
        }
      }
      InvisibleStep(pki, events, n);
    }
  }

  /* ----- Clocks that do not run backwards ----- */

  lemma ApprovalKeepsOthers(pki: Pki, b: Broker, c: Call)
    requires Approves(pki, b.memory, c)
    ensures Decided(pki, b.memory, c).pins - {c.request.realm} == b.memory - {c.request.realm}
  {
    hide SelectedCa;
  }

  /** What was ever forgotten had expired then, and so has it for any later time. */
  lemma {:induction false} ForgottenHasExpired(pki: Pki, events: seq<Event>, now: u64)
    requires WritesSucceed(events) && UpTo(events, now)
    ensures forall realm :: realm in EverForgotten(pki, events) ==> !LiveOnDisk(BrokerAfter(pki, events), realm, now)
    ensures forall realm :: realm in Forgotten(pki, events) ==> !LiveOnDisk(BrokerAfter(pki, events), realm, now)
  {
    if events == [] {
    } else {
      var n := |events| - 1;
      var before := events[..n];
      ForgottenHasExpired(pki, before, now);
      match events[n]
      case Restart =>
      case Ask(c) =>
        assert c.now <= now && c.write.Written? by {
          assert events[n].Ask?;
        }
        MemoryIsDiskMinusForgotten(pki, before);
        var b := BrokerAfter(pki, before);
        if Approves(pki, b.memory, c) {
          ApprovalKeepsOthers(pki, b, c);
        }
        hide Decided, SelectsCa, Approves;
    }
  }

  lemma MonotoneRevivesNone(pki: Pki, events: seq<Event>)
    requires MonotoneEvents(events) && WritesSucceed(events)
    ensures NoneRevived(pki, events, |events|)
  {
    forall i | 0 <= i < |events| && events[i].Ask?
      ensures !MeetsRevived(pki, events[..i], events[i].call)
    {
      ForgottenHasExpired(pki, events[..i], events[i].call.now);
      hide EverForgotten, Forgotten, BrokerAfter, LiveOnDisk;
    }
  }

  /** Taking away pins that are not live leaves the live ones. */
  lemma LivePartMinus(pins: Pins, gone: set<string>, now: u64)
    requires forall realm :: realm in gone && realm in pins ==> !Live(pins[realm], now)
    ensures LivePart(pins - gone, now) == LivePart(pins, now)
  {
  }

  /**
   With successful writes and a clock that does not run backwards, the file
   and the memory agree on the live pins at any time, with those of a broker
   that was never restarted.
   */
  lemma MemoryAndDiskAgree(pki: Pki, events: seq<Event>, now: u64)
    requires MonotoneEvents(events) && WritesSucceed(events) && UpTo(events, now)
    ensures var b := BrokerAfter(pki, events);
            && LivePart(b.memory, now) == LivePart(Loaded(b.disk), now)
            && LivePart(b.memory, now) == LivePart(Steady(pki, events), now)
  {
    MonotoneRevivesNone(pki, events);
    ForgottenHasExpired(pki, events, now);
    AgreeExactly(pki, events, now);
    SteadyIsDiskMinusForgotten(pki, events);
    var b := BrokerAfter(pki, events);
    hide BrokerAfter, Forgotten, EverForgotten, Steady, NoneRevived;
    LivePartMinus(Loaded(b.disk), EverForgotten(pki, events), now);
  }

  /** So restarts, wherever they happen, change no reply and no prompt, past or next. */
  lemma RestartsAreInvisible(pki: Pki, events: seq<Event>, c: Call)
    requires MonotoneEvents(events) && WritesSucceed(events) && UpTo(events, c.now)
    ensures RestartsInvisible(pki, events)
    ensures var b := BrokerAfter(pki, events);
            && SameDecision(pki, b.memory, Steady(pki, events), c)
            && SameDecision(pki, b.memory, BrokerStep(pki, b, Restart).memory, c)
  {
    MonotoneRevivesNone(pki, events);
    assert events[..|events|] == events;
    InvisibleExactly(pki, events, |events|);
    ForgottenHasExpired(pki, events, c.now);
    DecidedAlikeExactly(pki, events, c);
    RestartShowsExactly(pki, events, c);
    hide SameDecision, BrokerAfter, Steady, RestartsInvisible, LiveOnDisk;
  }

  /**
   What a set-back clock does to restarts: an approval, a request after its
   expiry, and then a request before it. Without a restart in between the
   grant is forgotten; after one it is back from the file.
   */
  lemma ClockSetBackShows(pki: Pki, approval: Call, late: Call, early: Call)
    requires approval.request.realm == late.request.realm == early.request.realm
    requires !late.request.interactive && !early.request.interactive
    requires Approves(pki, map[], approval) && approval.write.Written?
    requires var expiry := ExpiresAt(approval.answer.value, approval.now);
             expiry.Some? && early.now < expiry.value <= late.now
    requires forall c :: c in {late, early} ==>
               SelectedCa(pki, c.now, c.request.signer, c.request.presented)
               == SelectedCa(pki, approval.now, approval.request.signer, approval.request.presented)
    ensures var events := [Ask(approval), Ask(late)];
            && Decided(pki, BrokerAfter(pki, events).memory, early).reply == Unknown
            && Decided(pki, BrokerAfter(pki, events + [Restart]).memory, early).reply.Trusted?
  {
    assert late in {late, early} && early in {late, early};
    var events := [Ask(approval), Ask(late)];
    BrokerOneMore(pki, [], Ask(approval));
    assert [] + [Ask(approval)] == [Ask(approval)];
    BrokerOneMore(pki, [Ask(approval)], Ask(late));
    assert [Ask(approval)] + [Ask(late)] == events;
    BrokerOneMore(pki, events, Restart);
  }

  /** The file after a failed write still says the same about the realm, as far as requests can tell. */
  predicate StillSays(left: FileContent, realm: string, pin: Pin, now: u64) {
    && realm in Loaded(left) && Live(Loaded(left)[realm], now)
    && Loaded(left)[realm].ca == pin.ca && Loaded(left)[realm].fingerprint == pin.fingerprint
  }

  /**
   After an approval whose write failed, a restart shows in a request that
   presents the approved CA while the grant lasts exactly if what the write
   left no longer says the same about the realm.
   */
  lemma FailedWriteShows(pki: Pki, pins: Pins, left: FileContent, approval: Call, later: Call, pin: Pin)
    requires Grants(pki, pins, approval, later.request.realm, pin) && Live(pin, later.now)
    requires SelectedCa(pki, later.now, later.request.signer, later.request.presented) == Some(pin.ca)
    ensures var after := Decided(pki, pins, approval).pins;
            SameDecision(pki, after, Loaded(AfterWrite(after, Failed(left))), later) <==>
            StillSays(left, later.request.realm, pin, later.now)
  {
    hide SelectedCa;
  }

  /* ----- Safety of the broker as it runs ----- */

  /** The file afterwards holds no pin that neither the file before nor the memory had. */
  predicate ForgesNothing(pki: Pki, b: Broker, c: Call) {
    var out := Decided(pki, b.memory, c).pins;
    var left := Loaded(AfterWrite(out, c.write));
    Approves(pki, b.memory, c) ==>
      forall k :: k in left ==> (k in out && left[k] == out[k])
                                || (k in Loaded(b.disk) && left[k] == Loaded(b.disk)[k])
  }

  /** A failed write may lose pins or keep old ones, but it makes up none. */
  predicate WritesForgeNothing(pki: Pki, events: seq<Event>) {
    forall i :: 0 <= i < |events| && events[i].Ask? ==> ForgesNothing(pki, BrokerAt(pki, events, i), events[i].call)
  }

  lemma SuccessForgesNothing(pki: Pki, events: seq<Event>)
    ensures WritesSucceed(events) ==> WritesForgeNothing(pki, events)
  {
  }

  /** Event number `i` is an approval that makes this pin. */
  ghost predicate GrantedAt(pki: Pki, events: seq<Event>, i: nat, realm: string, pin: Pin) {
    i < |events| && events[i].Ask? && Grants(pki, BrokerAt(pki, events, i).memory, events[i].call, realm, pin)
  }

  ghost predicate Granted(pki: Pki, events: seq<Event>, realm: string, pin: Pin) {
    exists i: nat :: GrantedAt(pki, events, i, realm, pin)
  }

  lemma GrantedBefore(pki: Pki, events: seq<Event>, n: nat, realm: string, pin: Pin)
    requires n <= |events| && Granted(pki, events[..n], realm, pin)
    ensures Granted(pki, events, realm, pin)
  {
    var i: nat :| GrantedAt(pki, events[..n], i, realm, pin);
    assert events[..n][..i] == events[..i];
    assert GrantedAt(pki, events, i, realm, pin);
  }

  /** All pins of a store go back to approvals. */
  ghost predicate AllGranted(pki: Pki, events: seq<Event>, pins: Pins) {
    forall realm :: realm in pins ==> Granted(pki, events, realm, pins[realm])
  }

  lemma GrantedHere(pki: Pki, events: seq<Event>, i: nat, realm: string, pin: Pin)
    requires GrantedAt(pki, events, i, realm, pin)
    ensures Granted(pki, events, realm, pin)
  {
  }

  lemma GrantedByAsking(pki: Pki, events: seq<Event>, c: Call)
    requires events != [] && events[|events| - 1] == Ask(c)
    requires var before := events[..|events| - 1];
             AllGranted(pki, before, BrokerAfter(pki, before).memory)
    ensures AllGranted(pki, events, BrokerAfter(pki, events).memory)
  {
    hide Grants, Decided, Granted;
    var n := |events| - 1;
    var b := BrokerAfter(pki, events[..n]);
    var out := Decided(pki, b.memory, c).pins;
    forall realm | realm in out
      ensures Granted(pki, events, realm, out[realm])
    {
      PinStep(pki, b.memory, c, realm);
      if Grants(pki, b.memory, c, realm, out[realm]) {
        assert GrantedAt(pki, events, n, realm, out[realm]);
        GrantedHere(pki, events, n, realm, out[realm]);
      } else {
        GrantedBefore(pki, events, n, realm, out[realm]);
      }
    }
  }

  lemma GrantedLater(pki: Pki, events: seq<Event>, pins: Pins)
    requires events != [] && AllGranted(pki, events[..|events| - 1], pins)
    ensures AllGranted(pki, events, pins)
  {
    hide Granted;
    forall realm | realm in pins
      ensures Granted(pki, events, realm, pins[realm])
    {
      GrantedBefore(pki, events, |events| - 1, realm, pins[realm]);
    }
  }

  lemma DiskGranted(pki: Pki, events: seq<Event>, b: Broker, c: Call)
    requires ForgesNothing(pki, b, c)
    requires AllGranted(pki, events, Loaded(b.disk)) && AllGranted(pki, events, BrokerStep(pki, b, Ask(c)).memory)
    ensures AllGranted(pki, events, Loaded(BrokerStep(pki, b, Ask(c)).disk))
  {
    hide Granted, Decided;
  }

  lemma PrefixForgesNothing(pki: Pki, events: seq<Event>, n: nat)
    requires n <= |events| && WritesForgeNothing(pki, events)
    ensures WritesForgeNothing(pki, events[..n])
  {
    hide ForgesNothing;
    forall i | 0 <= i < n && events[..n][i].Ask?
      ensures ForgesNothing(pki, BrokerAt(pki, events[..n], i), events[..n][i].call)
    {
      assert events[..n][..i] == events[..i];
    }
  }

  /**
   Every pin in memory and every pin in the file goes back to an approval of
   its realm, under any clock, with restarts anywhere, and with any failure of
   a write that makes up no pin.
   */
  lemma {:induction false} EveryPinGranted(pki: Pki, events: seq<Event>)
    requires WritesForgeNothing(pki, events)
    ensures AllGranted(pki, events, BrokerAfter(pki, events).memory)
    ensures AllGranted(pki, events, Loaded(BrokerAfter(pki, events).disk))
  {
    if events == [] {
    } else {
      var n := |events| - 1;
      var before := events[..n];
      PrefixForgesNothing(pki, events, n);
      EveryPinGranted(pki, before);
      var b := BrokerAfter(pki, before);
      GrantedLater(pki, events, Loaded(b.disk));
      match events[n]
      case Restart =>
      case Ask(c) =>
        GrantedByAsking(pki, events, c);
        assert ForgesNothing(pki, BrokerAt(pki, events, n), c);
        DiskGranted(pki, events, b, c);
        hide AllGranted, ForgesNothing, Decided;
    }
  }

  /**
   So every trusted reply, from the broker as it runs, hands out the CA of an
   interactive approval of that realm with the fingerprint now presented: made
   in this very call, or earlier and not expired now.
   */
  lemma TrustedAcrossRestarts(pki: Pki, events: seq<Event>, c: Call) returns (pin: Pin)
    requires WritesForgeNothing(pki, events)
    requires Decided(pki, BrokerAfter(pki, events).memory, c).reply.Trusted?
    ensures Decided(pki, BrokerAfter(pki, events).memory, c).reply == Trusted([pin.ca])
    ensures var ca := SelectedCa(pki, c.now, c.request.signer, c.request.presented);
            ca.Some? && pki.sha256(ca.value) == Some(pin.fingerprint)
    ensures || Grants(pki, BrokerAfter(pki, events).memory, c, c.request.realm, pin)
            || (Granted(pki, events, c.request.realm, pin) && Live(pin, c.now))
  {
    EveryPinGranted(pki, events);
    hide Granted, BrokerAfter, SelectedCa;
    var pins := BrokerAfter(pki, events).memory;
    if Approves(pki, pins, c) {
      pin := Decided(pki, pins, c).pins[c.request.realm];
    } else {
      pin := pins[c.request.realm];
    }
  }

  /* ----- Trust that lasts ----- */

  /** From event `i` to event `m`, the realm is asked about only while the pin is live. */
  predicate EventsWhileLive(events: seq<Event>, i: nat, m: nat, realm: string, pin: Pin)
    requires m <= |events|
  {
    forall k :: i <= k < m && events[k].Ask? && events[k].call.request.realm == realm ==> Live(pin, events[k].call.now)
  }

  /** The pin is in memory and in the file. */
  predicate Stored(b: Broker, realm: string, pin: Pin) {
    realm in b.memory && b.memory[realm] == pin && realm in Loaded(b.disk) && Loaded(b.disk)[realm] == pin
  }

  lemma StoredStays(pki: Pki, b: Broker, e: Event, realm: string, pin: Pin)
    requires Stored(b, realm, pin)
    requires e.Ask? ==> e.call.write.Written? && (e.call.request.realm == realm ==> Live(pin, e.call.now))
    ensures Stored(BrokerStep(pki, b, e), realm, pin)
  {
    if e.Ask? {
      if e.call.request.realm == realm {
        LivePinDecides(pki, b.memory, e.call, realm);
      } else {
        OthersKept(pki, b.memory, e.call, realm);
      }
      hide Decided;
    }
  }

  /**
   A pin stays in memory and in the file, restarts or not, as long as its
   realm is not asked about after the expiry, whatever the clock does.
   */
  lemma {:induction false} BrokerPinStays(pki: Pki, events: seq<Event>, i: nat, m: nat, realm: string, pin: Pin)
    requires i < m <= |events| && WritesSucceed(events)
    requires GrantedAt(pki, events, i, realm, pin) && EventsWhileLive(events, i + 1, m, realm, pin)
    ensures Stored(BrokerAt(pki, events, m), realm, pin)
    decreases m
  {
    assert events[..m][..m - 1] == events[..m - 1];
    if m == i + 1 {
      assert events[i].call.write.Written?;
    } else {
      BrokerPinStays(pki, events, i, m - 1, realm, pin);
      StoredStays(pki, BrokerAt(pki, events, m - 1), events[m - 1], realm, pin);
    }
  }
}
