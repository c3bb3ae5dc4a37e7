/** Exactly which key exchange a hint or a rejection leads the client to. */
module Selection {
  import opened Wrappers
  import opened Der
  import opened Algorithms
  import opened KemTypes
  import opened Suite
  import opened Client

  /** Entry `i` of the list is the first that the client knows, has not just sent, and accepts. */
  predicate IsFirstChoice(p: Policy, s: ClientState, advertised: seq<AlgId>, sent: Option<KeyExchange>, i: nat,
                          x: KeyExchange)
  {
    && i < |advertised| && Recognize(p, advertised[i]) == Some(x) && sent != Some(x) && AcceptsOffer(p, s, x)
    && forall j :: 0 <= j < i ==>
         var y := Recognize(p, advertised[j]);
         y.None? || sent == y || !AcceptsOffer(p, s, y.value)
  }

  ghost predicate FirstChoice(p: Policy, s: ClientState, advertised: seq<AlgId>, sent: Option<KeyExchange>,
                              x: KeyExchange)
  {
    exists i: nat :: IsFirstChoice(p, s, advertised, sent, i, x)
  }

  function Choice(p: Policy, s: ClientState, advertised: seq<AlgId>, sent: Option<KeyExchange>): Option<KeyExchange> {
    FirstAccepted(p, s, Without(Offers(p, advertised), sent))
  }

  lemma WithoutCons(x: KeyExchange, rest: seq<KeyExchange>, sent: Option<KeyExchange>)
    ensures Without([x] + rest, sent) == (if sent == Some(x) then [] else [x]) + Without(rest, sent)
  {
    assert ([x] + rest)[1..] == rest;
  }

  lemma AcceptedCons(p: Policy, s: ClientState, x: KeyExchange, rest: seq<KeyExchange>)
    ensures FirstAccepted(p, s, [x] + rest) == if AcceptsOffer(p, s, x) then Some(x) else FirstAccepted(p, s, rest)
  {
    hide AcceptsOffer;
    assert ([x] + rest)[1..] == rest;
  }

  lemma ChoiceStep(p: Policy, s: ClientState, advertised: seq<AlgId>, sent: Option<KeyExchange>)
    requires advertised != []
    ensures var first := Recognize(p, advertised[0]);
            Choice(p, s, advertised, sent)
            == if first.Some? && sent != first && AcceptsOffer(p, s, first.value) then first
               else Choice(p, s, advertised[1..], sent)
  {
    hide Recognize, AcceptsOffer, Without, FirstAccepted;
    var first := Recognize(p, advertised[0]);
    var rest := Offers(p, advertised[1..]);
    if first.Some? {
      assert Offers(p, advertised) == [first.value] + rest;
      WithoutCons(first.value, rest, sent);
      AcceptedCons(p, s, first.value, Without(rest, sent));
      assert [] + Without(rest, sent) == Without(rest, sent);
    } else {
      assert Offers(p, advertised) == rest;
    }
  }

  lemma FirstChoiceStep(p: Policy, s: ClientState, advertised: seq<AlgId>, sent: Option<KeyExchange>, x: KeyExchange)
    requires advertised != []
    ensures var first := Recognize(p, advertised[0]);
            FirstChoice(p, s, advertised, sent, x) <==>
            if first.Some? && sent != first && AcceptsOffer(p, s, first.value) then first == Some(x)
            else FirstChoice(p, s, advertised[1..], sent, x)
  {
    hide Recognize, AcceptsOffer;
    var first, rest := Recognize(p, advertised[0]), advertised[1..];
    assert forall i :: 0 <= i < |rest| ==> rest[i] == advertised[i + 1];
    if first.Some? && sent != first && AcceptsOffer(p, s, first.value) {
      assert IsFirstChoice(p, s, advertised, sent, 0, first.value);
      assert forall i: nat :: IsFirstChoice(p, s, advertised, sent, i, x) ==> i == 0;
    } else {
      if i: nat :| IsFirstChoice(p, s, rest, sent, i, x) {
        assert IsFirstChoice(p, s, advertised, sent, i + 1, x);
      }
      if i: nat :| IsFirstChoice(p, s, advertised, sent, i, x) {
        assert IsFirstChoice(p, s, rest, sent, i - 1, x);
      }
    }
  }

  lemma {:induction false} ChoiceExactly(p: Policy, s: ClientState, advertised: seq<AlgId>, sent: Option<KeyExchange>,
                                         x: KeyExchange)
    ensures Choice(p, s, advertised, sent) == Some(x) <==> FirstChoice(p, s, advertised, sent, x)
  {
    if advertised == [] {
    } else {
      ChoiceExactly(p, s, advertised[1..], sent, x);
      ChoiceStep(p, s, advertised, sent);
      FirstChoiceStep(p, s, advertised, sent, x);
    }
  }

  lemma {:induction false} WithoutNothing(offers: seq<KeyExchange>)
    ensures Without(offers, None) == offers
  {
    if offers == [] {
    } else {
      WithoutNothing(offers[1..]);
    }
  }

  /** The configured KEM is kept whenever the list names it and it meets the floor. */
  lemma ConfiguredKemIsKept(p: Policy, s: ClientState, advertised: seq<AlgId>, i: nat, a: KemAlgorithm)
    requires s.kemAlgorithm == Some(a) && (s.kemFloor.Some? ==> Strength(a) >= Strength(s.kemFloor.value))
    requires i < |advertised| && advertised[i].oid == KemOid(a)
    ensures AfterHint(p, s, advertised) == Ok(s)
  {
    assert Recognize(p, advertised[i]) == Some(Kem(a));
    OffersAreRecognized(p, advertised);
    hide Recognize;
  }

  /** Otherwise a hint leads to the first choice on its list, or fails without one. */
  lemma HintedExactly(p: Policy, s: ClientState, advertised: seq<AlgId>, x: KeyExchange)
    requires advertised != []
    requires forall i :: 0 <= i < |advertised| ==>
               s.kemAlgorithm.None? || Recognize(p, advertised[i]) != Some(Kem(s.kemAlgorithm.value))
    ensures FirstChoice(p, s, advertised, None, x) ==> AfterHint(p, s, advertised) == Ok(Applied(s, x))
    ensures (forall y :: !FirstChoice(p, s, advertised, None, y)) <==>
            AfterHint(p, s, advertised) == Err(NoAcceptableKeyExchange)
  {
    OffersAreRecognized(p, advertised);
    WithoutNothing(Offers(p, advertised));
    ChoiceExactly(p, s, advertised, None, x);
    var choice := Choice(p, s, advertised, None);
    forall y
      ensures choice == Some(y) <==> FirstChoice(p, s, advertised, None, y)
    {
      ChoiceExactly(p, s, advertised, None, y);
    }
    hide Recognize, FirstChoice, AcceptsOffer;
  }

  /**
   After a rejection: the first choice other than what was sent; without one,
   a downgrade error if some other group is on the list, and none in common
   otherwise.
   */
  lemma RetriedExactly(p: Policy, s: ClientState, advertised: seq<AlgId>, x: KeyExchange)
    ensures RetryChoice(p, s, advertised) == Ok(x) <==> FirstChoice(p, s, advertised, s.keyExchange, x)
    ensures RetryChoice(p, s, advertised).Err? ==>
              RetryChoice(p, s, advertised).error
              == if exists g, i :: 0 <= i < |advertised| && Recognize(p, advertised[i]) == Some(Dh(g))
                                   && s.keyExchange != Some(Dh(g))
                 then DowngradeRejected else NoAcceptableKeyExchange
  {
    ChoiceExactly(p, s, advertised, s.keyExchange, x);
    OffersAreRecognized(p, advertised);
    hide Recognize, FirstChoice, AcceptsOffer;
  }

  /** Typed data of other kinds is passed over, and the first entry of a known kind decides. */
  lemma {:induction false} TypedDataExactly(lib: Lib, p: Policy, s: ClientState, data: seq<TypedData>, k: nat)
    requires k <= |data| && forall i :: 0 <= i < k ==> data[i].kind == OtherKind
    requires k < |data| ==> data[k].kind != OtherKind
    ensures k == |data| ==> RetryFor(lib, p, s, data) == Ok(NoRetry)
    ensures k < |data| && (data[k].kind == TrustedCertifiers || data[k].kind == CmsCertificates) ==>
              RetryFor(lib, p, s, data) == Ok(RetryWithCerts)
    ensures k < |data| && data[k].kind == DhParameters ==>
              match lib.algIds.dec(data[k].value)
              case None => RetryFor(lib, p, s, data) == Err(Asn1)
              case Some(list) =>
                && (RetryChoice(p, s, list).Ok? ==>
                      RetryFor(lib, p, s, data) == Ok(Retry(RetryChoice(p, s, list).value)))
                && (RetryChoice(p, s, list).Err? ==>
                      RetryFor(lib, p, s, data) == Err(RetryChoice(p, s, list).error))
    decreases k
  {
    hide RetryChoice;
    if k == 0 {
    } else {
      TypedDataExactly(lib, p, s, data[1..], k - 1);
    }
  }

  /**
   A hint is well-formed exactly if it is a SEQUENCE; its list is the one under
   [0], and empty if there is no [0].
   */
  lemma HintReadExactly(lib: Lib, hint: Bytes, list: seq<AlgId>)
    ensures ParsePkinitHint(lib.algIds, hint) == Ok(list) <==>
            exists content, after ::
              && ReadTlv(hint) == Some(Element(0x30, content, after))
              && if content == [] || content[0] != 0xA0 then list == []
                 else
                   var field := ReadTlv(content);
                   field.Some? && lib.algIds.dec(field.value.content) == Some(list)
  {
    hide ParsedLength;
    var read := ReadTlv(hint);
    if read.Some? {
      assert read == Some(Element(read.value.tag, read.value.content, read.value.rest));
      assert hint != [] && read.value.tag == hint[0];
    }
  }
}
