/**
 The client's runs with the broker behind their chain check: whatever the peer
 and the broker are made to do, what stands behind an accepted reply.
 */
module EndToEnd {
  import opened Wrappers
  import opened Der
  import opened KemTypes
  import opened Cms
  import opened Suite
  import Kdf
  import opened Client
  import ClientRuns
  import opened PinStore
  import opened BrokerRuns
  import opened Tofu

  /** What `validate_kdc_chain` goes by when a reply comes in: the KDC, the clock, and the broker's run so far. */
  datatype ChainContext = ChainContext(pki: Pki, checks: Checks, view: KdcView, broker: seq<BrokerRuns.Event>,
                                       now: u64, answer: Option<GrantTtl>, write: WriteOutcome)

  function ChainCheckOf(k: ChainContext): ChainCheck {
    (signer: Bytes, presented: seq<Bytes>) =>
      Validated(k.pki, k.checks, k.view, BrokerAfter(k.pki, k.broker).memory, signer, presented, k.now, k.answer,
                k.write).1
  }

  /** The CMS message of a reply, in either form. */
  function SignedPart(lib: Lib, rep: Bytes): Option<Bytes> {
    if IsKemRep(rep) then
      var content := DecodeKemRepContent(rep);
      if content.Err? then None
      else
        var signedData := DecodeKemRepInfo(content.value);
        if signedData.Err? then None else Some(signedData.value)
    else
      match lib.decPaRep(rep)
      case Some(DhInfo(signedData, _, _)) => Some(signedData)
      case _ => None
  }

  /** An accepted reply is a verified message whose signer passed the chain check. */
  lemma AcceptedReplyPassed(lib: Lib, p: Policy, s: ClientState, rep: Bytes, params: RepParams, chain: ChainCheck)
    returns (v: VerifiedSignedData)
    requires Processed(lib, p, s, rep, params, chain).1.Ok?
    ensures SignedPart(lib, rep).Some? && VerifySignedData(lib.cms, SignedPart(lib, rep).value) == Ok(v)
    ensures chain(v.signerCert, v.allCerts).Ok?
  {
    hide VerifySignedData, DecodeKemRepContent, DecodeKemRepInfo, Kdf.PkinitKemKdf, DerivedFromDh;
    v := VerifySignedData(lib.cms, SignedPart(lib, rep).value).value;
  }

  /** The signer has the KDC's EKU and name, and a path to a configured anchor or to a CA that the user approved. */
  ghost predicate Justified(k: ChainContext, signer: Bytes, presented: seq<Bytes>) {
    && k.checks.kdcEku(signer).Ok?
    && (k.view.kdcPrincipal.Some? ==>
          k.checks.kdcSan(signer, k.view.kdcPrincipal.value, k.view.kdcHostname).Ok?)
    && (k.checks.configured(signer, presented).Ok?
        || (BrokerRealm(k.view).Some?
            && exists pin :: EarlierApproval(k.pki, k.broker, BrokerRealm(k.view).value, signer, presented, k.now,
                                             pin)))
  }

  /**
   In every run of an authenticated client, against any peer, and with any run
   of the broker behind each reply: a reply that is accepted is signed, in the
   sense of its SignerInfo, attributes and certificates, by a signer that is
   justified.
   */
  lemma AcceptedReplyIsJustified(x: ClientRuns.Setup, events: seq<ClientRuns.Event>, i: nat, k: ChainContext)
    returns (v: VerifiedSignedData)
    requires i < |events| && events[i].Reply? && events[i].chain == ChainCheckOf(k)
    requires ClientRuns.KeyFrom(x, ClientRuns.At(x, events, i), events[i]).Ok?
    requires !k.view.isAnonymous && WritesForgeNothing(k.pki, k.broker)
    ensures SignedPart(x.lib, events[i].rep).Some?
    ensures SignedBy(x.lib.cms, SignedPart(x.lib, events[i].rep).value, v)
    ensures Justified(k, v.signerCert, v.allCerts)
  {
    hide Processed, Validated, SignedBy, VerifySignedData, SignedPart, BrokerAfter, WritesForgeNothing;
    v := AcceptedReplyPassed(x.lib, x.Policy(), ClientRuns.At(x, events, i), events[i].rep, events[i].params,
                             events[i].chain);
    VerifiedExactly(x.lib.cms, SignedPart(x.lib, events[i].rep).value, v);
    AuthenticatedIsJustified(k.pki, k.checks, k.view, k.broker, v.signerCert, v.allCerts, k.now, k.answer, k.write);
  }
}
