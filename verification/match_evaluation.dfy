/** What a match rule says about a certificate, and the short-circuit evaluation of it. */
module MatchEvaluation {
  import opened Wrappers
  import opened Glob
  import opened MatchRules

  /** The fields the rules look at; reading any of them may fail. */
  datatype Certificate = Certificate(
    subject: Fallible<string>,
    issuer: Fallible<string>,
    pkinitSans: Fallible<seq<string>>,
    upnSans: Fallible<seq<string>>,
    dnsNames: Fallible<seq<string>>,
    ekus: Fallible<seq<seq<nat>>>,
    keyUsage: Fallible<nat>)
  {
    function AllSans(): Fallible<seq<string>> {
      var pkinit :- pkinitSans;
      var upn :- upnSans;
      var dns :- dnsNames;
      Ok(pkinit + upn + dns)
    }

    predicate Readable() {
      subject.Ok? && issuer.Ok? && pkinitSans.Ok? && upnSans.Ok? && dnsNames.Ok? && ekus.Ok? && keyUsage.Ok?
    }
  }

  /** `usage & bits == bits`. */
  predicate HasBits(usage: nat, bits: nat) {
    bits == 0 || ((bits % 2 == 1 ==> usage % 2 == 1) && HasBits(usage / 2, bits / 2))
  }

  ghost predicate SomeAccepted(names: seq<string>, pattern: string) {
    exists i :: 0 <= i < |names| && Accepts(names[i], pattern)
  }

  ghost function LeafAnswer(cert: Certificate, r: MatchRule): Fallible<bool> {
    match r
    case Subject(p) =>
      var name :- cert.subject;
      Ok(Accepts(name, p))
    case Issuer(p) =>
      var name :- cert.issuer;
      Ok(Accepts(name, p))
    case San(p) =>
      var sans :- cert.AllSans();
      Ok(SomeAccepted(sans, p))
    case Eku(arcs) =>
      var ekus :- cert.ekus;
      Ok(arcs in ekus)
    case Ku(bits) =>
      var usage :- cert.keyUsage;
      Ok(HasBits(usage, bits))
    case _ => Err(Config)
  }

  ghost function Leaves(cert: Certificate): MatchRule -> Fallible<bool> {
    r => LeafAnswer(cert, r)
  }

  /** Bit `k` of a number. */
  predicate Bit(n: nat, k: nat) {
    if k == 0 then n % 2 == 1 else Bit(n / 2, k - 1)
  }

  lemma {:induction false} HasBitsAt(usage: nat, bits: nat, k: nat)
    requires HasBits(usage, bits)
    ensures Bit(bits, k) ==> Bit(usage, k)
    decreases k
  {
    if k == 0 {
    } else if bits == 0 {
      HasBitsAt(usage / 2, 0, k - 1);
    } else {
      HasBitsAt(usage / 2, bits / 2, k - 1);
    }
  }

  lemma {:induction false} MissingBit(usage: nat, bits: nat) returns (k: nat)
    requires !HasBits(usage, bits)
    ensures Bit(bits, k) && !Bit(usage, k)
    decreases bits
  {
    if bits % 2 == 1 && usage % 2 == 0 {
      k := 0;
    } else {
      var i := MissingBit(usage / 2, bits / 2);
      k := i + 1;
    }
  }

  /** Bitwise containment. */
  lemma HasBitsExactly(usage: nat, bits: nat)
    ensures HasBits(usage, bits) <==> forall k: nat :: Bit(bits, k) ==> Bit(usage, k)
  {
    if HasBits(usage, bits) {
      forall k: nat
        ensures Bit(bits, k) ==> Bit(usage, k)
      {
        HasBitsAt(usage, bits, k);
      }
    } else {
      var k := MissingBit(usage, bits);
    }
  }

  /**
   Which field each kind of leaf looks at: the subject's or the issuer's name,
   any name of the three SAN lists if all can be read, the EKUs, the key usage.
   */
  lemma LeafAnswers(cert: Certificate, p: string, arcs: seq<nat>, bits: nat)
    ensures LeafAnswer(cert, Subject(p)) == Ok(true) <==> cert.subject.Ok? && Accepts(cert.subject.value, p)
    ensures LeafAnswer(cert, Issuer(p)) == Ok(true) <==> cert.issuer.Ok? && Accepts(cert.issuer.value, p)
    ensures LeafAnswer(cert, San(p)) == Ok(true) <==>
            && cert.pkinitSans.Ok? && cert.upnSans.Ok? && cert.dnsNames.Ok?
            && exists name :: (name in cert.pkinitSans.value || name in cert.upnSans.value
                               || name in cert.dnsNames.value) && Accepts(name, p)
    ensures LeafAnswer(cert, Eku(arcs)) == Ok(true) <==> cert.ekus.Ok? && arcs in cert.ekus.value
    ensures LeafAnswer(cert, Ku(bits)) == Ok(true) <==>
            cert.keyUsage.Ok? && forall k: nat :: Bit(bits, k) ==> Bit(cert.keyUsage.value, k)
  {
    hide Accepts, Bit;
    if cert.keyUsage.Ok? {
      HasBitsExactly(cert.keyUsage.value, bits);
    }
    var sans := cert.AllSans();
    if sans.Ok? {
      var names := sans.value;
      forall name
        ensures name in names <==>
                name in cert.pkinitSans.value || name in cert.upnSans.value || name in cert.dnsNames.value
      {
      }
      if name :| name in names && Accepts(name, p) {
        var i :| 0 <= i < |names| && names[i] == name;
        assert SomeAccepted(names, p);
      }
    }
  }

  method AnyAccepted(names: seq<string>, pattern: string) returns (r: bool)
    ensures r <==> SomeAccepted(names, pattern)
  {
    for i := 0 to |names|
      invariant forall j :: 0 <= j < i ==> !Accepts(names[j], pattern)
    {
      var accepted := SimpleMatch(names[i], pattern);
      if accepted {
        return true;
      }
    }
    r := false;
  }

  method EvaluateRule(rule: MatchRule, cert: Certificate) returns (r: Fallible<bool>)
    ensures r == Evaluate(rule, Leaves(cert))
    decreases rule
  {
    match rule
    case Subject(p) =>
      var name :- cert.subject;
      var b := SimpleMatch(name, p);
      r := Ok(b);
    case Issuer(p) =>
      var name :- cert.issuer;
      var b := SimpleMatch(name, p);
      r := Ok(b);
    case San(p) =>
      var sans :- cert.AllSans();
      var b := AnyAccepted(sans, p);
      r := Ok(b);
    case Eku(arcs) =>
      var ekus :- cert.ekus;
      r := Ok(arcs in ekus);
    case Ku(bits) =>
      var usage :- cert.keyUsage;
      r := Ok(HasBits(usage, bits));
    case And(rules) =>
      for i := 0 to |rules|
        invariant EvaluateList(rule, rules, Leaves(cert), false)
               == EvaluateList(rule, rules[i..], Leaves(cert), false)
      {
        var b :- EvaluateRule(rules[i], cert);
        if !b {
          return Ok(false);
        }
      }
      r := Ok(true);
    case Or(rules) =>
      for i := 0 to |rules|
        invariant EvaluateList(rule, rules, Leaves(cert), true)
               == EvaluateList(rule, rules[i..], Leaves(cert), true)
      {
        var b :- EvaluateRule(rules[i], cert);
        if b {
          return Ok(true);
        }
      }
      r := Ok(false);
  }

  /* ----- The meaning of a rule ----- */

  /** A leaf's condition holds of the certificate; one that cannot be read does not. */
  ghost predicate LeafHolds(cert: Certificate, r: MatchRule) {
    LeafAnswer(cert, r) == Ok(true)
  }

  ghost predicate ConjunctionHolds(cert: Certificate, r: MatchRule) {
    if r.And? then forall i :: 0 <= i < |r.rules| ==> LeafHolds(cert, r.rules[i]) else LeafHolds(cert, r)
  }

  /** Some alternative holds, all of it. */
  ghost predicate Holds(cert: Certificate, r: MatchRule) {
    if r.Or? then exists i :: 0 <= i < |r.rules| && ConjunctionHolds(cert, r.rules[i]) else ConjunctionHolds(cert, r)
  }

  lemma LeafMeans(cert: Certificate, r: MatchRule)
    requires IsLeaf(r)
    ensures Evaluate(r, Leaves(cert)) == LeafAnswer(cert, r)
    ensures cert.Readable() ==> LeafAnswer(cert, r).Ok?
  {
  }

  /** The first element that is not `Ok(!stop)`, or the length. */
  lemma FirstDeciding(parent: MatchRule, rules: seq<MatchRule>, leaf: MatchRule -> Fallible<bool>, stop: bool)
    returns (k: nat)
    requires forall r :: r in rules ==> r < parent
    ensures k <= |rules| && forall i :: 0 <= i < k ==> Evaluate(rules[i], leaf) == Ok(!stop)
    ensures k < |rules| ==> Evaluate(rules[k], leaf) != Ok(!stop)
    ensures EvaluateList(parent, rules, leaf, stop) == if k < |rules| then Evaluate(rules[k], leaf) else Ok(!stop)
  {
    k := 0;
    while k < |rules| && Evaluate(rules[k], leaf) == Ok(!stop)
      invariant k <= |rules| && forall i :: 0 <= i < k ==> Evaluate(rules[i], leaf) == Ok(!stop)
    {
      k := k + 1;
    }
    FirstDecides(parent, rules, leaf, stop, k);
  }

  lemma ConjunctionMeans(cert: Certificate, r: MatchRule)
    requires IsConjunction(r)
    ensures var e := Evaluate(r, Leaves(cert));
            && (e.Ok? ==> (e.value <==> ConjunctionHolds(cert, r)))
            && (cert.Readable() ==> e.Ok?)
  {
    hide LeafAnswer;
    if r.And? {
      forall i | 0 <= i < |r.rules|
        ensures Evaluate(r.rules[i], Leaves(cert)) == LeafAnswer(cert, r.rules[i])
        ensures cert.Readable() ==> LeafAnswer(cert, r.rules[i]).Ok?
      {
        LeafMeans(cert, r.rules[i]);
      }
      var k := FirstDeciding(r, r.rules, Leaves(cert), false);
    } else {
      LeafMeans(cert, r);
    }
  }

  /**
   A rule that evaluates to an answer has the right one, although evaluation
   stops early; and with every field readable there is an answer.
   */
  lemma EvaluationMeans(cert: Certificate, r: MatchRule)
    requires IsCanonical(r)
    ensures var e := Evaluate(r, Leaves(cert));
            && (e.Ok? ==> (e.value <==> Holds(cert, r)))
            && (cert.Readable() ==> e.Ok?)
  {
    hide ConjunctionHolds, LeafAnswer;
    if r.Or? {
      forall i | 0 <= i < |r.rules|
        ensures var e := Evaluate(r.rules[i], Leaves(cert));
                && (e.Ok? ==> (e.value <==> ConjunctionHolds(cert, r.rules[i])))
                && (cert.Readable() ==> e.Ok?)
      {
        ConjunctionMeans(cert, r.rules[i]);
      }
      var k := FirstDeciding(r, r.rules, Leaves(cert), true);
    } else {
      ConjunctionMeans(cert, r);
    }
  }

  /** `CertMatcher`: from the text of a rule to whether a certificate matches it. */
  method MatchesText(text: string, cert: Certificate) returns (r: Fallible<bool>)
    ensures ParseRule(text).Err? ==> r == Err(ParseRule(text).error)
    ensures ParseRule(text).Ok? && r.Ok? ==> (r.value <==> Holds(cert, ParseRule(text).value))
    ensures ParseRule(text).Ok? && cert.Readable() ==> r.Ok?
  {
    hide Evaluate, Holds;
    var rule :- ParseRule(text);
    ParsedRuleIsCanonical(text);
    EvaluationMeans(cert, rule);
    r := EvaluateRule(rule, cert);
  }
}
