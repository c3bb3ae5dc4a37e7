/**
 Certificate match rules: the bracket-aware splitter, the two-level parser, and
 the short-circuit evaluation.
 */
module MatchRules {
  import opened Wrappers
  import opened Strings
  import Der

  datatype MatchRule =
    | Subject(pattern: string)
    | Issuer(pattern: string)
    | San(pattern: string)
    | Eku(arcs: seq<nat>)
    | Ku(bits: nat)
    | And(rules: seq<MatchRule>)
    | Or(rules: seq<MatchRule>)

  /* ----- Splitting ----- */

  /** Open brackets after reading `s`; a stray `>` is ignored. */
  function Depth(s: string): nat {
    if s == "" then 0
    else
      var d := Depth(s[..|s| - 1]);
      if s[|s| - 1] == '<' then d + 1
      else if s[|s| - 1] == '>' && d > 0 then d - 1
      else d
  }

  predicate TopLevelAt(s: string, sep: string, i: nat) {
    i < |s| && HasAt(s, sep, i) && Depth(s[..i + 1]) == 0
  }

  /** The leftmost separator outside brackets, at `from` or later. */
  function FirstTopLevel(s: string, sep: string, from: nat): (r: Option<nat>)
    requires from <= |s|
    ensures r.Some? ==> from <= r.value && TopLevelAt(s, sep, r.value)
    ensures r.Some? ==> forall i :: from <= i < r.value ==> !TopLevelAt(s, sep, i)
    ensures r.None? ==> forall i :: from <= i < |s| ==> !TopLevelAt(s, sep, i)
    decreases |s| - from
  {
    if from == |s| then None
    else if TopLevelAt(s, sep, from) then Some(from)
    else FirstTopLevel(s, sep, from + 1)
  }

  /** Cut at the leftmost top-level separator, and go on with what follows it. */
  function Split(s: string, sep: string): (parts: seq<string>)
    requires sep != ""
    ensures parts != []
  {
    var i := FirstTopLevel(s, sep, 0);
    if i.None? then [s] else [s[..i.value]] + Split(s[i.value + |sep|..], sep)
  }

  lemma DepthOfEmpty()
    ensures Depth("") == 0
  {
  }

  lemma NoCut(s: string, sep: string)
    requires sep != "" && forall j :: 0 <= j < |s| ==> !TopLevelAt(s, sep, j)
    ensures Split(s, sep) == [s]
  {
  }

  lemma DepthStep(s: string, c: char)
    ensures Depth(s + [c])
         == if c == '<' then Depth(s) + 1 else if c == '>' && Depth(s) > 0 then Depth(s) - 1 else Depth(s)
  {
    assert (s + [c])[..|s + [c]| - 1] == s;
  }

  lemma TopLevelShift(input: string, sep: string, last: nat, i: nat)
    requires sep != "" && last <= i < |input|
    ensures TopLevelAt(input[last..], sep, i - last) <==> HasAt(input, sep, i) && Depth(input[last..i + 1]) == 0
  {
    assert input[last..][..i - last + 1] == input[last..i + 1];
    if i + |sep| <= |input| {
      assert input[i..i + |sep|] == input[last..][i - last..i - last + |sep|];
    }
  }

  lemma CutAt(s: string, sep: string, k: nat)
    requires sep != "" && TopLevelAt(s, sep, k)
    requires forall j :: 0 <= j < k ==> !TopLevelAt(s, sep, j)
    ensures Split(s, sep) == [s[..k]] + Split(s[k + |sep|..], sep)
  {
    assert FirstTopLevel(s, sep, 0) == Some(k);
  }

  method SplitTopLevel(input: string, sep: string) returns (parts: seq<string>)
    requires sep != ""
    ensures parts == Split(input, sep)
  {
    hide Split, Depth;
    parts := [];
    DepthOfEmpty();
    var depth := 0;
    var last := 0;
    var i := 0;
    while i < |input|
      invariant 0 <= last <= i <= |input|
      invariant depth == Depth(input[last..i])
      invariant forall j :: 0 <= j < i - last ==> !TopLevelAt(input[last..], sep, j)
      invariant Split(input, sep) == parts + Split(input[last..], sep)
      decreases |input| - i
    {
      DepthStep(input[last..i], input[i]);
      assert input[last..i] + [input[i]] == input[last..i + 1];
      TopLevelShift(input, sep, last, i);
      if input[i] == '<' {
        depth := depth + 1;
      } else if input[i] == '>' {
        depth := if depth > 0 then depth - 1 else 0;
      }
      if depth == 0 && HasAt(input, sep, i) {
        CutAt(input[last..], sep, i - last);
        assert input[last..][..i - last] == input[last..i];
        assert input[last..][i - last + |sep|..] == input[i + |sep|..];
        parts := parts + [input[last..i]];
        last := i + |sep|;
        i := last;
        assert input[last..i] == "";
      } else {
        i := i + 1;
      }
    }
    NoCut(input[last..], sep);
    parts := parts + [input[last..]];
  }

  function Join(parts: seq<string>, sep: string): string
    requires parts != []
  {
    if |parts| == 1 then parts[0] else parts[0] + sep + Join(parts[1..], sep)
  }

  /** Joining the parts with the separator restores the input. */
  lemma {:induction false} JoinOfSplit(s: string, sep: string)
    requires sep != ""
    ensures Join(Split(s, sep), sep) == s
    decreases |s|
  {
    var i := FirstTopLevel(s, sep, 0);
    if i.None? {
    } else {
      var rest := s[i.value + |sep|..];
      JoinOfSplit(rest, sep);
      assert Split(s, sep)[1..] == Split(rest, sep);
      assert s == s[..i.value] + sep + rest;
    }
  }

  /** Cutting short leaves no separator where there was none. */
  lemma PrefixUncut(s: string, sep: string, n: nat)
    requires n <= |s| && forall j :: 0 <= j < n ==> !TopLevelAt(s, sep, j)
    ensures forall j :: 0 <= j < n ==> !TopLevelAt(s[..n], sep, j)
  {
    hide Depth;
    forall j | 0 <= j < n
      ensures !TopLevelAt(s[..n], sep, j)
    {
      assert !TopLevelAt(s, sep, j);
      assert s[..n][..j + 1] == s[..j + 1];
      if j + |sep| <= n {
        assert s[..n][j..j + |sep|] == s[j..j + |sep|];
      }
    }
  }

  /** Splitting a part again by the same separator returns that part alone. */
  lemma {:induction false} SplitOfPart(s: string, sep: string, k: nat)
    requires sep != "" && k < |Split(s, sep)|
    ensures Split(Split(s, sep)[k], sep) == [Split(s, sep)[k]]
    decreases |s|
  {
    var i := FirstTopLevel(s, sep, 0);
    if i.None? {
    } else {
      if k == 0 {
        var part := s[..i.value];
        PrefixUncut(s, sep, i.value);
        assert FirstTopLevel(part, sep, 0).None?;
      } else {
        SplitOfPart(s[i.value + |sep|..], sep, k - 1);
      }
    }
  }

  /* ----- Text that a doubled separator cannot cut ----- */

  function Doubled(c: char): string {
    [c, c]
  }

  /** Balanced, without a top-level `cc`, and not ending in `c`. */
  ghost predicate Closed(s: string, c: char) {
    && Depth(s) == 0
    && (forall i :: 0 <= i < |s| ==> !TopLevelAt(s, Doubled(c), i))
    && (s != "" ==> s[|s| - 1] != c)
  }

  lemma {:induction false} DepthConcat(a: string, b: string)
    requires Depth(a) == 0
    ensures Depth(a + b) == Depth(b)
  {
    if b == "" {
      assert a + b == a;
    } else {
      DepthConcat(a, b[..|b| - 1]);
      assert (a + b)[..|a + b| - 1] == a + b[..|b| - 1];
    }
  }

  /** Where a doubled separator can sit in a concatenation. */
  lemma TopLevelConcat(a: string, b: string, c: char, i: nat)
    requires Closed(a, c)
    ensures i < |a| ==> !TopLevelAt(a + b, Doubled(c), i)
    ensures TopLevelAt(a + b, Doubled(c), |a| + i) <==> TopLevelAt(b, Doubled(c), i)
  {
    var s := a + b;
    if i < |a| {
      assert s[..i + 1] == a[..i + 1];
      assert !TopLevelAt(a, Doubled(c), i);
      if i + 1 < |a| {
        assert a[i..i + 2] == s[i..i + 2];
      } else if i + 2 <= |s| {
        assert s[i..i + 2][0] == s[i] == a[|a| - 1];
      }
    }
    if i < |b| {
      assert s[..|a| + i + 1] == a + b[..i + 1];
      DepthConcat(a, b[..i + 1]);
      if i + 2 <= |b| {
        assert s[|a| + i..|a| + i + 2] == b[i..i + 2];
      }
    }
  }

  lemma ClosedConcat(a: string, b: string, c: char)
    requires Closed(a, c) && Closed(b, c)
    ensures Closed(a + b, c)
  {
    DepthConcat(a, b);
    forall i | 0 <= i < |a + b|
      ensures !TopLevelAt(a + b, Doubled(c), i)
    {
      if i < |a| {
        TopLevelConcat(a, b, c, i);
      } else {
        TopLevelConcat(a, b, c, i - |a|);
      }
    }
  }

  lemma FirstCut(a: string, tail: string, c: char)
    requires Closed(a, c) && c != '<' && c != '>'
    ensures FirstTopLevel(a + (Doubled(c) + tail), Doubled(c), 0) == Some(|a|)
  {
    var sep := Doubled(c);
    var s := a + (sep + tail);
    forall i | 0 <= i < |a|
      ensures !TopLevelAt(s, sep, i)
    {
      TopLevelConcat(a, sep + tail, c, i);
    }
    TopLevelConcat(a, sep + tail, c, 0);
    assert (sep + tail)[..1] == [c] && [c][..0] == "";
    assert Depth([c]) == 0;
    assert HasAt(sep + tail, sep, 0);
  }

  /** Joined closed texts split back into themselves. */
  lemma {:induction false} SplitOfJoin(parts: seq<string>, c: char)
    requires parts != [] && c != '<' && c != '>'
    requires forall i :: 0 <= i < |parts| ==> Closed(parts[i], c)
    ensures Split(Join(parts, Doubled(c)), Doubled(c)) == parts
  {
    var sep := Doubled(c);
    var s := Join(parts, sep);
    if |parts| == 1 {
      assert FirstTopLevel(s, sep, 0).None?;
    } else {
      var tail := Join(parts[1..], sep);
      SplitOfJoin(parts[1..], c);
      FirstCut(parts[0], tail, c);
      assert s == parts[0] + (sep + tail) && s == parts[0] + sep + tail;
      assert s[..|parts[0]|] == parts[0] && s[|parts[0]| + 2..] == tail;
      assert parts == [parts[0]] + parts[1..];
    }
  }

  /* ----- Parsing ----- */

  const U16_LIMIT := 0x1_0000

  function ParseArcs(parts: seq<string>): Option<seq<nat>> {
    if parts == [] then Some([])
    else
      var arc := ParseUnsigned(parts[0], 10, Der.U32_LIMIT);
      var rest := ParseArcs(parts[1..]);
      if arc.None? || rest.None? then None else Some([arc.value] + rest.value)
  }

  /** The rule for a tag and the text after it. */
  function TaggedRule(tag: string, value: string): Fallible<MatchRule> {
    if tag == "SUBJECT" then Ok(Subject(value))
    else if tag == "ISSUER" then Ok(Issuer(value))
    else if tag == "SAN" then Ok(San(value))
    else if tag == "EKU" then
      var arcs := ParseArcs(SplitOn(value, '.'));
      if arcs.None? then Err(Config) else Ok(Eku(arcs.value))
    else if tag == "KU" then
      var bits := ParseUnsigned(value, 16, U16_LIMIT);
      if bits.None? then Err(Config) else Ok(Ku(bits.value))
    else Err(Config)
  }

  function ParseLeaf(text: string): Fallible<MatchRule> {
    var input := Trim(text);
    if input == "" || input[0] != '<' then Err(Config)
    else
      var close := Find(input, ">", 0);
      if close.None? then Err(Config)
      else TaggedRule(input[1..close.value], input[close.value + 1..])
  }

  function ParseLeaves(parts: seq<string>): (r: Fallible<seq<MatchRule>>)
    ensures r.Ok? ==> |r.value| == |parts|
  {
    if parts == [] then Ok([])
    else
      var first :- ParseLeaf(parts[0]);
      var rest :- ParseLeaves(parts[1..]);
      Ok([first] + rest)
  }

  function ParseAnd(text: string): Fallible<MatchRule> {
    var parts := Split(text, "&&");
    if |parts| == 1 then ParseLeaf(parts[0])
    else
      var rules :- ParseLeaves(parts);
      Ok(And(rules))
  }

  function ParseAnds(parts: seq<string>): (r: Fallible<seq<MatchRule>>)
    ensures r.Ok? ==> |r.value| == |parts|
  {
    if parts == [] then Ok([])
    else
      var first :- ParseAnd(parts[0]);
      var rest :- ParseAnds(parts[1..]);
      Ok([first] + rest)
  }

  function ParseOr(text: string): Fallible<MatchRule> {
    var parts := Split(text, "||");
    if |parts| == 1 then ParseAnd(parts[0])
    else
      var rules :- ParseAnds(parts);
      Ok(Or(rules))
  }

  function ParseRule(text: string): Fallible<MatchRule> {
    ParseOr(Trim(text))
  }

  /* ----- Which texts parse, and to what ----- */

  /** The five tags; an EKU's arcs are separated by dots, and a key usage is hexadecimal. */
  predicate IsTagged(tag: string, value: string, r: MatchRule) {
    match r
    case Subject(p) => tag == "SUBJECT" && value == p
    case Issuer(p) => tag == "ISSUER" && value == p
    case San(p) => tag == "SAN" && value == p
    case Eku(arcs) => tag == "EKU" && ParseArcs(SplitOn(value, '.')) == Some(arcs)
    case Ku(bits) => tag == "KU" && ParseUnsigned(value, 16, U16_LIMIT) == Some(bits)
    case _ => false
  }

  lemma TaggedExactly(tag: string, value: string, r: MatchRule)
    ensures TaggedRule(tag, value) == Ok(r) <==> IsTagged(tag, value, r)
  {
    hide ParseArcs, ParseUnsigned, SplitOn;
  }

  predicate IsLeafText(text: string, tag: string, value: string) {
    '>' !in tag && Trim(text) == "<" + tag + ">" + value
  }

  lemma CutAround(s: string, k: nat)
    requires 1 <= k < |s|
    ensures s == [s[0]] + s[1..k] + [s[k]] + s[k + 1..]
  {
  }

  lemma NoneBefore(s: string, c: char, from: nat, k: nat)
    requires from <= k <= |s| && forall i :: from <= i < k ==> s[i] != c
    ensures c !in s[from..k]
  {
  }

  lemma CharAt(s: string, c: char, i: nat)
    ensures HasAt(s, [c], i) <==> i < |s| && s[i] == c
  {
    if i < |s| {
      assert s[i..i + 1] == [s[i]];
    }
  }

  /** The bracket that closes the tag is the first one. */
  lemma LeafTextCut(input: string)
    requires input != "" && input[0] == '<' && Find(input, ">", 0).Some?
    ensures var close := Find(input, ">", 0).value;
            1 <= close < |input| && '>' !in input[1..close]
            && input == "<" + input[1..close] + ">" + input[close + 1..]
  {
    var close := Find(input, ">", 0).value;
    assert ">" == ['>'] && "<" == ['<'];
    forall i: nat
      ensures HasAt(input, ">", i) <==> i < |input| && input[i] == '>'
    {
      CharAt(input, '>', i);
    }
    assert HasAt(input, ">", close);
    forall i | 1 <= i < close
      ensures input[i] != '>'
    {
      assert !HasAt(input, ">", i);
    }
    hide HasAt, Find;
    NoneBefore(input, '>', 1, close);
    CutAround(input, close);
  }

  lemma LeafTextUnique(input: string, tag: string, value: string)
    requires '>' !in tag && input == "<" + tag + ">" + value
    ensures Find(input, ">", 0) == Some(|tag| + 1) && input[1..|tag| + 1] == tag && input[|tag| + 2..] == value
  {
    forall i | 0 <= i <= |tag|
      ensures !HasAt(input, ">", i)
    {
      if i > 0 {
        assert input[i] == tag[i - 1];
      }
      assert input[i..i + 1] == [input[i]];
    }
    assert input[|tag| + 1..|tag| + 2] == ">";
    assert HasAt(input, ">", |tag| + 1);
  }

  /** A leaf parses exactly if it is `<TAG>value` for one of the tags, white space around it aside. */
  lemma LeafExactly(text: string, r: MatchRule)
    ensures ParseLeaf(text) == Ok(r) <==>
            exists tag, value :: IsLeafText(text, tag, value) && IsTagged(tag, value, r)
  {
    hide TaggedRule, IsTagged, Trim, Find;
    var input := Trim(text);
    if input != "" && input[0] == '<' && Find(input, ">", 0).Some? {
      LeafTextCut(input);
      var close := Find(input, ">", 0).value;
      TaggedExactly(input[1..close], input[close + 1..], r);
      assert IsLeafText(text, input[1..close], input[close + 1..]);
    }
    if tag, value :| IsLeafText(text, tag, value) && IsTagged(tag, value, r) {
      LeafTextUnique(input, tag, value);
      TaggedExactly(tag, value, r);
    }
  }

  lemma {:induction false} LeavesExactly(parts: seq<string>, rules: seq<MatchRule>)
    ensures ParseLeaves(parts) == Ok(rules) <==>
            |rules| == |parts| && forall i :: 0 <= i < |parts| ==> ParseLeaf(parts[i]) == Ok(rules[i])
  {
    hide ParseLeaf;
    if parts == [] || rules == [] {
    } else {
      LeavesExactly(parts[1..], rules[1..]);
      assert rules == [rules[0]] + rules[1..];
    }
  }

  lemma {:induction false} ConjunctionsExactly(parts: seq<string>, rules: seq<MatchRule>)
    ensures ParseAnds(parts) == Ok(rules) <==>
            |rules| == |parts| && forall i :: 0 <= i < |parts| ==> ParseAnd(parts[i]) == Ok(rules[i])
  {
    hide ParseAnd;
    if parts == [] || rules == [] {
    } else {
      ConjunctionsExactly(parts[1..], rules[1..]);
      assert rules == [rules[0]] + rules[1..];
    }
  }

  /** The text of a conjunction: one leaf, or several with `&&` between them. */
  ghost predicate IsAndText(text: string, r: MatchRule) {
    var parts := Split(text, "&&");
    if |parts| == 1 then ParseLeaf(text) == Ok(r)
    else r.And? && |r.rules| == |parts| && forall i :: 0 <= i < |parts| ==> ParseLeaf(parts[i]) == Ok(r.rules[i])
  }

  /** The text of a rule: one conjunction, or several with `||` between them. */
  ghost predicate IsOrText(text: string, r: MatchRule) {
    var parts := Split(text, "||");
    if |parts| == 1 then IsAndText(text, r)
    else r.Or? && |r.rules| == |parts| && forall i :: 0 <= i < |parts| ==> IsAndText(parts[i], r.rules[i])
  }

  lemma SinglePart(s: string, sep: string)
    requires sep != ""
    ensures |Split(s, sep)| == 1 ==> Split(s, sep)[0] == s
  {
    JoinOfSplit(s, sep);
  }

  lemma AndExactly(text: string, r: MatchRule)
    ensures ParseAnd(text) == Ok(r) <==> IsAndText(text, r)
  {
    hide ParseLeaf, Split;
    SinglePart(text, "&&");
    if r.And? {
      LeavesExactly(Split(text, "&&"), r.rules);
    }
  }

  /** `||` binds weaker than `&&`, and both are cut outside brackets only. */
  lemma RuleExactly(text: string, r: MatchRule)
    ensures ParseRule(text) == Ok(r) <==> IsOrText(Trim(text), r)
  {
    hide ParseAnd, IsAndText, Split, Trim;
    var input := Trim(text);
    SinglePart(input, "||");
    AndExactly(input, r);
    if r.Or? {
      ConjunctionsExactly(Split(input, "||"), r.rules);
      forall i | 0 <= i < |Split(input, "||")| && i < |r.rules|
        ensures ParseAnd(Split(input, "||")[i]) == Ok(r.rules[i]) <==> IsAndText(Split(input, "||")[i], r.rules[i])
      {
        AndExactly(Split(input, "||")[i], r.rules[i]);
      }
    }
  }

  /* ----- The shape of parsed rules ----- */

  predicate IsLeaf(r: MatchRule) {
    match r
    case And(_) => false
    case Or(_) => false
    case Eku(arcs) => arcs != [] && forall i :: 0 <= i < |arcs| ==> arcs[i] < Der.U32_LIMIT
    case Ku(bits) => bits < U16_LIMIT
    case _ => true
  }

  predicate IsConjunction(r: MatchRule) {
    IsLeaf(r) || (r.And? && |r.rules| >= 2 && forall i :: 0 <= i < |r.rules| ==> IsLeaf(r.rules[i]))
  }

  /** A leaf, an And of leaves, or an Or of those; never nested deeper. */
  predicate IsCanonical(r: MatchRule) {
    IsConjunction(r) || (r.Or? && |r.rules| >= 2 && forall i :: 0 <= i < |r.rules| ==> IsConjunction(r.rules[i]))
  }

  lemma {:induction false} ParsedArcs(parts: seq<string>)
    ensures ParseArcs(parts).Some? ==>
              |ParseArcs(parts).value| == |parts|
              && forall i :: 0 <= i < |parts| ==> ParseArcs(parts).value[i] < Der.U32_LIMIT
  {
    if parts == [] {
    } else {
      ParsedArcs(parts[1..]);
    }
  }

  lemma ParsedLeaf(text: string)
    ensures ParseLeaf(text).Ok? ==> IsLeaf(ParseLeaf(text).value)
  {
    var input := Trim(text);
    if input != "" && input[0] == '<' && Find(input, ">", 0).Some? {
      ParsedArcs(SplitOn(input[Find(input, ">", 0).value + 1..], '.'));
    }
  }

  lemma {:induction false} ParsedLeaves(parts: seq<string>)
    ensures ParseLeaves(parts).Ok? ==> forall i :: 0 <= i < |parts| ==> IsLeaf(ParseLeaves(parts).value[i])
  {
    if parts == [] {
    } else {
      ParsedLeaf(parts[0]);
      ParsedLeaves(parts[1..]);
    }
  }

  lemma ParsedConjunction(text: string)
    ensures ParseAnd(text).Ok? ==> IsConjunction(ParseAnd(text).value)
  {
    var parts := Split(text, "&&");
    ParsedLeaf(parts[0]);
    ParsedLeaves(parts);
  }

  lemma {:induction false} ParsedConjunctions(parts: seq<string>)
    ensures ParseAnds(parts).Ok? ==> forall i :: 0 <= i < |parts| ==> IsConjunction(ParseAnds(parts).value[i])
  {
    if parts == [] {
    } else {
      ParsedConjunction(parts[0]);
      ParsedConjunctions(parts[1..]);
    }
  }

  /** Whatever the text, a rule that parses is an Or of Ands of leaves. */
  lemma ParsedRuleIsCanonical(text: string)
    ensures ParseRule(text).Ok? ==> IsCanonical(ParseRule(text).value)
  {
    var parts := Split(Trim(text), "||");
    ParsedConjunction(parts[0]);
    ParsedConjunctions(parts);
  }

  /* ----- Printing, and parsing what was printed ----- */

  function Numerals(arcs: seq<nat>): seq<string> {
    seq(|arcs|, i requires 0 <= i < |arcs| => Numeral(arcs[i], 10))
  }

  function Tag(r: MatchRule): string
    requires IsLeaf(r)
  {
    match r
    case Subject(_) => "SUBJECT"
    case Issuer(_) => "ISSUER"
    case San(_) => "SAN"
    case Eku(_) => "EKU"
    case Ku(_) => "KU"
  }

  function Value(r: MatchRule): string
    requires IsLeaf(r)
  {
    match r
    case Subject(p) => p
    case Issuer(p) => p
    case San(p) => p
    case Eku(arcs) => JoinOn(Numerals(arcs), '.')
    case Ku(bits) => Numeral(bits, 16)
  }

  function LeafText(tag: string, value: string): string {
    "<" + tag + ">" + value
  }

  function PrintLeaf(r: MatchRule): string
    requires IsLeaf(r)
  {
    LeafText(Tag(r), Value(r))
  }

  function PrintAnd(r: MatchRule): string
    requires IsConjunction(r)
  {
    if r.And? then Join(seq(|r.rules|, i requires 0 <= i < |r.rules| => PrintLeaf(r.rules[i])), "&&")
    else PrintLeaf(r)
  }

  function Print(r: MatchRule): string
    requires IsCanonical(r)
  {
    if r.Or? then Join(seq(|r.rules|, i requires 0 <= i < |r.rules| => PrintAnd(r.rules[i])), "||")
    else PrintAnd(r)
  }

  /** No bracket, no separator, and no ending that a following separator or `trim` would touch. */
  ghost predicate PlainValue(v: string) {
    && '<' !in v
    && (forall i :: 0 <= i < |v| ==> !HasAt(v, "||", i) && !HasAt(v, "&&", i))
    && (v != "" ==> v[|v| - 1] != '|' && v[|v| - 1] != '&' && !IsWhitespace(v[|v| - 1]))
  }

  ghost predicate PlainLeaf(r: MatchRule)
    requires IsLeaf(r)
  {
    PlainValue(Value(r))
  }

  ghost predicate PlainConjunction(r: MatchRule)
    requires IsConjunction(r)
  {
    if r.And? then forall i :: 0 <= i < |r.rules| ==> PlainLeaf(r.rules[i]) else PlainLeaf(r)
  }

  ghost predicate Plain(r: MatchRule)
    requires IsCanonical(r)
  {
    if r.Or? then forall i :: 0 <= i < |r.rules| ==> PlainConjunction(r.rules[i]) else PlainConjunction(r)
  }

  /** Text that `trim` leaves alone. */
  predicate Trimmed(s: string) {
    s != "" && s[0] == '<' && !IsWhitespace(s[|s| - 1])
  }

  ghost predicate Solid(s: string) {
    Trimmed(s) && Closed(s, '|')
  }

  lemma {:induction false} FlatDepth(s: string, open: bool)
    requires '<' !in s && (open ==> '>' !in s)
    ensures !open ==> Depth(s) == 0
    ensures open ==> Depth("<" + s) == 1
  {
    if s == "" {
      assert "<" + s == "<" && "<"[..0] == "";
    } else {
      assert s[|s| - 1] in s;
      FlatDepth(s[..|s| - 1], open);
      assert ("<" + s)[..|"<" + s| - 1] == "<" + s[..|s| - 1];
    }
  }

  lemma TagDepth(tag: string)
    requires '<' !in tag && '>' !in tag
    ensures Depth("<" + tag + ">") == 0
  {
    var head := "<" + tag + ">";
    FlatDepth(tag, true);
    assert head[..|head| - 1] == "<" + tag;
  }

  lemma InsideTag(tag: string, i: nat)
    requires '<' !in tag && '>' !in tag && i <= |tag|
    ensures Depth(("<" + tag + ">")[..i + 1]) == 1
  {
    FlatDepth(tag[..i], true);
    assert ("<" + tag + ">")[..i + 1] == "<" + tag[..i];
  }

  lemma LeafTextClosed(tag: string, value: string, c: char)
    requires '<' !in tag && '>' !in tag && '<' !in value && c != '<' && c != '>'
    requires forall i :: 0 <= i < |value| ==> !HasAt(value, Doubled(c), i)
    requires value != "" ==> value[|value| - 1] != c
    ensures Closed(LeafText(tag, value), c)
  {
    var head := "<" + tag + ">";
    TagDepth(tag);
    forall i | 0 <= i < |head|
      ensures !TopLevelAt(head, Doubled(c), i)
    {
      if i <= |tag| {
        InsideTag(tag, i);
      } else {
        assert head[i] == '>';
      }
    }
    assert Closed(head, c);
    FlatDepth(value, false);
    assert Closed(value, c);
    ClosedConcat(head, value, c);
  }

  lemma PlainLeafText(r: MatchRule)
    requires IsLeaf(r) && PlainLeaf(r)
    ensures Solid(PrintLeaf(r)) && Closed(PrintLeaf(r), '&')
  {
    assert Doubled('|') == "||" && Doubled('&') == "&&";
    LeafTextClosed(Tag(r), Value(r), '|');
    LeafTextClosed(Tag(r), Value(r), '&');
  }

  lemma {:induction false} NumeralsParse(arcs: seq<nat>)
    requires forall i :: 0 <= i < |arcs| ==> arcs[i] < Der.U32_LIMIT
    ensures ParseArcs(Numerals(arcs)) == Some(arcs)
  {
    if arcs == [] {
    } else {
      NumeralRoundTrip(arcs[0], 10, Der.U32_LIMIT);
      NumeralsParse(arcs[1..]);
      assert Numerals(arcs)[1..] == Numerals(arcs[1..]);
      assert arcs == [arcs[0]] + arcs[1..];
    }
  }

  lemma ValueParses(r: MatchRule)
    requires IsLeaf(r)
    ensures r.Eku? ==> ParseArcs(SplitOn(Value(r), '.')) == Some(r.arcs)
    ensures r.Ku? ==> ParseUnsigned(Value(r), 16, U16_LIMIT) == Some(r.bits)
  {
    if r.Eku? {
      forall i | 0 <= i < |r.arcs|
        ensures '.' !in Numerals(r.arcs)[i]
      {
        NumeralDigits(r.arcs[i], 10);
      }
      SplitJoinOn(Numerals(r.arcs), '.');
      NumeralsParse(r.arcs);
    } else if r.Ku? {
      NumeralRoundTrip(r.bits, 16, U16_LIMIT);
    }
  }

  lemma FindClose(tag: string, value: string)
    requires '>' !in tag
    ensures Find(LeafText(tag, value), ">", 0) == Some(|tag| + 1)
  {
    var s := LeafText(tag, value);
    forall i | 0 <= i <= |tag|
      ensures !HasAt(s, ">", i)
    {
      if i > 0 {
        assert s[i] == tag[i - 1];
      }
      assert s[i..i + 1] == [s[i]];
    }
    assert s[|tag| + 1..|tag| + 2] == ">";
    assert HasAt(s, ">", |tag| + 1);
  }

  lemma LeafTextParts(tag: string, value: string)
    requires '>' !in tag && Trimmed(LeafText(tag, value))
    ensures ParseLeaf(LeafText(tag, value)) == TaggedRule(tag, value)
  {
    hide TaggedRule;
    var s := LeafText(tag, value);
    FindClose(tag, value);
    assert s[1..|tag| + 1] == tag && s[|tag| + 2..] == value;
  }

  lemma TaggedRuleOf(r: MatchRule)
    requires IsLeaf(r)
    ensures TaggedRule(Tag(r), Value(r)) == Ok(r)
  {
    ValueParses(r);
  }

  lemma PrintedLeafParses(r: MatchRule)
    requires IsLeaf(r) && PlainLeaf(r)
    ensures ParseLeaf(PrintLeaf(r)) == Ok(r)
  {
    PlainLeafText(r);
    LeafTextParts(Tag(r), Value(r));
    TaggedRuleOf(r);
  }

  lemma AmpersandsClosed()
    ensures Closed("&&", '|')
  {
    assert "&&"[..1] == "&" && "&"[..0] == "";
    assert Depth("&") == 0;
    assert Depth("&&") == 0;
    assert !HasAt("&&", Doubled('|'), 0);
  }

  /** Leaves' texts, joined by `&&`, make solid text that splits into them again. */
  lemma {:induction false} JoinedLeaves(texts: seq<string>)
    requires texts != [] && forall i :: 0 <= i < |texts| ==> Solid(texts[i])
    ensures Solid(Join(texts, "&&"))
  {
    if |texts| == 1 {
    } else {
      JoinedLeaves(texts[1..]);
      AmpersandsClosed();
      ClosedConcat(texts[0], "&&", '|');
      ClosedConcat(texts[0] + "&&", Join(texts[1..], "&&"), '|');
    }
  }

  lemma {:induction false} LeavesParse(rules: seq<MatchRule>, texts: seq<string>)
    requires |rules| == |texts|
    requires forall i :: 0 <= i < |rules| ==> ParseLeaf(texts[i]) == Ok(rules[i])
    ensures ParseLeaves(texts) == Ok(rules)
  {
    hide ParseLeaf;
    if rules == [] {
    } else {
      LeavesParse(rules[1..], texts[1..]);
      assert rules == [rules[0]] + rules[1..];
    }
  }

  lemma PrintedConjunctionParses(r: MatchRule)
    requires IsConjunction(r) && PlainConjunction(r)
    ensures Solid(PrintAnd(r)) && ParseAnd(PrintAnd(r)) == Ok(r)
  {
    assert Doubled('&') == "&&";
    if r.And? {
      var texts := seq(|r.rules|, i requires 0 <= i < |r.rules| => PrintLeaf(r.rules[i]));
      forall i | 0 <= i < |texts|
        ensures Solid(texts[i]) && Closed(texts[i], '&')
      {
        PlainLeafText(r.rules[i]);
      }
      JoinedLeaves(texts);
      SplitOfJoin(texts, '&');
      forall i | 0 <= i < |texts|
        ensures ParseLeaf(texts[i]) == Ok(r.rules[i])
      {
        PrintedLeafParses(r.rules[i]);
      }
      LeavesParse(r.rules, texts);
    } else {
      PlainLeafText(r);
      SplitOfJoin([PrintLeaf(r)], '&');
      PrintedLeafParses(r);
    }
  }

  lemma {:induction false} ConjunctionsParse(rules: seq<MatchRule>, texts: seq<string>)
    requires |rules| == |texts|
    requires forall i :: 0 <= i < |rules| ==> ParseAnd(texts[i]) == Ok(rules[i])
    ensures ParseAnds(texts) == Ok(rules)
  {
    hide ParseAnd;
    if rules == [] {
    } else {
      ConjunctionsParse(rules[1..], texts[1..]);
      assert rules == [rules[0]] + rules[1..];
    }
  }

  lemma {:induction false} JoinedEnds(texts: seq<string>, sep: string)
    requires texts != [] && forall i :: 0 <= i < |texts| ==> Solid(texts[i])
    ensures Trimmed(Join(texts, sep))
  {
    if |texts| == 1 {
    } else {
      JoinedEnds(texts[1..], sep);
    }
  }

  lemma PrintedDisjunctionParses(r: MatchRule)
    requires IsCanonical(r) && Plain(r) && r.Or?
    ensures Trimmed(Print(r)) && ParseOr(Print(r)) == Ok(r)
  {
    var texts := seq(|r.rules|, i requires 0 <= i < |r.rules| => PrintAnd(r.rules[i]));
    forall i | 0 <= i < |texts|
      ensures Solid(texts[i]) && ParseAnd(texts[i]) == Ok(r.rules[i])
    {
      PrintedConjunctionParses(r.rules[i]);
    }
    ConjunctionsParse(r.rules, texts);
    JoinedEnds(texts, "||");
    assert Doubled('|') == "||";
    SplitOfJoin(texts, '|');
  }

  /** Printing a canonical rule with plain values and parsing the text restores it. */
  lemma PrintedRuleParses(r: MatchRule)
    requires IsCanonical(r) && Plain(r)
    ensures ParseRule(Print(r)) == Ok(r)
  {
    if r.Or? {
      PrintedDisjunctionParses(r);
    } else {
      PrintedConjunctionParses(r);
      assert Doubled('|') == "||";
      SplitOfJoin([PrintAnd(r)], '|');
    }
  }

  /* ----- Evaluation ----- */

  /** `evaluate`, over the library's answers for the leaves; the first error or decision wins. */
  function Evaluate(r: MatchRule, leaf: MatchRule -> Fallible<bool>): Fallible<bool>
    decreases r, 1
  {
    match r
    case And(rules) => EvaluateList(r, rules, leaf, false)
    case Or(rules) => EvaluateList(r, rules, leaf, true)
    case _ => leaf(r)
  }

  /** Stop at the first element that errs or yields `stop`. */
  function EvaluateList(parent: MatchRule, rules: seq<MatchRule>, leaf: MatchRule -> Fallible<bool>, stop: bool)
    : Fallible<bool>
    requires forall r :: r in rules ==> r < parent
    decreases parent, 0, |rules|
  {
    if rules == [] then Ok(!stop)
    else
      assert rules[0] in rules && forall r :: r in rules[1..] ==> r in rules;
      var first :- Evaluate(rules[0], leaf);
      if first == stop then Ok(stop) else EvaluateList(parent, rules[1..], leaf, stop)
  }

  /**
   A list is decided by its first element that is not `Ok(!stop)`; with none,
   the answer is `!stop`.
   */
  lemma {:induction false} FirstDecides(parent: MatchRule, rules: seq<MatchRule>, leaf: MatchRule -> Fallible<bool>,
                                        stop: bool, k: nat)
    requires forall r :: r in rules ==> r < parent
    requires k <= |rules| && forall i :: 0 <= i < k ==> Evaluate(rules[i], leaf) == Ok(!stop)
    requires k < |rules| ==> Evaluate(rules[k], leaf) != Ok(!stop)
    ensures EvaluateList(parent, rules, leaf, stop) == if k < |rules| then Evaluate(rules[k], leaf) else Ok(!stop)
  {
    if k == 0 {
    } else {
      assert forall r :: r in rules[1..] ==> r in rules;
      FirstDecides(parent, rules[1..], leaf, stop, k - 1);
    }
  }
}
