/** The greedy glob loop of the match rules, against a declarative glob. */
module Glob {
  import opened Wrappers
  import opened Strings

  /** `pattern` describes all of `s`; `*` stands for any run of characters. */
  ghost predicate Matches(s: string, pattern: string)
    decreases |pattern|
  {
    if pattern == "" then s == ""
    else if pattern[0] == '*' then exists k :: 0 <= k <= |s| && Matches(s[k..], pattern[1..])
    else s != "" && s[0] == pattern[0] && Matches(s[1..], pattern[1..])
  }

  /** `s` cut at `k` into a part described by `p` and a part described by `q`. */
  ghost predicate Cut(s: string, p: string, q: string, k: nat) {
    k <= |s| && Matches(s[..k], p) && Matches(s[k..], q)
  }

  predicate EndsWith(s: string, literal: string) {
    |literal| <= |s| && s[|s| - |literal|..] == literal
  }

  /** `k` is the length of the shortest prefix of `s` that `pattern` describes. */
  ghost predicate Least(s: string, pattern: string, k: nat) {
    k <= |s| && Matches(s[..k], pattern) && forall j :: 0 <= j < k ==> !Matches(s[..j], pattern)
  }

  /** What `simple_match` decides. */
  ghost predicate Accepts(s: string, pattern: string) {
    if '*' !in pattern then Matches(s, "*" + pattern + "*")
    else if pattern[|pattern| - 1] == '*' then Matches(s, pattern)
    else Least(s, pattern, |s|)
  }

  /* ----- Glob algebra ----- */

  lemma {:induction false} MatchesConcat(s: string, p: string, q: string)
    ensures Matches(s, p + q) <==> exists k: nat :: Cut(s, p, q, k)
    decreases |p|
  {
    if p == "" {
      assert p + q == q;
      assert s[..0] == "" && s[0..] == s;
      assert Cut(s, p, q, 0) <==> Matches(s, q);
      assert forall k: nat :: Cut(s, p, q, k) ==> k == 0;
    } else {
      assert (p + q)[1..] == p[1..] + q && (p + q)[0] == p[0];
      if p[0] == '*' {
        StarConcat(s, p, q);
      } else if s != "" && s[0] == p[0] {
        LiteralConcat(s, p, q);
      }
    }
  }

  lemma {:induction false} LiteralConcat(s: string, p: string, q: string)
    requires p != "" && s != "" && s[0] == p[0] != '*'
    ensures Matches(s, p + q) <==> exists k: nat :: Cut(s, p, q, k)
    decreases |p|, 0
  {
    assert (p + q)[1..] == p[1..] + q && (p + q)[0] == p[0];
    MatchesConcat(s[1..], p[1..], q);
    if Matches(s, p + q) {
      var k: nat :| Cut(s[1..], p[1..], q, k);
      assert s[..k + 1][1..] == s[1..][..k] && s[k + 1..] == s[1..][k..];
      assert Cut(s, p, q, k + 1);
    }
    if k: nat :| Cut(s, p, q, k) {
      assert s[..k][1..] == s[1..][..k - 1] && s[k..] == s[1..][k - 1..];
      assert Cut(s[1..], p[1..], q, k - 1);
    }
  }

  lemma {:induction false} StarConcat(s: string, p: string, q: string)
    requires p != "" && p[0] == '*'
    ensures Matches(s, p + q) <==> exists k: nat :: Cut(s, p, q, k)
    decreases |p|, 0
  {
    assert (p + q)[1..] == p[1..] + q && (p + q)[0] == p[0];
    if Matches(s, p + q) {
      var j :| 0 <= j <= |s| && Matches(s[j..], p[1..] + q);
      MatchesConcat(s[j..], p[1..], q);
      var k: nat :| Cut(s[j..], p[1..], q, k);
      assert s[..j + k][j..] == s[j..][..k] && s[j..][k..] == s[j + k..];
      assert Cut(s, p, q, j + k);
    }
    if k: nat :| Cut(s, p, q, k) {
      var j :| 0 <= j <= |s[..k]| && Matches(s[..k][j..], p[1..]);
      assert s[..k][j..] == s[j..][..k - j] && s[k..] == s[j..][k - j..];
      MatchesConcat(s[j..], p[1..], q);
      assert Cut(s[j..], p[1..], q, k - j);
      assert Matches(s[j..], p[1..] + q);
    }
  }

  lemma {:induction false} MatchesLiteral(s: string, literal: string)
    requires '*' !in literal
    ensures Matches(s, literal) <==> s == literal
  {
    if literal == "" {
    } else {
      assert literal[0] in literal;
      if s != "" {
        MatchesLiteral(s[1..], literal[1..]);
        assert s == [s[0]] + s[1..] && literal == [literal[0]] + literal[1..];
      }
    }
  }

  lemma MatchesStar(s: string)
    ensures Matches(s, "*")
  {
    assert s[|s|..] == "";
    assert Matches(s[|s|..], "*"[1..]);
  }

  lemma StarLiteral(s: string, literal: string)
    requires '*' !in literal
    ensures Matches(s, "*" + literal) <==> EndsWith(s, literal)
  {
    assert ("*" + literal)[1..] == literal;
    forall j | 0 <= j <= |s|
      ensures Matches(s[j..], literal) <==> s[j..] == literal
    {
      MatchesLiteral(s[j..], literal);
    }
    if |literal| <= |s| {
      var j := |s| - |literal|;
      assert Matches(s[j..], literal) <==> s[j..] == literal;
    }
  }

  /** `p` followed by `*` and a literal: a prefix described by `p`, and the literal at the end. */
  lemma MatchesStarLiteral(s: string, p: string, literal: string)
    requires '*' !in literal
    ensures Matches(s, p + "*" + literal) <==>
            EndsWith(s, literal) && exists k: nat :: k <= |s| - |literal| && Matches(s[..k], p)
  {
    assert p + "*" + literal == p + ("*" + literal);
    MatchesConcat(s, p, "*" + literal);
    forall k: nat | k <= |s|
      ensures Cut(s, p, "*" + literal, k) <==>
              Matches(s[..k], p) && k <= |s| - |literal| && EndsWith(s, literal)
    {
      StarLiteral(s[k..], literal);
      if k <= |s| - |literal| {
        assert s[k..][|s[k..]| - |literal|..] == s[|s| - |literal|..];
      }
    }
  }

  /* ----- The loop's steps ----- */

  /** The first literal: only the very start of the haystack will do. */
  lemma LeastLiteral(s: string, literal: string)
    requires '*' !in literal && literal != ""
    ensures HasAt(s, literal, 0) ==> Least(s, literal, |literal|)
    ensures !HasAt(s, literal, 0) ==> forall k :: 0 <= k <= |s| ==> !Matches(s[..k], literal)
  {
    forall k | 0 <= k <= |s|
      ensures Matches(s[..k], literal) <==> k == |literal| && HasAt(s, literal, 0)
    {
      MatchesLiteral(s[..k], literal);
    }
  }

  /** Leftmost is optimal: after the shortest prefix for `p`, the first occurrence of the literal. */
  lemma LeastStarLiteral(s: string, p: string, literal: string, pos: nat)
    requires '*' !in literal
    requires Least(s, p, pos)
    ensures var found := Find(s, literal, pos);
            && (found.Some? ==> Least(s, p + "*" + literal, found.value + |literal|))
            && (found.None? ==> forall k :: 0 <= k <= |s| ==> !Matches(s[..k], p + "*" + literal))
    ensures literal == "" ==> Find(s, literal, pos) == Some(pos)
  {
    forall k | 0 <= k <= |s|
      ensures Matches(s[..k], p + "*" + literal) <==> pos + |literal| <= k && HasAt(s, literal, k - |literal|)
    {
      MatchesStarLiteral(s[..k], p, literal);
      assert |literal| <= k ==> s[..k][k - |literal|..] == s[k - |literal|..k];
      forall j: nat | j <= k
        ensures s[..k][..j] == s[..j]
      {
      }
    }
  }

  /** Once some leading parts describe no prefix, the whole pattern describes none. */
  lemma {:induction false} NoPrefixNoMatch(s: string, parts: seq<string>, i: nat)
    requires i < |parts|
    requires forall k :: 0 <= k <= |s| ==> !Matches(s[..k], JoinOn(parts[..i + 1], '*'))
    ensures forall k :: 0 <= k <= |s| ==> !Matches(s[..k], JoinOn(parts, '*'))
    ensures !Matches(s, JoinOn(parts, '*'))
    decreases |parts| - i
  {
    if i + 1 == |parts| {
      assert parts[..i + 1] == parts;
    } else {
      var p, last := JoinOn(parts[..i + 1], '*'), parts[i + 1];
      assert parts[..i + 2][..i + 1] == parts[..i + 1];
      assert JoinOn(parts[..i + 2], '*') == p + ("*" + last);
      forall k | 0 <= k <= |s|
        ensures !Matches(s[..k], JoinOn(parts[..i + 2], '*'))
      {
        MatchesConcat(s[..k], p, "*" + last);
        forall j: nat | j <= k
          ensures !Cut(s[..k], p, "*" + last, j)
        {
          assert s[..k][..j] == s[..j];
        }
      }
      NoPrefixNoMatch(s, parts, i + 1);
    }
    assert s[..|s|] == s;
  }

  /** One round of the loop: the new `pos` is again the least, or nothing matches. */
  lemma LoopStep(s: string, parts: seq<string>, i: nat, pos: nat)
    requires i < |parts| && '*' !in parts[i] && pos <= |s|
    requires if i == 0 then pos == 0 else Least(s, JoinOn(parts[..i], '*'), pos)
    ensures var found, p := Find(s, parts[i], pos), JoinOn(parts[..i + 1], '*');
            && (parts[i] == "" ==> Least(s, p, pos))
            && (found.Some? && (i == 0 ==> found.value == 0) ==> Least(s, p, found.value + |parts[i]|))
            && (found.None? || (i == 0 && found.value != 0) ==> !Matches(s, JoinOn(parts, '*')))
  {
    var found := Find(s, parts[i], pos);
    assert parts[..i + 1] == parts[..i] + [parts[i]];
    if i == 0 {
      if parts[i] != "" {
        LeastLiteral(s, parts[i]);
      } else {
        assert s[..0] == "";
        assert HasAt(s, "", 0);
      }
    } else {
      JoinOnSnoc(parts[..i], parts[i], '*');
      LeastStarLiteral(s, JoinOn(parts[..i], '*'), parts[i], pos);
    }
    if found.None? || (i == 0 && found.value != 0) {
      NoPrefixNoMatch(s, parts, i);
    }
  }

  lemma LeastUnique(s: string, p: string, j: nat, k: nat)
    requires Least(s, p, j) && k <= |s|
    ensures Least(s, p, k) <==> j == k
  {
  }

  lemma TrailingStar(s: string, pattern: string, pos: nat)
    requires pattern != "" && pattern[|pattern| - 1] == '*'
    requires pos <= |s| && Matches(s[..pos], pattern)
    ensures Matches(s, pattern)
  {
    var p := pattern[..|pattern| - 1];
    assert pattern == p + "*";
    MatchesConcat(s[..pos], p, "*");
    var k: nat :| Cut(s[..pos], p, "*", k);
    assert s[..pos][..k] == s[..k];
    MatchesStar(s[k..]);
    assert Cut(s, p, "*", k);
    MatchesConcat(s, p, "*");
  }

  lemma LoopEnd(s: string, pattern: string, parts: seq<string>, pos: nat)
    requires parts == SplitOn(pattern, '*') && '*' in pattern
    requires Least(s, pattern, pos)
    ensures Accepts(s, pattern) <==> parts[|parts| - 1] == "" || pos == |s|
  {
    assert parts[|parts| - 1] == "" <==> pattern[|pattern| - 1] == '*';
    if parts[|parts| - 1] == "" {
      TrailingStar(s, pattern, pos);
    } else {
      LeastUnique(s, pattern, pos, |s|);
    }
  }

  lemma ContainsIsGlob(s: string, literal: string)
    requires '*' !in literal
    ensures Matches(s, "*" + literal + "*") <==> Find(s, literal, 0).Some?
  {
    MatchesConcat(s, "*" + literal, "*");
    forall k: nat | k <= |s|
      ensures Cut(s, "*" + literal, "*", k) <==> |literal| <= k && HasAt(s, literal, k - |literal|)
    {
      StarLiteral(s[..k], literal);
      MatchesStar(s[k..]);
      if |literal| <= k {
        assert s[..k][k - |literal|..] == s[k - |literal|..k];
      }
    }
    var found := Find(s, literal, 0);
    if found.Some? {
      assert Cut(s, "*" + literal, "*", found.value + |literal|);
    }
  }

  /* ----- What the result means ----- */

  /** A haystack that is accepted is a real match; without a `*`, a substring match. */
  lemma AcceptsIsSound(s: string, pattern: string)
    ensures Accepts(s, pattern) ==> Matches(s, if '*' in pattern then pattern else "*" + pattern + "*")
  {
    assert s[..|s|] == s;
  }

  /**
   When the greedy loop misses a match: exactly when the pattern has a `*` but
   no trailing one, and an earlier prefix of the haystack matches as well.
   */
  lemma AcceptsIsComplete(s: string, pattern: string)
    requires '*' in pattern && Matches(s, pattern)
    ensures Accepts(s, pattern) <==>
            pattern[|pattern| - 1] == '*' || !exists k :: 0 <= k < |s| && Matches(s[..k], pattern)
  {
    assert s[..|s|] == s;
  }

  lemma AnyAStarB(s: string)
    requires |s| >= 2 && s[0] == 'a' && s[|s| - 1] == 'b'
    ensures Matches(s, "a*b")
  {
    var p, q := "a*b"[1..], "b";
    assert p[1..] == q && p[0] == '*';
    MatchesLiteral(s[|s| - 1..], q);
    assert s[|s| - 1..] == "b";
    assert s[1..][|s| - 2..] == s[|s| - 1..];
    assert Matches(s[1..], p);
  }

  /** Such a miss: the first `b` is taken for the last one. */
  lemma TrailingLiteralMissed()
    ensures Matches("abab", "a*b") && !Accepts("abab", "a*b")
  {
    AnyAStarB("abab");
    AnyAStarB("ab");
    assert "abab"[..2] == "ab";
    assert "a*b"[1] == '*';
  }

  /* ----- The loop ----- */

  method SimpleMatch(haystack: string, pattern: string) returns (r: bool)
    ensures r <==> Accepts(haystack, pattern)
  {
    if '*' !in pattern {
      ContainsIsGlob(haystack, pattern);
      return Find(haystack, pattern, 0).Some?;
    }
    var parts := SplitOn(pattern, '*');
    JoinSplitOn(pattern, '*');
    SplitOnParts(pattern, '*');
    var pos: nat := 0;
    var i := 0;
    while i < |parts|
      invariant 0 <= i <= |parts| && pos <= |haystack|
      invariant i == 0 ==> pos == 0
      invariant i > 0 ==> Least(haystack, JoinOn(parts[..i], '*'), pos)
    {
      var part := parts[i];
      LoopStep(haystack, parts, i, pos);
      if part != "" {
        var found := Find(haystack, part, pos);
        if found.None? || (i == 0 && found.value != 0) {
          AcceptsIsSound(haystack, pattern);
          return false;
        }
        pos := found.value + |part|;
      }
      i := i + 1;
    }
    assert parts[..|parts|] == parts;
    LoopEnd(haystack, pattern, parts, pos);
    r := parts[|parts| - 1] == "" || pos == |haystack|;
  }
}
