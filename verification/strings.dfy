/** The string library operations that the matching code calls. */
module Strings {
  import opened Wrappers

  predicate HasAt(s: string, needle: string, i: nat) {
    i + |needle| <= |s| && s[i..i + |needle|] == needle
  }

  /** `str::find`, starting at `from`: the leftmost occurrence. */
  function Find(s: string, needle: string, from: nat): (r: Option<nat>)
    requires from <= |s|
    ensures r.Some? ==> from <= r.value && HasAt(s, needle, r.value)
    ensures r.Some? ==> forall i :: from <= i < r.value ==> !HasAt(s, needle, i)
    ensures r.None? ==> forall i :: from <= i ==> !HasAt(s, needle, i)
    decreases |s| - from
  {
    if HasAt(s, needle, from) then Some(from)
    else if from == |s| then None
    else Find(s, needle, from + 1)
  }

  /** `parts` with `tail` appended to the last of them. */
  function ExtendLast(parts: seq<string>, tail: string): seq<string>
    requires parts != []
  {
    parts[..|parts| - 1] + [parts[|parts| - 1] + tail]
  }

  /** `str::split` on one character. */
  function SplitOn(s: string, c: char): (parts: seq<string>)
    ensures parts != []
  {
    if s == "" then [""]
    else
      var front := SplitOn(s[..|s| - 1], c);
      if s[|s| - 1] == c then front + [""]
      else ExtendLast(front, [s[|s| - 1]])
  }

  lemma {:induction false} SplitOnParts(s: string, c: char)
    ensures forall i :: 0 <= i < |SplitOn(s, c)| ==> c !in SplitOn(s, c)[i]
  {
    if s == "" {
    } else {
      SplitOnParts(s[..|s| - 1], c);
    }
  }

  function JoinOn(parts: seq<string>, c: char): string
    requires parts != []
  {
    if |parts| == 1 then parts[0]
    else JoinOn(parts[..|parts| - 1], c) + [c] + parts[|parts| - 1]
  }

  lemma {:induction false} JoinSplitOn(s: string, c: char)
    ensures JoinOn(SplitOn(s, c), c) == s
  {
    if s == "" {
    } else {
      var front := SplitOn(s[..|s| - 1], c);
      var parts := SplitOn(s, c);
      JoinSplitOn(s[..|s| - 1], c);
      if s[|s| - 1] == c {
        assert parts[..|parts| - 1] == front;
        assert JoinOn(parts, c) == JoinOn(front, c) + [c] + "";
      } else if |front| > 1 {
        assert parts[..|parts| - 1] == front[..|front| - 1];
      }
    }
  }

  lemma SplitOnSnoc(s: string, x: char, c: char)
    ensures var front := SplitOn(s, c);
            SplitOn(s + [x], c)
            == if x == c then front + [""] else ExtendLast(front, [x])
  {
    assert (s + [x])[..|s + [x]| - 1] == s;
  }

  lemma JoinOnSnoc(front: seq<string>, last: string, c: char)
    requires front != []
    ensures JoinOn(front + [last], c) == JoinOn(front, c) + [c] + last
  {
    assert (front + [last])[..|front + [last]| - 1] == front;
  }

  lemma ExtendLastTwice(parts: seq<string>, x: string, y: string)
    requires parts != []
    ensures ExtendLast(ExtendLast(parts, x), y) == ExtendLast(parts, x + y)
  {
    assert parts[|parts| - 1] + x + y == parts[|parts| - 1] + (x + y);
  }

  lemma ExtendLastEmpty(parts: seq<string>)
    requires parts != []
    ensures ExtendLast(parts, "") == parts
  {
    assert parts[|parts| - 1] + "" == parts[|parts| - 1];
  }

  lemma SplitOnSnocOther(s: string, init: string, x: char, c: char)
    requires x != c && SplitOn(s + init, c) == ExtendLast(SplitOn(s, c), init)
    ensures SplitOn(s + (init + [x]), c) == ExtendLast(SplitOn(s, c), init + [x])
  {
    assert s + (init + [x]) == s + init + [x];
    SplitOnSnoc(s + init, x, c);
    ExtendLastTwice(SplitOn(s, c), init, [x]);
  }

  lemma {:induction false} SplitOnAppend(s: string, last: string, c: char)
    requires c !in last
    ensures SplitOn(s + last, c) == ExtendLast(SplitOn(s, c), last)
  {
    if last == "" {
      assert s + last == s;
      ExtendLastEmpty(SplitOn(s, c));
    } else {
      var init, x := last[..|last| - 1], last[|last| - 1];
      assert last == init + [x];
      assert c !in init && x != c by {
        assert x in last;
      }
      SplitOnAppend(s, init, c);
      SplitOnSnocOther(s, init, x, c);
    }
  }

  lemma SplitOnNextPart(s: string, front: seq<string>, last: string, c: char)
    requires SplitOn(s, c) == front && c !in last
    ensures SplitOn(s + [c] + last, c) == front + [last]
  {
    SplitOnSnoc(s, c, c);
    SplitOnAppend(s + [c], last, c);
    assert "" + last == last;
    assert (front + [""])[..|front|] == front;
  }

  lemma {:induction false} SplitJoinOn(parts: seq<string>, c: char)
    requires parts != []
    requires forall i :: 0 <= i < |parts| ==> c !in parts[i]
    ensures SplitOn(JoinOn(parts, c), c) == parts
  {
    var front, last := parts[..|parts| - 1], parts[|parts| - 1];
    assert front + [last] == parts;
    if front == [] {
      SplitOnAppend("", last, c);
      assert "" + last == last;
    } else {
      SplitJoinOn(front, c);
      SplitOnNextPart(JoinOn(front, c), front, last, c);
    }
  }

  /** `char::is_whitespace` (the Unicode White_Space property). */
  predicate IsWhitespace(c: char) {
    var n := c as int;
    9 <= n <= 13 || n == 0x20 || n == 0x85 || n == 0xA0 || n == 0x1680 || 0x2000 <= n <= 0x200A
    || n == 0x2028 || n == 0x2029 || n == 0x202F || n == 0x205F || n == 0x3000
  }

  /** `str::trim`. */
  function Trim(s: string): string {
    if s != "" && IsWhitespace(s[0]) then Trim(s[1..])
    else if s != "" && IsWhitespace(s[|s| - 1]) then Trim(s[..|s| - 1])
    else s
  }

  /** The 25 characters with the White_Space property. */
  lemma WhitespaceExactly(c: char)
    ensures IsWhitespace(c) <==>
            c as int in {0x09, 0x0A, 0x0B, 0x0C, 0x0D, 0x20, 0x85, 0xA0, 0x1680, 0x2000, 0x2001, 0x2002, 0x2003, 0x2004,
                         0x2005, 0x2006, 0x2007, 0x2008, 0x2009, 0x200A, 0x2028, 0x2029, 0x202F, 0x205F, 0x3000}
  {
  }

  predicate AllWhitespace(s: string) {
    forall i :: 0 <= i < |s| ==> IsWhitespace(s[i])
  }

  predicate IsTrimmed(s: string) {
    s != "" ==> !IsWhitespace(s[0]) && !IsWhitespace(s[|s| - 1])
  }

  lemma {:induction false} TrimLeaves(s: string) returns (before: string, after: string)
    ensures AllWhitespace(before) && AllWhitespace(after) && s == before + Trim(s) + after && IsTrimmed(Trim(s))
    decreases |s|
  {
    hide IsWhitespace;
    if s != "" && IsWhitespace(s[0]) {
      before, after := TrimLeaves(s[1..]);
      before := [s[0]] + before;
      assert s == [s[0]] + s[1..];
    } else if s != "" && IsWhitespace(s[|s| - 1]) {
      before, after := TrimLeaves(s[..|s| - 1]);
      after := after + [s[|s| - 1]];
      assert s == s[..|s| - 1] + [s[|s| - 1]];
    } else {
      before, after := "", "";
      assert s == "" + s + "";
    }
  }

  /** Only white space is taken away, and all of it at both ends. */
  lemma {:induction false} TrimExactly(before: string, s: string, after: string)
    requires AllWhitespace(before) && AllWhitespace(after) && s != "" && IsTrimmed(s)
    ensures Trim(before + s + after) == s
    decreases |before| + |after|
  {
    hide IsWhitespace;
    var t := before + s + after;
    if before != "" {
      assert t[1..] == before[1..] + s + after;
      TrimExactly(before[1..], s, after);
    } else if after != "" {
      assert t[0] == s[0] && t[..|t| - 1] == before + s + after[..|after| - 1];
      TrimExactly(before, s, after[..|after| - 1]);
    } else {
      assert t == s;
    }
  }

  /* ----- Numerals ----- */

  function DigitValue(c: char, radix: nat): (r: Option<nat>)
    ensures r.Some? ==> r.value < radix
  {
    var n := c as int;
    var d := if 48 <= n <= 57 then n - 48
             else if 97 <= n <= 122 then n - 87
             else if 65 <= n <= 90 then n - 55
             else radix;
    if d < radix then Some(d) else None
  }

  function DigitsValue(s: string, radix: nat): Option<nat> {
    if s == "" then Some(0)
    else
      var high := DigitsValue(s[..|s| - 1], radix);
      var low := DigitValue(s[|s| - 1], radix);
      if high.None? || low.None? then None else Some(high.value * radix + low.value)
  }

  /** `from_str_radix` of an unsigned type below `limit`: an optional `+`, then digits. */
  function ParseUnsigned(s: string, radix: nat, limit: nat): Option<nat> {
    var digits := if s != "" && s[0] == '+' then s[1..] else s;
    if digits == "" then None
    else
      var v := DigitsValue(digits, radix);
      if v.Some? && v.value < limit then v else None
  }

  /** Digits are decimal figures and letters of either case. */
  lemma DigitExactly(c: char, radix: nat, d: nat)
    ensures DigitValue(c, radix) == Some(d) <==>
            && d < radix
            && (('0' <= c <= '9' && c as int == '0' as int + d)
                || ('a' <= c <= 'z' && c as int == 'a' as int + d - 10)
                || ('A' <= c <= 'Z' && c as int == 'A' as int + d - 10))
  {
  }

  lemma {:induction false} SignIsNoDigit(s: string, radix: nat)
    requires s != "" && s[0] == '+'
    ensures DigitsValue(s, radix).None?
  {
    if |s| == 1 {
    } else {
      SignIsNoDigit(s[..|s| - 1], radix);
    }
  }

  /** One digit or more, after an optional plus sign. */
  lemma UnsignedExactly(s: string, radix: nat, limit: nat, n: nat)
    ensures ParseUnsigned(s, radix, limit) == Some(n) <==>
            n < limit && exists d :: d != "" && (s == d || s == "+" + d) && DigitsValue(d, radix) == Some(n)
  {
    if s != "" && s[0] == '+' {
      assert s == "+" + s[1..];
      SignIsNoDigit(s, radix);
    }
    hide DigitsValue;
    if d :| d != "" && (s == d || s == "+" + d) && DigitsValue(d, radix) == Some(n) {
      if s == "+" + d {
        assert s[1..] == d;
      }
    }
  }

  function Digit(d: nat): char
    requires d < 16
  {
    if d < 10 then (48 + d) as char else (87 + d) as char
  }

  predicate IsHexDigit(c: char) {
    '0' <= c <= '9' || 'a' <= c <= 'f'
  }

  lemma DigitRoundTrip(d: nat, radix: nat)
    requires d < radix <= 16
    ensures DigitValue(Digit(d), radix) == Some(d) && IsHexDigit(Digit(d))
  {
  }

  function Numeral(n: nat, radix: nat): (s: string)
    requires 2 <= radix <= 16
    ensures s != ""
    decreases n
  {
    if n < radix then [Digit(n)] else Numeral(n / radix, radix) + [Digit(n % radix)]
  }

  lemma DigitsValueSnoc(s: string, d: nat, radix: nat)
    requires d < radix <= 16 && DigitsValue(s, radix).Some?
    ensures DigitsValue(s + [Digit(d)], radix) == Some(DigitsValue(s, radix).value * radix + d)
  {
    DigitRoundTrip(d, radix);
    assert (s + [Digit(d)])[..|s + [Digit(d)]| - 1] == s;
  }

  lemma DivMod(n: nat, radix: nat)
    requires 2 <= radix
    ensures n / radix * radix + n % radix == n
    ensures n >= radix ==> n / radix < n
  {
  }

  lemma {:induction false} NumeralValue(n: nat, radix: nat)
    requires 2 <= radix <= 16
    ensures DigitsValue(Numeral(n, radix), radix) == Some(n)
    decreases n
  {
    if n < radix {
      DigitsValueSnoc("", n, radix);
      assert "" + [Digit(n)] == [Digit(n)];
    } else {
      DivMod(n, radix);
      NumeralValue(n / radix, radix);
      DigitsValueSnoc(Numeral(n / radix, radix), n % radix, radix);
    }
  }

  lemma {:induction false} NumeralDigits(n: nat, radix: nat)
    requires 2 <= radix <= 16
    ensures forall i :: 0 <= i < |Numeral(n, radix)| ==> IsHexDigit(Numeral(n, radix)[i])
    decreases n
  {
    if n < radix {
      DigitRoundTrip(n, radix);
    } else {
      DivMod(n, radix);
      NumeralDigits(n / radix, radix);
      DigitRoundTrip(n % radix, radix);
    }
  }

  lemma NumeralRoundTrip(n: nat, radix: nat, limit: nat)
    requires 2 <= radix <= 16
    ensures n < limit <==> ParseUnsigned(Numeral(n, radix), radix, limit) == Some(n)
  {
    NumeralValue(n, radix);
    NumeralDigits(n, radix);
    assert IsHexDigit(Numeral(n, radix)[0]);
  }
}
