/**
 * The few Python `str` operations the tracker relies on: `strip`, `lower`,
 * `startswith`, `in`, `split(":", 1)`, `split()[0]`, `int` on a run of digits
 * and `str` on a non-negative integer.
 */
module Text {
  import opened Wrappers

  /** Python's `str.isspace()` for one character: the set `strip()` and `split()` use. */
  predicate IsSpace(c: char) {
    c == ' ' || c == '\t' || c == '\n' || c == '\r' || c == '\U{000B}' || c == '\U{000C}'
    || ('\U{001C}' <= c <= '\U{001F}') || c == '\U{0085}' || c == '\U{00A0}' || c == '\U{1680}'
    || ('\U{2000}' <= c <= '\U{200A}') || c == '\U{2028}' || c == '\U{2029}' || c == '\U{202F}'
    || c == '\U{205F}' || c == '\U{3000}'
  }

  predicate AllSpace(s: string) {
    forall i :: 0 <= i < |s| ==> IsSpace(s[i])
  }

  /** `s.lstrip()`: drops the white space `s` starts with (LStripSpec). */
  function LStrip(s: string): (r: string)
    ensures |r| <= |s|
  {
    if s != [] && IsSpace(s[0]) then LStrip(s[1..]) else s
  }

  /** What `lstrip` keeps is a suffix of its argument after a run of white space, and does not start with white space. */
  lemma {:induction false} LStripSpec(s: string)
    ensures var r := LStrip(s);
            r == s[|s| - |r|..] && AllSpace(s[..|s| - |r|]) && (r == [] || !IsSpace(r[0]))
    decreases |s|
  {
    if s != [] && IsSpace(s[0]) {
      LStripSpec(s[1..]);
      var r := LStrip(s);
      assert s[..|s| - |r|] == [s[0]] + s[1..][..|s| - 1 - |r|];
    }
  }

  /** `s.rstrip()`: drops the white space `s` ends with (RStripSpec). */
  function RStrip(s: string): (r: string)
    ensures |r| <= |s|
  {
    if s != [] && IsSpace(s[|s| - 1]) then RStrip(s[..|s| - 1]) else s
  }

  /** What `rstrip` keeps is a prefix of its argument before a run of white space, and does not end with white space. */
  lemma {:induction false} RStripSpec(s: string)
    ensures var r := RStrip(s);
            r == s[..|r|] && AllSpace(s[|r|..]) && (r == [] || !IsSpace(r[|r| - 1]))
    decreases |s|
  {
    if s != [] && IsSpace(s[|s| - 1]) {
      RStripSpec(s[..|s| - 1]);
      var r := RStrip(s);
      assert s[|r|..] == s[..|s| - 1][|r|..] + [s[|s| - 1]];
    }
  }

  /** `s.strip()`. */
  function Strip(s: string): (r: string) {
    RStrip(LStrip(s))
  }

  /** `c.lower()` on ASCII letters; every other character is kept. */
  function LowerChar(c: char): (r: char) {
    if 'A' <= c <= 'Z' then (c as int + 32) as char else c
  }

  /** `s.lower()`, character by character. */
  function Lower(s: string): (r: string)
    ensures |r| == |s|
    ensures forall i :: 0 <= i < |s| ==> r[i] == LowerChar(s[i])
  {
    if s == [] then [] else [LowerChar(s[0])] + Lower(s[1..])
  }

  lemma LowerKeepsSpace(c: char)
    ensures IsSpace(LowerChar(c)) <==> IsSpace(c)
  {
  }

  lemma {:induction false} LowerSlice(s: string, i: nat, j: nat)
    requires i <= j <= |s|
    ensures Lower(s[i..j]) == Lower(s)[i..j]
  {
    assert |Lower(s[i..j])| == j - i;
    forall k | 0 <= k < j - i
      ensures Lower(s[i..j])[k] == Lower(s)[i..j][k]
    {
    }
  }

  lemma {:induction false} LStripLower(s: string)
    ensures LStrip(Lower(s)) == Lower(LStrip(s))
    decreases |s|
  {
    if s != [] {
      LowerKeepsSpace(s[0]);
      if IsSpace(s[0]) {
        LowerSlice(s, 1, |s|);
        LStripLower(s[1..]);
      }
    }
  }

  lemma RStripSnoc(t: string, c: char)
    ensures RStrip(t + [c]) == if IsSpace(c) then RStrip(t) else t + [c]
  {
    assert (t + [c])[..|t|] == t;
  }

  lemma LowerSnoc(t: string, c: char)
    ensures Lower(t + [c]) == Lower(t) + [LowerChar(c)]
  {
    assert |Lower(t + [c])| == |Lower(t) + [LowerChar(c)]|;
  }

  lemma {:induction false} RStripLower(s: string)
    ensures RStrip(Lower(s)) == Lower(RStrip(s))
    decreases |s|
  {
    if s != [] {
      var front, last := s[..|s| - 1], s[|s| - 1];
      assert s == front + [last];
      LowerSnoc(front, last);
      LowerKeepsSpace(last);
      RStripSnoc(front, last);
      RStripSnoc(Lower(front), LowerChar(last));
      if IsSpace(last) {
        RStripLower(front);
      }
    }
  }

  /**
   * Lower-casing and stripping commute, so `name.strip().lower()` (used when
   * a Steam ID is assigned) and `name.lower().strip()` (used when disconnects
   * are reconciled) agree on every name.
   */
  lemma StripLowerCommute(s: string)
    ensures Strip(Lower(s)) == Lower(Strip(s))
  {
    LStripLower(s);
    RStripLower(LStrip(s));
  }

  /** `s.startswith(p)`. */
  predicate StartsWith(s: string, p: string) {
    |p| <= |s| && s[..|p|] == p
  }

  /** `s.lower().startswith(p)`, character by character. */
  predicate LowerStartsWith(s: string, p: string) {
    |p| <= |s| && forall i :: 0 <= i < |p| ==> LowerChar(s[i]) == p[i]
  }

  lemma LowerStartsWithSpec(s: string, p: string)
    ensures LowerStartsWith(s, p) <==> StartsWith(Lower(s), p)
  {
    if |p| <= |s| && StartsWith(Lower(s), p) {
      forall i | 0 <= i < |p| ensures LowerChar(s[i]) == p[i] {
        assert Lower(s)[..|p|][i] == p[i];
      }
    }
  }

  /** The literal `lit` occurs in `s` at position `i`. */
  predicate At(s: string, i: nat, lit: string) {
    i + |lit| <= |s| && s[i..i + |lit|] == lit
  }

  /** `sub in s`. */
  predicate Contains(s: string, sub: string)
    decreases |s|
  {
    StartsWith(s, sub) || (s != [] && Contains(s[1..], sub))
  }

  /** `s.find(c)`, with None for -1. */
  function IndexOf(s: string, c: char): (r: Option<nat>)
    ensures r.Some? ==> r.value < |s| && s[r.value] == c && c !in s[..r.value]
    ensures r.None? ==> c !in s
  {
    if s == [] then None
    else if s[0] == c then Some(0)
    else
      match IndexOf(s[1..], c)
      case None => None
      case Some(k) => assert s[..k + 1] == [s[0]] + s[1..][..k]; Some(k + 1)
  }

  /** The longest prefix of `s` free of white space. */
  function TakeToken(s: string): (r: string)
    ensures |r| <= |s| && r == s[..|r|]
    ensures forall i :: 0 <= i < |r| ==> !IsSpace(r[i])
    ensures |r| == |s| || IsSpace(s[|r|])
  {
    if s == [] || IsSpace(s[0]) then [] else [s[0]] + TakeToken(s[1..])
  }

  /**
   * `s.split()[0]`: the first maximal run of non-white-space characters of
   * `s`, after a run of white space; None where `s` is blank and the index raises.
   */
  function FirstToken(s: string): (r: Option<string>)
    ensures r.None? <==> AllSpace(s)
    ensures r.Some? ==> r.value != [] && forall i :: 0 <= i < |r.value| ==> !IsSpace(r.value[i])
    ensures r.Some? ==> exists k :: TokenAt(s, k, r.value)
  {
    LStripSpec(s);
    var t := LStrip(s);
    if t == [] then
      assert s[..|s|] == s;
      None
    else
      var k := |s| - |t|;
      var tok := TakeToken(t);
      assert s[k] == t[0];
      assert s[k..k + |tok|] == tok by { assert s[k..] == t; assert t[..|tok|] == tok; }
      assert k + |tok| == |s| || IsSpace(s[k + |tok|]) by {
        if |tok| < |t| { assert s[k + |tok|] == t[|tok|]; }
      }
      assert TokenAt(s, k, tok);
      Some(tok)
  }

  /** `tok` is the text of `s` from k up to the next white space, and s[..k] is white space. */
  predicate TokenAt(s: string, k: nat, tok: string) {
    k + |tok| <= |s| && AllSpace(s[..k]) && s[k..k + |tok|] == tok
    && (k + |tok| == |s| || IsSpace(s[k + |tok|]))
  }

  predicate IsDigit(c: char) {
    '0' <= c <= '9'
  }

  function DigitChar(d: nat): (c: char)
    requires d < 10
    ensures IsDigit(c)
  {
    ('0' as int + d) as char
  }

  /** `int(s)` for a string of ASCII digits. */
  function DigitsValue(s: string): (r: nat)
    requires forall i :: 0 <= i < |s| ==> IsDigit(s[i])
  {
    if s == [] then 0
    else
      assert IsDigit(s[|s| - 1]);
      DigitsValue(s[..|s| - 1]) * 10 + (s[|s| - 1] as int - '0' as int)
  }

  /** `str(n)` for a non-negative integer: its decimal digits, no leading zero. */
  function NatToString(n: nat): (r: string)
    ensures r != [] && forall i :: 0 <= i < |r| ==> IsDigit(r[i])
    ensures r[0] == '0' ==> n == 0 && r == "0"
  {
    if n < 10 then [DigitChar(n)] else NatToString(n / 10) + [DigitChar(n % 10)]
  }

  /** `int(str(n)) == n`. */
  lemma {:induction false} NatToStringRoundTrip(n: nat)
    ensures DigitsValue(NatToString(n)) == n
  {
    if n >= 10 {
      var r := NatToString(n);
      assert r[..|r| - 1] == NatToString(n / 10);
      NatToStringRoundTrip(n / 10);
    }
  }
}
