/**
 * The kill-feed parser `checkPlayerWeapon`: `re.match` of the pattern
 *   (.+?) killed (.+?) with ([^\.]+)\.?(?: \((crit)\))?
 * written out as a search over the positions of " killed " and " with ".
 * Group 1 is s[..a], group 2 is s[a + 8..b], group 3 starts at b + 6.
 */
module KillParser {
  import opened Wrappers
  import opened Text

  const Killed: string := " killed "
  const With: string := " with "
  const CritTag: string := " (crit)"

  /** The regex `.` matches every character but '\n': s[i..j] is free of it. */
  predicate NoBreak(s: string, i: nat, j: nat)
    requires i <= j <= |s|
  {
    forall k :: i <= k < j ==> s[k] != '\n'
  }

  /**
   * " with " at b closes a non-empty group 2 that starts at lo, and group 3
   * `[^\.]+` can take at least the one character after it.
   */
  predicate WithAt(s: string, lo: nat, b: nat) {
    lo < b && At(s, b, With) && NoBreak(s, lo, b) && b + |With| < |s| && s[b + |With|] != '.'
  }

  /** The pattern matches s with group 1 ending at a and group 2 ending at b. */
  predicate IsMatch(s: string, a: nat, b: nat) {
    1 <= a && At(s, a, Killed) && NoBreak(s, 0, a) && WithAt(s, a + |Killed|, b)
  }

  /** The match the regex engine reports: the lazy groups take their shortest choices, group 1 first. */
  ghost predicate IsFirstMatch(s: string, a: nat, b: nat) {
    IsMatch(s, a, b)
    && (forall a': nat, b': nat :: a' < a ==> !IsMatch(s, a', b'))
    && (forall b': nat :: b' < b ==> !IsMatch(s, a, b'))
  }

  /** Lazy group 2: the first end position b' >= b that lets the rest of the pattern match. */
  function FindWith(s: string, lo: nat, b: nat): (r: Option<nat>)
    requires lo <= b <= |s| && NoBreak(s, lo, b)
    ensures r.Some? ==> b <= r.value && WithAt(s, lo, r.value)
    ensures r.Some? ==> forall x: nat :: b <= x < r.value ==> !WithAt(s, lo, x)
    ensures r.None? ==> forall x: nat :: b <= x ==> !WithAt(s, lo, x)
    decreases |s| - b
  {
    if b + |With| >= |s| then None
    else if lo < b && At(s, b, With) && s[b + |With|] != '.' then Some(b)
    else if s[b] == '\n' then
      assert !At(s, b, With) by { assert s[b..b + |With|][0] == s[b]; }
      None
    else FindWith(s, lo, b + 1)
  }

  /** Lazy group 1: the first end position a' >= a for which group 2 can close. */
  function FindKilled(s: string, a: nat): (r: Option<(nat, nat)>)
    requires a <= |s| && NoBreak(s, 0, a)
    ensures r.Some? ==> a <= r.value.0 && IsMatch(s, r.value.0, r.value.1)
    ensures r.Some? ==> forall a': nat, b': nat :: a <= a' < r.value.0 ==> !IsMatch(s, a', b')
    ensures r.Some? ==> forall b': nat :: b' < r.value.1 ==> !IsMatch(s, r.value.0, b')
    ensures r.None? ==> forall a': nat, b': nat :: a <= a' ==> !IsMatch(s, a', b')
    decreases |s| - a
  {
    if a + |Killed| > |s| then None
    else if 1 <= a && At(s, a, Killed) && FindWith(s, a + |Killed|, a + |Killed|).Some? then
      Some((a, FindWith(s, a + |Killed|, a + |Killed|).value))
    else if s[a] == '\n' then
      NewlineEndsKill(s, a);
      None
    else FindKilled(s, a + 1)
  }

  /** Group 1 cannot reach past a line break, and " killed " cannot start on one. */
  lemma NewlineEndsKill(s: string, a: nat)
    requires a < |s| && s[a] == '\n'
    ensures forall a': nat, b': nat :: a <= a' ==> !IsMatch(s, a', b')
  {
    forall a': nat, b': nat | a <= a'
      ensures !IsMatch(s, a', b')
    {
      if a' == a {
        if a + |Killed| <= |s| {
          assert !At(s, a, Killed) by { assert s[a..a + |Killed|][0] == s[a]; }
        }
      } else if a' <= |s| {
        assert !NoBreak(s, 0, a') by { assert s[a] == '\n'; }
      }
    }
  }

  /** Where the regex match ends its two lazy groups, or None when `re.match` fails. */
  function KillSpan(s: string): (r: Option<(nat, nat)>)
    ensures r.Some? <==> exists a: nat, b: nat :: IsMatch(s, a, b)
    ensures r.Some? ==> IsFirstMatch(s, r.value.0, r.value.1)
  {
    FindKilled(s, 0)
  }

  /** Greedy group 3 `[^\.]+` starting at i ends at the first '.', or at the end of the line. */
  function WeaponEnd(s: string, i: nat): (c: nat)
    requires i <= |s|
    ensures i <= c <= |s| && (c == |s| || s[c] == '.')
    ensures forall k :: i <= k < c ==> s[k] != '.'
    decreases |s| - i
  {
    if i == |s| || s[i] == '.' then i else WeaponEnd(s, i + 1)
  }

  /** The raw groups of a match: the three texts and whether group 4 read "crit". */
  datatype Groups = Groups(killer: string, victim: string, weapon: string, crit: bool)

  function GroupsAt(s: string, a: nat, b: nat): (r: Groups)
    requires a + |Killed| <= b && b + |With| <= |s|
  {
    var w := b + |With|;
    var c := WeaponEnd(s, w);
    // `\.?` takes the period, then the optional ` (crit)` is tried right after it
    Groups(s[..a], s[a + |Killed|..b], s[w..c], c < |s| && At(s, c + 1, CritTag))
  }

  function MatchKill(s: string): (r: Option<Groups>) {
    match KillSpan(s)
    case None => None
    case Some((a, b)) => Some(GroupsAt(s, a, b))
  }

  /** What `checkPlayerWeapon` returns on a match: (killer, class, crit, victim). */
  datatype KillEvent = KillEvent(killer: string, cls: Option<string>, crit: bool, victim: string)

  /** `WEAPON_CACHE.get(weapon)`. */
  function CacheGet(cache: map<string, string>, weapon: string): (r: Option<string>) {
    if weapon in cache then Some(cache[weapon]) else None
  }

  /**
   * `checkPlayerWeapon(msg)`: None stands for the tuple (None, None, None, None);
   * otherwise the stripped killer and victim, the cached class of the stripped
   * weapon and the crit flag.
   */
  function ParseKill(s: string, cache: map<string, string>): (r: Option<KillEvent>) {
    match MatchKill(s)
    case None => None
    case Some(g) =>
      Some(KillEvent(Strip(g.killer), CacheGet(cache, Strip(g.weapon)), g.crit, Strip(g.victim)))
  }

  /** A line the pattern does not match yields no event at all, and only such a line. */
  lemma ParseKillNoMatch(s: string, cache: map<string, string>)
    ensures ParseKill(s, cache).None? <==> forall a: nat, b: nat :: !IsMatch(s, a, b)
  {
  }

  /**
   * On a match the event is built from the regex's own match: the killer is the
   * stripped text before the first usable " killed ", the victim the stripped text
   * up to the first usable " with " after it, and the class is the cache's entry
   * for the stripped weapon text.
   */
  lemma ParseKillMatch(s: string, cache: map<string, string>)
    requires ParseKill(s, cache).Some?
    ensures KillSpan(s).Some?
    ensures var (a, b) := KillSpan(s).value;
            var e := ParseKill(s, cache).value;
            IsFirstMatch(s, a, b)
            && e.killer == Strip(s[..a]) && e.victim == Strip(s[a + |Killed|..b])
            && e.cls == CacheGet(cache, Strip(GroupsAt(s, a, b).weapon))
            && e.crit == GroupsAt(s, a, b).crit
  {
  }

  /**
   * The weapon text of a match is never empty, holds no '.', and runs from just
   * after " with " up to the first '.' or the end of the line.
   */
  lemma WeaponGroup(s: string, a: nat, b: nat)
    requires IsMatch(s, a, b)
    ensures var g := GroupsAt(s, a, b);
            var w := b + |With|;
            g.weapon != [] && '.' !in g.weapon
            && w + |g.weapon| <= |s| && s[w..w + |g.weapon|] == g.weapon
            && (w + |g.weapon| == |s| || s[w + |g.weapon|] == '.')
  {
    var w := b + |With|;
    var c := WeaponEnd(s, w);
    var g := GroupsAt(s, a, b);
    assert g.weapon == s[w..c];
    assert '.' !in g.weapon by {
      forall k | 0 <= k < |g.weapon| ensures g.weapon[k] != '.' {
        assert g.weapon[k] == s[w + k];
      }
    }
  }

  /**
   * The crit flag is set only when " (crit)" follows the weapon and a period:
   * without the period the tag is part of the weapon text.
   */
  lemma {:induction false} CritNeedsPeriod(s: string)
    requires MatchKill(s).Some? && MatchKill(s).value.crit
    ensures var (a, b) := KillSpan(s).value;
            var c := b + |With| + |MatchKill(s).value.weapon|;
            c < |s| && s[c] == '.' && At(s, c + 1, CritTag)
  {
  }

  /** The regex engine reports one match: two first matches of the same line coincide. */
  lemma FirstMatchUnique(s: string, a: nat, b: nat, a': nat, b': nat)
    requires IsFirstMatch(s, a, b) && IsFirstMatch(s, a', b')
    ensures a == a' && b == b'
  {
  }

  lemma WeaponEndAt(s: string, i: nat, c: nat)
    requires i <= c <= |s| && (c == |s| || s[c] == '.') && '.' !in s[i..c]
    ensures WeaponEnd(s, i) == c
  {
  }

  /** The kill-feed line `<killer> killed <victim> with <weapon>.`, with ` (crit)` after the period on a critical hit. */
  function KillLine(killer: string, victim: string, weapon: string, crit: bool): (r: string) {
    killer + Killed + victim + With + weapon + "." + (if crit then CritTag else "")
  }

  /**
   * A killer name that group 1 reads back whole: it has no line break, and no
   * " killed " starts inside it, nor runs from it into the " killed " after it.
   */
  predicate WholeKiller(killer: string) {
    killer != [] && '\n' !in killer && forall j :: 0 < j < |killer| ==> !At(killer + Killed, j, Killed)
  }

  /**
   * A victim name that group 2 reads back whole: it has no line break, and no
   * " with " starts inside it, nor runs from it into the " with " after it.
   */
  predicate WholeVictim(victim: string) {
    victim != [] && '\n' !in victim && forall j :: 0 < j < |victim| ==> !At(victim + With, j, With)
  }

  /** A literal that ends within the prefix p occurs in p + q where it occurs in p. */
  lemma AtPrefix(p: string, q: string, i: nat, lit: string)
    requires i + |lit| <= |p|
    ensures At(p + q, i, lit) == At(p, i, lit)
  {
    assert (p + q)[i..i + |lit|] == p[i..i + |lit|];
  }

  /** Whole names, then " killed " and " with ", match the pattern at the names' own ends. */
  lemma FormattedIsMatch(killer: string, victim: string, rest: string)
    requires WholeKiller(killer) && WholeVictim(victim)
    requires rest != [] && rest[0] != '.'
    ensures IsMatch(killer + Killed + victim + With + rest, |killer|, |killer| + |Killed| + |victim|)
  {
    var s := killer + Killed + victim + With + rest;
    var a := |killer|;
    var b := a + |Killed| + |victim|;
    assert s[..a] == killer && s[a..a + |Killed|] == Killed;
    assert s[a + |Killed|..b] == victim && s[b..b + |With|] == With;
    assert s[b + |With|] == rest[0];
    assert NoBreak(s, 0, a) by {
      forall k | 0 <= k < a ensures s[k] != '\n' { assert s[k] == killer[k]; }
    }
    assert NoBreak(s, a + |Killed|, b) by {
      forall k | a + |Killed| <= k < b ensures s[k] != '\n' { assert s[k] == victim[k - a - |Killed|]; }
    }
  }

  /** No " killed " starts inside a whole killer name. */
  lemma FormattedKillerFirst(killer: string, victim: string, rest: string)
    requires WholeKiller(killer)
    ensures var s := killer + Killed + victim + With + rest;
            forall a': nat, b': nat :: a' < |killer| ==> !IsMatch(s, a', b')
  {
    var s := killer + Killed + victim + With + rest;
    var p := killer + Killed;
    assert s == p + (victim + With + rest);
    forall a': nat, b': nat | a' < |killer| ensures !IsMatch(s, a', b') {
      if 0 < a' {
        AtPrefix(p, victim + With + rest, a', Killed);
      }
    }
  }

  /** No " with " starts inside a whole victim name. */
  lemma FormattedVictimFirst(killer: string, victim: string, rest: string)
    requires WholeVictim(victim)
    ensures var s := killer + Killed + victim + With + rest;
            var a := |killer|;
            forall b': nat :: b' < a + |Killed| + |victim| ==> !IsMatch(s, a, b')
  {
    var s := killer + Killed + victim + With + rest;
    var a := |killer|;
    var pre := killer + Killed;
    var v := victim + With;
    assert s == pre + (v + rest);
    forall b': nat | b' < a + |Killed| + |victim| ensures !IsMatch(s, a, b') {
      if a + |Killed| < b' {
        var j := b' - |pre|;
        AtShift(pre, v + rest, j, With);
        AtPrefix(v, rest, j, With);
      }
    }
  }

  /** Whole killer and victim names give the match whose groups are exactly those names. */
  lemma FormattedFirstMatch(killer: string, victim: string, rest: string)
    requires WholeKiller(killer) && WholeVictim(victim)
    requires rest != [] && rest[0] != '.'
    ensures var s := killer + Killed + victim + With + rest;
            KillSpan(s) == Some((|killer|, |killer| + |Killed| + |victim|))
  {
    var s := killer + Killed + victim + With + rest;
    var a := |killer|;
    var b := a + |Killed| + |victim|;
    FormattedIsMatch(killer, victim, rest);
    FormattedKillerFirst(killer, victim, rest);
    FormattedVictimFirst(killer, victim, rest);
    var (a2, b2) := KillSpan(s).value;
    FirstMatchUnique(s, a2, b2, a, b);
  }

  /** Group 3 and group 4 as read from the text after " with ": the weapon text and the crit flag. */
  function RestGroups(rest: string): (r: (string, bool))
  {
    var c := WeaponEnd(rest, 0);
    (rest[..c], c < |rest| && At(rest, c + 1, CritTag))
  }

  /** Searching for the weapon's end after a prefix is searching the text after it. */
  lemma {:induction false} WeaponEndShift(p: string, rest: string, i: nat)
    requires i <= |rest|
    ensures WeaponEnd(p + rest, |p| + i) == |p| + WeaponEnd(rest, i)
    decreases |rest| - i
  {
    if i < |rest| {
      assert (p + rest)[|p| + i] == rest[i];
      if rest[i] != '.' {
        WeaponEndShift(p, rest, i + 1);
      }
    }
  }

  /** A literal occurs after a prefix exactly where it occurs in the text after it. */
  lemma AtShift(p: string, rest: string, i: nat, lit: string)
    requires i <= |rest|
    ensures At(p + rest, |p| + i, lit) == At(rest, i, lit)
  {
    if i + |lit| <= |rest| {
      assert (p + rest)[|p| + i..|p| + i + |lit|] == rest[i..i + |lit|];
    }
  }

  /** The texts a formatted line holds before " killed " and between it and " with ". */
  lemma FormattedSlices(killer: string, victim: string, rest: string)
    ensures var s := killer + Killed + victim + With + rest;
            var a := |killer|;
            var b := a + |Killed| + |victim|;
            s[..a] == killer && s[a + |Killed|..b] == victim
  {
  }

  /** Group 3 read after a prefix p is group 3 read from the text after p. */
  lemma WeaponAfter(p: string, rest: string)
    ensures var s := p + rest;
            s[|p|..WeaponEnd(s, |p|)] == rest[..WeaponEnd(rest, 0)]
  {
    WeaponEndShift(p, rest, 0);
    var c := WeaponEnd(rest, 0);
    assert (p + rest)[|p|..|p| + c] == rest[..c];
  }

  /** Group 4 read after a prefix p is group 4 read from the text after p. */
  lemma CritAfter(p: string, rest: string)
    ensures var s := p + rest;
            var c := WeaponEnd(s, |p|);
            (c < |s| && At(s, c + 1, CritTag)) == RestGroups(rest).1
  {
    WeaponEndShift(p, rest, 0);
    var c := WeaponEnd(rest, 0);
    if c < |rest| {
      AtShift(p, rest, c + 1, CritTag);
    }
  }

  /** Groups 3 and 4 of a match whose " with " ends the prefix p are read from the text after p. */
  lemma GroupsAfter(p: string, rest: string, a: nat, b: nat)
    requires a + |Killed| <= b && b + |With| == |p|
    ensures var s := p + rest;
            GroupsAt(s, a, b) == Groups(s[..a], s[a + |Killed|..b], RestGroups(rest).0, RestGroups(rest).1)
  {
    WeaponAfter(p, rest);
    CritAfter(p, rest);
  }

  /**
   * Whole killer and victim names give a match whose first two
   * groups are those names; groups 3 and 4 are read from the rest alone.
   */
  lemma MatchFormatted(killer: string, victim: string, rest: string)
    requires WholeKiller(killer) && WholeVictim(victim)
    requires rest != [] && rest[0] != '.'
    ensures MatchKill(killer + Killed + victim + With + rest)
         == Some(Groups(killer, victim, RestGroups(rest).0, RestGroups(rest).1))
  {
    var a := |killer|;
    var b := a + |Killed| + |victim|;
    FormattedFirstMatch(killer, victim, rest);
    FormattedSlices(killer, victim, rest);
    GroupsAfter(killer + Killed + victim + With, rest, a, b);
  }

  lemma AppendAssoc(x: string, y: string, z: string)
    ensures x + (y + z) == x + y + z
  {
  }

  /** A literal occurs at i exactly when the text from i on starts with it. */
  lemma AtSuffix(s: string, i: nat, t: string, lit: string)
    requires i <= |s| && s[i..] == t
    ensures At(s, i, lit) == StartsWith(t, lit)
  {
    if i + |lit| <= |s| {
      assert s[i..i + |lit|] == t[..|lit|];
    }
  }

  /** A formatted line with any text after the weapon's period: group 4 reads "crit" exactly when that text starts with " (crit)". */
  lemma MatchPeriodLine(killer: string, victim: string, weapon: string, tail: string)
    requires WholeKiller(killer) && WholeVictim(victim)
    requires weapon != [] && '.' !in weapon
    ensures MatchKill(killer + Killed + victim + With + weapon + "." + tail)
         == Some(Groups(killer, victim, weapon, StartsWith(tail, CritTag)))
  {
    var rest := weapon + "." + tail;
    var c := |weapon|;
    assert rest[0] == weapon[0] && rest[c] == '.';
    assert rest[..c] == weapon && rest[c + 1..] == tail;
    WeaponEndAt(rest, 0, c);
    AtSuffix(rest, c + 1, tail, CritTag);
    MatchFormatted(killer, victim, rest);
    var p := killer + Killed + victim + With;
    AppendAssoc(p, weapon + ".", tail);
    AppendAssoc(p, weapon, ".");
  }

  /** Round trip: a formatted kill line parses back into its killer, victim, weapon and crit flag. */
  lemma MatchKillLine(killer: string, victim: string, weapon: string, crit: bool)
    requires WholeKiller(killer) && WholeVictim(victim)
    requires weapon != [] && '.' !in weapon
    ensures MatchKill(KillLine(killer, victim, weapon, crit)) == Some(Groups(killer, victim, weapon, crit))
  {
    var tag := if crit then CritTag else "";
    MatchPeriodLine(killer, victim, weapon, tag);
  }

  /** Without the period the crit tag is read as part of the weapon name and the kill is not a crit. */
  lemma CritTagWithoutPeriod(killer: string, victim: string, weapon: string)
    requires WholeKiller(killer) && WholeVictim(victim)
    requires weapon != [] && '.' !in weapon
    ensures MatchKill(killer + Killed + victim + With + weapon + CritTag)
         == Some(Groups(killer, victim, weapon + CritTag, false))
  {
    var rest := weapon + CritTag;
    assert rest[0] == weapon[0];
    assert '.' !in rest by {
      assert '.' !in CritTag;
      forall k | 0 <= k < |rest| ensures rest[k] != '.' {
        if k >= |weapon| { assert rest[k] == CritTag[k - |weapon|]; }
      }
    }
    WeaponEndAt(rest, 0, |rest|);
    assert rest[..|rest|] == rest;
    MatchFormatted(killer, victim, rest);
    AppendAssoc(killer + Killed + victim + With, weapon, CritTag);
  }

}
