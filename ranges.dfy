/** `parseRange` and `rangesOverlap` (content.js:172-191).

    `parseRange` builds the regular expression
    `([\d.,\s]+)\s*CUR\s*-\s*([\d.,\s]+)` with the `i` flag, takes the
    leftmost match and reads both groups with `parseNumber`.  The matcher is
    modelled as the backtracking engine resolves it, and is proved equal to
    the declarative reading of the pattern for currency codes that do not
    themselves start with a character of the group class. */
module Ranges {
  import opened Common
  import opened Numbers

  /** `[\d.,\s]`: the characters an amount group may hold. */
  predicate IsRangeChar(c: char) {
    IsDigit(c) || c == '.' || c == ',' || IsSpace(c)
  }

  /** A currency code the pattern can follow exactly: it is not empty and
      its first character cannot be swallowed by the amount group. */
  predicate PlainCode(cur: string) {
    cur != [] && !IsRangeChar(cur[0])
  }

  predicate ClassRun(s: string, i: nat, j: nat)
    requires i <= j <= |s|
  {
    forall k :: i <= k < j ==> IsRangeChar(s[k])
  }

  predicate SpaceRun(s: string, i: nat, j: nat)
    requires i <= j <= |s|
  {
    forall k :: i <= k < j ==> IsSpace(s[k])
  }

  /** End of the longest run of group characters starting at `i`. */
  function RunEnd(s: string, i: nat): (e: nat)
    requires i <= |s|
    ensures i <= e <= |s| && ClassRun(s, i, e)
    ensures e == |s| || !IsRangeChar(s[e])
    decreases |s| - i
  {
    if i < |s| && IsRangeChar(s[i]) then RunEnd(s, i + 1) else i
  }

  /** End of the longest run of white space starting at `i` (greedy `\s*`). */
  function SpaceEnd(s: string, i: nat): (e: nat)
    requires i <= |s|
    ensures i <= e <= |s| && SpaceRun(s, i, e)
    ensures e == |s| || !IsSpace(s[e])
    decreases |s| - i
  {
    if i < |s| && IsSpace(s[i]) then SpaceEnd(s, i + 1) else i
  }

  /** The two captured groups of a match. */
  datatype RangeMatch = RangeMatch(lo: string, hi: string)

  /** The amount range `parseRange` returns. */
  datatype Range = Range(min: real, max: real)

  /** Declarative reading of the pattern: it matches `s` from `p` with group 1
      `s[p..e1]`, `\s*` up to `r`, the code at `r`, `\s*` up to the dash at
      `d`, `\s*` up to `b2` and group 2 `s[b2..e2]`. */
  predicate RegexMatch(s: string, cur: string, p: nat, e1: nat, r: nat, d: nat, b2: nat, e2: nat) {
    && p < e1 <= r && r + |cur| <= d < b2 < e2 <= |s|
    && ClassRun(s, p, e1) && SpaceRun(s, e1, r)
    && CaseEqAt(s, r, cur)
    && SpaceRun(s, r + |cur|, d) && s[d] == '-'
    && SpaceRun(s, d + 1, b2) && ClassRun(s, b2, e2)
  }

  /** The attempt of the backtracking matcher at start position `p`.
      Group 1 is greedy and is followed by the code, so it takes the whole
      run; the `\s*` before the dash must take every space; group 2 takes the
      longest run after the spaces, or, when none follows, the last space
      given back by `\s*`. */
  function MatchAt(s: string, cur: string, p: nat): Option<RangeMatch>
    requires p <= |s|
  {
    if p == |s| || !IsRangeChar(s[p]) then None
    else
      var r := RunEnd(s, p);
      if !CaseEqAt(s, r, cur) then None
      else
        var d := SpaceEnd(s, r + |cur|);
        if d == |s| || s[d] != '-' then None
        else
          var t1 := SpaceEnd(s, d + 1);
          if t1 < |s| && IsRangeChar(s[t1]) then Some(RangeMatch(s[p..r], s[t1..RunEnd(s, t1)]))
          else if t1 > d + 1 then Some(RangeMatch(s[p..r], s[t1 - 1..t1]))
          else None
  }

  /** The matcher's attempt at each start; none past the end of the text. */
  function RangeAttempt(s: string, cur: string): nat -> Option<RangeMatch> {
    (q: nat) => if q <= |s| then MatchAt(s, cur, q) else None
  }

  /** `String.prototype.match` without the `g` flag: the leftmost match. */
  function FindMatch(s: string, cur: string): Option<RangeMatch> {
    Leftmost(RangeAttempt(s, cur), 0, |s|)
  }

  /** `parseRange(text, userCurrency)`: `null` when nothing matches or when
      either group has no digit for `parseNumber`. */
  function ParseRange(text: string, cur: string): Option<Range> {
    match FindMatch(text, cur)
    case None => None
    case Some(m) =>
      var lo := ParseNumber(m.lo);
      var hi := ParseNumber(m.hi);
      if lo.None? || hi.None? then None else Some(Range(lo.value, hi.value))
  }

  /** The leftmost match is what the matcher returns at some start, with
      every earlier start failing. */
  lemma FindMatchAt(s: string, cur: string)
    requires FindMatch(s, cur).Some?
    ensures exists p :: (0 <= p <= |s| && MatchAt(s, cur, p) == FindMatch(s, cur)
      && forall q :: 0 <= q < p ==> MatchAt(s, cur, q).None?)
  {
    var f := RangeAttempt(s, cur);
    LeftmostSpec(f, 0, |s|);
    var p :| 0 <= p <= |s| && f(p) == FindMatch(s, cur) && forall q :: 0 <= q < p ==> f(q).None?;
    assert forall q :: 0 <= q < p ==> MatchAt(s, cur, q) == f(q);
  }

  /** A range read from the text comes from the two groups of a match of
      the pattern, each read by `parseNumber`. */
  lemma ParseRangeFromMatch(text: string, cur: string)
    requires ParseRange(text, cur).Some?
    ensures exists p :: (0 <= p <= |text| && MatchAt(text, cur, p).Some?
      && ParseNumber(MatchAt(text, cur, p).value.lo) == Some(ParseRange(text, cur).value.min)
      && ParseNumber(MatchAt(text, cur, p).value.hi) == Some(ParseRange(text, cur).value.max))
  {
    FindMatchAt(text, cur);
  }

  // ---------------------------------------------------------------------
  // The matcher against the pattern

  /** Case folding never moves a character into or out of the group class. */
  lemma UpperKeepsClass(c: char)
    ensures IsRangeChar(Upper(c)) == IsRangeChar(c)
  {
  }

  /** Whatever the matcher returns is a match of the pattern, with both
      groups maximal and group 2 starting at a non-space unless it is the
      single space given back before a non-group character. */
  lemma MatchAtSound(s: string, cur: string, p: nat)
    requires p <= |s| && MatchAt(s, cur, p).Some?
    ensures exists e1: nat, r: nat, d: nat, b2: nat, e2: nat :: (RegexMatch(s, cur, p, e1, r, d, b2, e2)
      && MatchAt(s, cur, p).value == RangeMatch(s[p..e1], s[b2..e2])
      && (e1 == |s| || !IsRangeChar(s[e1]))
      && (e2 == |s| || !IsRangeChar(s[e2]))
      && (!IsSpace(s[b2]) || e2 == b2 + 1))
  {
    var r := RunEnd(s, p);
    var d := SpaceEnd(s, r + |cur|);
    var t1 := SpaceEnd(s, d + 1);
    if t1 < |s| && IsRangeChar(s[t1]) {
      var e2 := RunEnd(s, t1);
      assert RegexMatch(s, cur, p, r, r, d, t1, e2);
    } else {
      assert RegexMatch(s, cur, p, r, r, d, t1 - 1, t1);
    }
  }

  /** For a plain code, any match of the pattern from `p` is found by the
      matcher at `p`. */
  lemma MatchAtComplete(s: string, cur: string, p: nat, e1: nat, r: nat, d: nat, b2: nat, e2: nat)
    requires PlainCode(cur) && RegexMatch(s, cur, p, e1, r, d, b2, e2)
    ensures MatchAt(s, cur, p).Some?
  {
    var r' := RunEnd(s, p);
    assert ClassRun(s, p, r) by {
      forall k | p <= k < r ensures IsRangeChar(s[k]) {
        if k >= e1 { assert IsSpace(s[k]); }
      }
    }
    UpperKeepsClass(s[r]);
    UpperKeepsClass(cur[0]);
    assert !IsRangeChar(s[r]);
    assert r' == r;
    assert SpaceEnd(s, r + |cur|) == d;
    var t1 := SpaceEnd(s, d + 1);
    assert b2 <= t1;
  }

  /** When the matcher finds nothing, the pattern matches nowhere. */
  lemma NoMatchAnywhere(text: string, cur: string)
    requires PlainCode(cur) && FindMatch(text, cur).None?
    ensures forall p: nat, e1: nat, r: nat, d: nat, b2: nat, e2: nat :: !RegexMatch(text, cur, p, e1, r, d, b2, e2)
  {
    LeftmostSpec(RangeAttempt(text, cur), 0, |text|);
    forall p: nat, e1: nat, r: nat, d: nat, b2: nat, e2: nat ensures !RegexMatch(text, cur, p, e1, r, d, b2, e2) {
      if p <= |text| {
        assert RangeAttempt(text, cur)(p) == MatchAt(text, cur, p);
      }
      if RegexMatch(text, cur, p, e1, r, d, b2, e2) {
        MatchAtComplete(text, cur, p, e1, r, d, b2, e2);
      }
    }
  }

  /** When the matcher finds something, the pattern matches somewhere. */
  lemma FoundIsMatch(text: string, cur: string)
    requires FindMatch(text, cur).Some?
    ensures exists p: nat, e1: nat, r: nat, d: nat, b2: nat, e2: nat :: RegexMatch(text, cur, p, e1, r, d, b2, e2)
  {
    FindMatchAt(text, cur);
    var q :| 0 <= q <= |text| && MatchAt(text, cur, q) == FindMatch(text, cur);
    MatchAtSound(text, cur, q);
  }

  /** `parseRange` is `null` exactly when the matcher finds nothing or a
      group of what it finds has no digit. */
  lemma ParseRangeNullIffFound(text: string, cur: string)
    ensures ParseRange(text, cur).None? <==>
      FindMatch(text, cur).None?
      || !HasDigit(FindMatch(text, cur).value.lo) || !HasDigit(FindMatch(text, cur).value.hi)
  {
    var m := FindMatch(text, cur);
    if m.Some? {
      ParseNumberNullIff(m.value.lo);
      ParseNumberNullIff(m.value.hi);
    }
  }

  /** For a plain code the matcher finds nothing exactly when the pattern
      matches nowhere. */
  lemma FoundIffMatch(text: string, cur: string)
    requires PlainCode(cur)
    ensures FindMatch(text, cur).None? <==>
      forall p: nat, e1: nat, r: nat, d: nat, b2: nat, e2: nat :: !RegexMatch(text, cur, p, e1, r, d, b2, e2)
  {
    if FindMatch(text, cur).Some? {
      FoundIsMatch(text, cur);
    } else {
      NoMatchAnywhere(text, cur);
    }
  }

  /** For a plain code, `parseRange` is `null` exactly when the pattern does
      not match anywhere, or when a group of the leftmost match has no digit. */
  lemma ParseRangeNullIff(text: string, cur: string)
    requires PlainCode(cur)
    ensures ParseRange(text, cur).None? <==>
      (forall p: nat, e1: nat, r: nat, d: nat, b2: nat, e2: nat :: !RegexMatch(text, cur, p, e1, r, d, b2, e2))
      || (FindMatch(text, cur).Some? &&
          (!HasDigit(FindMatch(text, cur).value.lo) || !HasDigit(FindMatch(text, cur).value.hi)))
  {
    ParseRangeNullIffFound(text, cur);
    FoundIffMatch(text, cur);
  }

  /** A range is only read from text that contains the currency code. */
  lemma ParseRangeNeedsCode(text: string, cur: string)
    requires ParseRange(text, cur).Some?
    ensures ContainsIgnoringCase(text, cur)
  {
    ParseRangeFromMatch(text, cur);
    var p :| 0 <= p <= |text| && MatchAt(text, cur, p).Some?;
    assert CaseEqAt(text, RunEnd(text, p), cur);
  }

  /** How the page renders an offer's limits: "min CUR - max". */
  function Rendered(lo: nat, hi: nat, cur: string): string {
    NatStr(lo) + " " + cur + " - " + NatStr(hi)
  }

  lemma DropTrailingSpace(a: string)
    requires AllDigits(a)
    ensures DropSpaces(a + " ") == a
  {
    FilterAll(a, NotSpace);
    assert Filter(" ", NotSpace) == [];
    FilterAppend(a, " ", NotSpace);
  }

  /** The matcher on text shaped "group1 CUR - group2", group 2 starting
      with a non-space and running to the end. */
  lemma MatchShape(s: string, cur: string, r: nat)
    requires PlainCode(cur) && 0 < r && r + |cur| + 3 < |s|
    requires ClassRun(s, 0, r) && CaseEqAt(s, r, cur)
    requires s[r + |cur|] == ' ' && s[r + |cur| + 1] == '-' && s[r + |cur| + 2] == ' '
    requires ClassRun(s, r + |cur| + 3, |s|) && !IsSpace(s[r + |cur| + 3])
    ensures MatchAt(s, cur, 0) == Some(RangeMatch(s[..r], s[r + |cur| + 3..]))
  {
    UpperKeepsClass(s[r]);
    UpperKeepsClass(cur[0]);
    assert Upper(s[r + 0]) == Upper(cur[0]);
    assert IsRangeChar(s[0]) && !IsRangeChar(s[r]);
    assert RunEnd(s, 0) == r;
    var d := r + |cur| + 1;
    assert IsRangeChar(s[d + 2]);
    assert SpaceEnd(s, r + |cur|) == d;
    assert SpaceEnd(s, d + 1) == d + 2;
    assert RunEnd(s, d + 2) == |s|;
    assert MatchAt(s, cur, 0) == Some(RangeMatch(s[0..r], s[d + 2..|s|]));
    assert s[..r] == s[0..r] && s[r + |cur| + 3..] == s[d + 2..|s|];
  }

  /** The matcher splits "a CUR - b" into "a " and "b". */
  lemma MatchRendered(a: string, b: string, cur: string)
    requires AllDigits(a) && a != [] && AllDigits(b) && b != [] && PlainCode(cur)
    ensures MatchAt(a + " " + cur + " - " + b, cur, 0) == Some(RangeMatch(a + " ", b))
  {
    var u := a + " ";
    var s := u + (cur + (" - " + b));
    assert s == a + " " + cur + " - " + b;
    var r := |u|;
    assert ClassRun(s, 0, r) by {
      forall k | 0 <= k < r ensures IsRangeChar(s[k]) {
        assert s[k] == u[k];
        if k < |a| { assert IsDigit(a[k]); }
      }
    }
    assert CaseEqAt(s, r, cur) by {
      forall k | 0 <= k < |cur| ensures s[r + k] == cur[k] { }
    }
    var t := " - " + b;
    assert s[r + |cur|..] == t;
    assert ClassRun(s, r + |cur| + 3, |s|) by {
      forall k | r + |cur| + 3 <= k < |s| ensures IsRangeChar(s[k]) {
        assert s[k] == b[k - r - |cur| - 3];
      }
    }
    assert s[r + |cur| + 3] == b[0];
    MatchShape(s, cur, r);
    assert s[..r] == u;
    assert s[r + |cur| + 3..] == b;
  }

  /** Reading back a rendered range gives the same limits. */
  lemma ParseRangeRendered(lo: nat, hi: nat, cur: string)
    requires PlainCode(cur)
    ensures ParseRange(Rendered(lo, hi, cur), cur) == Some(Range(lo as real, hi as real))
  {
    var a, b := NatStr(lo), NatStr(hi);
    MatchRendered(a, b, cur);
    ParseNumberIgnoresSpaces(a + " ");
    DropTrailingSpace(a);
    ParseNumberOfNatStr(lo);
    ParseNumberOfNatStr(hi);
  }

  // ---------------------------------------------------------------------
  // rangesOverlap

  /** `rangesOverlap(userMin, userMax, offerMin, offerMax)`: an unset user
      bound means no overlap; otherwise both ends are inclusive. */
  function RangesOverlap(userMin: Option<real>, userMax: Option<real>, offerMin: real, offerMax: real): (b: bool)
    ensures (userMin.None? || userMax.None?) ==> !b
  {
    if userMin.None? || userMax.None? then false
    else offerMin <= userMax.value && offerMax >= userMin.value
  }

  predicate Within(x: real, lo: real, hi: real) {
    lo <= x <= hi
  }

  /** For well-formed intervals the test holds exactly when some amount lies
      in both the user's interval and the offer's. */
  lemma OverlapIffCommonAmount(userMin: real, userMax: real, offerMin: real, offerMax: real)
    requires userMin <= userMax && offerMin <= offerMax
    ensures RangesOverlap(Some(userMin), Some(userMax), offerMin, offerMax)
      <==> exists x :: Within(x, userMin, userMax) && Within(x, offerMin, offerMax)
  {
    if RangesOverlap(Some(userMin), Some(userMax), offerMin, offerMax) {
      var x := if userMin <= offerMin then offerMin else userMin;
      assert Within(x, userMin, userMax) && Within(x, offerMin, offerMax);
    }
  }
}
