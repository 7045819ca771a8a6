/** Vocabulary shared by the parsers: optional values, the character classes
    that the script's regular expressions use, and decimal digit strings. */
module Common {

  /** `null` in the script becomes `None`. */
  datatype Option<+T> = None | Some(value: T)

  /** `\d` and `[0-9]`: ASCII digits only. */
  predicate IsDigit(c: char) {
    '0' <= c <= '9'
  }

  /** `\s` of a JavaScript regular expression: white space and line terminators. */
  predicate IsSpace(c: char) {
    || c == ' ' || c == '\t' || c == '\n' || c == '\U{B}' || c == '\U{C}' || c == '\r'
    || c == '\U{A0}' || c == '\U{1680}' || ('\U{2000}' <= c <= '\U{200A}')
    || c == '\U{2028}' || c == '\U{2029}' || c == '\U{202F}' || c == '\U{205F}'
    || c == '\U{3000}' || c == '\U{FEFF}'
  }

  /** `\w`, the word characters that `\b` looks at. */
  predicate IsWordChar(c: char) {
    IsDigit(c) || ('a' <= c <= 'z') || ('A' <= c <= 'Z') || c == '_'
  }

  /** The canonical form a case-insensitive (non-unicode) regular expression
      compares.  For an ASCII pattern character only ASCII letters fold: a
      non-ASCII character whose upper case is ASCII keeps its own form. */
  function Upper(c: char): (u: char)
    ensures ('a' <= c <= 'z') ==> ('A' <= u <= 'Z') && u as int == c as int - 32
    ensures !('a' <= c <= 'z') ==> u == c
  {
    if 'a' <= c <= 'z' then (c as int - 32) as char else c
  }

  /** `pat` occurs at position `i` of `s`, letters compared without case. */
  predicate CaseEqAt(s: string, i: nat, pat: string) {
    i + |pat| <= |s| && forall k :: 0 <= k < |pat| ==> Upper(s[i + k]) == Upper(pat[k])
  }

  /** `s.toUpperCase().includes(pat.toUpperCase())` for ASCII letters. */
  predicate ContainsIgnoringCase(s: string, pat: string) {
    exists i: nat | i <= |s| :: CaseEqAt(s, i, pat)
  }

  predicate AllDigits(s: string) {
    forall i :: 0 <= i < |s| ==> IsDigit(s[i])
  }

  function DigitValue(c: char): (d: nat)
    requires IsDigit(c)
    ensures d < 10
  {
    c as int - '0' as int
  }

  function DigitChar(d: nat): (c: char)
    requires d < 10
    ensures IsDigit(c) && DigitValue(c) == d
  {
    ('0' as int + d) as char
  }

  /** The value of a run of decimal digits, most significant first
      (`parseInt(s, 10)` on such a run). The empty run is 0. */
  function NatOf(s: string): nat
    requires AllDigits(s)
  {
    if s == [] then 0 else NatOf(s[..|s| - 1]) * 10 + DigitValue(s[|s| - 1])
  }

  function Pow10(n: nat): (p: nat)
    ensures p >= 1
  {
    if n == 0 then 1 else 10 * Pow10(n - 1)
  }

  /** Decimal rendering of a natural number, no leading zeros. */
  function NatStr(n: nat): (s: string)
    ensures AllDigits(s) && |s| >= 1
    ensures n > 0 ==> s[0] != '0'
  {
    if n < 10 then [DigitChar(n)] else NatStr(n / 10) + [DigitChar(n % 10)]
  }

  /** Template-literal rendering of an integer: `${n}`. */
  function IntStr(n: int): (s: string)
    ensures |s| >= 1
    ensures n < 0 <==> s[0] == '-'
  {
    if n < 0 then "-" + NatStr(-n) else NatStr(n)
  }

  /** Reading a rendered natural number back gives the number. */
  lemma {:induction false} NatStrRoundTrip(n: nat)
    ensures NatOf(NatStr(n)) == n
  {
    if n >= 10 {
      var s := NatStr(n);
      assert s[..|s| - 1] == NatStr(n / 10);
      NatStrRoundTrip(n / 10);
    }
  }

  /** Position of the first `c` in `s`. */
  function IndexOf(s: string, c: char): (i: nat)
    requires c in s
    ensures i < |s| && s[i] == c
    ensures forall k :: 0 <= k < i ==> s[k] != c
  {
    if s[0] == c then 0 else 1 + IndexOf(s[1..], c)
  }

  /** The first position from `p` to `n` at which `attempt` succeeds, with
      what it gives there: a regular expression engine without the `g` flag
      tries each start in turn and reports the leftmost match. */
  function Leftmost<T>(attempt: nat -> Option<T>, p: nat, n: nat): (r: Option<T>)
    requires p <= n
    decreases n - p
  {
    if attempt(p).Some? then attempt(p)
    else if p == n then None
    else Leftmost(attempt, p + 1, n)
  }

  /** `Leftmost` fails only when every attempt fails, and otherwise gives
      what the first successful attempt gives. */
  lemma {:induction false} LeftmostSpec<T>(attempt: nat -> Option<T>, p: nat, n: nat)
    requires p <= n
    ensures Leftmost(attempt, p, n).None? ==> forall q :: p <= q <= n ==> attempt(q).None?
    ensures Leftmost(attempt, p, n).Some? ==> exists q :: (p <= q <= n && attempt(q) == Leftmost(attempt, p, n)
      && forall q' :: p <= q' < q ==> attempt(q').None?)
    decreases n - p
  {
    if attempt(p).None? && p < n {
      LeftmostSpec(attempt, p + 1, n);
      if Leftmost(attempt, p, n).Some? {
        var q :| p + 1 <= q <= n && attempt(q) == Leftmost(attempt, p + 1, n)
          && forall q' :: p + 1 <= q' < q ==> attempt(q').None?;
        assert forall q' :: p <= q' < q ==> attempt(q').None?;
      }
    }
  }

  /** A success with only failures before it is the leftmost one. */
  lemma {:induction false} LeftmostAt<T>(attempt: nat -> Option<T>, p: nat, n: nat, i: nat)
    requires p <= i <= n && attempt(i).Some?
    requires forall q :: p <= q < i ==> attempt(q).None?
    ensures Leftmost(attempt, p, n) == attempt(i)
    decreases i - p
  {
    if p < i {
      LeftmostAt(attempt, p + 1, n, i);
    }
  }
}
