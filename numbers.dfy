/** `parseNumber` (content.js:154-170): locale-ambiguous text to a number.
    Numbers are exact rationals here; `parseFloat`'s rounding is not modelled. */
module Numbers {
  import opened Common

  /** Keeps the characters `keep` accepts, in order (`replace(/[^…]/g, '')`). */
  function Filter(s: string, keep: char -> bool): (r: string)
    ensures |r| <= |s|
    ensures forall i :: 0 <= i < |r| ==> keep(r[i])
  {
    if s == [] then [] else (if keep(s[0]) then [s[0]] else []) + Filter(s[1..], keep)
  }

  /** Every `from` becomes `to` (`replace(/,/g, '.')`). */
  function Replace(s: string, from: char, to: char): (r: string)
    ensures |r| == |s|
    ensures forall i :: 0 <= i < |s| ==> r[i] == (if s[i] == from then to else s[i])
  {
    if s == [] then [] else [if s[0] == from then to else s[0]] + Replace(s[1..], from, to)
  }

  predicate NotSpace(c: char) { !IsSpace(c) }
  predicate NotComma(c: char) { c != ',' }
  predicate NotDot(c: char) { c != '.' }
  predicate DigitOrDot(c: char) { IsDigit(c) || c == '.' }

  /** Step 1: `replace(/\s/g, '')`. */
  function DropSpaces(s: string): string {
    Filter(s, NotSpace)
  }

  /** Step 2: with both separators the commas go; a lone comma becomes the point. */
  function Separators(s: string): string {
    if ',' in s && '.' in s then Filter(s, NotComma)
    else if ',' in s then Replace(s, ',', '.')
    else s
  }

  /** Step 3: `replace(/[^0-9.]/g, '')`. */
  function KeepNumeric(s: string): string {
    Filter(s, DigitOrDot)
  }

  /** Step 4: every '.' after the first is removed. */
  function KeepFirstDot(s: string): string {
    if '.' in s then
      var i := IndexOf(s, '.');
      s[..i + 1] + Filter(s[i + 1..], NotDot)
    else s
  }

  /** The string that `parseFloat` receives. */
  function Normalize(s: string): string {
    KeepFirstDot(KeepNumeric(Separators(DropSpaces(s))))
  }

  predicate HasDigit(s: string) {
    exists i :: 0 <= i < |s| && IsDigit(s[i])
  }

  /** Digits and at most one point: the only shape `Normalize` produces. */
  predicate Numeral(s: string) {
    && (forall i :: 0 <= i < |s| ==> DigitOrDot(s[i]))
    && (forall i, j :: 0 <= i < j < |s| && s[i] == '.' ==> s[j] != '.')
  }

  /** `n / 10^|ds|`: the value of the digits after the point. */
  function Fraction(ds: string): real
    requires AllDigits(ds)
  {
    NatOf(ds) as real / Pow10(|ds|) as real
  }

  /** What `parseFloat` returns for a numeral holding at least one digit. */
  function DecimalValue(s: string): real
    requires Numeral(s)
  {
    if '.' in s then
      var i := IndexOf(s, '.');
      assert AllDigits(s[..i]);
      NatOf(s[..i]) as real + Fraction(s[i + 1..])
    else NatOf(s) as real
  }

  /** `parseNumber`: `null` for the empty string and whenever no digit is left. */
  function ParseNumber(s: string): (r: Option<real>)
  {
    if s == [] then None
    else
      var n := Normalize(s);
      NormalizeIsNumeral(s);
      if HasDigit(n) then Some(DecimalValue(n)) else None
  }

  // ---------------------------------------------------------------------
  // Filtering facts

  /** The digits of a string, in order. */
  function Digits(s: string): string {
    Filter(s, IsDigit)
  }

  lemma {:induction false} FilterAppend(a: string, b: string, keep: char -> bool)
    ensures Filter(a + b, keep) == Filter(a, keep) + Filter(b, keep)
  {
    if a != [] {
      var head := if keep(a[0]) then [a[0]] else [];
      assert (a + b)[0] == a[0];
      assert (a + b)[1..] == a[1..] + b;
      FilterAppend(a[1..], b, keep);
      assert Filter(a + b, keep) == head + Filter(a[1..] + b, keep);
    } else {
      assert a + b == b;
    }
  }

  /** Filtering by a weaker test first changes nothing. */
  lemma {:induction false} FilterFilter(s: string, f: char -> bool, g: char -> bool)
    requires forall c :: g(c) ==> f(c)
    ensures Filter(Filter(s, f), g) == Filter(s, g)
  {
    if s != [] {
      FilterFilter(s[1..], f, g);
      FilterAppend(if f(s[0]) then [s[0]] else [], Filter(s[1..], f), g);
    }
  }

  lemma {:induction false} FilterAll(s: string, keep: char -> bool)
    requires forall i :: 0 <= i < |s| ==> keep(s[i])
    ensures Filter(s, keep) == s
  {
    if s != [] {
      FilterAll(s[1..], keep);
    }
  }

  /** Renaming a non-digit to a non-digit leaves the digits alone. */
  lemma {:induction false} ReplaceDigits(s: string, from: char, to: char)
    requires !IsDigit(from) && !IsDigit(to)
    ensures Digits(Replace(s, from, to)) == Digits(s)
  {
    if s != [] {
      assert Replace(s, from, to)[1..] == Replace(s[1..], from, to);
      ReplaceDigits(s[1..], from, to);
    }
  }

  lemma {:induction false} HasDigitIff(s: string)
    ensures HasDigit(s) <==> Digits(s) != []
  {
    if s != [] {
      HasDigitIff(s[1..]);
      if HasDigit(s[1..]) {
        var i :| 0 <= i < |s[1..]| && IsDigit(s[1..][i]);
        assert IsDigit(s[i + 1]);
      }
      if HasDigit(s) && !IsDigit(s[0]) {
        var i :| 0 <= i < |s| && IsDigit(s[i]);
        assert IsDigit(s[1..][i - 1]);
      }
    }
  }

  lemma DropSpacesDigits(s: string)
    ensures Digits(DropSpaces(s)) == Digits(s)
  {
    FilterFilter(s, NotSpace, IsDigit);
  }

  lemma SeparatorsDigits(s: string)
    ensures Digits(Separators(s)) == Digits(s)
  {
    if ',' in s && '.' in s {
      FilterFilter(s, NotComma, IsDigit);
    } else if ',' in s {
      ReplaceDigits(s, ',', '.');
    }
  }

  lemma KeepNumericDigits(s: string)
    ensures Digits(KeepNumeric(s)) == Digits(s)
  {
    FilterFilter(s, DigitOrDot, IsDigit);
  }

  lemma KeepFirstDotDigits(s: string)
    ensures Digits(KeepFirstDot(s)) == Digits(s)
  {
    if '.' in s {
      var i := IndexOf(s, '.');
      var head, rest := s[..i + 1], s[i + 1..];
      assert s == head + rest;
      FilterAppend(head, rest, IsDigit);
      FilterFilter(rest, NotDot, IsDigit);
      FilterAppend(head, Filter(rest, NotDot), IsDigit);
    }
  }

  /** Every digit of the input reaches `parseFloat`, in its original order. */
  lemma NormalizeKeepsDigits(s: string)
    ensures Digits(Normalize(s)) == Digits(s)
  {
    DropSpacesDigits(s);
    SeparatorsDigits(DropSpaces(s));
    KeepNumericDigits(Separators(DropSpaces(s)));
    KeepFirstDotDigits(KeepNumeric(Separators(DropSpaces(s))));
  }

  lemma {:induction false} FilterKeepsNumeric(s: string, keep: char -> bool)
    requires forall k :: 0 <= k < |s| ==> DigitOrDot(s[k])
    ensures forall k :: 0 <= k < |Filter(s, keep)| ==> DigitOrDot(Filter(s, keep)[k])
  {
    if s != [] {
      FilterKeepsNumeric(s[1..], keep);
    }
  }

  /** A run of digits and points whose only point is its last character,
      followed by digits, is a numeral. */
  lemma NumeralJoin(head: string, tail: string)
    requires forall k :: 0 <= k < |head| ==> DigitOrDot(head[k])
    requires forall k :: 0 <= k < |head| - 1 ==> head[k] != '.'
    requires AllDigits(tail)
    ensures Numeral(head + tail)
  {
    var n := head + tail;
    assert forall k :: |head| <= k < |n| ==> n[k] == tail[k - |head|];
  }

  /** A numeric-only string keeps that shape once the later points are gone. */
  lemma KeepFirstDotNumeral(s3: string)
    requires forall k :: 0 <= k < |s3| ==> DigitOrDot(s3[k])
    ensures Numeral(KeepFirstDot(s3))
  {
    if '.' in s3 {
      var i := IndexOf(s3, '.');
      var head, rest := s3[..i + 1], s3[i + 1..];
      var tail := Filter(rest, NotDot);
      FilterKeepsNumeric(rest, NotDot);
      assert AllDigits(tail);
      NumeralJoin(head, tail);
    }
  }

  /** What `Normalize` hands to `parseFloat` holds only digits and at most one point. */
  lemma NormalizeIsNumeral(s: string)
    ensures Numeral(Normalize(s))
  {
    var s3 := KeepNumeric(Separators(DropSpaces(s)));
    KeepFirstDotNumeral(s3);
  }

  // ---------------------------------------------------------------------
  // What parseNumber promises

  /** `null` exactly when the text holds no ASCII digit (the empty text included). */
  lemma ParseNumberNullIff(s: string)
    ensures ParseNumber(s) == None <==> !HasDigit(s)
  {
    if s != [] {
      NormalizeKeepsDigits(s);
      HasDigitIff(s);
      HasDigitIff(Normalize(s));
    }
  }

  /** A run of plain digits reads as its decimal value. */
  lemma ParseNumberOfDigits(d: string)
    requires AllDigits(d) && d != []
    ensures ParseNumber(d) == Some(NatOf(d) as real)
  {
    FilterAll(d, NotSpace);
    FilterAll(d, DigitOrDot);
    assert Normalize(d) == d;
    assert IsDigit(d[0]);
  }

  /** Rendering a count and parsing it back is the identity. */
  lemma ParseNumberOfNatStr(n: nat)
    ensures ParseNumber(NatStr(n)) == Some(n as real)
  {
    ParseNumberOfDigits(NatStr(n));
    NatStrRoundTrip(n);
  }

  /** White space anywhere in the text is ignored. */
  lemma ParseNumberIgnoresSpaces(s: string)
    ensures ParseNumber(s) == ParseNumber(DropSpaces(s))
  {
    FilterFilter(s, NotSpace, NotSpace);
    var t := DropSpaces(s);
    if s != [] && t == [] {
      NormalizeKeepsDigits(s);
      FilterFilter(s, NotSpace, IsDigit);
      HasDigitIff(s);
      HasDigitIff(Normalize(s));
      assert Digits(s) == Digits(t) == [];
    }
  }

  lemma ReplaceAppend(a: string, b: string, from: char, to: char)
    ensures Replace(a + b, from, to) == Replace(a, from, to) + Replace(b, from, to)
  {
  }

  lemma {:induction false} ReplaceFilterSpaces(s: string)
    ensures DropSpaces(Replace(s, ',', '.')) == Replace(DropSpaces(s), ',', '.')
  {
    if s != [] {
      var t := Replace(s, ',', '.');
      assert t[1..] == Replace(s[1..], ',', '.');
      ReplaceFilterSpaces(s[1..]);
      var h := if NotSpace(s[0]) then [s[0]] else [];
      assert DropSpaces(s) == h + DropSpaces(s[1..]);
      ReplaceAppend(h, DropSpaces(s[1..]), ',', '.');
    }
  }

  lemma ReplaceFacts(s: string, from: char, to: char)
    requires from != to
    ensures from !in Replace(s, from, to)
    ensures from in s ==> to in Replace(s, from, to)
    ensures from !in s ==> Replace(s, from, to) == s
  {
    if from in s {
      var k :| 0 <= k < |s| && s[k] == from;
      assert Replace(s, from, to)[k] == to;
    }
  }

  lemma {:induction false} FilterAbsent(s: string, keep: char -> bool, c: char)
    requires c !in s
    ensures c !in Filter(s, keep)
  {
    if s != [] {
      FilterAbsent(s[1..], keep, c);
    }
  }

  /** Text whose only separators are commas reads the comma as the decimal
      point: it parses exactly as the same text with points in their place. */
  lemma CommaIsDecimalPoint(s: string)
    requires '.' !in s
    ensures ParseNumber(s) == ParseNumber(Replace(s, ',', '.'))
  {
    var s1 := DropSpaces(s);
    var t := Replace(s, ',', '.');
    var r1 := Replace(s1, ',', '.');
    ReplaceFilterSpaces(s);
    FilterAbsent(s, NotSpace, '.');
    ReplaceFacts(s1, ',', '.');
    assert Separators(s1) == r1;
    assert Separators(DropSpaces(t)) == r1;
  }

  lemma {:induction false} FilterCommaSpaces(s: string)
    ensures DropSpaces(Filter(s, NotComma)) == Filter(DropSpaces(s), NotComma)
  {
    if s != [] {
      FilterCommaSpaces(s[1..]);
      FilterAppend(if NotComma(s[0]) then [s[0]] else [], Filter(s[1..], NotComma), NotSpace);
      FilterAppend(if NotSpace(s[0]) then [s[0]] else [], Filter(s[1..], NotSpace), NotComma);
    }
  }

  lemma FilterKeepsMember(s: string, keep: char -> bool, c: char)
    requires c in s && keep(c)
    ensures c in Filter(s, keep)
  {
    var k :| 0 <= k < |s| && s[k] == c;
    assert s == s[..k] + s[k..];
    FilterAppend(s[..k], s[k..], keep);
  }

  /** With both a comma and a point present the commas are thousands
      separators: they are dropped and the point stays the decimal point. */
  lemma CommaIsThousands(s: string)
    requires ',' in s && '.' in s
    ensures ParseNumber(s) == ParseNumber(Filter(s, NotComma))
  {
    var s1 := DropSpaces(s);
    var t := Filter(s, NotComma);
    FilterKeepsMember(s, NotSpace, ',');
    FilterKeepsMember(s, NotSpace, '.');
    FilterCommaSpaces(s);
    FilterKeepsMember(s, NotComma, '.');
    FilterKeepsMember(s1, NotComma, '.');
    FilterFilter(s1, NotComma, NotComma);
    assert Separators(s1) == Filter(s1, NotComma);
    assert DropSpaces(t) == Filter(s1, NotComma);
    assert ',' !in Filter(s1, NotComma);
    assert Separators(DropSpaces(t)) == Filter(s1, NotComma);
    assert t != [];
  }

  lemma NumeralHasNoSpaceOrComma(n: string)
    requires Numeral(n)
    ensures forall k :: 0 <= k < |n| ==> NotSpace(n[k]) && DigitOrDot(n[k])
    ensures ',' !in n
  {
  }

  lemma KeepFirstDotOfNumeral(n: string)
    requires Numeral(n)
    ensures KeepFirstDot(n) == n
  {
    if '.' in n {
      var i := IndexOf(n, '.');
      var rest := n[i + 1..];
      forall k | 0 <= k < |rest|
        ensures NotDot(rest[k])
      {
        assert rest[k] == n[i + 1 + k] && n[i] == '.';
      }
      FilterAll(rest, NotDot);
      assert n[..i + 1] + rest == n;
    }
  }

  /** A numeral passes through normalisation unchanged. */
  lemma NormalizeNumeral(n: string)
    requires Numeral(n)
    ensures Normalize(n) == n
  {
    NumeralHasNoSpaceOrComma(n);
    FilterAll(n, NotSpace);
    assert DropSpaces(n) == n;
    assert Separators(n) == n;
    FilterAll(n, DigitOrDot);
    assert KeepNumeric(n) == n;
    KeepFirstDotOfNumeral(n);
  }

  /** Normalising twice is normalising once. */
  lemma NormalizeIdempotent(s: string)
    ensures Normalize(Normalize(s)) == Normalize(s)
  {
    NormalizeIsNumeral(s);
    NormalizeNumeral(Normalize(s));
  }

  // ---------------------------------------------------------------------
  // Worked readings

  lemma {:induction false} NatOfSnoc(s: string, c: char)
    requires AllDigits(s) && IsDigit(c)
    ensures AllDigits(s + [c]) && NatOf(s + [c]) == NatOf(s) * 10 + DigitValue(c)
  {
    assert (s + [c])[..|s|] == s;
  }

  lemma NatOf1234()
    ensures NatOf("1234") == 1234
  {
    NatOfSnoc("", '1');
    NatOfSnoc("1", '2');
    NatOfSnoc("12", '3');
    NatOfSnoc("123", '4');
    assert "123" + ['4'] == "1234";
    assert "12" + ['3'] == "123";
    assert "1" + ['2'] == "12";
    assert "" + ['1'] == "1";
  }

  lemma NatOf56()
    ensures NatOf("56") == 56
  {
    NatOfSnoc("", '5');
    NatOfSnoc("5", '6');
    assert "5" + ['6'] == "56";
    assert "" + ['5'] == "5";
  }

  lemma DecimalValueReading()
    ensures DecimalValue("1234.56") == 1234.56
  {
    var n := "1234.56";
    assert IndexOf(n, '.') == 4;
    assert n[..4] == "1234" && n[5..] == "56";
    NatOf1234();
    NatOf56();
    assert Pow10(2) == 100;
    assert Fraction("56") == 0.56;
  }

  /** "1234.56" is already a numeral and reads as 1234.56. */
  lemma PlainReading(n: string)
    requires n == "1234.56"
    ensures ParseNumber(n) == Some(1234.56)
  {
    assert Numeral(n);
    NormalizeNumeral(n);
    DecimalValueReading();
    assert IsDigit(n[0]);
  }

  /** "1234,56": a lone comma is the decimal point. */
  lemma CommaDecimalReading(s: string)
    requires s == "1234,56"
    ensures ParseNumber(s) == Some(1234.56)
  {
    CommaIsDecimalPoint(s);
    var n := Replace(s, ',', '.');
    assert n == "1234.56";
    PlainReading(n);
  }

  lemma NoCommaKept(a: string)
    requires ',' !in a
    ensures Filter(a, NotComma) == a
  {
    forall k | 0 <= k < |a|
      ensures NotComma(a[k])
    {
      assert a[k] in a;
    }
    FilterAll(a, NotComma);
  }

  lemma DropOneComma(a: string, b: string)
    requires ',' !in a && ',' !in b
    ensures Filter(a + [','] + b, NotComma) == a + b
  {
    NoCommaKept(a);
    NoCommaKept(b);
    assert Filter([','], NotComma) == [] by {
      assert [','][1..] == [];
    }
    FilterAppend(a, [','], NotComma);
    assert Filter(a + [','], NotComma) == a;
    FilterAppend(a + [','], b, NotComma);
  }

  lemma CommaThousandsDrop(s: string)
    requires s == "1,234.56"
    ensures Filter(s, NotComma) == "1234.56"
  {
    var a, b := s[..1], s[2..];
    assert a == "1" && b == "234.56";
    assert s == a + [','] + b;
    DropOneComma(a, b);
    assert a + b == "1234.56";
  }

  /** "1,234.56": with both separators the comma is dropped. */
  lemma CommaThousandsReading(s: string)
    requires s == "1,234.56"
    ensures ParseNumber(s) == Some(1234.56)
  {
    assert s[1] == ',' && s[5] == '.';
    CommaIsThousands(s);
    CommaThousandsDrop(s);
    PlainReading(Filter(s, NotComma));
  }

  lemma NatOf23456()
    ensures NatOf("23456") == 23456
  {
    NatOfSnoc("", '2');
    NatOfSnoc("2", '3');
    NatOfSnoc("23", '4');
    NatOfSnoc("234", '5');
    NatOfSnoc("2345", '6');
    assert "2345" + ['6'] == "23456";
    assert "234" + ['5'] == "2345";
    assert "23" + ['4'] == "234";
    assert "2" + ['3'] == "23";
    assert "" + ['2'] == "2";
  }

  lemma DecimalValueDotted()
    ensures DecimalValue("1.23456") == 1.23456
  {
    var n := "1.23456";
    assert IndexOf(n, '.') == 1;
    assert n[..1] == "1" && n[2..] == "23456";
    NatOfSnoc("", '1');
    assert "" + ['1'] == "1";
    NatOf23456();
    assert Pow10(5) == 100000;
    assert Fraction("23456") == 0.23456;
  }

  lemma DottedNumeral(n: string)
    requires n == "1.23456"
    ensures ParseNumber(n) == Some(1.23456)
  {
    assert Numeral(n);
    NormalizeNumeral(n);
    DecimalValueDotted();
    assert IsDigit(n[0]);
  }

  lemma DottedThousandsDrop(s: string)
    requires s == "1.234,56"
    ensures Filter(s, NotComma) == "1.23456"
  {
    var a, b := s[..5], s[6..];
    assert a == "1.234" && b == "56";
    assert s == a + [','] + b;
    DropOneComma(a, b);
    assert a + b == "1.23456";
  }

  /** "1.234,56" also has both separators, so its comma is dropped too and the
      point stays the decimal point: it reads as 1.23456, not as 1234.56. */
  lemma DottedThousandsReading(s: string)
    requires s == "1.234,56"
    ensures ParseNumber(s) == Some(1.23456)
  {
    assert s[5] == ',' && s[1] == '.';
    CommaIsThousands(s);
    DottedThousandsDrop(s);
    DottedNumeral(Filter(s, NotComma));
  }

  lemma LettersOnlyReading(s: string)
    requires s == "USDT"
    ensures ParseNumber(s) == None
  {
    ParseNumberNullIff(s);
  }
}
