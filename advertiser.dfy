/** Advertiser reputation (content.js:201-238): the completion rate and the
    order count read from the advertiser's stats text, and the two tiers
    built on them. */
module Advertiser {
  import opened Common
  import opened Numbers

  /** End of the run of ASCII digits starting at `i`. */
  function DigitEnd(s: string, i: nat): (e: nat)
    requires i <= |s|
    ensures i <= e <= |s| && AllDigits(s[i..e])
    ensures e == |s| || !IsDigit(s[e])
    decreases |s| - i
  {
    if i < |s| && IsDigit(s[i]) then
      var e := DigitEnd(s, i + 1);
      assert s[i..e] == [s[i]] + s[i + 1..e];
      e
    else i
  }

  /** End of the run of white space starting at `i`. */
  function BlankEnd(s: string, i: nat): (e: nat)
    requires i <= |s|
    ensures i <= e <= |s| && forall k :: i <= k < e ==> IsSpace(s[k])
    ensures e == |s| || !IsSpace(s[e])
    decreases |s| - i
  {
    if i < |s| && IsSpace(s[i]) then BlankEnd(s, i + 1) else i
  }

  const CompletionWord := "completion"
  const OrdersWord := "orders"

  predicate Blanks(s: string, i: nat, j: nat)
    requires i <= j <= |s|
  {
    forall k :: i <= k < j ==> IsSpace(s[k])
  }

  // ---------------------------------------------------------------------
  // /(\d{1,3}(?:\.\d+)?)%\s+completion/i

  /** Declarative reading of the completion pattern at `p`: one to three
      digits up to `q`, optionally a point and more digits up to `pc`, the
      percent sign at `pc`, white space up to `w`, then "completion". */
  predicate CompletionMatch(s: string, p: nat, q: nat, pc: nat, w: nat) {
    && p < q <= p + 3 && q <= pc < w <= |s|
    && AllDigits(s[p..q])
    && (pc == q || (s[q] == '.' && q + 1 < pc && AllDigits(s[q + 1..pc])))
    && s[pc] == '%' && pc + 1 < w && Blanks(s, pc + 1, w)
    && CaseEqAt(s, w, CompletionWord)
  }

  /** Where `\d{1,3}` stops when started at `p`: it takes as many digits
      as it may. */
  function LeadEnd(s: string, p: nat): (q: nat)
    requires p <= |s|
    ensures p <= q <= p + 3 && q <= |s| && AllDigits(s[p..q])
    ensures q < p + 3 ==> q == |s| || !IsDigit(s[q])
  {
    var e := DigitEnd(s, p);
    if e - p > 3 then
      var run := s[p..e];
      assert s[p..p + 3] == run[..3];
      p + 3
    else e
  }

  /** Where the optional `(?:\.\d+)` stops: it is taken whenever a point
      followed by a digit is there. */
  function FractionEnd(s: string, q: nat): (pc: nat)
    requires q <= |s|
    ensures q <= pc <= |s|
    ensures pc > q <==> q + 1 < |s| && s[q] == '.' && IsDigit(s[q + 1])
    ensures pc == q || (s[q] == '.' && q + 1 < pc && AllDigits(s[q + 1..pc]) && (pc == |s| || !IsDigit(s[pc])))
  {
    if q + 1 < |s| && s[q] == '.' && IsDigit(s[q + 1]) then DigitEnd(s, q + 1) else q
  }

  lemma GroupIsNumeral(s: string, p: nat, q: nat, pc: nat)
    requires p < q <= pc <= |s| && AllDigits(s[p..q])
    requires pc == q || (s[q] == '.' && AllDigits(s[q + 1..pc]))
    ensures Numeral(s[p..pc]) && HasDigit(s[p..pc])
  {
    assert forall k :: p <= k < q ==> IsDigit(s[k]) by {
      forall k | p <= k < q ensures IsDigit(s[k]) { assert s[k] == s[p..q][k - p]; }
    }
    if pc != q {
      assert forall k :: q + 1 <= k < pc ==> IsDigit(s[k]) by {
        forall k | q + 1 <= k < pc ensures IsDigit(s[k]) { assert s[k] == s[q + 1..pc][k - q - 1]; }
      }
    }
    assert IsDigit(s[p..pc][0]);
  }

  /** The engine's attempt at `p`; the captured group when it succeeds.
      Giving back a digit or the fraction cannot reach the `%`. */
  function CompletionAt(s: string, p: nat): (g: Option<string>)
    requires p <= |s|
    ensures g.Some? ==> Numeral(g.value) && HasDigit(g.value)
  {
    var q := LeadEnd(s, p);
    var pc := FractionEnd(s, q);
    if q == p || pc == |s| || s[pc] != '%' then None
    else
      var w := BlankEnd(s, pc + 1);
      if w == pc + 1 || !CaseEqAt(s, w, CompletionWord) then None
      else
        GroupIsNumeral(s, p, q, pc);
        Some(s[p..pc])
  }

  /** The engine's attempt at each start; none past the end of the text. */
  function CompletionAttempt(s: string): nat -> Option<string> {
    (q: nat) => if q <= |s| then CompletionAt(s, q) else None
  }

  /** The leftmost completion match. */
  function FindCompletion(s: string): (g: Option<string>)
    ensures g.Some? ==> Numeral(g.value) && HasDigit(g.value)
  {
    LeftmostSpec(CompletionAttempt(s), 0, |s|);
    Leftmost(CompletionAttempt(s), 0, |s|)
  }

  /** `cm ? parseFloat(cm[1]) : null`. */
  function Completion(text: string): Option<real> {
    match FindCompletion(text)
    case None => None
    case Some(g) => Some(DecimalValue(g))
  }

  // ---------------------------------------------------------------------
  // /(\d+)\s+orders\b/i

  /** Declarative reading of the orders pattern at `p`: digits up to `e`,
      white space up to `w`, "orders", then a word boundary. */
  predicate OrdersMatch(s: string, p: nat, e: nat, w: nat) {
    && p < e < w && w + 6 <= |s|
    && AllDigits(s[p..e]) && Blanks(s, e, w)
    && CaseEqAt(s, w, OrdersWord)
    && (w + 6 == |s| || !IsWordChar(s[w + 6]))
  }

  /** The engine's attempt at `p`; the captured digit run when it succeeds. */
  function OrdersAt(s: string, p: nat): (g: Option<string>)
    requires p <= |s|
    ensures g.Some? ==> AllDigits(g.value) && g.value != []
  {
    var e := DigitEnd(s, p);
    if e == p then None
    else
      var w := BlankEnd(s, e);
      if w == e || !CaseEqAt(s, w, OrdersWord) then None
      else if w + 6 < |s| && IsWordChar(s[w + 6]) then None
      else Some(s[p..e])
  }

  /** The engine's attempt at each start; none past the end of the text. */
  function OrdersAttempt(s: string): nat -> Option<string> {
    (q: nat) => if q <= |s| then OrdersAt(s, q) else None
  }

  /** The leftmost orders match. */
  function FindOrders(s: string): (g: Option<string>)
    ensures g.Some? ==> AllDigits(g.value) && g.value != []
  {
    LeftmostSpec(OrdersAttempt(s), 0, |s|);
    Leftmost(OrdersAttempt(s), 0, |s|)
  }

  /** `parseInt` of the captured run once non-digits are stripped; the run
      holds only digits, so nothing is stripped and it is never empty. */
  function Orders(text: string): Option<nat> {
    match FindOrders(text)
    case None => None
    case Some(g) => Some(NatOf(g))
  }

  // ---------------------------------------------------------------------
  // Stats and tiers

  datatype Stats = Stats(completion: Option<real>, orders: Option<nat>)

  /** `getAdvertiserStats` for a row without an advertiser cell. */
  const NoStats := Stats(None, None)

  /** `getAdvertiserStats` for the text of the stats element (or of the
      whole cell when no stats element is found). */
  function ReadStats(text: string): Stats {
    Stats(Completion(text), Orders(text))
  }

  /** `advertiserEligible`: completion of at least 95 % and at least 300 orders. */
  function AdvertiserEligible(st: Stats): (b: bool)
    ensures (st.completion.None? || st.orders.None?) ==> !b
  {
    if st.completion.None? || st.orders.None? then false
    else st.completion.value >= 95.0 && st.orders.value >= 300
  }

  /** `advertiserVIP`: completion of at least 97 % and at least 450 orders. */
  function AdvertiserVip(st: Stats): (b: bool)
    ensures (st.completion.None? || st.orders.None?) ==> !b
    ensures b ==> AdvertiserEligible(st)
  {
    if st.completion.None? || st.orders.None? then false
    else st.completion.value >= 97.0 && st.orders.value >= 450
  }

  /** One record is at least as good as another in both figures. */
  predicate AtLeast(st: Stats, c: real, n: nat) {
    st.completion.Some? && st.orders.Some? && st.completion.value >= c && st.orders.value >= n
  }

  /** Both tiers are upward closed: better figures never lose a tier. */
  lemma TiersMonotone(st: Stats, better: Stats)
    requires st.completion.Some? && st.orders.Some?
    requires AtLeast(better, st.completion.value, st.orders.value)
    ensures AdvertiserEligible(st) ==> AdvertiserEligible(better)
    ensures AdvertiserVip(st) ==> AdvertiserVip(better)
  {
  }

  /** Both thresholds are inclusive. */
  lemma TierBoundaries()
    ensures AdvertiserEligible(Stats(Some(95.0), Some(300)))
    ensures !AdvertiserEligible(Stats(Some(94.9), Some(300)))
    ensures AdvertiserVip(Stats(Some(97.0), Some(450)))
    ensures !AdvertiserVip(Stats(Some(97.0), Some(449)))
  {
  }

  // ---------------------------------------------------------------------
  // The matchers against the patterns

  lemma DigitsSlice(s: string, i: nat, j: nat, k: nat)
    requires i <= j <= |s| && AllDigits(s[i..j]) && i <= k < j
    ensures IsDigit(s[k])
  {
    assert s[k] == s[i..j][k - i];
  }

  /** Text matching a word that starts with a letter does not start with
      white space. */
  lemma WordStart(s: string, w: nat, word: string)
    requires word != [] && 'a' <= word[0] <= 'z' && CaseEqAt(s, w, word)
    ensures w < |s| && !IsSpace(s[w]) && !IsDigit(s[w])
  {
    assert Upper(s[w + 0]) == Upper(word[0]);
  }

  lemma OrdersAtSound(s: string, p: nat)
    requires p <= |s| && OrdersAt(s, p).Some?
    ensures exists e: nat, w: nat :: (OrdersMatch(s, p, e, w) && OrdersAt(s, p) == Some(s[p..e])
      && (e == |s| || !IsDigit(s[e])))
  {
    var e := DigitEnd(s, p);
    var w := BlankEnd(s, e);
    assert OrdersMatch(s, p, e, w);
  }

  lemma OrdersAtComplete(s: string, p: nat, e: nat, w: nat)
    requires OrdersMatch(s, p, e, w)
    ensures OrdersAt(s, p) == Some(s[p..e])
  {
    var e' := DigitEnd(s, p);
    if e' < e { DigitsSlice(s, p, e, e'); }
    assert IsSpace(s[e]);
    assert e' == e;
    WordStart(s, w, OrdersWord);
    assert BlankEnd(s, e) == w;
  }

  lemma CompletionAtSound(s: string, p: nat)
    requires p <= |s| && CompletionAt(s, p).Some?
    ensures exists q: nat, pc: nat, w: nat :: (CompletionMatch(s, p, q, pc, w)
      && CompletionAt(s, p) == Some(s[p..pc]))
  {
    var q := LeadEnd(s, p);
    var pc := FractionEnd(s, q);
    var w := BlankEnd(s, pc + 1);
    assert CompletionMatch(s, p, q, pc, w);
  }

  lemma LeadEndAt(s: string, p: nat, q: nat)
    requires p < q <= p + 3 && q < |s| && AllDigits(s[p..q]) && !IsDigit(s[q])
    ensures LeadEnd(s, p) == q
  {
    var q' := LeadEnd(s, p);
    if q' < q { DigitsSlice(s, p, q, q'); }
    if q < q' { DigitsSlice(s, p, q', q); }
  }

  lemma FractionEndAt(s: string, q: nat, pc: nat)
    requires q + 1 < pc < |s| && s[q] == '.' && AllDigits(s[q + 1..pc]) && !IsDigit(s[pc])
    ensures FractionEnd(s, q) == pc
  {
    DigitsSlice(s, q + 1, pc, q + 1);
    var f := FractionEnd(s, q);
    if f < pc { DigitsSlice(s, q + 1, pc, f); }
    if pc < f { DigitsSlice(s, q + 1, f, pc); }
  }

  lemma BlankEndAt(s: string, i: nat, w: nat)
    requires i <= w < |s| && Blanks(s, i, w) && !IsSpace(s[w])
    ensures BlankEnd(s, i) == w
  {
  }

  lemma CompletionAtComplete(s: string, p: nat, q: nat, pc: nat, w: nat)
    requires CompletionMatch(s, p, q, pc, w)
    ensures CompletionAt(s, p) == Some(s[p..pc])
  {
    LeadEndAt(s, p, q);
    if pc != q {
      FractionEndAt(s, q, pc);
    }
    assert FractionEnd(s, q) == pc;
    WordStart(s, w, CompletionWord);
    BlankEndAt(s, pc + 1, w);
  }

  // ---------------------------------------------------------------------
  // Readings

  /** No orders match starts in a run of digits closed by a comma. */
  lemma NoOrdersBeforeComma(s: string, n: nat)
    requires n < |s| && s[n] == ',' && forall k :: 0 <= k < n ==> IsDigit(s[k])
    ensures forall q :: 0 <= q <= n ==> OrdersAt(s, q).None?
  {
    forall q | 0 <= q <= n ensures OrdersAt(s, q).None? {
      var d := DigitEnd(s, q);
      assert d == n;
    }
  }

  /** The leftmost orders match is at `p` when none starts before it. */
  lemma OrdersFoundAt(s: string, p: nat, e: nat, w: nat)
    requires OrdersMatch(s, p, e, w) && forall q :: 0 <= q < p ==> OrdersAt(s, q).None?
    ensures Orders(s) == Some(NatOf(s[p..e]))
  {
    OrdersAtComplete(s, p, e, w);
    var f := OrdersAttempt(s);
    forall q | 0 <= q < p
      ensures f(q).None?
    {
    }
    LeftmostAt(f, 0, |s|, p);
  }

  lemma GroupedShape(a: string, b: string)
    requires AllDigits(a) && a != [] && AllDigits(b) && b != []
    ensures var s := a + "," + b + " orders";
      && OrdersMatch(s, |a| + 1, |a| + 1 + |b|, |a| + 2 + |b|)
      && s[|a| + 1..|a| + 1 + |b|] == b
      && s[|a|] == ',' && forall k :: 0 <= k < |a| ==> IsDigit(s[k])
  {
    var s := a + "," + b + " orders";
    var p := |a| + 1;
    var e := p + |b|;
    assert s[p..e] == b;
    assert s[e] == ' ';
    assert s[e + 1..] == OrdersWord;
    assert CaseEqAt(s, e + 1, OrdersWord);
    assert forall k :: 0 <= k < |a| ==> s[k] == a[k];
  }

  /** Only a plain digit run is captured: in "a,b orders" the count is the
      part after the last separator, so "1,234 orders" reads as 234. */
  lemma GroupedOrdersReadTail(a: string, b: string)
    requires AllDigits(a) && a != [] && AllDigits(b) && b != []
    ensures Orders(a + "," + b + " orders") == Some(NatOf(b))
  {
    var s := a + "," + b + " orders";
    GroupedShape(a, b);
    NoOrdersBeforeComma(s, |a|);
    OrdersFoundAt(s, |a| + 1, |a| + 1 + |b|, |a| + 2 + |b|);
  }

  /** A rendered count reads back. */
  lemma OrdersRendered(n: nat)
    ensures Orders(NatStr(n) + " orders") == Some(n)
  {
    var a := NatStr(n);
    var s := a + " orders";
    assert s[0..|a|] == a;
    assert s[|a| + 1..] == "orders";
    assert CaseEqAt(s, |a| + 1, "orders");
    assert OrdersMatch(s, 0, |a|, |a| + 1);
    OrdersAtComplete(s, 0, |a|, |a| + 1);
    NatStrRoundTrip(n);
  }

  /** A rendered whole percentage below 1000 reads back. */
  lemma CompletionRendered(n: nat)
    requires n < 1000
    ensures Completion(NatStr(n) + "% completion") == Some(n as real)
  {
    var a := NatStr(n);
    assert |a| <= 3 by {
      if |a| > 3 { NatStrLength(n); }
    }
    var tail := "% completion";
    var s := a + tail;
    assert s[0..|a|] == a;
    assert s[|a|..] == tail;
    assert tail[2..] == CompletionWord;
    assert s[|a|] == '%' && s[|a| + 1] == ' ';
    assert s[|a| + 2..] == CompletionWord;
    assert CaseEqAt(s, |a| + 2, CompletionWord);
    assert CompletionMatch(s, 0, |a|, |a|, |a| + 2);
    CompletionAtComplete(s, 0, |a|, |a|, |a| + 2);
    assert '.' !in a;
    NatStrRoundTrip(n);
  }

  lemma {:induction false} NatStrLength(n: nat)
    ensures n < 1000 ==> |NatStr(n)| <= 3
  {
    if n >= 10 { NatStrLength(n / 10); }
  }
}
