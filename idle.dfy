/** The idle page cycler (content.js:48-149): user activity resets the idle
    clock; every three seconds a tick decides whether to move to the next
    result page, reload, or do nothing.  The clock, the page URL, the page
    number read from the pagination and whether the page button exists are
    inputs of a tick. */
module Idle {
  import opened Common

  // ---------------------------------------------------------------------
  // formatIdle

  /** `formatIdle(ms)`: whole seconds below a minute, otherwise minutes and
      seconds.  `Math.floor(ms / 1000)` is Dafny's `/` for a positive divisor. */
  function FormatIdle(ms: int): (t: string)
    ensures |t| >= 2 && t[|t| - 1] == 's'
  {
    var sec := ms / 1000;
    if sec < 60 then IntStr(sec) + "s"
    else NatStr(sec / 60) + "m " + NatStr(sec % 60) + "s"
  }

  /** Reads a duration written as "Ns", "-Ns" or "Mm Ss" back into seconds. */
  function ReadIdle(t: string): Option<int> {
    if |t| < 2 || t[|t| - 1] != 's' then None else ReadBody(t[..|t| - 1])
  }

  /** The duration without its final 's'. */
  function ReadBody(body: string): Option<int> {
    if ' ' in body then ReadMinSec(body, IndexOf(body, ' '))
    else if AllDigits(body) then Some(NatOf(body))
    else if body[0] == '-' && AllDigits(body[1..]) then Some(-(NatOf(body[1..]) as int))
    else None
  }

  /** "Mm Ss" with its space at index `i`. */
  function ReadMinSec(body: string, i: nat): Option<int>
    requires i < |body|
  {
    if i == 0 || body[i - 1] != 'm' then None
    else
      var mins, secs := body[..i - 1], body[i + 1..];
      if !AllDigits(mins) || !AllDigits(secs) then None
      else Some(NatOf(mins) * 60 + NatOf(secs))
  }

  lemma NatStrHasNoSpace(n: nat)
    ensures ' ' !in NatStr(n) && '-' !in NatStr(n)
  {
    var s := NatStr(n);
    assert forall i :: 0 <= i < |s| ==> IsDigit(s[i]);
  }

  lemma ReadSeconds(n: nat)
    ensures ReadIdle(NatStr(n) + "s") == Some(n)
  {
    var t := NatStr(n) + "s";
    assert t[..|t| - 1] == NatStr(n);
    NatStrHasNoSpace(n);
    NatStrRoundTrip(n);
  }

  lemma ReadNegativeSeconds(n: nat)
    requires n > 0
    ensures ReadIdle("-" + NatStr(n) + "s") == Some(-(n as int))
  {
    var t := "-" + NatStr(n) + "s";
    var body := t[..|t| - 1];
    assert body == "-" + NatStr(n) && body[1..] == NatStr(n);
    NatStrHasNoSpace(n);
    assert ' ' !in body;
    assert !IsDigit(body[0]);
    NatStrRoundTrip(n);
  }

  lemma MinutesBody(a: string, b: string)
    requires AllDigits(a) && a != []
    ensures var body := a + "m " + b;
      && ' ' in body && IndexOf(body, ' ') == |a| + 1
      && body[|a|] == 'm' && body[..|a|] == a && body[|a| + 2..] == b
  {
    var body := a + "m " + b;
    assert body[..|a|] == a && body[|a|] == 'm' && body[|a| + 1] == ' ';
    assert body[|a| + 2..] == b;
    assert forall k :: 0 <= k < |a| ==> body[k] == a[k];
    assert forall k :: 0 <= k < |a| ==> body[k] != ' ';
  }

  lemma ReadMinSecDigits(body: string, a: string, b: string)
    requires AllDigits(a) && AllDigits(b) && |a| + 1 < |body|
    requires body[|a|] == 'm' && body[..|a|] == a && body[|a| + 2..] == b
    ensures ReadMinSec(body, |a| + 1) == Some(NatOf(a) * 60 + NatOf(b))
  {
  }

  lemma ReadIdleBody(body: string)
    requires |body| >= 1
    ensures ReadIdle(body + "s") == ReadBody(body)
  {
    var t := body + "s";
    assert t[..|t| - 1] == body;
  }

  lemma ReadBodyMinutes(a: string, b: string)
    requires AllDigits(a) && a != [] && AllDigits(b)
    ensures ReadBody(a + "m " + b) == Some(NatOf(a) * 60 + NatOf(b))
  {
    MinutesBody(a, b);
    ReadMinSecDigits(a + "m " + b, a, b);
  }

  lemma ReadBodyOfMinutes(m: nat, s: nat)
    ensures ReadBody(NatStr(m) + "m " + NatStr(s)) == Some(m * 60 + s)
  {
    ReadBodyMinutes(NatStr(m), NatStr(s));
    NatStrRoundTrip(m);
    NatStrRoundTrip(s);
  }

  lemma ReadMinutes(m: nat, s: nat)
    ensures ReadIdle(NatStr(m) + "m " + NatStr(s) + "s") == Some(m * 60 + s)
  {
    ReadIdleBody(NatStr(m) + "m " + NatStr(s));
    ReadBodyOfMinutes(m, s);
  }

  lemma FormatSecondsReads(ms: int)
    requires 0 <= ms / 1000 < 60
    ensures ReadIdle(FormatIdle(ms)) == Some(ms / 1000)
  {
    assert FormatIdle(ms) == NatStr(ms / 1000) + "s";
    ReadSeconds(ms / 1000);
  }

  lemma FormatNegativeReads(ms: int)
    requires ms / 1000 < 0
    ensures ReadIdle(FormatIdle(ms)) == Some(ms / 1000)
  {
    var n: nat := -(ms / 1000);
    assert FormatIdle(ms) == "-" + NatStr(n) + "s";
    ReadNegativeSeconds(n);
  }

  lemma FormatMinutesReads(ms: int)
    requires ms / 1000 >= 60
    ensures ReadIdle(FormatIdle(ms)) == Some(ms / 1000)
  {
    var sec := ms / 1000;
    assert FormatIdle(ms) == NatStr(sec / 60) + "m " + NatStr(sec % 60) + "s";
    ReadMinutes(sec / 60, sec % 60);
  }

  /** The displayed idle time reads back as the whole seconds elapsed. */
  lemma ReadFormatIdle(ms: int)
    ensures ReadIdle(FormatIdle(ms)) == Some(ms / 1000)
  {
    if ms / 1000 >= 60 {
      FormatMinutesReads(ms);
    } else if ms / 1000 >= 0 {
      FormatSecondsReads(ms);
    } else {
      FormatNegativeReads(ms);
    }
  }

  /** In the minutes form the seconds are below a minute. */
  lemma FormatIdleSecondsBelowMinute(ms: int)
    requires ms >= 60000
    ensures exists m: nat, s: nat :: s < 60 && FormatIdle(ms) == NatStr(m) + "m " + NatStr(s) + "s"
  {
    var sec := ms / 1000;
    assert FormatIdle(ms) == NatStr(sec / 60) + "m " + NatStr(sec % 60) + "s";
  }

  // ---------------------------------------------------------------------
  // The tick

  /** What a tick does to the page. */
  datatype Action = NoAction | GoTo(page: int) | Reload

  /** Idle time after which a tick acts, in milliseconds. */
  const IdleLimit := 15000

  /** Auto reload is switched on and nothing switches it off. */
  const AutoReloadEnabled := true

  /** The URL fragment of an order's detail page, where nothing reloads. */
  const DetailPath := "/en/fiatOrderDetail"

  predicate FragmentAt(href: string, i: nat, fragment: string) {
    i + |fragment| <= |href| && href[i..i + |fragment|] == fragment
  }

  /** `href.includes(fragment)`. */
  predicate Includes(href: string, fragment: string) {
    exists i: nat | i <= |href| :: FragmentAt(href, i, fragment)
  }

  /** The page the tick works from: the one the pagination shows, else the
      one it remembers, else 1. */
  function ResolvedPage(currentPage: Option<int>, domPage: Option<int>): (p: int)
    ensures domPage.Some? ==> p == domPage.value
    ensures domPage.None? && currentPage.Some? ==> p == currentPage.value
    ensures domPage.None? && currentPage.None? ==> p == 1
  {
    if domPage.Some? then domPage.value
    else if currentPage.None? then 1
    else currentPage.value
  }

  /** The two variables the interval closure keeps. */
  datatype Cycle = Cycle(currentPage: Option<int>, lastMove: int)

  /** One tick as a function of the state and the inputs: `now` and `resetAt`
      are the two clock readings, `found` whether the next page's button
      exists. */
  function Step(c: Cycle, now: int, href: string, domPage: Option<int>, pagesToCheck: int,
                found: bool, resetAt: int): (Action, Cycle)
  {
    if Includes(href, DetailPath) || !AutoReloadEnabled || now - c.lastMove <= IdleLimit then (NoAction, c)
    else
      var page := ResolvedPage(c.currentPage, domPage);
      if page < pagesToCheck && found then (GoTo(page + 1), Cycle(Some(page + 1), resetAt))
      else (Reload, Cycle(Some(page), c.lastMove))
  }

  /** The closure's state, updated in place by the event listeners and the
      interval. */
  class PageCycler {
    var currentPage: Option<int>
    var lastMove: int

    function State(): Cycle
      reads this
    {
      Cycle(currentPage, lastMove)
    }

    /** The script starts with no known page and the clock at load time. */
    constructor (now: int)
      ensures State() == Cycle(None, now)
    {
      currentPage := None;
      lastMove := now;
    }

    /** A mouse move, key press or scroll. */
    method Activity(now: int)
      modifies this
      ensures State() == Cycle(old(currentPage), now)
    {
      lastMove := now;
    }

    /** The body of the three-second interval. */
    method Tick(now: int, href: string, domPage: Option<int>, pagesToCheck: int,
                found: bool, resetAt: int) returns (a: Action)
      modifies this
      ensures (a, State()) == Step(old(State()), now, href, domPage, pagesToCheck, found, resetAt)
    {
      a := NoAction;
      var idleMs := now - lastMove;
      var isDetailPage := Includes(href, DetailPath);
      if !isDetailPage && AutoReloadEnabled && idleMs > IdleLimit {
        if domPage.Some? {
          currentPage := domPage;
        } else if currentPage.None? {
          currentPage := Some(1);
        }
        var page := currentPage.value;
        if page < pagesToCheck {
          var nextPage := page + 1;
          if found {
            currentPage := Some(nextPage);
            lastMove := resetAt;
            a := GoTo(nextPage);
          } else {
            a := Reload;
          }
        } else {
          a := Reload;
        }
      }
    }
  }

  // ---------------------------------------------------------------------
  // What a tick promises

  /** Nothing happens on a detail page or before the user has been idle for
      more than fifteen seconds. */
  lemma QuietUnlessIdle(c: Cycle, now: int, href: string, domPage: Option<int>, pages: int, found: bool, resetAt: int)
    requires Includes(href, DetailPath) || now - c.lastMove <= IdleLimit
    ensures Step(c, now, href, domPage, pages, found, resetAt) == (NoAction, c)
  {
  }

  /** Otherwise the tick always acts: it moves on exactly when the resolved
      page is before the last one and its successor's button exists. */
  lemma ActsWhenIdle(c: Cycle, now: int, href: string, domPage: Option<int>, pages: int, found: bool, resetAt: int)
    requires !Includes(href, DetailPath) && now - c.lastMove > IdleLimit
    ensures Step(c, now, href, domPage, pages, found, resetAt).0 != NoAction
    ensures Step(c, now, href, domPage, pages, found, resetAt).0.GoTo?
      <==> ResolvedPage(c.currentPage, domPage) < pages && found
  {
  }

  /** Moving on goes exactly one page forward, never past the last page to
      check, and restarts the idle clock. */
  lemma GoToIsNextPage(c: Cycle, now: int, href: string, domPage: Option<int>, pages: int, found: bool, resetAt: int)
    requires Step(c, now, href, domPage, pages, found, resetAt).0.GoTo?
    ensures var (a, c') := Step(c, now, href, domPage, pages, found, resetAt);
      && found
      && a.page == ResolvedPage(c.currentPage, domPage) + 1 <= pages
      && c'.currentPage == Some(a.page) && c'.lastMove == resetAt
  {
  }

  /** A reload happens only on the last page or when the button is missing;
      it keeps the idle clock and remembers the resolved page. */
  lemma ReloadKeepsClock(c: Cycle, now: int, href: string, domPage: Option<int>, pages: int, found: bool, resetAt: int)
    requires Step(c, now, href, domPage, pages, found, resetAt).0.Reload?
    ensures var (_, c') := Step(c, now, href, domPage, pages, found, resetAt);
      var page := ResolvedPage(c.currentPage, domPage);
      && (page >= pages || !found)
      && c' == Cycle(Some(page), c.lastMove)
  {
  }

  predicate InRange(p: Option<int>, pages: int) {
    p.None? || 1 <= p.value <= pages
  }

  /** With at least one page to check and a pagination that shows a page in
      range, the remembered page stays between 1 and the number of pages. */
  lemma PageStaysInRange(c: Cycle, now: int, href: string, domPage: Option<int>, pages: int, found: bool, resetAt: int)
    requires pages >= 1 && InRange(c.currentPage, pages) && InRange(domPage, pages)
    ensures InRange(Step(c, now, href, domPage, pages, found, resetAt).1.currentPage, pages)
  {
  }
}
