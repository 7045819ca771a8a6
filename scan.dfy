/** The annotation engine (content.js:263-426): `highlightOffers` walks the
    amount elements of a scope, marks each one checked, greens the ones
    whose offer fits the user's range and whose advertiser is eligible,
    outlines VIP advertisers, then badges the prices of matched rows that
    are within the user's maximum and fires the notification bundle once
    per price cell.

    Which elements a scope contains, which row an element belongs to, which
    cell is the advertiser cell, which element inside it holds the stats and
    what text it renders are answers of DOM queries that depend on layout;
    they are fixed inputs here (constant fields). */
module Scan {
  import opened Common
  import opened Numbers
  import opened Ranges
  import opened Advertiser
  import opened Dom

  /** A `data-*` flag: absent, '0' or '1'. */
  datatype Mark = Unset | Off | On

  /** The green background of an amount element. */
  datatype Shade = NoShade | Faint | Bright

  /** What `wrapTextNodeIfNeeded` returns for styling: the badge span, or
      the cell itself. */
  datatype Target = TheBadge | TheCell

  /** The user's settings as read from storage; `null` is `None`. */
  datatype Settings = Settings(minAmount: Option<real>, maxAmount: Option<real>,
                               currency: Option<string>, maxPrice: Option<real>)

  /** The amount pass runs only with both bounds and a non-empty currency. */
  predicate HasAmountRange(s: Settings) {
    s.minAmount.Some? && s.maxAmount.Some? && s.currency.Some? && s.currency.value != ""
  }

  /** What the passes change in a row: the content of its advertiser cell
      (the stats element's children and the rest), whether the stats
      element shows `display: contents`, and the two flags. */
  datatype RowState = RowState(statsKids: seq<Node>, outside: seq<Node>, displayContents: bool,
                               matched: Mark, vipApplied: Mark)

  /** A table row with its `uahMatched` and `uahVipApplied` flags and the
      state of its advertiser cell: `hasCell` says whether the row has one,
      `located` whether a stats element was found in it, `stats` what
      `getAdvertiserStats` reads from it; `statsKids` are the stats
      element's children and `outside` the rest of the cell's content. */
  class Row {
    const hasCell: bool
    const located: bool
    const stats: Stats
    var statsKids: seq<Node>
    var outside: seq<Node>
    var displayContents: bool
    var matched: Mark
    var vipApplied: Mark

    function State(): RowState
      reads this
    {
      RowState(statsKids, outside, displayContents, matched, vipApplied)
    }

    /** `text` is the text of the stats element, or of the whole cell when
        none is located. */
    constructor (hasCell: bool, located: bool, text: string, statsKids: seq<Node>, outside: seq<Node>)
      ensures this.hasCell == hasCell && this.located == located && stats == ReadStats(text)
      ensures this.statsKids == statsKids && this.outside == outside && !displayContents
      ensures matched == Unset && vipApplied == Unset
    {
      this.hasCell := hasCell;
      this.located := located;
      stats := ReadStats(text);
      this.statsKids := statsKids;
      this.outside := outside;
      displayContents := false;
      matched := Unset;
      vipApplied := Unset;
    }

    /** Without a stats element every outline in the cell is removed. */
    method RemoveOutlines()
      modifies this
      ensures statsKids == Prune(old(statsKids)) && outside == Prune(old(outside))
      ensures displayContents == old(displayContents) && matched == old(matched) && vipApplied == old(vipApplied)
      ensures !HasClassIn(statsKids, WrapperClass) && !HasClassIn(outside, WrapperClass)
    {
      outside := Prune(outside);
      statsKids := Prune(statsKids);
      PruneNoWrapper(old(outside));
      PruneNoWrapper(old(statsKids));
    }

    /** A stats element without an outline gets one around all its
        children, which keep their order. */
    method AddOutline()
      modifies this
      ensures outside == old(outside) && matched == old(matched) && vipApplied == old(vipApplied)
      ensures if old(HasClassIn(statsKids, WrapperClass)) then
          statsKids == old(statsKids) && displayContents == old(displayContents)
        else
          statsKids == [Elem({WrapperClass}, old(statsKids))] && displayContents
      ensures HasClassIn(statsKids, WrapperClass)
    {
      if HasClassIn(statsKids, WrapperClass) {
        return;
      }
      // Move every child, first one first, into a fresh outline.
      var moved: seq<Node> := [];
      while statsKids != []
        invariant moved + statsKids == old(statsKids)
        invariant outside == old(outside) && displayContents == old(displayContents)
        invariant matched == old(matched) && vipApplied == old(vipApplied)
        decreases |statsKids|
      {
        moved := moved + [statsKids[0]];
        statsKids := statsKids[1..];
      }
      assert moved == moved + statsKids == old(statsKids);
      statsKids := [Elem({WrapperClass}, moved)];
      assert NodeHasClass(statsKids[0], WrapperClass);
      displayContents := true;
    }

    /** Every outline in the cell is visited in document order: a child
        outline of the stats element hands its children back, any other
        one goes. */
    method ClearOutline()
      modifies this
      ensures statsKids == Unwrapped(old(statsKids)) && outside == Prune(old(outside))
      ensures displayContents == old(displayContents) && matched == old(matched) && vipApplied == old(vipApplied)
      ensures !HasClassIn(statsKids, WrapperClass) && !HasClassIn(outside, WrapperClass)
    {
      var kids := statsKids;
      var kept: seq<Node> := [];
      var released: seq<Node> := [];
      var i := 0;
      while i < |kids|
        invariant 0 <= i <= |kids|
        invariant kept == Prune(kids[..i]) && released == Released(kids[..i])
        invariant unchanged(this)
      {
        assert kids[..i + 1] == kids[..i] + [kids[i]];
        PruneAppend(kids[..i], [kids[i]]);
        ReleasedAppend(kids[..i], [kids[i]]);
        assert Prune([kids[i]]) == PruneNode(kids[i]) + Prune([]);
        assert Released([kids[i]]) == ReleasedNode(kids[i]) + Released([]);
        kept := kept + PruneNode(kids[i]);
        released := released + ReleasedNode(kids[i]);
        i := i + 1;
      }
      assert kids[..i] == kids;
      statsKids := kept + released;
      outside := Prune(outside);
      UnwrappedNoWrapper(kids);
      PruneNoWrapper(old(outside));
    }

    /** `updateVipOutline(row, stats, isRowGreen)`: the outline is wanted
        exactly for a green row of a VIP advertiser. */
    method UpdateVipOutline(stats: Stats, isRowGreen: bool)
      modifies this
      ensures matched == old(matched)
      ensures !hasCell ==> unchanged(this)
      ensures hasCell ==>
        && (vipApplied == On <==> located && isRowGreen && AdvertiserVip(stats))
        && (vipApplied == On ==> HasClassIn(statsKids, WrapperClass))
        && (vipApplied != On ==>
              vipApplied == Off && !HasClassIn(statsKids, WrapperClass) && !HasClassIn(outside, WrapperClass))
      ensures hasCell && !located ==>
        && statsKids == Prune(old(statsKids)) && outside == Prune(old(outside))
        && displayContents == old(displayContents)
      ensures hasCell && located && isRowGreen && AdvertiserVip(stats) ==>
        && outside == old(outside)
        && if old(HasClassIn(statsKids, WrapperClass)) then
             statsKids == old(statsKids) && displayContents == old(displayContents)
           else
             statsKids == [Elem({WrapperClass}, old(statsKids))] && displayContents
      ensures hasCell && located && !(isRowGreen && AdvertiserVip(stats)) ==>
        && statsKids == Unwrapped(old(statsKids)) && outside == Prune(old(outside))
        && displayContents == old(displayContents)
    {
      if !hasCell {
        return;
      }
      var needVip := isRowGreen && AdvertiserVip(stats);
      if !located {
        RemoveOutlines();
        vipApplied := Off;
      } else if needVip {
        AddOutline();
        vipApplied := On;
      } else {
        ClearOutline();
        vipApplied := Off;
      }
    }
  }

  /** The advertiser's stats as `getAdvertiserStats` reads them; a row
      without an advertiser cell has none. */
  function RowStats(r: Row): Stats {
    if r.hasCell then r.stats else NoStats
  }

  /** An element the amount pass visits (`div`, `span` or `td`).  Its text
      is fixed: the passes rewrite the children of price cells and
      advertiser cells only in ways that keep their text. */
  class AmountElement {
    const row: Row?
    const text: string
    var checked: bool
    var shade: Shade

    constructor (row: Row?, text: string)
      ensures this.row == row && this.text == text && !checked && shade == NoShade
    {
      this.row := row;
      this.text := text;
      checked := false;
      shade := NoShade;
    }
  }

  /** A cell of the price column, with its `uahPriceSoundPlayed` flag.
      Its text is fixed, since the badge keeps it, and so is what
      `parseNumber` reads from it. */
  class PriceCell {
    const row: Row?
    const text: string
    const price: Option<real>
    var kids: seq<Node>
    var soundPlayed: bool

    /** `text` is the cell's text content. */
    predicate Valid()
      reads this
    {
      TextOfAll(kids) == text
    }

    constructor (row: Row?, kids: seq<Node>)
      ensures this.row == row && this.kids == kids && !soundPlayed && Valid()
      ensures price == ParseNumber(TextOfAll(kids))
    {
      this.row := row;
      this.kids := kids;
      text := TextOfAll(kids);
      price := ParseNumber(TextOfAll(kids));
      soundPlayed := false;
    }

    /** `wrapTextNodeIfNeeded(cell, 'p2p-price-highlight')`. */
    method WrapTextNodeIfNeeded() returns (t: Target)
      requires Valid()
      modifies this
      ensures Valid() && kids == Badged(old(kids))
      ensures t == TheBadge <==> HasClassIn(kids, BadgeClass)
      ensures soundPlayed == old(soundPlayed)
    {
      BadgedHasBadge(kids);
      BadgedKeepsText(kids);
      var hasBadge := HasClassIn(kids, BadgeClass);
      if !hasBadge && |kids| == 1 && kids[0].Text? {
        var originalText := kids[0].data;
        kids := [];
        var content := if originalText == "" then [] else [Text(originalText)];
        kids := kids + [Elem({BadgeClass}, content)];
        return TheBadge;
      }
      t := if hasBadge then TheBadge else TheCell;
    }
  }

  // ---------------------------------------------------------------------
  // The amount pass

  /** What processing an unchecked amount element does to its row: nothing
      when its text holds no currency or no range, or it is in no row;
      otherwise the row is matched or not. */
  function AmountVerdict(text: string, cur: string, row: Row?, userMin: Option<real>, userMax: Option<real>): (v: Mark)
    ensures v != Unset ==> row != null
  {
    if !ContainsIgnoringCase(text, cur) then Unset
    else match ParseRange(text, cur)
      case None => Unset
      case Some(rg) =>
        if row == null then Unset
        else if AdvertiserEligible(RowStats(row)) && RangesOverlap(userMin, userMax, rg.min, rg.max) then On
        else Off
  }

  /** The green of a matched amount element: stronger for offers whose
      upper limit reaches 20000. */
  function AmountShade(text: string, cur: string): Shade {
    match ParseRange(text, cur)
    case None => NoShade
    case Some(rg) => if rg.max >= 20000.0 then Bright else Faint
  }

  /** An element showing a rendered offer "lo CUR - hi" in a row matches
      exactly when the advertiser is eligible and the offer shares an
      amount with the user's range; it is painted bright exactly when its
      upper limit reaches 20000. */
  lemma AmountVerdictRendered(lo: nat, hi: nat, cur: string, row: Row, userMin: real, userMax: real)
    requires PlainCode(cur)
    ensures AmountVerdict(Rendered(lo, hi, cur), cur, row, Some(userMin), Some(userMax)) ==
      if AdvertiserEligible(RowStats(row)) && lo as real <= userMax && hi as real >= userMin then On else Off
    ensures AmountShade(Rendered(lo, hi, cur), cur) == if hi >= 20000 then Bright else Faint
  {
    var text := Rendered(lo, hi, cur);
    ParseRangeRendered(lo, hi, cur);
    ParseRangeNeedsCode(text, cur);
    assert ContainsIgnoringCase(text, cur);
  }

  /** The verdict an element gives in the current state: none once checked. */
  function Verdict(e: AmountElement, s: Settings): Mark
    requires HasAmountRange(s)
    reads e
  {
    if e.checked then Unset
    else AmountVerdict(e.text, s.currency.value, e.row, s.minAmount, s.maxAmount)
  }

  /** The shade an element ends the pass with. */
  function ShadeAfter(e: AmountElement, s: Settings): Shade
    requires HasAmountRange(s)
    reads e
  {
    if Verdict(e, s) == On then AmountShade(e.text, s.currency.value) else e.shade
  }

  // ---------------------------------------------------------------------
  // Deciding a row

  /** The `uahVipApplied` a row with flag `matched` should carry. */
  function VipFor(r: Row, matched: Mark): Mark {
    if matched == On && r.hasCell && r.located && AdvertiserVip(RowStats(r)) then On else Off
  }

  /** The outline of a row agrees with its flags: it is applied exactly to
      a matched row of a VIP advertiser whose stats were located, it is
      present when applied, and a cleared one has left no outline anywhere
      in the advertiser cell. */
  predicate Settled(r: Row, st: RowState) {
    r.hasCell ==>
      && st.vipApplied == VipFor(r, st.matched)
      && (st.vipApplied == On ==> HasClassIn(st.statsKids, WrapperClass))
      && (st.vipApplied == Off ==> !HasClassIn(st.statsKids, WrapperClass) && !HasClassIn(st.outside, WrapperClass))
  }

  /** The state a row is left in when an element decides it: the outline
      is cleared first (`updateVipOutline(row, stats, false)`), the flag is
      set, and for a match the outline is applied again
      (`updateVipOutline(row, stats, true)`).  A row without an advertiser
      cell only gets the flag. */
  function Decided(r: Row, st: RowState, matches: bool): RowState {
    var m := if matches then On else Off;
    if !r.hasCell then st.(matched := m)
    else if !r.located then RowState(Prune(st.statsKids), Prune(st.outside), st.displayContents, m, Off)
    else if matches && AdvertiserVip(r.stats) then
      RowState([Elem({WrapperClass}, Unwrapped(st.statsKids))], Prune(st.outside), true, m, On)
    else RowState(Unwrapped(st.statsKids), Prune(st.outside), st.displayContents, m, Off)
  }

  /** A decided row is settled and carries the verdict. */
  lemma DecidedSettled(r: Row, st: RowState, matches: bool)
    ensures Settled(r, Decided(r, st, matches))
    ensures Decided(r, st, matches).matched == if matches then On else Off
  {
    PruneNoWrapper(st.statsKids);
    PruneNoWrapper(st.outside);
    UnwrappedNoWrapper(st.statsKids);
    var w := Elem({WrapperClass}, Unwrapped(st.statsKids));
    assert NodeHasClass(w, WrapperClass);
  }

  /** A later decision overrides an earlier one: the cell ends as the later
      one alone leaves it, except that `display: contents`, once set, stays. */
  lemma DecidedAgain(r: Row, st: RowState, a: bool, x: bool, b: bool)
    ensures var again := Decided(r, Decided(r, st, a).(displayContents := x), b);
      again == Decided(r, st, b).(displayContents := again.displayContents)
  {
    if r.hasCell {
      var mid := Decided(r, st, a).(displayContents := x);
      PruneIdempotent(st.outside);
      if !r.located {
        PruneIdempotent(st.statsKids);
      } else if a && AdvertiserVip(r.stats) {
        UnwrapOutlined(st.statsKids);
        assert Unwrapped(mid.statsKids) == Unwrapped(st.statsKids);
      } else {
        UnwrappedIdempotent(st.statsKids);
        assert Unwrapped(mid.statsKids) == Unwrapped(st.statsKids);
      }
    }
  }

  /** Deciding a located row whose stats carry no outline never loses a
      stat: the stats element keeps its children in order, inside one
      outline exactly for a VIP match, and so keeps its text. */
  lemma DecidedKeepsStats(r: Row, st: RowState, matches: bool)
    requires r.hasCell && r.located && !HasClassIn(st.statsKids, WrapperClass)
    ensures Decided(r, st, matches).statsKids ==
      if matches && AdvertiserVip(r.stats) then [Elem({WrapperClass}, st.statsKids)] else st.statsKids
    ensures TextOfAll(Decided(r, st, matches).statsKids) == TextOfAll(st.statsKids)
  {
    PruneWithoutWrapper(st.statsKids);
    assert Unwrapped(st.statsKids) == st.statsKids;
    WrapKeepsText(st.statsKids);
  }

  /** Records the verdict on a row and brings its outline in line: the
      outline is cleared first, so that a reused row loses a stale one, and
      applied again for a match. */
  method Decide(row: Row, matches: bool, stats: Stats)
    requires stats == RowStats(row)
    modifies row
    ensures row.State() == Decided(row, old(row.State()), matches)
  {
    row.UpdateVipOutline(stats, false);
    if matches {
      row.matched := On;
      PruneIdempotent(old(row.statsKids));
      PruneIdempotent(old(row.outside));
      UnwrappedIdempotent(old(row.statsKids));
      row.UpdateVipOutline(stats, true);
    } else {
      row.matched := Off;
    }
  }

  /** One iteration of the amount pass. */
  method CheckAmount(e: AmountElement, s: Settings)
    requires HasAmountRange(s)
    modifies e, e.row
    ensures e.checked && e.shade == old(ShadeAfter(e, s))
    ensures e.row != null ==> e.row.State() == Applied(e, old(Verdict(e, s)), e.row, old(e.row.State()))
  {
    if e.checked {
      return;
    }
    e.checked := true;
    var verdict := AmountVerdict(e.text, s.currency.value, e.row, s.minAmount, s.maxAmount);
    if verdict == Unset {
      return;
    }
    if verdict == On {
      e.shade := AmountShade(e.text, s.currency.value);
    }
    Decide(e.row, verdict == On, RowStats(e.row));
  }

  // ---------------------------------------------------------------------
  // The amount pass

  /** The verdicts the elements of `es` give in the current state. */
  ghost function Verdicts(es: seq<AmountElement>, s: Settings): (vs: seq<Mark>)
    requires HasAmountRange(s)
    reads set e | e in es
    ensures |vs| == |es|
  {
    if es == [] then [] else Verdicts(es[..|es| - 1], s) + [Verdict(es[|es| - 1], s)]
  }

  /** The shades the elements of `es` end the pass with, judged in the
      current state. */
  ghost function Shades(es: seq<AmountElement>, s: Settings): (ss: seq<Shade>)
    requires HasAmountRange(s)
    reads set e | e in es
    ensures |ss| == |es|
  {
    if es == [] then [] else Shades(es[..|es| - 1], s) + [ShadeAfter(es[|es| - 1], s)]
  }

  /** Given the verdicts `vs` of the elements `es`, the verdict of the last
      element that decides row `r`, or `Unset` when none does. */
  function Decision(es: seq<AmountElement>, vs: seq<Mark>, r: Row): Mark
    requires |vs| == |es|
  {
    if es == [] then Unset
    else if es[|es| - 1].row == r && vs[|vs| - 1] != Unset then vs[|vs| - 1]
    else Decision(es[..|es| - 1], vs[..|vs| - 1], r)
  }

  /** Some element of `es` matches row `r`. */
  function AnyOn(es: seq<AmountElement>, vs: seq<Mark>, r: Row): bool
    requires |vs| == |es|
  {
    es != [] && ((es[|es| - 1].row == r && vs[|vs| - 1] == On) || AnyOn(es[..|es| - 1], vs[..|vs| - 1], r))
  }

  /** What element `e` with verdict `v` does to row `r` in state `st`: it
      decides the row when it is in it and has a verdict; otherwise the
      row keeps its state. */
  function Applied(e: AmountElement, v: Mark, r: Row, st: RowState): RowState {
    if e.row == r && v != Unset then Decided(r, st, v == On) else st
  }

  /** The state row `r` ends the pass in, from `st`: every element with a
      verdict on it decides it again, in document order. */
  function Replayed(es: seq<AmountElement>, vs: seq<Mark>, r: Row, st: RowState): RowState
    requires |vs| == |es|
  {
    if es == [] then st
    else Applied(es[|es| - 1], vs[|vs| - 1], r, Replayed(es[..|es| - 1], vs[..|vs| - 1], r, st))
  }

  function RowsOf(es: seq<AmountElement>): set<Row> {
    set e | e in es && e.row != null :: e.row
  }

  /** Pass A of `highlightOffers`. */
  method AmountPass(els: seq<AmountElement>, s: Settings)
    requires HasAmountRange(s) && (forall i, j :: 0 <= i < j < |els| ==> els[i] != els[j])
    modifies (set e | e in els), RowsOf(els)
    ensures forall k :: 0 <= k < |els| ==> els[k].checked && els[k].shade == old(Shades(els, s))[k]
    ensures forall r :: r in RowsOf(els) ==> r.State() == Replayed(els, old(Verdicts(els, s)), r, old(r.State()))
  {
    ghost var vs: seq<Mark>, ss: seq<Shade> := [], [];
    var i := 0;
    while i < |els|
      invariant 0 <= i <= |els|
      invariant vs == old(Verdicts(els[..i], s)) && ss == old(Shades(els[..i], s))
      invariant forall k :: 0 <= k < i ==> els[k].checked && els[k].shade == ss[k]
      invariant forall k :: i <= k < |els| ==> els[k].checked == old(els[k].checked) && els[k].shade == old(els[k].shade)
      invariant forall r :: r in RowsOf(els) ==> r.State() == Replayed(els[..i], vs, r, old(r.State()))
    {
      var e := els[i];
      ghost var v, sh := Verdict(e, s), ShadeAfter(e, s);
      PrefixSnoc(els, i);
      ReplayedSnoc(els[..i], vs, e, v);
      vs, ss := vs + [v], ss + [sh];
      CheckAmount(e, s);
      i := i + 1;
    }
    assert els[..i] == els;
  }

  lemma PrefixSnoc<T>(xs: seq<T>, i: nat)
    requires i < |xs|
    ensures xs[..i + 1] == xs[..i] + [xs[i]] && xs[..i + 1][..i] == xs[..i]
  {
    assert xs[..i + 1] == xs[..i] + [xs[i]];
  }

  /** The row states after one more element. */
  lemma ReplayedSnoc(es: seq<AmountElement>, vs: seq<Mark>, e: AmountElement, v: Mark)
    requires |vs| == |es|
    ensures forall r, st :: Replayed(es + [e], vs + [v], r, st) == Applied(e, v, r, Replayed(es, vs, r, st))
  {
    assert (es + [e])[..|es|] == es && (vs + [v])[..|vs|] == vs;
  }

  // ---------------------------------------------------------------------
  // The price pass

  /** One notification bundle (blink, title, icon, sound) for a price cell. */
  datatype Notice = Notice(cell: PriceCell, price: real)

  /** The record of fired notification bundles. */
  class NoticeLog {
    var fired: seq<Notice>

    constructor ()
      ensures fired == [] && Valid()
    {
      fired := [];
    }

    /** No cell has fired twice, and every cell that fired carries its
        `uahPriceSoundPlayed` flag. */
    predicate Valid()
      reads this, (set n | n in fired :: n.cell)
    {
      && (forall i, j :: 0 <= i < j < |fired| ==> fired[i].cell != fired[j].cell)
      && (forall i :: 0 <= i < |fired| ==> fired[i].cell.soundPlayed)
    }

    method Fire(n: Notice)
      modifies this
      ensures fired == old(fired) + [n]
    {
      fired := fired + [n];
    }
  }

  /** A price cell of a matched row whose price is within the maximum. */
  predicate Highlighted(c: PriceCell, maxPrice: real)
    reads c.row
  {
    c.row != null && c.row.matched == On && c.price.Some? && c.price.value <= maxPrice
  }

  /** One iteration of the price pass. */
  method CheckPrice(c: PriceCell, maxPrice: real, log: NoticeLog)
    requires c.Valid() && log.Valid()
    modifies c, log
    ensures c.Valid() && log.Valid()
    ensures c.kids == if Highlighted(c, maxPrice) then Badged(old(c.kids)) else old(c.kids)
    ensures c.soundPlayed == (old(c.soundPlayed) || Highlighted(c, maxPrice))
    ensures log.fired == old(log.fired) +
      old(if Highlighted(c, maxPrice) && !c.soundPlayed then [Notice(c, c.price.value)] else [])
  {
    var row := c.row;
    if row == null || row.matched != On {
      return;
    }
    var price := c.price;
    if price.None? {
      return;
    }
    if price.value <= maxPrice {
      var badge := c.WrapTextNodeIfNeeded();
      if !c.soundPlayed {
        log.Fire(Notice(c, price.value));
        c.soundPlayed := true;
      }
    }
  }

  /** The `uahPriceSoundPlayed` flags of the cells `cs`. */
  function Played(cs: seq<PriceCell>): map<PriceCell, bool>
    reads set c | c in cs
  {
    map c | c in cs :: c.soundPlayed
  }

  /** The bundles a price pass over `cs` fires, in order, when the cells
      carry the flags `played`. */
  function Fired(cs: seq<PriceCell>, maxPrice: real, played: map<PriceCell, bool>): seq<Notice>
    requires forall c :: c in cs ==> c in played
    reads (set c | c in cs :: c.row)
  {
    if cs == [] then []
    else
      var c := cs[|cs| - 1];
      Fired(cs[..|cs| - 1], maxPrice, played)
        + if Highlighted(c, maxPrice) && !played[c] then [Notice(c, c.price.value)] else []
  }

  /** Pass B of `highlightOffers`. */
  method PricePass(cells: seq<PriceCell>, maxPrice: real, log: NoticeLog)
    requires (forall i, j :: 0 <= i < j < |cells| ==> cells[i] != cells[j]) && log.Valid()
    requires forall c :: c in cells ==> c.Valid()
    modifies (set c | c in cells), log
    ensures log.Valid() && forall c :: c in cells ==> c.Valid()
    ensures log.fired == old(log.fired) + Fired(cells, maxPrice, old(Played(cells)))
    ensures forall c :: c in cells ==>
      && c.kids == (if Highlighted(c, maxPrice) then Badged(old(c.kids)) else old(c.kids))
      && c.soundPlayed == (old(c.soundPlayed) || Highlighted(c, maxPrice))
  {
    var i := 0;
    while i < |cells|
      invariant 0 <= i <= |cells|
      invariant log.Valid() && forall k :: 0 <= k < |cells| ==> cells[k].Valid()
      invariant log.fired == old(log.fired) + old(Fired(cells[..i], maxPrice, Played(cells)))
      invariant forall k :: 0 <= k < i ==>
        && cells[k].kids == (if Highlighted(cells[k], maxPrice) then Badged(old(cells[k].kids)) else old(cells[k].kids))
        && cells[k].soundPlayed == (old(cells[k].soundPlayed) || Highlighted(cells[k], maxPrice))
      invariant forall k :: i <= k < |cells| ==>
        cells[k].kids == old(cells[k].kids) && cells[k].soundPlayed == old(cells[k].soundPlayed)
    {
      var c := cells[i];
      PrefixSnoc(cells, i);
      CheckPrice(c, maxPrice, log);
      i := i + 1;
    }
    assert cells[..i] == cells;
  }

  // ---------------------------------------------------------------------
  // highlightOffers

  /** `highlightOffers(userSettings, root)`: `els` are the scope's amount
      elements and `cells` its price cells, each in document order. */
  method HighlightOffers(els: seq<AmountElement>, cells: seq<PriceCell>, s: Settings, log: NoticeLog)
    requires (forall i, j :: 0 <= i < j < |els| ==> els[i] != els[j])
    requires (forall i, j :: 0 <= i < j < |cells| ==> cells[i] != cells[j]) && log.Valid()
    requires forall c :: c in cells ==> c.Valid()
    modifies (set e | e in els), RowsOf(els), (set c | c in cells), log
    ensures log.Valid() && forall c :: c in cells ==> c.Valid()
    ensures HasAmountRange(s) ==> forall k :: 0 <= k < |els| ==> els[k].checked && els[k].shade == old(Shades(els, s))[k]
    ensures HasAmountRange(s) ==>
      forall r :: r in RowsOf(els) ==> r.State() == Replayed(els, old(Verdicts(els, s)), r, old(r.State()))
    ensures !HasAmountRange(s) ==> forall e :: e in els ==> unchanged(e)
    ensures !HasAmountRange(s) ==> forall r :: r in RowsOf(els) ==> unchanged(r)
    ensures s.maxPrice.None? ==> log.fired == old(log.fired) && forall c :: c in cells ==> unchanged(c)
    ensures s.maxPrice.Some? ==> forall c :: c in cells ==>
      && c.kids == (if Highlighted(c, s.maxPrice.value) then Badged(old(c.kids)) else old(c.kids))
      && c.soundPlayed == (old(c.soundPlayed) || Highlighted(c, s.maxPrice.value))
    ensures s.maxPrice.Some? ==> log.fired == old(log.fired) + Fired(cells, s.maxPrice.value, old(Played(cells)))
  {
    if HasAmountRange(s) {
      AmountPass(els, s);
    }
    if s.maxPrice.Some? {
      assert Played(cells) == old(Played(cells));
      PricePass(cells, s.maxPrice.value, log);
    }
  }

  // ---------------------------------------------------------------------
  // What the passes promise

  /** A row ends the amount pass with the verdict of the last element in it
      that decides it; it keeps its flags when no element decides it. */
  lemma {:induction false} DecisionIsLast(es: seq<AmountElement>, vs: seq<Mark>, r: Row)
    requires |vs| == |es|
    ensures Decision(es, vs, r) == Unset <==> forall k :: 0 <= k < |es| && es[k].row == r ==> vs[k] == Unset
    ensures Decision(es, vs, r) != Unset ==>
      exists k :: (0 <= k < |es| && es[k].row == r && vs[k] == Decision(es, vs, r)
        && forall j :: k < j < |es| && es[j].row == r ==> vs[j] == Unset)
  {
    if es != [] {
      var n := |es| - 1;
      DecisionIsLast(es[..n], vs[..n], r);
      assert forall k :: 0 <= k < n ==> es[..n][k] == es[k] && vs[..n][k] == vs[k];
    }
  }

  /** A row no element decides keeps its state; a decided row ends as the
      last verdict on it alone leaves it, except that `display: contents`
      is set when any verdict on it was a VIP match. */
  lemma {:induction false} ReplayedIsLast(es: seq<AmountElement>, vs: seq<Mark>, r: Row, st: RowState)
    requires |vs| == |es|
    ensures AnyOn(es, vs, r) ==> Decision(es, vs, r) != Unset
    ensures Decision(es, vs, r) == Unset ==> Replayed(es, vs, r, st) == st
    ensures Decision(es, vs, r) != Unset ==>
      Replayed(es, vs, r, st) == Decided(r, st, Decision(es, vs, r) == On).(displayContents := Replayed(es, vs, r, st).displayContents)
    ensures Replayed(es, vs, r, st).displayContents ==
      (st.displayContents || (r.hasCell && r.located && AdvertiserVip(r.stats) && AnyOn(es, vs, r)))
  {
    if es != [] {
      var n := |es| - 1;
      ReplayedIsLast(es[..n], vs[..n], r, st);
      if es[n].row == r && vs[n] != Unset {
        var prev := Replayed(es[..n], vs[..n], r, st);
        if Decision(es[..n], vs[..n], r) != Unset {
          DecidedAgain(r, st, Decision(es[..n], vs[..n], r) == On, prev.displayContents, vs[n] == On);
        }
      }
    }
  }

  /** After the pass a decided row carries the last verdict on it and a
      settled outline. */
  lemma ReplayedSettled(es: seq<AmountElement>, vs: seq<Mark>, r: Row, st: RowState)
    requires |vs| == |es| && Decision(es, vs, r) != Unset
    ensures Replayed(es, vs, r, st).matched == Decision(es, vs, r)
    ensures Settled(r, Replayed(es, vs, r, st))
  {
    ReplayedIsLast(es, vs, r, st);
    DecidedSettled(r, st, Decision(es, vs, r) == On);
  }

  /** The pass never loses a stat of a located advertiser cell without an
      outline: the stats element ends with its children in order, inside
      one outline exactly when the last verdict is a VIP match. */
  lemma ReplayedKeepsStats(es: seq<AmountElement>, vs: seq<Mark>, r: Row, st: RowState)
    requires |vs| == |es| && r.hasCell && r.located && !HasClassIn(st.statsKids, WrapperClass)
    ensures Replayed(es, vs, r, st).statsKids ==
      if Decision(es, vs, r) == On && AdvertiserVip(r.stats) then [Elem({WrapperClass}, st.statsKids)] else st.statsKids
    ensures TextOfAll(Replayed(es, vs, r, st).statsKids) == TextOfAll(st.statsKids)
  {
    ReplayedIsLast(es, vs, r, st);
    if Decision(es, vs, r) != Unset {
      DecidedKeepsStats(r, st, Decision(es, vs, r) == On);
    }
  }

  /** Elements already checked decide nothing: scanning the same scope
      again leaves every row as it is. */
  lemma {:induction false} RescanDecidesNothing(es: seq<AmountElement>, s: Settings, r: Row)
    requires HasAmountRange(s) && forall k :: 0 <= k < |es| ==> es[k].checked
    ensures Decision(es, Verdicts(es, s), r) == Unset
  {
    if es != [] {
      var n := |es| - 1;
      RescanDecidesNothing(es[..n], s, r);
      assert Verdicts(es, s)[..n] == Verdicts(es[..n], s);
    }
  }

  /** Every bundle the price pass fires is for one of its cells, of a
      matched row, whose price is within the maximum and which had not
      fired before; the cells fire in order, each at most once. */
  lemma {:induction false} FiredSound(cs: seq<PriceCell>, maxPrice: real, played: map<PriceCell, bool>)
    requires forall c :: c in cs ==> c in played
    requires forall i, j :: 0 <= i < j < |cs| ==> cs[i] != cs[j]
    ensures forall n :: n in Fired(cs, maxPrice, played) ==>
      && n.cell in cs && n.cell.row != null && n.cell.row.matched == On
      && n.cell.price == Some(n.price) && n.price <= maxPrice && !played[n.cell]
    ensures forall i, j :: 0 <= i < j < |Fired(cs, maxPrice, played)| ==>
      Fired(cs, maxPrice, played)[i].cell != Fired(cs, maxPrice, played)[j].cell
  {
    if cs != [] {
      var n := |cs| - 1;
      FiredSound(cs[..n], maxPrice, played);
      var init := Fired(cs[..n], maxPrice, played);
      assert forall m :: m in init ==> m.cell in cs[..n] && m.cell != cs[n];
    }
  }

  /** Cells that have all fired once fire no more. */
  lemma {:induction false} FiredCellsStayQuiet(cs: seq<PriceCell>, maxPrice: real, played: map<PriceCell, bool>)
    requires forall c :: c in cs ==> c in played && played[c]
    ensures Fired(cs, maxPrice, played) == []
  {
    if cs != [] {
      FiredCellsStayQuiet(cs[..|cs| - 1], maxPrice, played);
    }
  }

  // ---------------------------------------------------------------------
  // Once per cell

  function Occurrences(fired: seq<Notice>, c: PriceCell): nat {
    if fired == [] then 0
    else Occurrences(fired[..|fired| - 1], c) + if fired[|fired| - 1].cell == c then 1 else 0
  }

  /** In a valid log every price cell has fired at most once. */
  lemma {:induction false} AtMostOncePerCell(fired: seq<Notice>, c: PriceCell)
    requires forall i, j :: 0 <= i < j < |fired| ==> fired[i].cell != fired[j].cell
    ensures Occurrences(fired, c) <= 1
    decreases |fired|
  {
    if fired != [] {
      var init := fired[..|fired| - 1];
      AtMostOncePerCell(init, c);
      if fired[|fired| - 1].cell == c {
        NotInInit(init, c);
      }
    }
  }

  /** Over cells that are all distinct, a price pass fires exactly once for
      each cell of a matched row within the maximum that had not fired,
      and never for any other cell. */
  lemma {:induction false} FiredOnce(cs: seq<PriceCell>, maxPrice: real, played: map<PriceCell, bool>, c: PriceCell)
    requires forall d :: d in cs ==> d in played
    requires forall i, j :: 0 <= i < j < |cs| ==> cs[i] != cs[j]
    ensures Occurrences(Fired(cs, maxPrice, played), c) ==
      if c in cs && Highlighted(c, maxPrice) && !played[c] then 1 else 0
  {
    if cs != [] {
      var n := |cs| - 1;
      var init := Fired(cs[..n], maxPrice, played);
      FiredOnce(cs[..n], maxPrice, played, c);
      assert c in cs <==> c in cs[..n] || c == cs[n];
      if Highlighted(cs[n], maxPrice) && !played[cs[n]] {
        assert (init + [Notice(cs[n], cs[n].price.value)])[..|init|] == init;
      } else {
        assert init + [] == init;
      }
    }
  }

  lemma {:induction false} NotInInit(fired: seq<Notice>, c: PriceCell)
    requires forall i :: 0 <= i < |fired| ==> fired[i].cell != c
    ensures Occurrences(fired, c) == 0
    decreases |fired|
  {
    if fired != [] {
      NotInInit(fired[..|fired| - 1], c);
    }
  }
}
