# Binance P2P highlighter: the annotation core

This project models the logic of `content.js`, the content script of a
browser extension that annotates the Binance P2P offer table. It covers
four parts:

- **Text classification** (modules `Numbers`, `Ranges`, `Advertiser`):
  - `parseNumber` turns locale-ambiguous amount text into a number.
  - `parseRange` extracts "min CUR - max" with a case-insensitive regular expression.
  - `rangesOverlap` is the inclusive interval test.
  - The completion and orders patterns are read from the advertiser's stats text.
  - The two reputation tiers `advertiserEligible` and `advertiserVIP` are built on them.
- **The idle page cycler** (module `Idle`):
  - `formatIdle` renders the idle time.
  - The three-second tick moves to the next result page or reloads once the user has been idle for more than 15 seconds.
- **An abstract DOM** (module `Dom`):
  - text and element nodes;
  - the stats outline that `updateVipOutline` wraps and unwraps;
  - the price badge that `wrapTextNodeIfNeeded` creates.
- **The annotation engine** (module `Scan`):
  - `highlightOffers` with its amount pass and its price pass;
  - the one-shot flags `uahChecked`, `uahMatched`, `uahVipApplied` and `uahPriceSoundPlayed`;
  - the notification bundle, recorded as an event in an append-only log.

Rows, price cells and amount elements are classes whose fields the
methods update in place. Their contracts are stated against pure
functions of the old state (`Verdict`, `Applied`, `Replayed`, `Fired`,
`Unwrapped`, `Badged`). Regular expressions are modelled twice:
- as deterministic matchers that resolve the backtracking the way the engine does;
- as declarative match predicates.

Lemmas prove the two agree, and the leftmost search is one generic function
(`Common.Leftmost`). Numbers are exact rationals (`real`).

The model follows the code as written, including where it is surprising:
- With both separators present, `parseNumber` deletes every comma. So "1.234,56" reads as 1.23456, not as 1234.56 (`Numbers.DottedThousandsReading`). "1,234.56", "1234,56" and "1234.56" do read as 1234.56.
- The orders pattern `(\d+)\s+orders` captures a plain digit run only. A grouped count such as "1,234 orders" reads as 234 (`Advertiser.GroupedOrdersReadTail`), and the separator stripping after the match never has anything to strip.
- The green branch of the amount pass stores no offer text on the row. It only sets the flag and the style.
- After a page move the idle clock restarts from a second `Date.now()` reading taken after the button click, not from the tick's `now`. The tick takes it as the separate input `resetAt`.
- The price-history averaging, the matched-offer log and their staleness resets do not exist in the code, so they are not modelled.

## Model

| member | source | states |
|---|---|---|
| Common.LeftmostSpec | content.js:177 | `String.prototype.match` without `g`: the result is what the first successful attempt gives, every earlier attempt fails, and `null` means every attempt fails |
| Common.LeftmostAt | content.js:177 | a successful attempt with only failures before it is the match returned |
| Numbers.ParseNumber | content.js:154-170 | `parseNumber`; its contract is stated by `Numbers.ParseNumberNullIff`, `Numbers.ParseNumberIgnoresSpaces`, `Numbers.CommaIsDecimalPoint`, `Numbers.CommaIsThousands` and `Numbers.ParseNumberOfNatStr` |
| Numbers.NormalizeIsNumeral | content.js:156-167 | the string handed to `parseFloat` holds only digits and at most one point |
| Numbers.KeepFirstDotNumeral | content.js:161-167 | a digits-and-points string keeps only its first point and stays digits-and-points |
| Numbers.NormalizeKeepsDigits | content.js:156-167 | normalisation keeps every digit of the input in its original order |
| Numbers.ParseNumberNullIff | content.js:154-170 | `parseNumber` is `null` exactly when the text holds no digit, the empty text included |
| Numbers.ParseNumberIgnoresSpaces | content.js:156 | white space anywhere in the text does not change the result |
| Numbers.CommaIsDecimalPoint | content.js:157-160 | with no point present, a comma is read as the decimal point |
| Numbers.CommaIsThousands | content.js:157-159 | with both a comma and a point present, the commas are deleted |
| Numbers.NormalizeNumeral | content.js:156-167 | a string of digits with at most one point passes through normalisation unchanged |
| Numbers.NormalizeIdempotent | content.js:156-167 | normalising twice is normalising once |
| Numbers.ParseNumberOfNatStr | content.js:154-170 | a rendered whole number parses back to itself |
| Numbers.PlainReading | content.js:154-170 | "1234.56" reads as 1234.56 |
| Numbers.CommaDecimalReading | content.js:154-170 | "1234,56" reads as 1234.56 |
| Numbers.CommaThousandsReading | content.js:154-170 | "1,234.56" reads as 1234.56 |
| Numbers.DottedThousandsReading | content.js:154-170 | "1.234,56" reads as 1.23456 |
| Numbers.LettersOnlyReading | content.js:154-170 | "USDT" reads as `null` |
| Ranges.FindMatch | content.js:173-177 | the leftmost match of the range pattern; stated by `Ranges.FindMatchAt`, `Ranges.FoundIsMatch`, `Ranges.NoMatchAnywhere` and `Ranges.FoundIffMatch` |
| Ranges.ParseRange | content.js:172-183 | `parseRange`; stated by `Ranges.ParseRangeFromMatch`, `Ranges.ParseRangeNullIffFound`, `Ranges.ParseRangeNullIff`, `Ranges.ParseRangeNeedsCode` and `Ranges.ParseRangeRendered` |
| Ranges.RunEnd | content.js:174 | group 1 or 2 (`[\d.,\s]+`) ends at the first character outside the class |
| Ranges.SpaceEnd | content.js:174 | a greedy `\s*` ends at the first non-space |
| Ranges.MatchAtSound | content.js:173-177 | what the matcher returns at a start is a match of the pattern there, with both groups maximal |
| Ranges.MatchAtComplete | content.js:173-177 | for a currency code that does not start with a group character, every match of the pattern at a start is found by the matcher there |
| Ranges.NoMatchAnywhere | content.js:177-178 | for a currency code that does not start with a group character (`PlainCode`): when the search finds nothing, the pattern matches nowhere in the text |
| Ranges.FoundIsMatch | content.js:177 | when the search finds something, the pattern matches somewhere |
| Ranges.FoundIffMatch | content.js:177-178 | for a `PlainCode` currency code: the search fails exactly when the pattern matches nowhere |
| Ranges.FindMatchAt | content.js:177 | the leftmost match is what the matcher returns at some start, with every earlier start failing |
| Ranges.ParseRangeFromMatch | content.js:172-183 | a returned range is the `parseNumber` reading of both groups of a match |
| Ranges.ParseRangeNullIffFound | content.js:177-181 | `parseRange` is `null` exactly when nothing is found or a group of the leftmost match has no digit |
| Ranges.ParseRangeNullIff | content.js:172-183 | for a `PlainCode` currency code: `parseRange` is `null` exactly when the pattern matches nowhere or a group of the leftmost match has no digit |
| Ranges.ParseRangeNeedsCode | content.js:173-178 | a range is only read from text that contains the currency code, ignoring case |
| Ranges.MatchRendered | content.js:173-177 | "a CUR - b" splits into groups "a " and "b" |
| Ranges.ParseRangeRendered | content.js:172-183 | a rendered range "lo CUR - hi" reads back as lo and hi |
| Ranges.RangesOverlap | content.js:185-191 | no overlap when either user bound is unset |
| Ranges.OverlapIffCommonAmount | content.js:185-191 | for well-formed intervals the test holds exactly when some amount lies in both intervals, both ends inclusive |
| Advertiser.DigitEnd | content.js:213 | `\d+` ends at the first non-digit |
| Advertiser.BlankEnd | content.js:210 | `\s+` ends at the first non-space |
| Advertiser.LeadEnd | content.js:210 | `\d{1,3}` takes as many digits as it may, up to three |
| Advertiser.FractionEnd | content.js:210 | `(?:\.\d+)?` is taken exactly when a point followed by a digit is there, and then runs to the end of those digits; otherwise it takes nothing |
| Advertiser.CompletionAt | content.js:210-211 | a captured completion group is a numeral with a digit, so `parseFloat` reads it |
| Advertiser.FindCompletion | content.js:210-211 | the leftmost completion capture is a numeral with a digit |
| Advertiser.CompletionAtSound | content.js:210 | what the completion matcher captures comes from a match of the pattern |
| Advertiser.CompletionAtComplete | content.js:210 | every match of the completion pattern at a start is what the matcher captures there |
| Advertiser.OrdersAt | content.js:213-217 | a captured orders group is a non-empty digit run |
| Advertiser.FindOrders | content.js:213-217 | the leftmost orders capture is a non-empty digit run |
| Advertiser.OrdersAtSound | content.js:213 | what the orders matcher captures comes from a match of the pattern, with the digit run maximal |
| Advertiser.OrdersAtComplete | content.js:213 | every match of the orders pattern at a start is what the matcher captures there |
| Advertiser.OrdersFoundAt | content.js:213-218 | a match with none before it gives the order count |
| Advertiser.GroupedOrdersReadTail | content.js:213-218 | "a,b orders" reads as b |
| Advertiser.OrdersRendered | content.js:213-218 | "N orders" reads as N |
| Advertiser.CompletionRendered | content.js:210-211 | "N% completion" reads as N for N below 1000 |
| Advertiser.Completion | content.js:210-211 | the completion figure, `parseFloat` of the leftmost capture; stated by `Advertiser.FindCompletion`, `Advertiser.CompletionAtSound`, `Advertiser.CompletionAtComplete` and `Advertiser.CompletionRendered` |
| Advertiser.Orders | content.js:213-218 | the order count, `parseInt` of the leftmost capture; stated by `Advertiser.FindOrders`, `Advertiser.OrdersFoundAt`, `Advertiser.OrdersRendered` and `Advertiser.GroupedOrdersReadTail` |
| Advertiser.ReadStats | content.js:201-223 | `getAdvertiserStats` on the stats text: the two figures read independently from the same text |
| Advertiser.AdvertiserEligible | content.js:227-231 | not eligible when completion or orders is missing |
| Advertiser.AdvertiserVip | content.js:233-238 | not VIP when completion or orders is missing; VIP implies eligible |
| Advertiser.TiersMonotone | content.js:227-238 | better figures never lose a tier |
| Advertiser.TierBoundaries | content.js:227-238 | 95 % with 300 orders is eligible, 94.9 % is not; 97 % with 450 orders is VIP, 449 orders is not |
| Idle.FormatIdle | content.js:63-70 | the rendering always ends in "s" |
| Idle.ReadFormatIdle | content.js:63-70 | the rendering reads back as the whole seconds elapsed, `Math.floor(ms / 1000)` |
| Idle.FormatIdleSecondsBelowMinute | content.js:66-69 | in the minutes form the seconds are below 60 |
| Idle.ResolvedPage | content.js:123-128 | the page shown by the pagination wins; otherwise the remembered page; otherwise 1 |
| Idle.Step | content.js:111-149 | one tick as a function of the state and the inputs; stated by `Idle.QuietUnlessIdle`, `Idle.ActsWhenIdle`, `Idle.GoToIsNextPage`, `Idle.ReloadKeepsClock` and `Idle.PageStaysInRange` |
| Idle.PageCycler.constructor | content.js:49-73 | no known page, idle clock at load time |
| Idle.PageCycler.Activity | content.js:51-61 | user activity restarts the idle clock and nothing else |
| Idle.PageCycler.Tick | content.js:111-149 | the interval body does exactly what `Step` says, for its action and for both state variables |
| Idle.QuietUnlessIdle | content.js:118-121 | nothing happens on an order detail page or within 15 s of activity |
| Idle.ActsWhenIdle | content.js:121-146 | otherwise a tick always acts, and it moves on exactly when the page is before the last and its button exists |
| Idle.GoToIsNextPage | content.js:130-136 | a move goes exactly one page forward, never past the last page, and restarts the idle clock |
| Idle.ReloadKeepsClock | content.js:137-146 | a reload keeps the idle clock and remembers the resolved page |
| Idle.PageStaysInRange | content.js:122-134 | when the remembered page and the page the pagination shows (if any) are both between 1 and the number of pages, the remembered page stays there after a tick |
| Dom.Unwrapped | content.js:326-335 | the stats children after `updateVipOutline` clears the outline; stated by `Dom.UnwrappedNoWrapper`, `Dom.WrapThenUnwrap`, `Dom.UnwrappedIdempotent` and `Dom.UnwrapOutlined` |
| Dom.PruneNoWrapper | content.js:285-286 | removing every outline leaves none |
| Dom.UnwrappedNoWrapper | content.js:327-334 | unwrapping leaves no outline below the stats element |
| Dom.PruneWithoutWrapper | content.js:327-334 | without outlines, clearing changes nothing |
| Dom.WrapThenUnwrap | content.js:294-334 | wrapping the children in one outline and unwrapping it gives back the same children in the same order |
| Dom.PruneIdempotent | content.js:285-286 | removing the outlines twice is removing them once |
| Dom.UnwrappedIdempotent | content.js:326-335 | clearing the outline twice is clearing it once |
| Dom.UnwrapOutlined | content.js:294-335 | clearing an outline that was put around cleared children gives those children back |
| Dom.WrapKeepsText | content.js:296-299 | wrapping keeps the text content |
| Dom.Badged | content.js:263-274 | the cell's children after `wrapTextNodeIfNeeded`; stated by `Dom.BadgedHasBadge`, `Dom.BadgedIdempotent` and `Dom.BadgedKeepsText` |
| Dom.BadgedHasBadge | content.js:263-274 | after the rewrite the cell has a badge exactly when it had one or its only child was a text node |
| Dom.BadgedIdempotent | content.js:263-274 | rewriting twice is rewriting once |
| Dom.BadgedKeepsText | content.js:263-274 | the rewrite keeps the cell's text content |
| Scan.Row.constructor | content.js:201-223 | the stats a row reports are those read from its stats text |
| Scan.Row.RemoveOutlines | content.js:285-288 | without a stats element, every outline in the cell is removed with its content |
| Scan.Row.AddOutline | content.js:292-302 | a stats element without an outline gets exactly one, around all its children in order, and display `contents` |
| Scan.Row.ClearOutline | content.js:326-335 | every outline in the cell is visited: a child outline of the stats element hands its children back, any other goes |
| Scan.Row.UpdateVipOutline | content.js:277-337 | a row without an advertiser cell is left exactly as it was; otherwise `uahVipApplied` ends '1' exactly for a located, green, VIP row, with an outline present, and '0' with no outline anywhere in the cell; the new content is given for each case (outlines removed, one outline added around the stats, or the stats unwrapped); `uahMatched` is untouched |
| Scan.PriceCell.constructor | content.js:396-397 | the price of a cell is `parseNumber` of its text |
| Scan.PriceCell.WrapTextNodeIfNeeded | content.js:263-274 | the children become `Badged` of the old ones, the text is kept, and the badge is returned exactly when the cell has one |
| Scan.AmountVerdict | content.js:350-365 | an element decides nothing when its text lacks the currency or a range, or it is in no row; otherwise the row matches exactly when the advertiser is eligible and the ranges overlap (`Scan.AmountVerdictRendered`) |
| Scan.AmountVerdictRendered | content.js:350-371 | for a `PlainCode` currency, an element in a row showing "lo CUR - hi" matches exactly when the advertiser is eligible, `lo <= maxAmount` and `hi >= minAmount`; it is painted bright exactly when `hi >= 20000` |
| Scan.DecidedSettled | content.js:362-383 | after a decision the row carries the verdict, `uahVipApplied` is '1' exactly for a matched, located VIP row, an applied outline is present and a cleared one has left none in the cell |
| Scan.DecidedAgain | content.js:362-383 | a second decision leaves the cell's content and flags exactly as that decision alone would; only `display: contents`, once set, stays |
| Scan.DecidedKeepsStats | content.js:292-302 | deciding a located row whose stats have no outline keeps every stat in order, inside one outline exactly for a VIP match, so the stats text is unchanged |
| Scan.Decide | content.js:362-383 | the row ends in the `Decided` state: outline cleared, `uahMatched` set from the verdict, outline applied again for a match; with its content for every case (stats children, the rest of the cell, `display: contents`) |
| Scan.CheckAmount | content.js:346-384 | the element ends checked with its shade; its row ends in the state `Applied` gives: exactly as it was when the element has no verdict, and in the `Decided` state for the verdict otherwise, content and flags included |
| Scan.AmountPass | content.js:344-385 | every element ends checked with the shade its verdict gives; every row ends as its deciding elements, applied in document order, leave it (`Replayed`), contents included |
| Scan.ReplayedIsLast | content.js:346-383 | a row no element decides is untouched; a decided row's content and flags are those the last deciding element alone gives, and `display: contents` is set exactly when it was set before or some verdict on it was a VIP match |
| Scan.ReplayedSettled | content.js:346-383 | after the pass a decided row carries the last verdict on it and a settled outline |
| Scan.ReplayedKeepsStats | content.js:292-335 | the pass keeps every stat of a located advertiser cell without an outline, inside one outline exactly when the last verdict is a VIP match |
| Scan.DecisionIsLast | content.js:346-383 | a row is undecided exactly when no element in it decides; otherwise its verdict is that of the last deciding element |
| Scan.RescanDecidesNothing | content.js:347-348 | elements already checked decide nothing, so a second scan of the same scope leaves every row as it is |
| Scan.NoticeLog.Fire | content.js:408-421 | firing appends one bundle to the log |
| Scan.CheckPrice | content.js:392-424 | a cell of a matched row whose price is within the maximum is badged and fires once, gated by `uahPriceSoundPlayed`; the log stays valid |
| Scan.PricePass | content.js:387-425 | the log grows by exactly `Fired` over the cells, judged on their `uahPriceSoundPlayed` flags before the pass, in cell order; every cell is badged and flagged exactly when highlighted |
| Scan.HighlightOffers | content.js:340-426 | the amount pass runs only with a complete range and the price pass only with a maximum; every element ends with its shade and every row as `Replayed` says; the log grows by exactly `Fired` over the cells, judged on the rows as the amount pass left them and on the flags before the call, so by `Scan.FiredSound` and `Scan.FiredOnce` each fresh highlighted cell fires exactly once and no other cell fires |
| Scan.FiredSound | content.js:392-422 | every bundle a price pass fires is for a cell of the pass, of a matched row, within the maximum and not flagged before; no cell fires twice in a pass |
| Scan.FiredOnce | content.js:394-421 | over distinct cells, each cell of a matched row within the maximum that had not fired fires exactly once, and every other cell never |
| Scan.FiredCellsStayQuiet | content.js:409-421 | cells that have all fired fire no more |
| Scan.AtMostOncePerCell | content.js:409-421 | in a valid log every price cell occurs at most once |

## Left out

- Floating point: `parseFloat` and `Number.isFinite` are modelled on exact rationals. Rounding, overflow to infinity and the 2^53 limit on `parseInt` are not modelled.
- Ranges.MatchAtComplete: the currency code is inserted into the regular expression unescaped. The exact agreement with the pattern is proved only for codes whose first character cannot belong to the amount group (`PlainCode`). Codes holding regular expression metacharacters are not modelled.
- Ranges.NoMatchAnywhere: stated for `PlainCode` currency codes only, for the reason above.
- Ranges.FoundIffMatch: stated for `PlainCode` currency codes only, for the reason above.
- Ranges.ParseRangeNullIff: stated for `PlainCode` currency codes only, for the reason above.
- Scan.AmountVerdictRendered: stated for `PlainCode` currency codes only, for the reason above.
- Case folding is ASCII only. `toUpperCase` and the `i` flag on non-ASCII letters are not modelled.
- The bold "100.00% completion" `innerHTML` rewrite (content.js:316-325) and all inline styles are not modelled. The green shade is kept only as `Faint` or `Bright`.
- Notification side effects: the sound, the blink, the favicon, the title flash and their timers (content.js:11-46, 416-419, 437 onwards). They are recorded only as a `Notice` in the log.
- The MutationObserver, `chrome.storage` and the periodic rescan (content.js:550-605) are I/O and event wiring. `HighlightOffers` is one call on an abstract scope.
- Layout-dependent DOM queries are inputs, fixed when a row, cell or element is built:
  - `getAdvertiserCell` gives `hasCell`;
  - `getStatsElement` gives `located`;
  - the text `getAdvertiserStats` reads is a constructor argument;
  - `detectCurrentPage` gives `domPage`, and whether `goToPage` finds the button gives `found`;
  - `querySelectorAll` and `closest` give the element and cell sequences and their `row` fields.
- `сurrentPage()` and `console.log` with its time stamps are not modelled. Nor is the page number passed to the title flash.
- `options.js` is not part of this model.
- Amount element text: the text an amount element renders is fixed. The price badge keeps a cell's text (`Dom.BadgedKeepsText`), and wrapping or unwrapping an outline keeps the stats text (`Dom.WrapKeepsText`, `Dom.WrapThenUnwrap`). Removing an outline when no stats element is located does drop its content, and any enclosing element's text then changes. The model does not carry that change into later amount elements.
- Scan.Row.constructor: the stats are read once when the row is built, not on every call of `getAdvertiserStats`. The text they come from is fixed, as above.
- Advertiser cell structure: only the stats element's children and the rest of the advertiser cell are modelled. The cell's other structure around the stats element is one child sequence.
- Reused elements: a reused element keeps its `uahChecked` flag even when the page puts new text in it. The model proves that such an element decides nothing (`Scan.RescanDecidesNothing`) but does not model the text changing.
- Reused price cells and rows: a price cell's text, and so its price, and a row's stats text are fixed when they are built. A recycled price cell that shows a new price is outside the model. In the code its `uahPriceSoundPlayed` flag is never cleared (content.js:409), so such a cell is badged again but never notifies again.
