# Locale switcher and last-updated annotator

A model of the two browser scripts a bilingual (English/Chinese) mdBook site
runs on every page. Both are modelled in Dafny, and the model is verified.

- `lang-switch.js` sets up the locale toggle. The page's locale is "zh" when
  its path contains `/zh/`, and "en" otherwise. A click works in four steps:
  - it computes the sibling page's address: the href before its first `#`,
    with the first `/cur/` replaced by `/tgt/`;
  - it fades the content out and fetches that page;
  - on an ok response it splices the main content, the title, the menu title
    and the sidebar TOC frame's address into the live page, pushes the new
    address with the original hash, flips the locale and relabels the toggle;
  - on any failure it navigates to the sibling page.
- `rust-book-cn/last-updated.js` derives a page key from the path (the last
  segment, "index.html" when that is empty, with ".html" turned into ".md").
  On Chinese pages whose key has a non-empty entry in the site's
  last-updated table, it writes the date into the first `.last-updated` child
  of `main`, appending one when there is none; otherwise it removes the first
  such child. Without `main` it does nothing. Starting from at most one such
  child it keeps at most one, and exactly one carrying the date when it
  applies. A MutationObserver on `main`'s child list re-runs it.

## Layout

| file | module | contents |
|---|---|---|
| `text.dfy` | `Text` | `indexOf`, string `replace`, `split("/").pop()`, the `/[^/]*$/` strip, `endsWith` |
| `url.dfy` | `Url` | the pre-hash part of an href and `location.hash` |
| `dom.dfy` | `Dom` | `Option` for absent elements; a child element of `main` as a value |
| `lang_switch.dfy` | `LangSwitch` | locale state, target href, label, splice, round trip; class `Switcher` for the click protocol |
| `last_updated.dfy` | `LastUpdated` | page key, locale test, annotation edits on `main`'s children; class `Annotator` for `inject`/`remove` |
| `agreement.dfy` | `Agreement` | facts that involve both scripts |

Some state the scripts read from the browser becomes plain values in the
model:
- `window.location.href` and `pathname` are strings;
- a fetched page is a record of optional title, main children and menu title;
- `main` is a sequence of `Child` values (tag, classes, text);
- `LAST_UPDATED_DATA` is an optional `map<string, string>`;
- the settled `fetch` is a parameter, `FetchOutcome`, which is either a
  status with a page or a rejection.

The switcher's closure variables and the parts of the page it rewrites become
fields of `LangSwitch.Switcher`. `main`'s child list becomes the `children`
field of `LastUpdated.Annotator`.

Switching there and back returns to the same address only under a
precondition. `LangSwitch.RoundTrip` states it exactly: the `/tgt/` written by
the first switch must be the first `/tgt/` in the result.
`LangSwitch.RoundTripFailsForNestedLocales` exhibits the path `/en/zh/x`,
which does not come back. The model follows the code, not the unconditional
round trip one might expect.

## Model

| member | source | states |
|---|---|---|
| Text.IndexOf | lang-switch.js:3 | `indexOf` is -1 exactly when the pattern does not occur; otherwise it is the first occurrence |
| Text.ReplaceFirst | lang-switch.js:15 | string `replace` rewrites only the first occurrence: prefix and suffix are kept, the replacement sits at that index; no occurrence leaves the string unchanged |
| Text.DirPrefix | lang-switch.js:44 | `replace(/[^/]*$/, "")` yields the prefix ending at the last `/` (empty when there is none), with no `/` after it |
| Text.LastSegment | rust-book-cn/last-updated.js:4 | `split("/").pop()` holds no `/`, and the directory prefix followed by it is the whole string |
| Text.AppendSegment | lang-switch.js:44 | a directory (empty or ending in `/`) followed by a segment without `/` has that directory as its directory prefix and that segment as its last segment |
| Text.ReplaceKeepsLastSegment | lang-switch.js:15 | replacing a `/`-terminated piece by another of the same length leaves the last path segment as it was |
| Url.BeforeHash | lang-switch.js:14 | `split("#")[0]` is a prefix of the href without `#`, ending at the first `#` when there is one |
| Url.Hash | lang-switch.js:65 | `location.hash` is empty or starts with `#` and completes the pre-hash part to the href |
| Url.HashCarriedOver | lang-switch.js:79 | `base + hash` has `base` as its pre-hash part and the original hash as its hash, so the fragment survives a switch verbatim |
| LangSwitch.InitialLang | lang-switch.js:3 | the current locale is "zh" if and only if the path contains `/zh/` |
| LangSwitch.Other | lang-switch.js:4 | the target locale differs from the current one |
| LangSwitch.TargetHref | lang-switch.js:13-16 | the target href has no `#` and the pre-hash length; only the first `/cur/` window becomes `/tgt/`; with no `/cur/` it is the pre-hash href unchanged |
| LangSwitch.RoundTrip | lang-switch.js:13-16 | switching and switching back gives the pre-hash href if and only if the written `/tgt/` is the first one (or, with nothing substituted, there is no `/tgt/`) |
| LangSwitch.RoundTripWhenTargetAbsent | lang-switch.js:13-16 | an href containing `/cur/` but not `/tgt/` comes back unchanged |
| LangSwitch.RoundTripFailsForNestedLocales | lang-switch.js:3-15 | `/en/zh/x` starts as "zh", goes to `/en/en/x` and comes back as `/zh/en/x` |
| LangSwitch.LabelFor | lang-switch.js:97-100 | the toggle names the other locale in that locale's language, and its title is that language's "switch to" prompt followed by the name |
| LangSwitch.IsOk | lang-switch.js:74 | `res.ok` holds exactly for the statuses whose hundreds digit is 2 |
| LangSwitch.TocUrl | lang-switch.js:44 | for a src without `/`, the new frame address lies in the target's directory and its last segment is that src |
| LangSwitch.Splice | lang-switch.js:18-47 | swapContent never adds or removes an element: main, menu title and TOC frame are present afterwards exactly when they were before |
| LangSwitch.SpliceIdempotent | lang-switch.js:18-47 | with the src the frame was loaded with, splicing the same fetched page twice is splicing it once (corrected behaviour) |
| LangSwitch.SpliceAsWrittenAgain | lang-switch.js:18-47 | as written, splicing the same page again keeps title, main and menu title but puts the target's directory in front of the frame's src once more, so swapContent is not idempotent when that directory is non-empty |
| LangSwitch.TocSrcHistoryFree | lang-switch.js:41-46 | with the src relative to the page, the TOC frame after a switch depends only on that switch's target (corrected behaviour) |
| LangSwitch.SpliceAsWritten | lang-switch.js:18-47 | swapContent as written: title, main and menu title as in the splice; the frame's src, present exactly when it was, becomes the target's directory followed by the src the frame has now |
| LangSwitch.TocSrcCompoundsAsWritten | lang-switch.js:43-45 | as written, a second switch yields the second directory, then the first directory, then the original src, which differs from the TOC beside the page |
| LangSwitch.TocSrcCompoundsExample | lang-switch.js:43-45 | "toc.html" on `https://site/en/ch1.html`, switched to zh and back, becomes `https://site/en/https://site/zh/toc.html` |
| LangSwitch.NestedToc | lang-switch.js:43-45 | the frame's src after the committed switches, oldest first: each puts its target's directory in front of the src the frame had |
| LangSwitch.NestedTocKeepsSrc | lang-switch.js:43-45 | switches only add in front: the src the frame was loaded with stays at the end of the frame's src |
| LangSwitch.NestedTocSnoc | lang-switch.js:43-45 | each further committed switch puts its target's directory in front of the frame's src |
| LangSwitch.PushExtendsToc | lang-switch.js:43-79 | the src written at line 44 is the nested src of the history extended by the URL pushed at line 79, and that URL splits back into the target and the old hash |
| LangSwitch.FirstSwitchTocCorrect | lang-switch.js:43-45 | after one committed switch the frame's src is exactly the TOC beside the target page |
| LangSwitch.NestedTocTwo | lang-switch.js:43-45 | after two committed switches the src is the second target's directory, then the first's, then the load-time src |
| LangSwitch.SecondSwitchTocNests | lang-switch.js:43-45 | when the first target's directory is not empty, the src after two switches is not the TOC beside the page shown |
| LangSwitch.Switcher.constructor | lang-switch.js:2-4 | the locales come from the path and are complementary; nothing has been pushed, navigated or faded |
| LangSwitch.Switcher.CreateSwitcher | lang-switch.js:90-104 | without a button bar nothing changes; otherwise the toggle is labelled for the current locale |
| LangSwitch.Switcher.SwapContent | lang-switch.js:18-47 | the four parts become the as-written splice of the fetched page against the pre-flip target href: the frame's current src gets the target directory in front; nothing else changes |
| LangSwitch.Switcher.UpdateSwitcherState | lang-switch.js:49-61 | the locales swap, stay complementary, and an existing button gets the label createSwitcher gives the new locale |
| LangSwitch.Switcher.FlipTwice | lang-switch.js:51-53 | two flips restore both locales and the button |
| LangSwitch.Switcher.StartSwitch | lang-switch.js:63-69 | the target and hash are captured; the fade starts exactly when `#mdbook-content` exists |
| LangSwitch.Switcher.CompleteSwitch | lang-switch.js:71-87 | an ok response splices as written, pushes target plus hash, flips and clears the fade; a non-ok status or a rejection navigates to target plus hash and changes nothing else; the hash is kept either way |
| LangSwitch.Switcher.Commit | lang-switch.js:77-82 | the as-written splice, the push of target plus hash (whose pre-hash part is the target and whose hash is the old one), the flip with the button relabelled, the fade cleared; the frame's src stays the nested src of the pushed history |
| LangSwitch.Switcher.SwapAndPush | lang-switch.js:78-79 | swapContent then pushState: the as-written splice, href and history gain target plus hash, and the frame's src is the nested src of the new history |
| LangSwitch.Switcher.Push | lang-switch.js:79 | `history.pushState` appends the URL to the history and makes it the href; the page's parts are unchanged |
| LangSwitch.Switcher.FallBack | lang-switch.js:83-86 | the navigation goes to target plus hash, whose pre-hash part is the target and whose hash is the old one; nothing else changes |
| LangSwitch.Switcher.DoSwitch | lang-switch.js:63-88 | the whole click: no content means no effect; otherwise the commit or the fallback as above, with the fade left on when falling back |
| LangSwitch.TwoSwitchesNestToc | lang-switch.js:41-46 | on a freshly loaded switcher, two committed switches leave the frame's src with both targets' directories in front of the load-time src, and not the TOC beside the page |
| LangSwitch.ScenarioTarget | lang-switch.js:13-16 | `https://site/en/ch1.html#overview` targets `https://site/zh/ch1.html` |
| LangSwitch.ScenarioHash | lang-switch.js:65 | its hash is `#overview` |
| LangSwitch.ScenarioLocale | lang-switch.js:3 | `/en/ch1.html` starts in English |
| LastUpdated.SegmentOrIndex | rust-book-cn/last-updated.js:4 | the segment is non-empty and holds no `/`; it is the last path segment whenever that is non-empty, and "index.html" when the last segment is empty |
| LastUpdated.PageKey | rust-book-cn/last-updated.js:2-7 | the key is "index.md" for an empty last segment, the segment with ".html" turned into ".md", or the segment itself; it is never empty, holds no `/`, and never ends in ".html" |
| LastUpdated.HtmlToMd | rust-book-cn/last-updated.js:6 | a final ".html" becomes ".md" and any other segment is kept; the result is non-empty, holds no `/`, and never ends in ".html" |
| LastUpdated.LineFiveNeverFires | rust-book-cn/last-updated.js:4-5 | after line 4 the segment is non-empty and does not end in `/`, so line 5 never changes it |
| LastUpdated.PageKeyIdempotent | rust-book-cn/last-updated.js:2-7 | a key is its own key |
| LastUpdated.PageKeyOfDirectory | rust-book-cn/last-updated.js:2-7 | `/docs/zh/guide/` gives "index.md" |
| LastUpdated.PageKeyOfPage | rust-book-cn/last-updated.js:2-7 | `/docs/zh/guide/intro.html` gives "intro.md" |
| LastUpdated.IsChinesePage | rust-book-cn/last-updated.js:9-14 | a page is Chinese if and only if its path contains `/zh/` or does not contain `/en/` |
| LastUpdated.StampFor | rust-book-cn/last-updated.js:16-26 | a stamp exists if and only if the page is Chinese and the table has a non-empty entry for the key; it is the fixed prefix followed by that entry |
| LastUpdated.FirstAnnotation | rust-book-cn/last-updated.js:30 | `querySelector(".last-updated")` over the children finds the first annotation, or -1 exactly when there is none |
| LastUpdated.WithoutFirstAnnotation | rust-book-cn/last-updated.js:44-47 | remove leaves the children unchanged when there is no annotation and shortens them by exactly one otherwise |
| LastUpdated.RemoveTakesFirstAnnotation | rust-book-cn/last-updated.js:44-47 | remove takes out the first annotation (if any), keeps the other children in order, and shortens the list by exactly that one |
| LastUpdated.Annotated | rust-book-cn/last-updated.js:30-36 | the update adds one child when no annotation existed and keeps the length otherwise |
| LastUpdated.AnnotateAppends | rust-book-cn/last-updated.js:30-36 | with no annotation, one `div.last-updated` with the text is appended as the last child |
| LastUpdated.AnnotateReuses | rust-book-cn/last-updated.js:30-36 | an existing annotation is reused in place: the first annotation, at its own index, gets the text, every other child stays at its index, so the length, the other children and the later annotations are unchanged |
| LastUpdated.Injected | rust-book-cn/last-updated.js:16-36 | without `main` nothing changes; with a stamp the list grows by one only when no annotation existed; without one it shrinks by one only when an annotation existed |
| LastUpdated.InjectKeepsOneAnnotation | rust-book-cn/last-updated.js:16-36 | inject keeps at most one annotation and the other children; without `main` nothing changes; a stamp leaves exactly one annotation carrying it, and no stamp leaves none |
| LastUpdated.AnnotateTwice | rust-book-cn/last-updated.js:30-36 | writing the same stamp twice is writing it once |
| LastUpdated.InjectIdempotent | rust-book-cn/last-updated.js:16-36 | provided there is a stamp or at most one annotation, a second inject leaves the children as the first left them (with two annotations and no stamp each inject removes one more) |
| LastUpdated.AfterObserver | rust-book-cn/last-updated.js:53-58 | starting from at most one annotation, any number of observer rounds keeps at most one annotation and all the other children |
| LastUpdated.ObserverSettles | rust-book-cn/last-updated.js:53-58 | provided there is a stamp or at most one annotation, however many observer rounds are allowed, the children end as after a single inject |
| LastUpdated.ChildListReports | rust-book-cn/last-updated.js:57 | `ChildListChanged`, the `{ childList: true }` filter: appending a child or removing one is reported, rewriting a child's text in place is not |
| LastUpdated.Annotator.Remove | rust-book-cn/last-updated.js:44-47 | remove deletes the first annotation child when `main` exists and changes nothing otherwise |
| LastUpdated.Annotator.Inject | rust-book-cn/last-updated.js:16-36 | inject's new child list is the stamp decision applied to the old one, and it keeps the at-most-one invariant |
| Agreement.LocalesAgreeExactlyInsideTrees | rust-book-cn/last-updated.js:9-14 | the annotator and the switcher agree on the locale if and only if the path contains `/zh/` or `/en/` |
| Agreement.LocalesDisagreeOutsideTrees | rust-book-cn/last-updated.js:13 | a path with neither segment is English to the switcher and Chinese to the annotator |
| Agreement.SwitchKeepsPageKey | rust-book-cn/last-updated.js:2-7 | substituting one locale segment for the other never changes the page key |
| Agreement.TargetKeepsLastSegment | lang-switch.js:13-16 | the target href has the same last segment as the pre-hash href |
| Agreement.SwitchToChineseIsChinesePage | rust-book-cn/last-updated.js:9-14 | a path with `/en/`, switched to Chinese, is a Chinese page to the annotator, so the re-inject after the switch sees the new locale |

## Left out

- Styles: the injected fade CSS and the annotation's inline style are presentation only.
- HTML parsing and `querySelector` are left out. The fetched page is a record of parts. `main` is a list of its direct children, and a `.last-updated` element nested deeper is not modelled.
- Timing is left out: the 250 ms and 50 ms timers, `fetch` itself, MutationObserver delivery, `DOMContentLoaded` and the `popstate` handler that reloads the page. The settled fetch is a parameter, and the observer chain is a bounded number of inject rounds (`AfterObserver`).
- Two clicks whose fetches interleave are a concurrency race and are not modelled.
- `window.location` and `history` are reduced to an href string, a list of pushed URLs and the address of a started navigation. The navigation's effect on the page (a reload) is not modelled.
- A throw inside lines 78-81 of lang-switch.js (from `history.pushState`, say) is caught by the same `.catch` at line 83: the page is left partly committed and then navigates. In the model an ok fetch always commits in full, and only a non-ok status or a rejected fetch navigates.
- A click on a page without `#mdbook-content` throws in the browser; the model has the same effect, namely none.
- The `.sidebar-iframe-outer` frame always has a `src` in the model. A frame without one, where `null` would be concatenated, is not modelled.
- `LAST_UPDATED_DATA` is a map, so keys that JavaScript would find on the object prototype (such as "constructor") are not modelled. Values are strings, and "falsy" means the empty string.
- `ReplaceFirst` treats the replacement text literally. The `$` patterns of JavaScript's `replace` cannot arise, because the replacements are `/en/` and `/zh/`.
- The annotator's `pathname` is a field that inject() reads afresh. The model does not connect it to the switcher's `history.pushState`: the two scripts share the browser's location, which is not modelled as one object. `Agreement.SwitchToChineseIsChinesePage` states the fact the connection needs.
- LangSwitch.Splice: its contract states only that no element appears or disappears. The exact field updates are stated by `Switcher.SwapContent`.

## Findings

| source | as written | input that shows it | evidently intended | confidence | as-written member | corrected member |
|---|---|---|---|---|---|---|
| lang-switch.js:43-45 | the new TOC frame src is the target directory followed by the frame's current src, which after the first switch is already an absolute URL | a page at `https://site/en/ch1.html` with src "toc.html", switched to zh and back, ends with `https://site/en/https://site/zh/toc.html` | the TOC beside the target page: the target directory followed by the src the page was loaded with | medium, not executed (depends on the frame keeping its relative src at load) | LangSwitch.TocSrcCompoundsAsWritten | LangSwitch.TocSrcHistoryFree |

The switcher follows the code as written: `Switcher.SwapContent` prefixes the
frame's current src, and `Switcher.Valid` keeps the src equal to
`NestedToc` of the pushed history, one directory per committed switch in
front of the load-time src. `LangSwitch.TwoSwitchesNestToc` runs two
switches on a `Switcher` and shows the nesting. `LangSwitch.Splice` with a
fixed src, and `LangSwitch.TocSrcHistoryFree` about it, are the corrected
reference.
