# Page cleaner and style analyser, modelled in Dafny

The repository has two tools that work on a parsed HTML page.

The **cleaner** (`clean_html`, `Backend/Scraper.py`) runs a fixed series of passes over the
page. Each pass selects elements with `find_all` and then either calls `decompose()` on each
one or deletes some of its attributes. Elements inside a navigation region (under a `nav` or
`header`, a class mentioning `nav`, `menu` or `offcanvas`, or one of five ids) are spared by
some of the passes. Spotting them is the job of the nested helper `is_in_navigation`.

The **style analyser** (`analyze_styles`, `Backend/StyleFinder.py`) gathers colours and fonts
from four places:

- the bodies of `<style>` tags;
- inline `style` attributes;
- the `fill` and `stroke` of every `<svg>` and everything below it;
- the hrefs of `<link rel="stylesheet">`, which it also collects.

It scans CSS text with five regular expressions. It counts the values in `collections.Counter`
objects, drops noise values, and reports them with `most_common`.

## How the model is organised

| file | module | what it holds |
|---|---|---|
| `strings.dfy` | `Strings` | ASCII character classes, lower-casing, substring search, `strip`, `split`, `join` |
| `dom.dfy` | `Dom` | the page: a list of nodes, each a text or an element with tag, attributes, `class`/`rel` tokens, children, and an identity; `find_all(True)` as `Elements`; finding and detaching an element |
| `navigation.dfy` | `Navigation` | `is_in_navigation` as a loop over the ancestor frames |
| `rules.dfy` | `Rules` | every removal pass as a selector plus the check made just before `decompose()`; the `display\s*:\s*none` search |
| `passes.dfy` | `Passes` | one removal pass as a loop: collect the selected identities in document order, then, for each one still attached, check it and detach it; proved equal to a pre-order filter `Prune` that carries the ancestor chain |
| `attributes.dfy` | `Attributes` | the attribute pass (`del tag['style']`, `del tag[attr]`) as loops, proved equal to `Scrub` |
| `cleaner.dfy` | `Cleaner` | `clean_html` as the passes in their order, and what the finished page satisfies |
| `scanners.dfy` | `Scanners` | a hand-written matcher per regular expression, `re.findall` semantics, `extract_colors_from_style`, `extract_fonts_from_style` |
| `counter.dfy` | `Counting` | `Counter(list)`, the dictionary comprehensions that drop noise keys, `most_common` |
| `analyze.dfy` | `Analysis` | the four collection loops of `analyze_styles` and the counting that ends it |

A page is a value, `seq<Node>`. The cleaner's in-place mutation of the bs4 tree is modelled as a
local variable that each loop reassigns. Each element carries an identity (`id: nat`) that stands
for the identity of the bs4 object. The cleaner's loops use it to find an element collected
before the tree changed.

## Model

| member | source | states |
|---|---|---|
| Dom.DetachExact | Backend/Scraper.py:55 | `decompose()` removes exactly the element and its descendants from the page. |
| Dom.DetachKeeps | Backend/Scraper.py:55 | Every element left after `decompose()` keeps its tag, attributes, class and rel tokens and ancestors. |
| Dom.DetachUnique | Backend/Scraper.py:55 | `decompose()` adds no element and keeps element identities distinct. |
| Navigation.IsInNavigation | Backend/Scraper.py:30-43 | The loop from the parent upward returns true exactly when some proper ancestor has tag `nav`/`header`, has a non-empty class list whose space-joined string contains one of the six fragments, or has an `id` among the five values. The element itself is never looked at. |
| Navigation.NavClassReduces | Backend/Scraper.py:36-39 | The six class fragments test the same as `nav`, `menu` and `offcanvas` alone. |
| Navigation.InNavigationExtends | Backend/Scraper.py:30-43 | Whatever lies below a navigation-interior element is navigation-interior too. |
| Rules.Decide | Backend/Scraper.py:58-187 | The in-loop tests of each pass, in the cleaner's order, decide to decompose exactly when the rule's check holds. |
| Rules.SearchDisplayNoneIff | Backend/Scraper.py:144-145 | The search succeeds exactly when `display`, spaces, `:`, spaces, `none` occur somewhere in the lower-cased style. |
| Rules.DisplayNoneAtComplete | Backend/Scraper.py:145 | Any occurrence of that shape is found at its start position. |
| Rules.AriaHiddenShortText | Backend/Scraper.py:132-139 | An `aria-hidden="true"` element with one text child is removed exactly when it is not an `svg`, has no navigation ancestor, and its stripped text is shorter than 10. |
| Rules.AriaHiddenIconContainer | Backend/Scraper.py:132-139 | An `aria-hidden` `div` holding only an `svg` icon is removed by the aria-hidden pass, although the empty-container pass would keep it. |
| Rules.DisplayNoneShortText | Backend/Scraper.py:143-149 | A `display:none` element with one text child is removed exactly when its stripped text is shorter than 10, whatever its ancestors. |
| Rules.NoNavigationExemption | Backend/Scraper.py:53-149 | The tag, script, consent-id, cookie/banner and `display:none` passes decide the same for an element inside navigation as outside it. |
| Rules.NavigationHeaderKept | Backend/Scraper.py:58-66 | A header is removed exactly when it has no `nav` descendant and its class string contains neither `nav` nor `menu`. |
| Rules.TagManagerScriptRemoved | Backend/Scraper.py:71-88 | A script loading Google Tag Manager is removed. |
| Rules.FirstPartyScriptKept | Backend/Scraper.py:71-94 | A script with `src="/app.js"` and no text is kept. |
| Passes.DecomposeSelected | Backend/Scraper.py:53-55 | Collecting the selected elements, then checking and detaching each one still attached, gives the pre-order filter `Prune` of the page. |
| Passes.CollectOrder | Backend/Scraper.py:54 | The k-th collected identity names a selected element of the page, and no earlier entry is that element or lies below it: `find_all` lists in document order. |
| Passes.PruneIds | Backend/Scraper.py:53-55 | A pass only removes elements: the survivors are elements of the input. |
| Passes.PruneUnique | Backend/Scraper.py:53-55 | A pass keeps identities unique. |
| Passes.PruneSurvivor | Backend/Scraper.py:53-55 | Every surviving element was one the pass, seeing it in place, did not remove. |
| Passes.PruneNothing | Backend/Scraper.py:53-55 | When no element meets the rule where it stands, the page is unchanged. |
| Passes.PruneSelectedGone | Backend/Scraper.py:53-55 | After a pass that removes everything it selects, nothing selected remains. |
| Passes.PruneNoNewSelected | Backend/Scraper.py:53-187 | No pass creates an element that another rule would select. |
| Passes.CollectEmpty | Backend/Scraper.py:54 | `find_all` returns nothing exactly when no element is selected. |
| Passes.PruneInsideNavigation | Backend/Scraper.py:134-135 | The aria-hidden and empty-container passes remove nothing under a navigation ancestor. |
| Passes.AriaHiddenNotIdempotent | Backend/Scraper.py:132-139 | An aria-hidden `div` with 7 characters of its own text and an aria-hidden `span` child with 3 keeps the `div` on the first pass and removes it on the second: the pass is not idempotent. |
| Attributes.ScrubAttrs | Backend/Scraper.py:152-178 | The attribute loop for one element leaves `Scrubbed`: the attributes minus the unconditional list, and, outside navigation, minus `style` and the Font Awesome and Bootstrap attributes. |
| Attributes.ScrubbedClean | Backend/Scraper.py:152-178 | After scrubbing, no dropped attribute is left, and no attribute is added. |
| Attributes.EssentialKept | Backend/Scraper.py:157-159 | `href`, `src`, `action`, `type`, `name`, `value`, `id`, `placeholder` and `required` keep their values (`class` tokens are kept by `Attributes.ScrubIds`). |
| Attributes.NavigationKeepsStyling | Backend/Scraper.py:153-174 | Inside navigation, `style` and the Font Awesome and Bootstrap attributes keep their values. |
| Attributes.ScrubbedIdempotent | Backend/Scraper.py:152-178 | Scrubbing twice is scrubbing once. |
| Attributes.StripAttributes | Backend/Scraper.py:152-178 | The loop over `find_all(True)` gives `Scrub` of the page: every element scrubbed for its own place. |
| Attributes.ScrubIsClean | Backend/Scraper.py:152-178 | After the pass no element keeps an attribute it should have lost. |
| Attributes.ScrubIds | Backend/Scraper.py:152-178 | The attribute pass changes nothing but attribute maps: every element keeps its tag, `class` and `rel` tokens and children, and every text stays. |
| Attributes.ScrubIdempotent | Backend/Scraper.py:152-178 | Running the attribute pass twice is running it once. |
| Attributes.PruneKeepsClean | Backend/Scraper.py:181-187 | A removal pass run after the attribute pass, such as the empty-container pass, leaves the page clean. |
| Cleaner.TagRules | Backend/Scraper.py:46-55 | One tag rule per unwanted tag, in order. |
| Cleaner.ClassRules | Backend/Scraper.py:125-127 | One class rule per consent class, in order. |
| Cleaner.RunPasses | Backend/Scraper.py:53-115 | Running the passes one after the other gives `PruneAll` and keeps identities unique. |
| Cleaner.DropConsent | Backend/Scraper.py:119-122 | Each consent id removes the first element carrying it, if there is one. |
| Cleaner.DropFirstRemoves | Backend/Scraper.py:119-122 | `find(id=v)` finds nothing exactly when no element has that id, and then nothing changes; otherwise exactly the first such element and its subtree go. |
| Cleaner.CleanHtml | Backend/Scraper.py:46-187 | `clean_html` on a parsed page gives the staged result `Cleaned`. |
| Cleaner.CleanedIds | Backend/Scraper.py:46-187 | The cleaned page holds only elements of the input, with unique identities. |
| Cleaner.CleanedRemovesUnconditional | Backend/Scraper.py:46-127 | After cleaning there is no `style`, `footer`, `iframe` or `noscript` element, no extension tag or class, no preload/prefetch/canonical/alternate link, and no `cookie`/`banner` element. |
| Cleaner.CleanedIsClean | Backend/Scraper.py:152-178 | After cleaning no element keeps an attribute the attribute pass drops for its place. |
| Strings.SplitJoin | Backend/StyleFinder.py:43 | `split(',')` undoes joining comma-free pieces with commas. |
| Strings.StripCharQuoted | Backend/StyleFinder.py:43 | `strip('"')` removes one pair of surrounding quotes from a quote-free name. |
| Strings.StripLeadingSpace | Backend/StyleFinder.py:43 | `strip()` removes the space after a comma. |
| Scanners.MatchAt | Backend/StyleFinder.py:12-15 | A match at a position is non-empty and ends inside the text. |
| Scanners.FindAllFirst | Backend/StyleFinder.py:18-28 | `findall` reports the leftmost match first, then resumes where it ended. |
| Scanners.FindAllCaptures | Backend/StyleFinder.py:18-28 | Every reported capture is that of a match at some position. |
| Scanners.MatchHexIff | Backend/StyleFinder.py:12 | The hex matcher succeeds exactly when `#`, 3 to 8 hex digits and a word boundary follow, and it reports that text. |
| Scanners.HexTokens | Backend/StyleFinder.py:12-18 | Every hex token is `#` and 3 to 8 hex digits. |
| Scanners.HexDigitsAccepted | Backend/StyleFinder.py:12 | `#` and any 3 to 8 hex digits, including 5 or 7, is one token. |
| Scanners.LongHexRunRejected | Backend/StyleFinder.py:12 | `#` and 9 or more hex digits gives no token. |
| Scanners.NoHashNoHex | Backend/StyleFinder.py:12-18 | Text without `#` has no hex token. |
| Scanners.MatchFunctionalIff | Backend/StyleFinder.py:13-14 | The rgb/hsl matcher succeeds exactly when the name, an optional `a`, `(`, a non-empty run without `)` and `)` follow. |
| Scanners.FunctionalTokens | Backend/StyleFinder.py:13-24 | Every rgb/hsl token starts with the name, has a non-empty interior without `)`, and ends with `)`. |
| Scanners.FunctionalNeedsName | Backend/StyleFinder.py:13-14 | No rgb/hsl match starts where the name does not. |
| Scanners.FunctionalNeedsParen | Backend/StyleFinder.py:13-14 | No rgb/hsl match starts where no `(` follows the name. |
| Scanners.PropertyAtIff | Backend/StyleFinder.py:15 | The property lookup succeeds exactly when one of the five property names starts there, and it ends after that name. |
| Scanners.MatchNamedIff | Backend/StyleFinder.py:15 | The named-colour matcher succeeds exactly when a word boundary, one of the five properties, spaces, `:`, spaces and a letter run ending at a word boundary follow. |
| Scanners.NamedTokens | Backend/StyleFinder.py:15-27 | Every named capture is a non-empty run of letters. |
| Scanners.NamedNeedsLetter | Backend/StyleFinder.py:15 | No named-colour match starts at a non-letter. |
| Scanners.KeepNamed | Backend/StyleFinder.py:28 | A named capture is kept exactly when it is not one of the five ignored words, compared case-sensitively. |
| Scanners.FunctionNameAlsoNamed | Backend/StyleFinder.py:15-28 | `background-color: rgba(0,0,0,0.5)` gives both `rgba(0,0,0,0.5)` and the bare name `rgba`. |
| Scanners.MatchFontIff | Backend/StyleFinder.py:38-40 | The font matcher succeeds exactly when `font-family`, spaces, `:`, spaces and a non-empty run without `;` follow. |
| Scanners.FontValues | Backend/StyleFinder.py:38-40 | Every font capture is non-empty and has no `;`. |
| Scanners.FontNames | Backend/StyleFinder.py:41-44 | One value gives one name more than it has commas, empty names included. |
| Scanners.DoubleQuotedName | Backend/StyleFinder.py:43 | A double-quoted name loses its quotes. |
| Scanners.SpacedName | Backend/StyleFinder.py:43 | A name after a comma and a space loses the space. |
| Scanners.QuotedSpaceKept | Backend/StyleFinder.py:43 | The space inside `' Arial'` is kept, because whitespace is stripped only before the quotes. |
| Scanners.HelveticaNames | Backend/StyleFinder.py:38-45 | `"Helvetica Neue", Arial, sans-serif` gives `Helvetica Neue`, `Arial`, `sans-serif`. |
| Counting.TallyCounts | Backend/StyleFinder.py:109-110 | `Counter(list)` has exactly the list's elements as keys, no key twice, each counted as often as it occurs. |
| Counting.TallyOrder | Backend/StyleFinder.py:109-110 | Its keys are in the order of their first occurrence. |
| Counting.KeepFacts | Backend/StyleFinder.py:113-119 | The comprehension keeps exactly the keys whose lower case is not noise, with their counts. |
| Counting.KeepKeysOrder | Backend/StyleFinder.py:114-119 | The kept keys stay in their order. |
| Counting.FilteredTally | Backend/StyleFinder.py:109-119 | The final table holds each non-noise value found, counted as often as it was found, in first-found order. |
| Counting.Insert | Backend/StyleFinder.py:140 | Inserting a key into the ranking adds exactly that key. |
| Counting.SortByCount | Backend/StyleFinder.py:140 | The ranking is a permutation of the keys. |
| Counting.SortDescending | Backend/StyleFinder.py:140 | The ranking has counts in descending order. |
| Counting.SortStable | Backend/StyleFinder.py:140 | Keys with equal counts keep the Counter's order in the ranking. |
| Counting.MostCommon | Backend/StyleFinder.py:140 | `most_common(n)` has min(n, number of keys) entries, each a key with its count. |
| Counting.MostCommonAll | Backend/StyleFinder.py:182 | `most_common()` has one entry per key. |
| Counting.MostCommonDistinct | Backend/StyleFinder.py:151 | `most_common(n)` reports no key twice. |
| Counting.MostCommonDescending | Backend/StyleFinder.py:151 | `most_common(n)` reports counts in descending order. |
| Counting.MostCommonCutoff | Backend/StyleFinder.py:140 | No key left out has a higher count than a key reported. |
| Counting.MostCommonTies | Backend/StyleFinder.py:192 | Among keys with one count, the reported ones are the first inserted, in insertion order. |
| Counting.TiesInFirstSeenOrder | Backend/StyleFinder.py:140 | For `[b, a, b, a, c]`, `most_common(2)` is `[(b, 2), (a, 2)]`. |
| Analysis.Select | Backend/StyleFinder.py:72-94 | A `find_all` selection holds exactly the matching elements. |
| Analysis.CollectCss | Backend/StyleFinder.py:72-82 | The style-tag loop and the inline-style loop build the colours and the fonts of each node's CSS, node after node. |
| Analysis.CollectHrefs | Backend/StyleFinder.py:86-90 | The link loop builds the non-empty hrefs in order. |
| Analysis.AppendPaint | Backend/StyleFinder.py:96-99 | A node adds its non-empty `fill`, then its non-empty `stroke`. |
| Analysis.CollectPaint | Backend/StyleFinder.py:102-106 | The loop over `svg.find_all()` adds the paint of each element below the svg. |
| Analysis.CollectSvgPaint | Backend/StyleFinder.py:94-106 | The svg loop adds each svg's paint and then that of everything below it. |
| Analysis.AnalyzeStyles | Backend/StyleFinder.py:67-125 | The report's colour and font tables hold exactly the non-noise values found, each counted as often as found. The stylesheet list is the hrefs in document order. |
| Analysis.StylesheetsIff | Backend/StyleFinder.py:86-90 | A stylesheet is listed exactly when it is the non-empty href of a `link` with a `stylesheet` rel token. |
| Analysis.HrefsIff | Backend/StyleFinder.py:88-90 | An href is collected exactly when it is non-empty and belongs to one of the links. |
| Analysis.PaintAllIff | Backend/StyleFinder.py:102-106 | A value is collected exactly when it is the non-empty fill or stroke of one of the elements. |
| Analysis.SvgPaintCovered | Backend/StyleFinder.py:94-106 | The svg pass paints the list that repeats each element once for every svg enclosing it. |
| Analysis.SvgPaintIff | Backend/StyleFinder.py:94-106 | A colour comes from the svg pass exactly when an svg, or an element below one, has it as a non-empty fill or stroke. |
| Analysis.NestedSvgCountedTwice | Backend/StyleFinder.py:94-106 | A `fill="red"` svg inside another svg gives `red` twice. |

## Left out

- Reading and writing files, `print`, both `main` functions and the report layout are not modelled. Only the order and the truncation of `most_common` are.
- The HTML parser and `prettify()` are a foreign library. The page is taken as already parsed, and the cleaned page is not serialised.
- How bs4 splits `class` and `rel` into tokens is left out: they are given as token lists.
- The bs4 objects' identity is modelled by the `id` field. Parent links are modelled by the chain of ancestor frames that the traversal carries.
- A collected element whose ancestor was already decomposed is skipped by the model's loop. The source's loops still reach such an element, and bs4 leaves a decomposed element's behaviour undefined: the `.get()` calls at `Backend/Scraper.py:61` and `Backend/Scraper.py:144` may raise on it. The model does not capture that failure.
- `get_text()` is the concatenation of every text below the element. bs4's exclusion of some string types is left out.
- `\w`, `\s`, `strip()`, `lower()` and `re.IGNORECASE` are approximated by their ASCII meaning. Whitespace is the ten ASCII characters Python counts as whitespace: space, tab, line feed, carriage return, vertical tab, form feed and `\x1c` to `\x1f`. Non-ASCII whitespace and case mappings are left out.
- Analysis.StringOf: `.string` is the text of an element whose only child is a text, or the `.string` of its only child element; the other cases of bs4's rule are left out.
- The reduction percentage and the statistics of the cleaner's `main` are left out (floating point, I/O).

### Where the code and the design intent differ

The model follows the code in each case below.

- The cleaner's docstring promises that every navigation element survives. The code does not spare navigation in:
  - the tag pass, the script pass, the consent passes and the `display:none` pass;
  - the aria-hidden pass, where an element's own tag only exempts an `svg`.

  A `div` holding an `svg` icon is therefore removed by the aria-hidden pass (`Rules.AriaHiddenIconContainer`).
- Running the cleaner again need not change nothing. For example, removing an aria-hidden child shortens its parent's text, so a second run can remove the parent (`Passes.AriaHiddenNotIdempotent`).
- The colour patterns accept 3 to 8 hex digits, so 5 and 7 digits count too. The named-colour pattern also captures the function name of `rgba(...)` after a colour property (`Scanners.FunctionNameAlsoNamed`). So `background-color: rgba(0,0,0,0.5)` gives two tokens, not one.
- The named-colour ignore list is compared case-sensitively (`currentColor`). The final noise filter is compared in lower case.
- An element inside nested svgs has its paint counted once per enclosing svg (`Analysis.NestedSvgCountedTwice`).
