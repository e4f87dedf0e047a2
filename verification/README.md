# FERJO catalog front end — a Dafny model of its core

The FERJO catalog page (`app.js`) fetches the product list from a spreadsheet-backed
web endpoint and renders one card per product. This project models the logic inside
that page as pure functions and proves properties of them:

- **Api** — `apiBase` and `buildProductsUrl`: choose the endpoint base, drop its
  trailing slashes, and append `?` or `&`, the products route and a timestamp.
- **Drive** — `extractDriveId` and `driveVariantsFromUrl`. The three regular
  expressions are scanners over the trimmed link, with the leftmost-match and
  greedy-capture rules of `String.prototype.match`. A link with a Google Drive
  file identifier gives four candidate URLs in a fixed order. A plain `http(s)`
  link is kept as it is. Anything else gives no candidate. **DriveRoundTrip**
  proves that every candidate resolves back to the same identifier.
- **Loader** — `loadCurrentVariant` and the `idxVariant`/`variants` state. It is a
  state machine driven by a sequence of image `error`/`load` events. Each failure
  moves to the next candidate. The placeholder appears once the chain is used up.
  A success classifies the image as portrait or landscape.
- **Carousel** — `sourcesRaw`, `setImageIndex`, `buildDots`, the previous/next
  buttons and the dots, driven by a sequence of clicks and image events. The
  resolver is a parameter; the page passes `driveVariantsFromUrl`.
- **Catalog** — the `sinStock` flag, the `applyFilters` predicate and list,
  the `hydrateFilters` category options, and the carousel a card starts with.
- **Filter** — `Array.prototype.filter` over sequences, used by `applyFilters` and
  by the card's `filter(Boolean)` over its image links.
- **Text** and **Search** — the JavaScript string primitives used above
  (`trim`, `toLowerCase`, `includes`, the default `sort` order, `${n}`) and
  bounded linear scans.

`localStorage`, `window.CONFIG.API` and `Date.now()` are parameters. A product
field that the record lacks is `""` or `0`, which is what the page's `|| ''` and
`|| 0` turn it into.

## Model

| member | source | states |
|---|---|---|
| Text.Trim | app.js:51 | the result is the input with leading and trailing JavaScript white space cut off, and it neither starts nor ends with white space |
| Text.LexLessTransitive | app.js:220 | the default `sort()` string order is transitive |
| Text.LexLessTotal | app.js:220 | any two different strings are ordered one way or the other |
| Text.LexLessIrreflexive | app.js:220 | no string sorts strictly before itself |
| Text.DecimalRoundTrip | app.js:16 | the decimal rendering of the timestamp reads back as the same number |
| Drive.CaptureIsUnique | app.js:54 | at a given position the greedy `[a-zA-Z0-9_-]+` capture is unique |
| Drive.MatchPath | app.js:54-55 | a capture exists iff some `/d/` is followed by an identifier character; the capture is the longest identifier run after the leftmost such `/d/` |
| Drive.MatchQuery | app.js:58-59 | a capture exists iff some `?id=` or `&id=` is followed by an identifier character; the capture comes from the leftmost one |
| Drive.MatchUc | app.js:62-63 | a capture exists iff some `uc?` is followed, before any `#`, by `id=` and an identifier character; at the leftmost such `uc?` the last usable `id=` is taken |
| Drive.ExtractDriveId | app.js:49-66 | empty input gives `""`, and a non-empty result is made only of `[a-zA-Z0-9_-]` |
| Drive.ExtractDriveIdPrecedence | app.js:49-66 | on the trimmed link, the `/d/` pattern wins over `[?&]id=`, which wins over `uc?…id=`; each gives the capture at its leftmost match; the result is `""` exactly when none of the three matches |
| Drive.DriveVariants | app.js:68-80 | with an identifier, the four candidates view, download, CDN, thumbnail in that order; without one, `[u]` for a link starting `http://` or `https://` in any case; `[]` exactly when there is neither |
| Drive.Candidates | app.js:74-79 | an identifier gives exactly four candidates |
| Drive.CandidatesDistinct | app.js:74-79 | the four candidates are different URLs, so the fallback never tries the same address twice |
| Drive.IsHttpUrl | app.js:71 | the `/^https?:\/\//i` test; a link it accepts has at least the seven characters of `http://` |
| DriveRoundTrip.CandidatesResolve | app.js:74-79 | each of the four candidate URLs built from an identifier resolves back to that identifier |
| DriveRoundTrip.VariantsRoundTrip | app.js:68-79 | when a link carries an identifier there are exactly four candidates, and each one embeds exactly that identifier |
| DriveRoundTrip.ShareLinkResolves | app.js:53-55 | the sharing link `https://drive.google.com/file/d/<id>/view` resolves to `<id>` and to its four candidates |
| Loader.LoadCurrent | app.js:147-182 | each call assigns exactly one URL after those already assigned; it shows the placeholder exactly when no candidate is left; started from a log holding the candidates tried so far, it leaves a valid loader |
| Loader.Start | app.js:139-143 | a fresh chain attempts its first candidate, or goes straight to the placeholder with no attempt when the chain is empty |
| Loader.Step | app.js:166-179 | an event assigns at most one further URL and never rewrites the earlier ones; a shown image or the placeholder ignores events; the slot ends up showing an image exactly when it already did or a candidate was loading and loaded |
| Loader.StepPreservesValid | app.js:147-182 | after any event, the URLs assigned so far are exactly the candidates tried in order, followed by the placeholder once the chain is used up |
| Loader.SettledStays | app.js:149-179 | once an image is shown or the placeholder is up, no later event changes anything |
| Loader.RunMatchesReference | app.js:147-182 | for any event sequence, the outcome and the list of assigned URLs equal an independent description in terms of the number of leading failures |
| Loader.PlaceholderAfterExactlyAllFail | app.js:148-169 | the placeholder comes after exactly as many consecutive failures as there are candidates, never fewer; before that, after `k` failures, candidate `k` is being tried and candidates `0..k` have been assigned in order |
| Loader.SuccessClassifies | app.js:171-179 | a load after `k` failures shows candidate `k`, portrait exactly when it is taller than wide |
| Carousel.ImageSources | app.js:118 | the links are `[a, b, c]` filtered by non-emptiness: the non-empty fields in field order, a repeated link kept twice, at most three |
| Carousel.DotsExactlyOneActive | app.js:124-137 | with more than one link there is one dot per link and exactly one is active, the one at the shown index |
| Carousel.Dots | app.js:124-137 | no dots for zero or one link, one dot per link otherwise |
| Carousel.SetImageIndexShowsLink | app.js:139-145 | showing an existing link `i` gives a valid card on it: the loader works on that link's chain and has assigned only its first candidate, or only the placeholder when the chain is empty; with several links the dot of `i` is the one active dot |
| Carousel.Init | app.js:200-205 | a card without links shows the placeholder and has no dots; otherwise it starts on the first link |
| Carousel.JsRem | app.js:189-194 | the JavaScript remainder equals the wrapped index for the values next and previous produce |
| Carousel.Next | app.js:191-195 | with several links, next moves to the following link and wraps from the last to the first; with one link or none there is no button and the card is unchanged |
| Carousel.Prev | app.js:186-190 | with several links, previous moves to the preceding link and wraps from the first to the last; with one link or none the card is unchanged |
| Carousel.NavigationWraps | app.js:184-195 | with several links, next and previous stay in range, wrap at the ends, undo each other, and restart the loader on the new link's chain |
| Carousel.Step | app.js:184-195 | no click or image event changes the card's list of links |
| Carousel.StepPreservesValid | app.js:124-205 | every click and image event keeps the index in range, the loader on the shown link's chain and valid, and the dots on the shown index |
| Carousel.RunPreservesValid | app.js:124-205 | the same holds after any sequence of clicks and image events |
| Carousel.ReachableDotsMarkShownImage | app.js:124-137 | in every reachable card with several links exactly one dot is active, and it marks the shown image |
| Carousel.RunImageEvents | app.js:166-171 | image events only drive the loader of the shown link |
| Carousel.ImageEventsThenNext | app.js:166-195 | whatever image events came before, a click on next gives the same card as clicking it right away: a fresh chain for the following link |
| Carousel.TwoNextsReachThird | app.js:139-195 | on a fresh three-link card, two clicks on next, with any image events in between, show the third link with a fresh chain and the third dot active |
| Carousel.ThirdSourceSecondVariant | app.js:139-195 | three links; every candidate of the first two fails, next is clicked after each; the third link loads on its second candidate; the card shows that candidate, classified, with the third dot active |
| Catalog.OutOfStockIgnoresStatusCase | app.js:101 | the out-of-stock flag reads the status case-insensitively |
| Catalog.CapitalisedStatusIsOutOfStock | app.js:101 | a status `SIN_STOCK` flags the product whatever its quantity |
| Catalog.OutOfStock | app.js:101 | a product without units is out of stock; with no status, it is out of stock exactly when it has no units |
| Filter.Keep | app.js:245 | a kept element passes the test, and an element is kept iff it is in the input and passes |
| Filter.KeepIsSubsequence | app.js:245 | filtering keeps an order-preserving subsequence, with each passing element exactly as often as in the input and no failing one |
| Catalog.Query | app.js:242 | the query is no longer than what was typed and neither starts nor ends with white space |
| Catalog.Matches | app.js:245-251 | a blank query with no category matches every product; a category other than the stored one excludes it |
| Catalog.ApplyFilters | app.js:241-252 | a product is listed iff it is in the catalog and the lower-cased trimmed query occurs in its lower-cased name or either code, and the category is empty or equals its stored category exactly |
| Catalog.ApplyFiltersIsSubsequence | app.js:245-252 | the listed products are an order-preserving subsequence of the catalog, each matching product as often as in the catalog |
| Catalog.ApplyFiltersIdempotent | app.js:245-252 | filtering the filtered list again with the same criteria changes nothing |
| Catalog.BlankSearchIsEmptyQuery | app.js:242 | a search box holding only white space gives the empty query |
| Catalog.EmptyCriteriaKeepAll | app.js:241-252 | a blank search with no category lists the whole catalog |
| Catalog.SearchIgnoresCase | app.js:242-249 | the search ignores the case of what is typed |
| Catalog.FilterIgnoresStock | app.js:245-252 | quantity and status never decide whether a product is listed, so out-of-stock products stay in the results |
| Catalog.LowerWordQuery | app.js:242 | a search of lower-case letters is used as typed |
| Catalog.HammerAndNails | app.js:101-252 | with a hammer (5 units) and a nail (0 units) of the same category, searching `mart` lists only the hammer, the category alone lists both, and only the nail is flagged out of stock |
| Catalog.HammerAndNailsOnMart | app.js:241-252 | typing exactly `mart` meets the scenario's search condition, so it lists only the hammer |
| Catalog.InsertOption | app.js:214-220 | adding a category to a sorted, duplicate-free option list keeps it sorted and duplicate-free, and adds exactly that category |
| Catalog.CategoryOptions | app.js:212-220 | the options are sorted ascending without repeats; a string is an option iff it is non-empty and is the trimmed category of some product |
| Catalog.SortedWithSameMembersEqual | app.js:214-220 | two sorted duplicate-free lists with the same members are equal |
| Catalog.CategoryOptionsCanonical | app.js:212-220 | the option list is the one sorted duplicate-free list of the non-blank trimmed categories |
| Catalog.CategoryOptionsDistinct | app.js:214-220 | no option appears twice |
| Catalog.AsWrittenOptionHidesItsProduct | app.js:212-252 | a product stored with category `Herramientas ` yields the option `Herramientas`, and choosing that option lists nothing; the trimmed comparison lists the product |
| Catalog.ApplyFiltersIntended | app.js:241-252 | the filter with the category compared after trimming: a product is listed iff it matches the query and its trimmed category equals the chosen one |
| Catalog.IntendedOptionSelectsItsProducts | app.js:212-252 | with the trimmed comparison and a blank search, choosing any non-empty category, as every option is, lists exactly the products whose category trims to it |
| Catalog.TrimmedCategoriesAgree | app.js:250 | when every stored category is already trimmed, the filter as written and the trimmed comparison give the same list |
| Catalog.CardOf | app.js:118-122 | a card's carousel holds the product's non-empty image links and starts at index 0 |
| Catalog.CardStartsOnViewUrl | app.js:200-205 | a card whose first link carries a Drive identifier starts by trying that file's `uc?export=view` URL |
| Api.StripTrailingSlashes | app.js:7 | the result is the input minus its trailing run of `/`, and it does not end in `/` |
| Api.StripUndoesSlashes | app.js:7 | appending any number of slashes to a base that does not end in `/` and stripping gives the base back |
| Api.StripIdempotent | app.js:7 | stripping twice is stripping once |
| Api.ApiBase | app.js:5-8 | the stored base, if non-empty, else the configured one, with only trailing slashes removed; the result never ends in `/` |
| Api.ProductsUrl | app.js:15-16 | the address starts with the base, then `&` if the base already has `?` and `?` otherwise, then `path=products&t=` |
| Api.BuildProductsUrl | app.js:12-17 | the address is empty exactly when there is no base, and otherwise is the products route under the base |
| Api.TimestampRoundTrip | app.js:16 | the timestamp reads back from the end of the address |
| Api.SingleQueryString | app.js:15-16 | the joiner never opens a second query string: the address has one `?` if the base had none, and otherwise exactly the base's `?` characters |

## Left out

- `fetchProducts` (app.js:19-34): network I/O, content-type sniffing and JSON parsing. The model starts from the parsed product list.
- `formatPrice` (app.js:37-43): `Intl.NumberFormat` and floating-point `toFixed`.
- DOM work: cloning the template, `querySelector`, `innerHTML`, listeners, `stopPropagation`, `display`, `alt`/`loading`, the top-level error message in `main`. The carousel reduces the dots to a list of active flags, and the image element to the URLs assigned to it.
- The card text lines (name, code, price, stock label), app.js:94-103: presentation only. Only the `sinStock` flag is modelled.
- Loader.Surface: the image box's `portrait`/`landscape` class is not tracked across links. A candidate load or the placeholder changes the class (app.js:151, 157, 173-178). Starting a new link's chain on a candidate does not (app.js:139-145, 161-181). So after next or prev, the box keeps the previous link's orientation class until the new chain loads or reaches the placeholder. The model's `Attempting` carries no class, and it does not state this carry-over.
- Real asynchronous image loading: events are an input sequence. The page has no guard against a late event from an earlier candidate. It only reassigns the handlers, so no such guarantee is stated.
- `localStorage`, `window.CONFIG` and `Date.now()` are parameters. A missing stored base is `""`, and the timestamp is a natural number.
- Product fields that are not strings: every field is a string here, except `cantidad`, which is an integer. In the page, `status` and `cantidad` go through `String(...)` and a numeric comparison (app.js:101), which the model does not reproduce for non-string or non-numeric values. The name, the two codes and `categoria` are not coerced: a non-string value makes `.toLowerCase()` throw in the filter (app.js:246-248), and for `categoria` `.trim()` throws while the options are built (app.js:217), after which `main` replaces the whole grid with the error message. Those throwing paths are not modelled.
- Text.LowerChar: `toLowerCase` is modelled for ASCII and the Latin-1 capitals only, not the rest of Unicode.
- Text.LexLess: `sort()` compares UTF-16 code units. The model compares Unicode scalar values, which differ only for characters outside the Basic Multilingual Plane.
- Carousel.SetImageIndex: the index is taken as given, without any wrapping, as in `setImageIndex`. Only the buttons wrap, and the dots pass in-range indices.
- Drive.DriveVariants: as in the source, the `http(s)` test reads the raw link while the identifier search reads the trimmed one. So a link with a leading space and no identifier gives no candidate.
- Drive.Candidates: its own contract fixes only the count of four. The order view, download, CDN, thumbnail comes from its definition, which DriveVariants returns. Of the order, only the first position is stated as a property, by Catalog.CardStartsOnViewUrl. DriveRoundTrip.CandidatesResolve states that each candidate resolves back to the identifier, whatever its position.

## Findings

| source | as written | input that shows it | evidently intended | confidence | as-written member | corrected member |
|---|---|---|---|---|---|---|
| app.js:217, app.js:250 | the options are built from `(p.categoria\|\|'').trim()`, but the filter compares the untrimmed `(p.categoria\|\|'') === cat` | one product with categoria `"Herramientas "`: the select offers `Herramientas`, and choosing it lists nothing | choosing an option lists the products whose category trims to it | medium, not executed | Catalog.AsWrittenOptionHidesItsProduct | Catalog.IntendedOptionSelectsItsProducts |
