# Residency-exam notice scraper and list page, modelled in Dafny

The system has two halves. A Python scraper reads a news listing, opens each
article, and keeps an article only when it finds the following:

- a table;
- a link to the organising body's official page, announced by an
  "official page of the …" phrase;
- PDF download buttons between the last table and the paragraph holding that
  link.

For each article it keeps, the scraper builds a record: the institution,
named from the title of the first table section; the PDF list; the official
link; and the publication date. It merges these records into the existing
data set, deduplicating by official link and sorting by date, newest first.

A browser script loads that data set. It normalises and filters the entries,
sorts them by date, and shows them ten per page. Each card gets a count of
its PDFs, and a pager shows at most seven page dots around the current page.

## How the model is organised

- `text.dfy`, module `Text`: Python's `strip`, the `\s+` collapse of `norm`,
  ASCII and Latin-1 lower-casing, and a code-point order on strings.
- `seqs.dfy`, module `Seqs`: first-occurrence deduplication (the
  `seen`-set loops), Python slicing, and a stable descending sort.
- `dom.dfy`, module `Dom`: a parsed page as its pre-order list of nodes, each
  holding its parent's index. It provides `find_parent` and nearest-earlier or
  first-later node searches.
- `patterns.dfy`, module `Patterns`: the four regular expressions written out
  as predicates, and `build_display_title`.
- `scraper.dfy`, module `Scraper`: listing, posted date, official link,
  disclaimer block, first section title, PDF buttons and the `parse_post` gate
  sequence.
- `merge.dfy`, module `Merge`: `merge`.
- `escape.dfy`, module `Html`: `escapeHtml`.
- `board.dfy`, module `App`: the page state (`items`, `page`) as class
  `Board`, with pagination, card pills, the pager window and loading.

The loops of the source are methods with loop invariants, proved against a
specification function: `list_article_urls`, `last_bold_before`,
`extract_official_link_tag`, `extract_pdf_buttons_between`, `merge` and
`syncPager`. The page state of the browser script is an object whose fields
its methods update.

URL resolution (`urljoin` plus `urlparse`) comes from the caller as a
function `Resolver`. So do the page parse, the clock value `captured_at` and
the fetched JSON.

## Model

| member | source | states |
|---|---|---|
| Text.Strip | scripts/scrape_editais.py:51-52 | the stripped text starts and ends with non-whitespace, or is empty |
| Text.StripCuts | scripts/scrape_editais.py:51-52 | the input is some whitespace, then the stripped text, then some whitespace, and the lemma returns those two runs |
| Text.StripIsInfix | scripts/scrape_editais.py:51-52 | `strip` removes only a leading and a trailing whitespace run: the input is those runs around the result |
| Text.Squeeze | scripts/scrape_editais.py:51-52 | every whitespace run becomes a single blank followed by non-whitespace; emptiness and the whitespace-ness of both ends are preserved |
| Text.SqueezeStripped | scripts/scrape_editais.py:51-52 | on a text that starts and ends with non-whitespace, the collapse is the text's words joined by single blanks |
| Text.Norm | scripts/scrape_editais.py:51-52 | `norm` is the `\s+` collapse of the stripped text (a definition; its properties are the lemmas below) |
| Text.WordsStrip | scripts/scrape_editais.py:51-52 | stripping does not change the words of a text (the words of `str.split()`) |
| Text.NormIsJoinOfWords | scripts/scrape_editais.py:51-52 | `norm(s)` is `" ".join(s.split())`: the words of `s`, in order, joined by single blanks |
| Text.NormIsNormal | scripts/scrape_editais.py:51-52 | `norm`'s output has no whitespace but single blanks between words |
| Text.NormKeepsLetters | scripts/scrape_editais.py:51-52 | `norm` keeps every non-whitespace character, in order |
| Text.NormOfNormal | scripts/scrape_editais.py:51-52 | text already in normal form is left unchanged |
| Text.NormIdempotent | scripts/scrape_editais.py:51-52 | applying `norm` twice is the same as once |
| Text.CutAt | scripts/scrape_editais.py:85 | `split(c)[0]` is the longest prefix without `c`, and the next character is `c` |
| Text.LexLessTransitive | scripts/scrape_editais.py:258-260 | the string order used for the date keys is transitive |
| Text.LexLessTotal | scripts/scrape_editais.py:258-260 | any two different keys are ordered one way or the other |
| Seqs.DedupMembers | scripts/scrape_editais.py:81-88 | the `seen`-set loop keeps exactly the values it met |
| Seqs.DedupPrefix | scripts/scrape_editais.py:81-88 | deduplicating a prefix gives a prefix of the deduplicated whole, so first-occurrence order is kept |
| Seqs.PyTake | scripts/scrape_editais.py:90 | `urls[:limit]` is a prefix of length `limit` clipped to the list, counted from the end for a negative limit |
| Seqs.SortDesc | scripts/scrape_editais.py:260 | the sort returns a permutation (same multiset) of its input |
| Seqs.SortDescSorted | scripts/scrape_editais.py:260 | the sorted list is non-increasing by key |
| Seqs.SortDescMembers | scripts/scrape_editais.py:260 | sorting keeps exactly the same elements |
| Seqs.SortDescDistinct | scripts/scrape_editais.py:260 | sorting keeps a unique key unique |
| Dom.FirstWhereIsFirst | scripts/scrape_editais.py:115-122 | a forward scan returns the first matching node after the start, or none when no node matches |
| Dom.LastBeforeIsNearest | scripts/scrape_editais.py:134-144 | a backward scan returns the nearest earlier matching node, or none |
| Dom.FindParent | scripts/scrape_editais.py:130 | `find_parent(names)` is the nearest ancestor with one of the names; none when no ancestor has one |
| Patterns.IsAviso | scripts/scrape_editais.py:48 | `AVISO_RE`: the whole text, case-insensitive, is "aviso" with optional whitespace around it |
| Patterns.IsAvisoMeans | scripts/scrape_editais.py:48 | a text matches `AVISO_RE` iff its stripped, lower-cased form is exactly "aviso" |
| Patterns.AnchorTextMatches | scripts/scrape_editais.py:41-44 | the text, lower-cased, contains "p[aá]gina oficial da " followed by one of the four alternatives |
| Patterns.AnchorTextExample | scripts/scrape_editais.py:41-44 | the pattern matches a phrase in capitals, with accents |
| Patterns.IsPdfHref | scripts/scrape_editais.py:156-158 | `is_pdf_href`: the stripped href is non-empty and `\.pdf(\?|#|$)` is found in it, ignoring case |
| Patterns.IsPdfHrefMeans | scripts/scrape_editais.py:156-158 | a link is a PDF link iff its stripped form is non-empty and has ".pdf" in any case right before "?", "#" or the end |
| Patterns.BuildDisplayTitle | scripts/scrape_editais.py:63-75 | the display title is always whitespace-normal |
| Patterns.NameGroup | scripts/scrape_editais.py:70 | the lazy group `(.+?)` before an optional trailing whitespace-and-year, with no line feed in the group |
| Patterns.ResumoName | scripts/scrape_editais.py:70 | the full match of "Resumo", whitespace, "Edital", whitespace and the name group, case-insensitive, giving group 1 |
| Patterns.DisplayTitleWithYear | scripts/scrape_editais.py:63-75 | "Resumo Edital <name> <year>" gives the name whitespace-collapsed, for any name that starts and ends with non-whitespace and has no line feed, and a 19xx/20xx year |
| Patterns.NameGroupWithYear | scripts/scrape_editais.py:70 | the lazy group stops before a trailing year |
| Patterns.DisplayTitleNoYear | scripts/scrape_editais.py:63-75 | without a trailing year the whole rest, whitespace-collapsed, is the name |
| Patterns.DisplayTitleFallback | scripts/scrape_editais.py:68-75 | a non-matching title falls back to `instituicao_full` when non-empty, else to `nome_fallback`, normalised |
| Patterns.YearExample | scripts/scrape_editais.py:63-75 | "Resumo Edital Unicamp 2026" gives "Unicamp" |
| Patterns.NoYearExample | scripts/scrape_editais.py:63-75 | "Resumo Edital Santa Casa" gives "Santa Casa" |
| Scraper.StripQueryAndFragment | scripts/scrape_editais.py:85 | the result is the longest prefix of the href with neither "?" nor "#" |
| Scraper.ListArticleUrls | scripts/scrape_editais.py:78-90 | the loop returns the first `limit` distinct resolved http(s) targets of "/portal/noticias/" anchors |
| Scraper.ListingUrlsSound | scripts/scrape_editais.py:82-90 | the result is duplicate-free, at most `limit` long, and each URL is the resolved target of a qualifying anchor |
| Scraper.ListingUrlsComplete | scripts/scrape_editais.py:82-90 | every qualifying anchor's URL is among the distinct URLs, and a limit at least their number keeps them all |
| Scraper.ListingUrlsOrder | scripts/scrape_editais.py:82-88 | the URLs found in the first k nodes come first, in the same order |
| Scraper.FindWithAttr | scripts/scrape_editais.py:98-102 | `soup.find(tag, {key: value})` is the first such node in document order, or none |
| Scraper.ExtractPostedAt | scripts/scrape_editais.py:93-106 | no matching meta or time node gives none; otherwise the stripped `content` (else `datetime`) value when non-empty, else none |
| Scraper.FirstHeading | scripts/scrape_editais.py:201 | `soup.find(["h1","h2"])` is the first such node |
| Scraper.PostTitle | scripts/scrape_editais.py:198-203 | the post title (og:title, else the first h1/h2 text, else the URL) is whitespace-normal |
| Scraper.PostTitleFromMeta | scripts/scrape_editais.py:198-200 | when the first og:title meta has non-empty content, the title is that content normalised |
| Scraper.PostTitleFromHeading | scripts/scrape_editais.py:198-203 | when the first og:title meta is missing or has no content, the title is the first h1/h2's text normalised; a later og:title meta is not consulted |
| Scraper.PostTitleLaterMetaExample | scripts/scrape_editais.py:198-203 | a page with an empty og:title, then one reading "X", then an h1 "Head" is titled by the heading |
| Scraper.PostTitleFromUrl | scripts/scrape_editais.py:198-203 | a post with no h1/h2, whose first og:title meta is missing or has no content, is titled by its normalised URL |
| Scraper.TablesIn | scripts/scrape_editais.py:147 | `find_all("table")` lists exactly the table nodes, in document order |
| Scraper.NearestTitleIndexIsNearest | scripts/scrape_editais.py:134-143 | the title candidate is the nearest earlier strong/b/h2/h3/h4 node whose normalised text is non-empty and is not "aviso" |
| Scraper.LastBoldBefore | scripts/scrape_editais.py:133-144 | the backward loop returns that candidate's normalised text, or none |
| Scraper.FirstSectionTitleFromTables | scripts/scrape_editais.py:146-153 | none iff there is no table; otherwise the first and last tables, and the title before the first table, defaulting to "Resumo" |
| Scraper.TablesBounds | scripts/scrape_editais.py:150-151 | the first and last entries are tables, and every table lies between them |
| Scraper.OfficialHost | scripts/scrape_editais.py:120 | the host is non-empty, does not contain the source site's host, and contains none of the social-network hosts |
| Scraper.FirstOfficialIsFirst | scripts/scrape_editais.py:115-122 | the official anchor chosen is the first anchor with matching text and an acceptable host |
| Scraper.ExtractOfficialLinkTag | scripts/scrape_editais.py:109-122 | the loop gives none iff no anchor qualifies; otherwise the first qualifying anchor, with its resolved href |
| Scraper.SocialIsSubstringTest | scripts/scrape_editais.py:120 | the social-host test is a substring test: "box.com" is rejected because it contains "x.com" |
| Scraper.FindDisclaimerBlock | scripts/scrape_editais.py:124-130 | no anchor gives none; a found anchor always yields an ancestor, the nearest block ancestor or else the parent |
| Scraper.IsStop | scripts/scrape_editais.py:172-178 | the scan stops at the block itself or at a node whose parent is the block |
| Scraper.FirstStopIsFirst | scripts/scrape_editais.py:171-180 | the PDF scan stops at the first node that is the block or a direct child of it |
| Scraper.PdfButtonsSound | scripts/scrape_editais.py:171-191 | every collected URL is the resolved href of a "wp-block-button__link" PDF anchor before the stop, and the list has no duplicates |
| Scraper.PdfButtonsComplete | scripts/scrape_editais.py:171-191 | every such anchor before the stop contributes its URL |
| Scraper.ButtonUrlsPrefix | scripts/scrape_editais.py:171-191 | the button URLs of a shorter scan are a prefix of those of a longer one |
| Scraper.PdfButtonsOrder | scripts/scrape_editais.py:171-191 | the PDFs met in the first part of the scan come first in the result, in document order |
| Scraper.ExtractPdfButtonsBetween | scripts/scrape_editais.py:160-191 | a missing table or block gives the empty list; otherwise the loop gives exactly the deduplicated button URLs between the last table and the stop |
| Scraper.ParsePost | scripts/scrape_editais.py:194-241 | rejected for "no tables" iff there is no table; for "no official link" iff tables exist but no anchor qualifies or the chosen anchor's resolved URL is empty; never for "no disclaimer block"; for "no PDF buttons" iff the scan finds none; otherwise the record built from the display title, the PDFs, the official link and posted date or capture time |
| Merge.SortKey | scripts/scrape_editais.py:258-259 | the sort key is `posted_at` when non-empty, else `captured_at` |
| Merge.Eligible | scripts/scrape_editais.py:250-252 | a record is kept iff it is an object entry of the existing list with a non-empty link |
| Merge.WithLink | scripts/scrape_editais.py:254-256 | a new record is put iff it is in the new list and has a non-empty link |
| Merge.Put | scripts/scrape_editais.py:252 | `by_link[link] = x` on an insertion-ordered dictionary: an existing key keeps its slot and takes the new value, a new key goes last |
| Merge.PutFacts | scripts/scrape_editais.py:252 | putting keeps every key in its slot, stores the record, and adds one slot only for a key not yet present |
| Merge.LastWith | scripts/scrape_editais.py:249-256 | the entry a dict keeps for a key is the last one written with that key |
| Merge.ByOfDistinct | scripts/scrape_editais.py:249-256 | the dict holds one record per link |
| Merge.ByOfLatest | scripts/scrape_editais.py:249-256 | each record held is the last one written under its link |
| Merge.ByOfCovers | scripts/scrape_editais.py:249-256 | every link written is present |
| Merge.PutStored | scripts/scrape_editais.py:249-252 | the first loop leaves the dict of the stored objects that carry a link |
| Merge.PutNews | scripts/scrape_editais.py:254-256 | the second loop puts every new record with a link into that dict, after the stored ones |
| Merge.MergeRecords | scripts/scrape_editais.py:244-260 | the result is the dict of the stored then the new records, sorted by date descending |
| Merge.MergeDistinctSorted | scripts/scrape_editais.py:244-260 | the merged list has one record per official link and is sorted newest first |
| Merge.MergeLatest | scripts/scrape_editais.py:244-260 | each merged record is the last record written under its link |
| Merge.MergeKeepsLinks | scripts/scrape_editais.py:244-260 | every link written appears in the merged list |
| Merge.NewWins | scripts/scrape_editais.py:254-256 | a new record overrides an existing record with the same link |
| Html.ReplaceAll | assets/app.js:17-21 | `replaceAll` with a string pattern, matching left to right without overlaps |
| Html.EscapeHtml | assets/app.js:14-22 | the five `replaceAll` calls in the source's order, "&" first |
| Html.EscapeIsEnc | assets/app.js:14-22 | the five replacements, "&" first, write each special character as its entity and leave other characters alone |
| Html.EscapeHtmlIsClean | assets/app.js:14-22 | the escaped text contains no "<", ">", '"' or "'" |
| Html.EscapeRoundTrip | assets/app.js:14-22 | decoding the entities, "&amp;" last, gives back the input |
| App.JsSlice | assets/app.js:51 | `Array.prototype.slice` on non-negative bounds is the clipped sub-sequence |
| App.CardOf | assets/app.js:60-100 | the pill reads "N PDF" or "N PDFs"; the extra pill "+N-1 anexos" appears iff there are several PDFs, as does the second link; the title is escaped |
| App.SinglePdfCard | assets/app.js:66-70 | a single PDF gives "1 PDF" and no extra pill |
| App.Kept | assets/app.js:137-145 | every kept item has an institution, an official link and at least one PDF |
| App.KeptMembers | assets/app.js:137-145 | an item is kept iff it is the normalised form of an object entry that passes the filter |
| App.LoadItems | assets/app.js:137-146 | the loaded list: the kept items sorted by `posted_at` descending |
| App.LoadItemsSound | assets/app.js:137-146 | the loaded list is a permutation of the kept items, sorted by date descending |
| App.Board.constructor | assets/app.js:11-12 | the page starts empty, on page 1 |
| App.Board.TotalPages | assets/app.js:34-36 | at least one page; exactly as many as ten-item pages need to hold every item |
| App.Board.ClampPage | assets/app.js:38-41 | the result is a valid page; a valid page is kept; too small gives 1; too large gives the last page |
| App.Board.PageItems | assets/app.js:49-52 | page p shows items (p-1)*10 up to p*10, clipped |
| App.Board.SlicePage | assets/app.js:49-52 | the current page shows at most ten items, the current window of the list |
| App.Board.AllPages | assets/app.js:49-52 | the pages together, in order, are the whole list |
| App.ThirtyItems | assets/app.js:34-52 | thirty items make three pages, the last holding items 20 to 29 |
| App.Board.Render | assets/app.js:54-102 | the label reads "N editais • página P de T" and there is one card per shown item, built by `CardOf` |
| App.Board.SyncPager | assets/app.js:104-127 | prev is disabled iff on page 1, next iff on the last page; the dots are a run of at most seven consecutive pages, only the current one active, and they contain the current page, with min(7, T) of them |
| App.Board.SetPage | assets/app.js:43-47 | sets the page to the clamped value, leaves the items alone, and re-renders |
| App.Board.Prev | assets/app.js:165 | one page back, stopping at 1 |
| App.Board.Next | assets/app.js:166 | one page forward, stopping at the last page |
| App.Board.Load | assets/app.js:129-163 | a failed fetch keeps the state and shows the failure label; otherwise the items become the loaded list, the page becomes 1, prev is disabled, and next is disabled iff everything fits on one page |

## Left out

- Network access is not modelled: `soup_of`, `requests`, `fetch`, the
  response status and `time.sleep`. A page arrives already parsed as a node
  list, and a JSON body arrives as a list of entries, or none when the fetch
  or the parse failed.
- `main`, `write_outputs`, the `print` logging and `console.error` are not
  modelled, being output only. `slugify` and the md5 hash are not modelled;
  no core function calls them.
- BeautifulSoup's parsing is not modelled. Its tree is taken as a
  pre-order list of nodes, each holding its tag, classes, attributes, parent
  and `get_text(" ")` text. `find_all_previous` and `next_elements` are index
  ranges of that list. Text nodes count as nodes, but they never carry the
  `a` tag, so they never match.
- `urljoin` and `urlparse` are a caller-supplied function; the model does not
  describe how URLs resolve.
- Character classes are limited. `\s` and `str.strip`/`str.split` use
  Python's whitespace set, including U+00A0 (the no-break space that
  `get_text` produces for `&nbsp;`), U+0085, U+1680, U+2000 to U+200A,
  U+2028, U+2029, U+202F, U+205F and U+3000. `\d` is modelled as the ASCII
  digits only, so a non-ASCII digit never counts as part of a year. The
  `re.I` case folding covers ASCII and Latin-1 upper-case letters; other
  Unicode case mappings are not modelled.
- `localeCompare` and Python's string `<` are both modelled as code-point
  order. Locale collation is not modelled.
- `datetime.now` is not modelled: `captured_at` is a parameter of
  `Scraper.ParsePost`.
- The HTML markup of a card and the icon SVG are not modelled: `App.CardOf`
  builds the card's data (escaped title, links, pills). The `innerHTML`
  writes, the element lookups and the dot click handlers are not modelled.
  Each dot's click would call the modelled `App.Board.SetPage`.
- Dynamic JSON values are simplified. The model has only objects with
  string fields or absent fields, or non-objects. Truthiness of other value
  types, and `escapeHtml`'s `?? ""` and `toString` on non-strings, are not
  modelled.
- The card links are not escaped. The source inserts them into `href`
  unescaped, and the model builds them the same way.
- Exceptions are not modelled. The `try`/`except` around the parent lookup
  in the PDF scan cannot fire on a well-formed node list. The
  `JSON is not a list` error is part of the failed-load case.
- Comment versus code: the comment in `load` says the list is sorted by
  name, but the code sorts by `posted_at` descending. The model follows the
  code.
- The "no disclaimer block" rejection cannot occur: a found anchor always
  has a parent. `Scraper.ParsePost` keeps the gate and proves it never fires.
- Seqs.SortDesc: stability is built into its definition, as an insertion
  after equal keys. No separate lemma states stability.
