# KhutbahScraper core, modelled in Dafny

KhutbahScraper is a polling script. It reads a listing page of Friday sermons (khutbahs) and
follows each link to a detail page. From each page it builds a record: title, speaker, date,
body text and an empty mosque field. If no document with that title is stored yet, it
translates the title and body from Arabic into ten languages and writes one document.

This project models the pure rules inside that script. Python's whitespace stripping, splitting
and joining are written out exactly. The HTML parser, the translation service, `html.unescape`,
the uuid generator and the store are parameters or plain values:

- `wrappers.dfy` (`Wrappers`): `Option`, for Python's `None`.
- `strings.dfy` (`Strings`): `str.isspace`/`str.strip()` emptiness, plus `str.split` and
  `str.join` on one separator character. Split and join are proved to be inverses.
- `translate.dfy` (`Translate`): `translate_text`. The output and the sequence of service calls
  are both computed; the lemmas prove the line-by-line shape of the output.
- `dates.dfy` (`Dates`): the `\d{4}-\d{2}-\d{2}` search, taking the leftmost match or falling
  back to the sentinel `1970-01-01`. `\d` matches Unicode decimal digits (category Nd, Unicode
  15.0), not only ASCII.
- `detail.dfy` (`Detail`): `scrape_khutbah`, which builds the record and returns none when any
  of the four page elements is missing.
- `listing.dfy` (`Listing`): `scrape_khutbahs`, which keeps the non-empty `href`s in document
  order.
- `persist.dfy` (`Persist`): `TARGET_LANGUAGES` and the document written by
  `save_khutbah_to_firestore`.
- `poll.dfy` (`Poll`): one pass of the main loop. The store is a sequence of documents, and
  `khutbah_exists` holds when some stored document has the title.

Two behaviours of the code are worth stating plainly:

- `scrape_khutbah` does not check that title, speaker and text are non-empty. A found element
  with empty text still gives a record, and `Detail.Assemble` allows empty fields.
- `translate_text` turns every whitespace-only line (`"  "`, `"\r"`) into `""` instead of
  keeping it. `Translate.TranslateLine` does the same.

## Model

| member | source | states |
|---|---|---|
| Strings.IsSpace | scraper.py:40 | exactly Python's `str.isspace` set, the characters `str.strip()` removes |
| Strings.IsBlank | scraper.py:45 | `not s.strip()`: the string is empty or consists of `str.isspace` characters only |
| Strings.Split | scraper.py:42 | Python's `s.split(sep)`: `""` gives `[""]`, there is always at least one part, and no part contains the separator |
| Strings.Join | scraper.py:50 | Python's `sep.join(parts)`: `[]` gives `""`, one part gives itself, and the separator is placed only between parts |
| Strings.JoinSplit | scraper.py:42-50 | joining the parts of `text.split("\n")` with `"\n"` gives `text` back |
| Strings.SplitJoin | scraper.py:42-50 | splitting a `"\n"`-join of newline-free parts gives exactly those parts back |
| Strings.SplitCount | scraper.py:42 | `text.split("\n")` has one more part than `text` has newlines |
| Translate.TranslateLine | scraper.py:45-49 | the rule for one line: a whitespace-only line becomes `""`, and any other line becomes the service's answer for it |
| Translate.TranslateLines | scraper.py:43-49 | one output line per input line; line i is `""` if input line i is blank and otherwise the service's answer for it; the service calls are exactly the non-blank lines, in order |
| Translate.TranslateText | scraper.py:38-50 | whitespace-only text gives `""` with no service call; otherwise the calls are the non-blank lines of `text.split("\n")` in order, and no call is made on a blank line |
| Translate.LinesPreserved | scraper.py:42-50 | for non-blank text, the output splits into as many lines as the input; output line i is `""` for a blank input line and the translation of input line i otherwise |
| Translate.BlankLinesKept | scraper.py:44-49 | if the service never answers `""`, output line i is `""` exactly when input line i is whitespace-only |
| Translate.SingleLine | scraper.py:42-50 | a single non-blank line is sent to the service once, and the answer is the whole result |
| Dates.FindDate | scraper.py:74 | the scan returns a match position with no match between its start and that position, or reports that no match exists from its start on |
| Dates.ExtractDate | scraper.py:74-75 | the result always has the shape DDDD-DD-DD; with no match it is `1970-01-01`; otherwise it is the ten characters at the leftmost match |
| Dates.ExtractAtLeftmost | scraper.py:74-75 | when position k is the leftmost match, the extracted date is exactly the characters k..k+9 of the date text |
| Dates.DateInSentence | scraper.py:74-75 | the date text "Sermon delivered 2024-03-15 at Masjid X" yields `2024-03-15` |
| Dates.NoDateGivesEpoch | scraper.py:74-75 | every date text with no DDDD-DD-DD substring yields `1970-01-01` |
| Dates.ArabicIndicDigit | scraper.py:74 | the Arabic-Indic digits U+0660..U+0669 are matched by `\d` |
| Dates.ArabicIndicDate | scraper.py:74-75 | a date written in Arabic-Indic digits, `٢٠٢٤-٠٣-١٥`, is extracted unchanged |
| Dates.IsDigit | scraper.py:74 | `\d` on a `str` pattern: the ASCII digits or any other Unicode 15.0 Nd (decimal digit) character |
| Dates.DateAt | scraper.py:74 | the pattern `\d{4}-\d{2}-\d{2}` matches the ten characters starting at a position: four digits, an ASCII hyphen, two digits, a hyphen, two digits |
| Detail.Assemble | scraper.py:68-84 | no record exactly when one of title, speaker, date or body is missing; otherwise title, speaker and text are the elements' texts, mosque is `""`, and the date has the DDDD-DD-DD shape |
| Detail.AssembledDate | scraper.py:73-81 | the record's date is the date step's result on the date element's text, and is the sentinel when that text has no date |
| Detail.ScrapeKhutbah | scraper.py:53-84 | a failed fetch gives no record; a fetched page gives no record exactly when an element is missing; every record has an empty mosque and a well-shaped date |
| Listing.HasLink | scraper.py:98 | `a.get("href")` is truthy: the attribute is present and not the empty string |
| Listing.Links | scraper.py:98 | there are at most as many links as anchors, and none is empty |
| Listing.LinksAreSubsequence | scraper.py:97-98 | the links are the hrefs of the anchors at strictly increasing positions; every anchor with a non-empty href is among them, and no other anchor is |
| Listing.LinkCount | scraper.py:98 | the number of links equals the number of anchors whose href is present and non-empty |
| Listing.ScrapeKhutbahs | scraper.py:87-98 | a failed fetch gives no links; otherwise there are at most as many links as selected anchors, all non-empty |
| Persist.Fields | scraper.py:114-117 | one `translations` entry: the title and the text, each passed through `translate_text` for the code and then unescaped |
| Persist.BuildTranslations | scraper.py:112-118 | the map has one key per language code in the table, and each key holds that language's unescaped title and text translations |
| Persist.TargetCodes | scraper.py:22-33 | the configured codes are exactly en, id, ur, bn, tr, fa, ha, ps, ms, fr, one per configured language |
| Persist.SaveKhutbah | scraper.py:109-129 | the document carries the given id; its title, text, speaker, date and mosque are copied unchanged; `translations` has exactly the ten codes, each holding that code's unescaped translations |
| Persist.BlankFieldsNeedNoService | scraper.py:40-41 | a whitespace-only body is stored as `unescape("")` for every language, and translating it makes no service call |
| Poll.Exists | scraper.py:101-106 | `khutbah_exists`: at least one stored document has exactly this title |
| Poll.Step | scraper.py:146-155 | an absent parse is skipped; a parse whose title exists is skipped; only a parse with a new title is saved, the store then growing by that one document with the parse's title; a skip leaves the store unchanged |
| Poll.Batch | scraper.py:145-155 | one decision per listed item; the final store is the first store followed by the documents written, in order |
| Poll.BatchFollowsPolicy | scraper.py:145-155 | item i is skipped when its parse is absent; it is skipped when its title is in the store as left by items before i; otherwise it is written as the document the save step builds |
| Poll.NoDuplicateWrites | scraper.py:101-106 | a batch never writes a title the store already held, and never writes two documents with the same title |
| Poll.ParsedTitlesStored | scraper.py:145-155 | after a batch, the store holds a document for the title of every item that parsed |
| Poll.StoredBatchWritesNothing | scraper.py:151-153 | a batch whose every parsed title is already stored writes nothing and skips every item |
| Poll.RerunWritesNothing | scraper.py:145-155 | running the same batch again on the store the first run produced leaves that store unchanged |
| Poll.Parses | scraper.py:145-146 | one parse per listed URL, in listing order; each is `scrape_khutbah` of that URL's fetched page |
| Poll.Cycle | scraper.py:136-158 | a failed or empty listing changes nothing and processes no item; otherwise every listed item gets a decision, and the documents written are appended to the store |
| Poll.TwoLinkScenario | scraper.py:145-155 | two links, where the first page is complete and the second lacks a body, against an empty store: exactly one document is written, for the first link, and the second link is recorded as not parsed |

## Left out

- HTTP fetching, headers, the 10-second timeout and `raise_for_status` (scraper.py:55-60, 89-94) are network I/O. A fetch is given as an `Option<string>`, or as a function from URL to `Option<string>`.
- BeautifulSoup parsing, `find`, `select` and `get_text` (scraper.py:62-76, 96-97) belong to an external library. The located elements' texts and the selected anchors are parameters (`Detail.Locator`, `Listing.Selector`).
- The translation service (scraper.py:20, 48) is an external service, modelled as an arbitrary function `(line, target) -> line`. Service failures that would abort the whole process are not modelled.
- `html.unescape` (scraper.py:115-116) is a library function, taken as an arbitrary parameter.
- Firestore queries and writes (scraper.py:17-18, 101-106, 129) are modelled as a sequence of documents. The race between the existence check and the write cannot happen in a sequential model, so it is not represented.
- `uuid.uuid4()` (scraper.py:111) is randomness. The id is a parameter: `Poll.IdSource` gives one per listing position. The uuid4 ids are taken to be distinct. Writing with `set()` to an id that already exists would overwrite that document, but `Poll.Step` always appends one.
- The endless `while True` loop, `time.sleep(10)` and all `print` output (scraper.py:136-158) are timing and console output. One pass of the loop is modelled (`Poll.Cycle`); repeating it is the caller's business.
- The translator calls made across languages by the save step are not collected into one trace. Each `translate_text` result carries its own calls.
- Translate.LinesPreserved: assumes the service's answer for a non-blank line contains no `"\n"`. If the answer did contain one, `"\n".join` would produce more lines than the input, and the code does not guard against that.
- Translate.BlankLinesKept: also assumes the service never answers `""` for a non-blank line. Without that, only the "blank input line gives `""`" direction holds, and `Translate.LinesPreserved` states it.
