# PDF highlight extractor — a Dafny model

`HighlightExtractorThread` is a Qt worker thread. It opens a PDF and walks its pages in order. For every highlight annotation (type code 8) it reads the text under the annotation's rectangle and cleans it. It also categorises the annotation's stroke colour by the nearest of five palette colours and reads the popup comment. Each highlight whose cleaned text is not empty becomes a record `{page, text, category, comment}`. The thread emits `progress(current, total)` once per page. At the end it emits either `finished(records)` or, if anything raised, `error(str(e))`.

The model has four modules: one for each of the three parts of the source, plus `Wrappers`:

- `Text` (`text.dfy`) covers the cleaning chain. It applies `str.strip`, then the UTF-8 round trip with `"ignore"`, then `replace("\n", " ")`, then `replace("ï¿½", " ")`. Text is a sequence of code points, because a Python `str` can hold lone surrogates and those are exactly what the round trip drops.
- `Palette` (`palette.dfy`) models `categorize_highlight`. It is Python's `min` over the palette in dictionary order: the first entry wins a tie. A colour is a list of reals of any length. A list longer than three raises `IndexError: tuple index out of range`. A shorter list is compared on the channels it has.
- `Extractor` (`extractor.dfy`) models `run`. Run is a method with the source's loops: the outer loop over the pages, and the inner loop over one page's annotations in `ScanAnnotations`. It is proved to produce exactly the event log `Events(doc)`. The lemmas then describe that log: its shape, the records, the error cases and the worked example.
- `Wrappers` (`wrappers.dfy`) holds `Option` and `Result`.

The PDF library is abstracted. A `Document` is either the list of its pages or `OpenFailed(reason)`. A `Page` is either its annotations or `PageFailed(reason)`, for a page the library cannot load. An annotation carries:

- its type code;
- the text `get_text` returns for its rectangle;
- its stroke colour, or none when the colour dictionary has no `"stroke"` key;
- whether it has a popup;
- the popup content, empty when the info dictionary has no `"content"` key.

Two details of the code matter here; the model follows the code:

- The colour is categorised before the emptiness test of the text (lines 54 and 60). So a highlight with an unusable colour aborts the run even when its text is empty (`Extractor.OverlongStrokeFails`).
- The colour is whatever list the library returns, not necessarily three channels.

## Model

| member | source | states |
|---|---|---|
| Text.Strip | PDF_highlight_extractor.py:47 | definition: `str.strip`, the leading then the trailing whitespace removed (its meaning is stated by StripSpec) |
| Text.TrimStart | PDF_highlight_extractor.py:47 | the leading-whitespace half of `strip`: the result is a suffix of the input, does not start with whitespace, and only whitespace was removed |
| Text.TrimEnd | PDF_highlight_extractor.py:47 | the trailing half: the result is a prefix, does not end with whitespace, and only whitespace was removed |
| Text.StripSpec | PDF_highlight_extractor.py:47 | `strip` returns a contiguous slice of its input; everything before and after it is whitespace, and the slice is empty or has non-whitespace at both ends |
| Text.DropSurrogates | PDF_highlight_extractor.py:48 | the UTF-8 round trip with "ignore" is no longer than its input, holds no surrogate, contains a code point exactly when the input holds it and it is not a surrogate, and is the identity on surrogate-free text |
| Text.DropSurrogatesAppend | PDF_highlight_extractor.py:48 | the round trip of a concatenation is the concatenation of the round trips, so it keeps order and multiplicity |
| Text.DropSurrogatesOne | PDF_highlight_extractor.py:48 | a single code point is dropped exactly when it is a surrogate; with DropSurrogatesAppend this fixes the round trip as the order-keeping filter |
| Text.Replace | PDF_highlight_extractor.py:48-50 | definition: `str.replace`, scanning left to right and replacing each non-overlapping occurrence |
| Text.Count | PDF_highlight_extractor.py:48-50 | definition: the number of occurrences `str.replace` replaces, counted by the same left-to-right scan |
| Text.ReplaceLength | PDF_highlight_extractor.py:48-50 | each replaced occurrence changes the length by `len(rep) - len(pat)` |
| Text.ReplaceOnePointwise | PDF_highlight_extractor.py:48-49 | replacing one code point by another keeps the length and maps every position independently |
| Text.ReplaceKeepsAbsent | PDF_highlight_extractor.py:48-50 | a code point in neither the text nor the replacement does not appear after replacement |
| Text.ReplaceRemovesAll | PDF_highlight_extractor.py:49-50 | after `replace` with a non-empty replacement that shares no code point with the pattern, the pattern no longer occurs |
| Text.ReplaceAbsent | PDF_highlight_extractor.py:48-50 | text not containing the pattern's first code point is left unchanged |
| Text.ReplaceNotOccurring | PDF_highlight_extractor.py:48-50 | text in which the pattern does not occur is left unchanged, even when it holds the pattern's first code point (as "naïve" holds "ï") |
| Text.ReplaceNonEmpty | PDF_highlight_extractor.py:48-50 | replacing with a non-empty string leaves empty text empty and non-empty text non-empty |
| Text.NewlinesReplaced | PDF_highlight_extractor.py:47-49 | definition: the first three steps of the chain: strip, the UTF-8 round trip, newlines to spaces |
| Text.Clean | PDF_highlight_extractor.py:47-50 | definition: the whole chain, the fourth step turning each "ï¿½" into a space |
| Text.CleanOutput | PDF_highlight_extractor.py:47-50 | cleaned text contains no newline and no occurrence of "ï¿½" |
| Text.CleanLength | PDF_highlight_extractor.py:47-50 | the newline step keeps the length of the stripped surrogate-free text; each "ï¿½" replaced shortens it by two |
| Text.CleanEmpty | PDF_highlight_extractor.py:47-50 | the cleaned text is empty exactly when the stripped text consists only of surrogates |
| Text.CleanExample | PDF_highlight_extractor.py:47-50 | "line one\nline two  " cleans to "line one line two": ends trimmed, newline turned into a space |
| Text.CleanTrailingMojibake | PDF_highlight_extractor.py:47-50 | "noteï¿½" cleans to "note ": strip runs first, so the replacement leaves a trailing space |
| Text.CleanPlain | PDF_highlight_extractor.py:47-50 | printable ASCII without a leading or trailing space is left unchanged by cleaning |
| Palette.SqDist | PDF_highlight_extractor.py:30 | the sum of squared channel differences over the colour's channels is non-negative, and zero exactly when the colour matches the reference on those channels |
| Palette.FirstMinAmong | PDF_highlight_extractor.py:30 | `min` over keys returns an index whose key is no larger than any other and strictly smaller than every earlier one |
| Palette.FirstMinIsUnique | PDF_highlight_extractor.py:30 | at most one index satisfies both conditions |
| Palette.BestIndex | PDF_highlight_extractor.py:30 | the palette entry selected is the nearest one, the first in dictionary order among equally near ones |
| Palette.NearestIsUnique | PDF_highlight_extractor.py:30 | the nearest entry, ties broken by order, is unique |
| Palette.SqrtPreservesOrder | PDF_highlight_extractor.py:30 | two non-negative reals compare and tie as their squares do; RootsPickSameMin applies this to every key of the scan |
| Palette.RootsPickSameMin | PDF_highlight_extractor.py:30 | keys that are non-negative square roots of the squared distances have the same first minimum as the squared distances |
| Palette.RootsPickNearest | PDF_highlight_extractor.py:30 | over a palette, the first minimum of the `** 0.5` distances is exactly the nearest entry, first among ties |
| Palette.ClassifyByRoots | PDF_highlight_extractor.py:27-32 | the label Classify returns is the one `min` picks with the Euclidean distances themselves as keys |
| Palette.TableShape | PDF_highlight_extractor.py:18-24 | the palette has five entries, each a three-channel reference |
| Palette.ReferencesDistinct | PDF_highlight_extractor.py:18-24 | no two palette entries share a reference colour |
| Palette.Classify | PDF_highlight_extractor.py:15-32 | a colour with more than three channels raises IndexError "tuple index out of range"; otherwise the result is the label of the nearest entry |
| Palette.ClassifyRange | PDF_highlight_extractor.py:18-32 | every colour of at most three channels gets one of the five labels |
| Palette.ClassifyPaletteColour | PDF_highlight_extractor.py:18-32 | each palette colour is categorised as its own label |
| Palette.ClassifyIsNearest | PDF_highlight_extractor.py:30-32 | the label returned is that of any entry that is nearest and first among ties |
| Palette.SqDistThree | PDF_highlight_extractor.py:30 | over three channels the distance key is the three-term sum of squares |
| Palette.BlackNearestIsRed | PDF_highlight_extractor.py:18-30 | black is strictly nearer to the red entry than to any other palette entry, so red is the nearest |
| Palette.ClassifyBlack | PDF_highlight_extractor.py:53-54 | the default colour [0, 0, 0] is categorised "Critical Issues / Warnings" |
| Palette.ClassifyEmpty | PDF_highlight_extractor.py:27-32 | an empty colour list is at distance zero from every entry, so the first label, "Ideas & Insights", is returned |
| Extractor.StrokeOf | PDF_highlight_extractor.py:53 | definition: the stroke colour, or black [0, 0, 0] when the colour dictionary has no "stroke" key |
| Extractor.CommentOf | PDF_highlight_extractor.py:57 | definition: the stripped popup content when the annotation has a popup, otherwise empty |
| Extractor.Process | PDF_highlight_extractor.py:45-66 | definition: one iteration of the inner loop: skip non-highlights, clean the text, categorise the colour (which may raise), keep the record (RecordOf, with its comment) when the text is non-empty |
| Extractor.ScanPage | PDF_highlight_extractor.py:44-66 | definition: the inner loop as a function: the first error stops the page, otherwise the kept records in annotation order |
| Extractor.PageResult | PDF_highlight_extractor.py:42-66 | definition: a page that fails to load raises its reason; a loaded page is scanned |
| Extractor.Trace | PDF_highlight_extractor.py:40-71 | definition: the outer loop from page k on: progress for each page, then finished with the collected records, or the first page's error |
| Extractor.Events | PDF_highlight_extractor.py:36-71 | definition: the whole event log: an open failure gives one error, otherwise the outer loop from the first page |
| Extractor.PageRecords | PDF_highlight_extractor.py:44-66 | definition: the records of a page none of whose highlights raises: one per kept highlight, in order |
| Extractor.DocRecords | PDF_highlight_extractor.py:40-66 | definition: the records of pages k onwards, page after page |
| Extractor.ScanAnnotations | PDF_highlight_extractor.py:44-66 | the inner loop returns the page's records in annotation order, or the error of the first highlight that raises, exactly as ScanPage specifies |
| Extractor.Run | PDF_highlight_extractor.py:34-71 | the whole run emits exactly the log Events(doc): progress per page, then finished with the records or error with the message |
| Extractor.ProcessOutcome | PDF_highlight_extractor.py:45-66 | an annotation raises IndexError exactly when it is a highlight whose colour has more than three channels, whatever its text; otherwise it yields its record exactly when it is a highlight with non-empty cleaned text |
| Extractor.RecordOfSpec | PDF_highlight_extractor.py:53-66 | a record holds its page number and the cleaned, non-empty text, free of newline and mojibake; its label is among the five and is the categorisation of the stroke colour (black when missing); its comment is the stripped popup content, or empty without a popup |
| Extractor.ScanPageSpec | PDF_highlight_extractor.py:44-66 | a page's loop raises exactly when one of its highlights has a colour of more than three channels; otherwise it yields exactly the kept highlights' records in order |
| Extractor.PageRecordsFacts | PDF_highlight_extractor.py:60-66 | every record from a page carries that page's number and is well formed |
| Extractor.PageRecordsEmpty | PDF_highlight_extractor.py:44-66 | on a page on which nothing raises, the page yields no record exactly when none of its annotations is a highlight with non-empty cleaned text; never more records than annotations |
| Extractor.PageResultSpec | PDF_highlight_extractor.py:42-66 | a page raises exactly when it fails to load or one of its highlights cannot be categorised, with that failure's message; otherwise it yields its records |
| Extractor.TraceSucceeds | PDF_highlight_extractor.py:40-69 | when no page from k on raises, the loop reports each of those pages and then finishes with all records collected |
| Extractor.TraceFails | PDF_highlight_extractor.py:40-71 | when page b is the first to raise, the loop reports pages up to b and then emits the exception's message |
| Extractor.CollectedDocRecords | PDF_highlight_extractor.py:40-66 | on a run in which no page raises, the records collected page after page are the pages' kept highlights in document order |
| Extractor.EventsSucceed | PDF_highlight_extractor.py:36-69 | a run that raises nothing emits progress(1, N) … progress(N, N) and then finished with the records of every page in order |
| Extractor.EventsFail | PDF_highlight_extractor.py:36-71 | a run whose first raising page is b emits progress(1, N) … progress(b+1, N) and then error with that page's message, and no records |
| Extractor.EventsShape | PDF_highlight_extractor.py:36-71 | every log is progress(1, N), progress(2, N), … with a constant total, then exactly one terminal event; it is finished exactly when nothing raised, and then follows all N progress events |
| Extractor.DocRecordsFacts | PDF_highlight_extractor.py:40-66 | every record's page number is in 1..N and each record is well formed |
| Extractor.DocRecordsOrdered | PDF_highlight_extractor.py:40-66 | records come in non-decreasing page order |
| Extractor.FinishedRecords | PDF_highlight_extractor.py:61-69 | the delivered records have page numbers in 1..N, in non-decreasing order, and are all well formed |
| Extractor.NoHighlights | PDF_highlight_extractor.py:36-69 | a document that opens, in which nothing raises and no highlight has visible text, finishes with the empty list after all progress events |
| Extractor.NoPages | PDF_highlight_extractor.py:38-69 | a document with zero pages emits no progress and finishes with the empty list |
| Extractor.OpenFailure | PDF_highlight_extractor.py:37-71 | a document that cannot be opened emits one error with the reason, and no progress |
| Extractor.MissingStrokeIsCritical | PDF_highlight_extractor.py:53-54 | a highlight whose colour dictionary has no "stroke" key is filed under "Critical Issues / Warnings" |
| Extractor.OverlongStrokeFails | PDF_highlight_extractor.py:53-54 | a highlight whose colour has more than three channels stops the run with "tuple index out of range", even when its text is empty |
| Extractor.TwoPageExample | PDF_highlight_extractor.py:36-69 | a two-page document with one yellow "Remember this" highlight without popup on page 1 gives progress 1/2, 2/2, then one record on page 1 labelled "General Notes" with an empty comment |

## Left out

- PyMuPDF itself is not modelled. `fitz.open`, `page_count`, page loading, `annots()`, `get_text(..., clip=annot.rect, sort=True)`, `annot.colors` and `annot.info` are abstracted as the fields of `Document`, `Page` and `Annot`. How the library orders or extracts text is not part of this model.
- The library's failures enter only as `OpenFailed(reason)` and `PageFailed(reason)`. An exception raised later, inside `annots()` or `get_text` for one annotation, is not modelled.
- The Qt thread, its signals and the event loop are not modelled. The signals appear as an ordered log of `Progress`, `Finished` and `Failed` events, in the order the thread emits them. Concurrency with the GUI thread is out of scope.
- NumPy and IEEE floating point are not modelled. Channels are exact reals and the square root is not taken: `Palette.RootsPickNearest` and `Palette.ClassifyByRoots` show that comparing squared distances picks the same entry as comparing the distances. Rounding that could make two float distances tie differently is not modelled.
- `pdf_document.close()` has no observable effect in this model. That the document is left open on the failure path is not represented.
- Whitespace for `strip` is the set of code points CPython's `str.isspace` accepts. UTF-8 encoding and decoding are modelled only by their net effect: lone surrogates are dropped and every other code point is kept.
- A colour entry that is not a number (for example a string in the list) would make Python raise a `TypeError`. Colours are lists of reals here, so that path is not modelled.
- Running the extraction twice on the same document gives the same result because `Extractor.Run` is proved equal to `Events(doc)`, a function of the document alone. No separate lemma states it.
