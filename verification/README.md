# frapper, modelled in Dafny

frapper reads screenshots of a language-learning app. Each screenshot holds a
column of white cards. Each card pairs a Polish sentence (the *target*) with its
translation (the *translate* half). Words of the target are marked as tags by a
pale-yellow highlight. The pipeline works in four steps:

1. It cuts the screenshot into cards (`split_image`).
2. It splits each card at the white band between its two sentences
   (`find_split_index`, `split_row_image`).
3. It reads both halves with OCR and records which words are highlighted
   (`_is_tag`, `_parse_tag_text`), as a tag string and a `'0'`/`'1'` mask.
4. It reports the record (`parse`, `get_metainfo`, `success`).

A Telegram bot then shows a stored phrase back as HTML, with the tagged words
underlined (`_rebuild_string`, `_prepare_html`). It also checks the arguments
of its commands (`_c_validator` … `_t_validator`).

The repository has two copies of the pipeline:

- frapper/tools.py is the current copy.
- frapper/parser.py is the older copy.

One model covers both, selected by `Variant` (`Current` / `Legacy`). The copies
differ in four ways:

- The current copy turns line breaks into spaces in the OCR text and in the tag text.
- The threshold list is stored under `'threshold'` in the current copy and `'treshold'` in the legacy copy.
- Only the current copy stores a block's `size`.
- Only the current copy filters the metadata that `parse()` reports through `get_metainfo`.

## Modules

| file | module | what it holds |
|---|---|---|
| base.dfy | `Base` | `Option`, `Result` with the Python exceptions the code raises, `Variant`, the configuration constants |
| grids.dfy | `Grids` | images as rows of pixels; Pillow's `crop` with its `ValueError` and black padding |
| binarizer.dfy | `Classifier`, `Binarizer` | `in_a_range` (the highlight colour), `to_gray` (luminance then threshold 150) |
| separator.dfy | `Separator` | `find_split_index`: maximal runs of white rows, the choice of the split row |
| text.dfy | `Text` | the Python `str` operations used: `split()`, `split(maxsplit=1)`, `split(c)`, `split(c, 1)`, `join`, `rstrip`, `replace`, `lower`, `isdigit`, `str(int)` |
| tags.dfy | `Tags` | `_is_tag` and `_parse_tag_text` |
| phrase.dfy | `Phrase` | `FrapperImage`: construction, `perform`, `parse`, `get_metainfo`, `success`, the state machine |
| blocks.dfy | `Blocks` | `split_image` |
| bot.dfy | `Bot` | `_rebuild_string`, `_prepare_html` and the command validators |

Some things happen outside the program:

- Pillow's `convert('L')` weights.
- Tesseract's text and word boxes.

These are fields of `Env`. They are functions that the model takes as given and
does not define.

A Python exception is an `Err` of the matching `PyError`:

- `IndexError` comes from `query_split[-1]` on an empty query.
- `KeyError` comes from a metadata dict without a threshold list.
- `ValueError` comes from `int(flag)` on a non-digit, or from a crop box turned inside out.
- `AttributeError` comes from `.append` on a value that is not a list, or from `10.isdigit()`.

A record is an immutable value. Every method that mutates a record returns the
new record instead.

`split_image` scans pixel column 7. It uses the scan's 1-based indices
`(y1, y2)` directly as 0-based crop rows. The model keeps this as written, so
each block is shifted one row down against its white stretch. `Blocks.BlockCropRows`
states the consequences:

- The first white row is left above the crop.
- The last crop row is the non-white pixel that ended the stretch, unless the stretch reaches the bottom.

Both `find_split_index` and `split_image` record the end of a stretch that
reaches the bottom as the last row index. In `find_split_index` that index is
appended a second time. The model keeps this duplicate too.
`Separator.FindSplitIndexFromBands` shows that it never changes the split,
because the last run is never a candidate.

## Model

| member | source | states |
|---|---|---|
| `Grids.Crop` | frapper/tools.py:148-149 | Pillow's crop succeeds exactly when right >= left and lower >= upper (else `ValueError`); the result has the box's size and each pixel is the source pixel at the offset position, black outside the image |
| `Grids.CropRowsIsSlice` | frapper/tools.py:148-149 | a full-width crop between two rows inside the image is exactly that slice of rows, so the two halves of a record are the rows above and below the split |
| `Classifier.InARangeBounds` | frapper/tools.py:354-356 | the highlight test holds iff 245 <= r < 255, 245 <= g < 255 and 212 <= b < 228: `range` excludes its upper bound, so pure white (255) is never a highlight |
| `Classifier.InARangeSamples` | frapper/tools.py:37-39 | sample colours: (250, 250, 220) is a highlight; (255, 255, 220) and anything with red 244 are not |
| `Binarizer.Threshold` | frapper/tools.py:275-277 | the point map yields only 0 or 255, and 255 exactly for luminance above 150 |
| `Binarizer.ToGray` | frapper/tools.py:273-278 | the gray image has the colour image's size, holds only 0 and 255, and a pixel is white exactly when its luminance exceeds 150 |
| `Binarizer.ThresholdIdempotent` | frapper/tools.py:275-277 | thresholding an image that is already black and white changes nothing |
| `Separator.RowIsWhiteIff` | frapper/tools.py:286-289 | `int(row.sum() / 255) == X` holds exactly when every pixel of the row is white |
| `Separator.CloseRun` | frapper/tools.py:291-294 | closing the open run at a non-white row (or the bottom) adds a maximal run and accounts for every white row before it |
| `Separator.Bands` | frapper/tools.py:288-298 | the row loop yields exactly the maximal runs of white rows, top to bottom, disjoint, covering every white row |
| `Separator.FirstLargest` | frapper/tools.py:303-304 | `lens.index(max(lens))` is the first position of a largest element: nothing after is larger, everything before is smaller |
| `Separator.ChooseSplit` | frapper/tools.py:300-308 | there is no split (`False`) exactly when fewer than three runs were found |
| `Separator.PointsAt` | frapper/tools.py:296-298 | every point list is non-empty and only the last one can carry the duplicated bottom row |
| `Separator.FindSplitIndex` | frapper/tools.py:281-308 | `find_split_index` returns `False` exactly when the image has fewer than three maximal runs of white rows |
| `Separator.ChooseSplitOnRuns` | frapper/tools.py:303-307 | choosing on the point lists equals choosing on the runs whatever the last list holds |
| `Separator.FindSplitIndexFromBands` | frapper/tools.py:281-308 | `find_split_index` equals the middle row of the first longest interior run; the duplicated bottom row has no effect |
| `Separator.SplitFromBandsChoice` | frapper/tools.py:303-307 | the chosen run is interior (neither first nor last), at least as long as every interior run, and longer than every interior run before it |
| `Separator.SplitRowIsInterior` | frapper/tools.py:306-307 | the split row is a white row lying strictly between the first run and the last run |
| `Separator.SplitRowIsWhite` | frapper/tools.py:281-308 | a found split is a 1-based row inside the image, white, strictly below the first run and inside or above the last run |
| `Separator.SplitIsMiddleOfFirstLongest` | frapper/tools.py:303-307 | a found split is the middle row of an interior run that is at least as long as every interior run and strictly longer than those before it |
| `Text.Words` | frapper/bot.py:126 | every token of `str.split()` is non-empty and free of whitespace |
| `Text.WordsOfJoin` | frapper/tools.py:206 | splitting a space-joined list of tokens gives the tokens back |
| `Text.SplitOnce` | frapper/bot.py:184 | `split(maxsplit=1)` gives no part iff the string is all whitespace; otherwise the string is whitespace, the first token, and either whitespace alone or non-empty whitespace followed by the second part verbatim (from its first non-space character to the end, trailing whitespace kept) |
| `Text.SplitOnceWords` | frapper/bot.py:164 | `split(maxsplit=1)` has the same first token as `split()`, a second part exactly when there are two or more tokens, and that part splits into the remaining tokens |
| `Text.SplitOnceCons` | frapper/bot.py:184 | a word, a space and a remainder starting with a non-space split into the word and the remainder |
| `Text.SplitAtFirst` | frapper/bot.py:170 | `split(':', 1)` gives one part (the whole string) iff there is no `:`, else two parts around the first `:` |
| `Text.SplitAtFirstUnique` | frapper/bot.py:170-173 | the cut at the first `:` is the unique one whose left part has no `:` |
| `Text.SplitAll` | frapper/bot.py:121 | `split('\n')` gives at least one piece and no piece holds a line break |
| `Text.SplitAllJoin` | frapper/bot.py:121 | joining the pieces of `split(c)` with `c` gives the string back |
| `Text.SplitAllCons` | frapper/bot.py:121 | a piece without `c` followed by `c` is the first piece |
| `Text.RStrip` | frapper/tools.py:196 | `rstrip(',.')` removes exactly the trailing run of stripped characters: a prefix that does not end in one |
| `Text.ReplaceCharIsSplitJoin` | frapper/tools.py:207 | replacing one character by another is the same as splitting at it and joining the pieces with the other |
| `Text.ReplaceCharRemoves` | frapper/tools.py:207 | after the replacement no line break is left, and replacing again changes nothing |
| `Text.WordsUpToSpaces` | frapper/tools.py:269 | exchanging whitespace characters for other whitespace characters leaves the tokens of `split()` unchanged |
| `Text.NewlinesToSpacesKeepWords` | frapper/tools.py:269 | turning line breaks into spaces leaves the tokens of `split()` unchanged |
| `Text.NatToStringRoundTrip` | frapper/bot.py:117 | reading back the decimal digits `str(n)` prints gives `n` |
| `Tags.Strip` | frapper/tools.py:246-247 | the sampled strip is non-empty and no longer than the box (numpy clamps `x2` to the width) |
| `Tags.CountInRangeAll` | frapper/tools.py:249-252 | the counter equals the strip length iff every pixel is highlighted, and is 0 iff none is |
| `Tags.FloorOfQuotient` | frapper/tools.py:254-255 | `int(100 * counter / len)` is the integer quotient, and the float comparison with 15 is a cross-multiplication |
| `Tags.IsTag` | frapper/tools.py:245-255 | the reported value lies in 0..100, is `100 * counter // len`, and the word is a tag iff the value is at least 15 |
| `Tags.IsTagExtremes` | frapper/tools.py:245-255 | a fully highlighted strip gives (True, 100); a strip without highlight gives (False, 0) |
| `Tags.ScanBoxesMask` | frapper/tools.py:192-201 | mask position i is '1' exactly for a tagged box and '0' otherwise; value i is box i's percentage |
| `Tags.ScanBoxesWords` | frapper/tools.py:194-196 | the collected words are the ',' / '.'-stripped contents of the boxes the mask marks '1', in order |
| `Tags.NonZero` | frapper/tools.py:204 | `filter(None, …)` keeps every non-zero value with its multiplicity and drops every zero |
| `Tags.NonZeroConcat` | frapper/tools.py:204 | filtering works entry by entry in order: the filter of a concatenation is the concatenation of the filters |
| `Tags.NonZeroSingle` | frapper/tools.py:204 | a single entry is kept exactly when it is non-zero |
| `Tags.ParseTagText` | frapper/tools.py:186-209 | mask per box, tag text = the lower-cased tagged words joined by spaces (line breaks replaced only in the current copy; frapper/parser.py:103-126 does not), threshold tuple = the non-zero percentages, each in 1..100 |
| `Tags.TaggedCounts` | frapper/tools.py:192-204 | the tag list has one word per '1' of the mask, and the threshold tuple has at least as many values |
| `Tags.NoTagsEmptyText` | frapper/tools.py:186-209 | with no tagged box the tag text is empty and the mask is all '0' |
| `Phrase.Halves` | frapper/tools.py:138-151 | no split row gives `error` with both halves the whole image; otherwise `todo`, full-width halves, the upper one as tall as the split row, together the image's rows |
| `Phrase.NewRecord` | frapper/tools.py:48-70 | a new record is `error` exactly when no split row exists, else `todo`; halves as in `Halves`, gray halves thresholded, all six strings empty, metadata as passed |
| `Phrase.SplitRowInside` | frapper/tools.py:145-149 | a found split row is between 1 and the height, so `not split_index` fails only for a missing split and both crops lie inside the image |
| `Phrase.ParseText` | frapper/tools.py:265-270 | the text keeps the OCR text's length and characters except line breaks; the current copy has a space at every position where the OCR text had a line break and no line break left, the legacy copy (frapper/parser.py:312-316) is the raw OCR text; both have the OCR text's tokens |
| `Phrase.AppendThreshold` | frapper/tools.py:203-204 | appending succeeds iff the key holds a list (else `KeyError` / `AttributeError`); the list grows by the one tuple and nothing else changes |
| `Phrase.Performed` | frapper/tools.py:92-98 | a performed record is `done`, holds both OCR texts and both tag texts and masks, and its threshold list grew by the target tuple then the translate tuple; other metadata unchanged |
| `Phrase.Perform` | frapper/tools.py:88-99 | an `error` record answers False unchanged; otherwise it succeeds iff a threshold list is present, with the exception otherwise named, and answers True with the performed record |
| `Phrase.GetMetainfo` | frapper/tools.py:153-160 | the reported metadata is the record's minus `meta_id`, `message_id` and `message_date`, all other entries unchanged |
| `Phrase.GetMetainfoIdempotent` | frapper/tools.py:153-160 | filtering twice is filtering once; every other entry, the threshold list included, survives |
| `Phrase.Parse` | frapper/tools.py:125-136 | only a `todo` record is performed (and then becomes `done`); the report describes the resulting record |
| `Phrase.SuccessFacts` | frapper/tools.py:79-86 | success needs `done` and a non-empty target tag, ignores the translate tag, and a new record is never a success |
| `Phrase.ParseTwice` | frapper/tools.py:125-136 | after a successful parse the record is not `todo`, and parsing again returns the same report and record |
| `Phrase.Run` | frapper/tools.py:88-136 | any sequence of `perform` / `parse` calls keeps the record's images and leaves it well-formed |
| `Phrase.NoReturnToTodo` | frapper/tools.py:88-99 | `error` is final and unchanged, `done` stays `done`, and a `todo` record is `done` after any non-empty successful sequence of calls |
| `Phrase.PerformAgainGrows` | frapper/tools.py:200-204 | performing a `done` record again succeeds and appends two more tuples |
| `Blocks.PixelSumIsWhite` | frapper/tools.py:322 | a channel sum of 765 means exactly a pure white pixel |
| `Blocks.ColumnFlags` | frapper/tools.py:314-322 | one flag per row, set exactly when the pixel in column 7 (black padding outside the image) sums to 765 |
| `Blocks.NarrowImageHasNoColumn` | frapper/tools.py:314 | an image at most 7 pixels wide has no white pixel in column 7 |
| `Blocks.ColumnScanFollowsScan` | frapper/tools.py:320-335 | the `need_second` loop follows the run scan step by step, one `[start, end]` pair per maximal run |
| `Blocks.CandidatesAreBands` | frapper/tools.py:317-335 | `candidate_list` is the maximal white runs of the column, each as (first index, breaking index or last index) |
| `Blocks.CandidatePairs` | frapper/tools.py:328-335 | pairs are ordered and disjoint in order; rows `start-1 .. end-2` are white; a pair whose last row is white reaches the bottom |
| `Blocks.CandidatesFacts` | frapper/tools.py:317-335 | the candidates cover every white pixel of the column, with the pair facts above |
| `Blocks.TallOnly` | frapper/tools.py:338 | the filtered list is no longer than the candidates and holds only tall candidates |
| `Blocks.TallOnlyKeeps` | frapper/tools.py:338 | a pair survives the filter iff it is a candidate with `y2 - y1 > 140` (a height of exactly 140 is dropped), and the order is kept |
| `Blocks.BlockMetadataFacts` | frapper/tools.py:343-346 | block metadata = caller's keys plus `file_index`, `coordinates`, an empty threshold list and (current copy) `size`; other keys keep their values |
| `Blocks.BlockImage` | frapper/tools.py:341 | a block is `X - 14` wide and `y2 - y1` tall, pixel (x, y) being the screenshot's pixel (7 + x, y1 + y) |
| `Blocks.Blocks` | frapper/tools.py:337-340 | the tall stretches lie inside the image, are taller than 140 rows and come top to bottom without overlap |
| `Blocks.BlocksAreTallCandidates` | frapper/tools.py:338 | the blocks are exactly the tall candidates |
| `Blocks.BlockCropRows` | frapper/tools.py:340-341 | the crop is one row below its stretch: the first white row lies above it and every crop row but the last is white |
| `Blocks.CandidateCropRows` | frapper/tools.py:340-341 | a stretch of at least two rows starts one row below a white row, every row of it but the last is white, and its last row is non-white unless it is the image's bottom row |
| `Blocks.MakeRecords` | frapper/tools.py:348-349 | one record per input pair; record i is the record `FrapperImage` builds from crop i and metadata i |
| `Blocks.SplitImage` | frapper/tools.py:311-351 | `ValueError` exactly when there is a tall stretch but the image is narrower than 14 pixels; otherwise one record per tall stretch |
| `Blocks.SplitImageAt` | frapper/tools.py:340-349 | record i is the crop of tall stretch i with block number i + 1's metadata, `todo` or `error` |
| `Blocks.SplitImageRecord` | frapper/tools.py:341-348 | record i is exactly `FrapperImage(image_x, **kw)` for the crop of tall stretch i and that block's keyword arguments, and it is well formed |
| `Blocks.SplitImageMetadataAt` | frapper/tools.py:343-348 | record i carries `file_index` i + 1, its stretch's coordinates, an empty threshold list and (current copy) its own size |
| `Blocks.SplitImageOrdered` | frapper/tools.py:338-344 | records are numbered 1..n top to bottom, their stretches are taller than 140 and do not overlap |
| `Blocks.SplitImageRecordsReady` | frapper/tools.py:343-349 | every record is well formed, carries an empty threshold list and is not `done`, so `perform()` succeeds on it when the OCR boxes fit its halves; the legacy copy (frapper/parser.py:388-390) stores no `size` of its own |
| `Bot.Rebuild` | frapper/bot.py:125-129 | the loop fails with `ValueError` iff a zipped flag is not a digit; otherwise it emits the underlined words each followed by a space |
| `Bot.RebuildString` | frapper/bot.py:124-130 | `_rebuild_string` succeeds iff every flag paired with a word is a digit; errors are `ValueError` |
| `Bot.SpacedIsJoin` | frapper/bot.py:129 | the emitted string is the words joined by single spaces plus one trailing space (empty for no words) |
| `Bot.WordsOfSpaced` | frapper/bot.py:126-129 | splitting the emitted string gives the emitted words back |
| `Bot.UnderlineIsWord` | frapper/bot.py:127-128 | an underlined word is still one token with no line break |
| `Bot.RebuildStringWords` | frapper/bot.py:124-130 | the rebuilt phrase's tokens are the phrase's tokens up to the mask length, each underlined exactly when its flag is not '0' |
| `Bot.PlainMaskRebuild` | frapper/bot.py:124-130 | an all-'0' mask at least as long as the phrase gives the words joined by spaces plus a trailing space |
| `Bot.RebuildStringOneLine` | frapper/bot.py:124-130 | a rebuilt phrase contains no line break |
| `Bot.HeadOneLine` | frapper/bot.py:117 | the head line `{id} ({index}/{count})` contains no line break |
| `Bot.PrepareHtml` | frapper/bot.py:113-121 | the message exists iff both phrases rebuild; otherwise `ValueError` |
| `Bot.FiveLines` | frapper/bot.py:121 | three single lines joined by blank lines split back into exactly those five lines |
| `Bot.PrepareHtmlLines` | frapper/bot.py:113-121 | the message's lines are the head, a blank line, emoji ℹ + two tabs + target, a blank line, emoji ↪ + two tabs + `<i>translate</i>` |
| `Bot.CValidator` | frapper/bot.py:133-145 | `IndexError` iff the query has no token; valid iff one token or two with an all-digit second; count 3 for one token, else the last token |
| `Bot.LValidator` | frapper/bot.py:148-160 | same outcome and verdict as `_c_validator`, the same count, and `tail = 100` |
| `Bot.SValidator` | frapper/bot.py:163-180 | no argument gives (False, {}); an argument without ':' raises `AttributeError`; otherwise `since_id:count` splits at the first ':' and is valid iff both parts are all digits |
| `Bot.FValidator` | frapper/bot.py:183-193 | valid iff the query has at least two tokens (also for `_t_validator`); the tag is the second part of `split(maxsplit=1)` verbatim, with its inner and trailing whitespace: the query is whitespace, the first token, non-empty whitespace and the tag; its tokens are the query's tokens after the first |
| `Bot.CValidatorDefault` | frapper/bot.py:138-139 | a bare command is valid with count 3 |
| `Bot.CValidatorRoundTrip` | frapper/bot.py:133-145 | `cmd n` is valid with the count `str(n)`, which reads back as `n` |
| `Bot.SinceArgIsWord` | frapper/bot.py:170-172 | `a:b` with digit parts is one token and its first ':' is the one between them |
| `Bot.SValidatorAccepts` | frapper/bot.py:163-180 | `cmd a:b` with digit strings a, b is valid with since_id = a and count = b |
| `Bot.SValidatorRoundTrip` | frapper/bot.py:163-180 | `cmd str(a):str(b)` is valid and hands on both numbers as typed |
| `Bot.SValidatorAcceptsTwoTokens` | frapper/bot.py:164-178 | an accepted query has exactly two tokens, the second `since_id:count` |
| `Bot.FValidatorRoundTrip` | frapper/bot.py:183-189 | `cmd tag` with a tag starting with a non-space gives (True, tag) |

## Left out

- Tesseract OCR and Pillow's `convert('L')`: the model takes the text, the word boxes and the luminance as given functions (`Env`). Rounding in the luminance weights is part of that function.
- The SQLite, Redis, Telegram and HTTP plumbing (`save_sqlite_db`, `save_db`, `save_os`, the bot's handlers and dispatch, the listener), file loading (`split_image_from_*`, `from_*`), `datetime_now`, `__repr__`, logging and the debug `print` in `split_image`: I/O with no effect on the values modelled.
- `PIXEL_SUM_V2` is defined in frapper/tools.py but never used.
- Floating point: `_is_tag`'s `100 * counter / len` is modelled as an exact rational. For strips narrower than 2^46 pixels, float rounding cannot move the value across 15 or across an integer, so the verdict and the reported int agree with the exact value.
- `Tags.IsTag` requires a box whose sampled row is inside the image (`y1 >= 4`, `y1 - 4 < height`) and whose slice is non-empty (`0 <= x1 < x2`, `x1 < width`). Python would wrap a negative row index, and would divide by zero on an empty slice. These cases are not modelled.
- `Phrase.Perform` requires that every OCR box fits its half (`BoxesFit`), for the reason given under `Tags.IsTag`.
- A record that is not built by `split_image` may lack the threshold list. The model returns `KeyError` for it, as the source raises. It does not model the state the mutable Python object is left in after the exception, where the OCR texts are already set.
- When `split_image` raises part-way, the records built before the exception are discarded, as they are in Python; the model returns the error alone.
- `Text.IsDigit` and `Bot.Rebuild` accept only ASCII digits. Python's `isdigit`/`int` also accept other Unicode digits; OCR masks only contain '0' and '1'.
- `Text.LowerChar` lowers ASCII, Latin-1 and the Polish capital letters. Other scripts are left unchanged.
- `Text.Words` uses the `str.isspace` set of the Basic Multilingual Plane listed in `IsSpace`.
- The `to_string=True` form of `get_metainfo` (a `str(dict)` for SQL) and the legacy `_get_metainfo` string are not modelled; both serve only storage.
- The item the bot reads back is given by its fields (`Bot.Item`); fetching it from the API is left out.
