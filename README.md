# LinkTitles batch pass, in Dafny

LinkTitles is a MediaWiki extension. Its special page, `Special:LinkTitles`,
runs a batch pass over every page of the main namespace and hands each title
to the link inserter `LinkTitles::processPage`. The pass is resumable and
time-boxed. Each request runs one *slice*:

- it reads a resume triple from the request: the start offset `s`, the end
  index `e` and the reload count `r`;
- it walks the page rows from the offset, one row at a time, and adds one to
  the offset per row;
- it stops after the first row on which the time limit is exceeded;
- while the offset is below the end, it adds one to the reload count and emits
  a hidden form that posts the new triple back to the page, and a script that
  submits it at once.

That form is the only state of a pass; the server keeps none.

The model has six modules:

- `PhpInt` (`php_int.dfy`): PHP's `intval` on strings and the decimal text PHP
  writes for an integer. `intval` is that of PHP 5 / 7.0 on a 64-bit
  platform: C's `strtol` in base 10, saturating at the integer bounds. The
  `+= 1` on a posted `r` is modelled as PHP 7.0 does it on integer text.
- `ResumeCodec` (`resume_codec.dfy`): decoding the triple from the request's
  values, the reloader form's hidden fields, and the info page's form.
- `Slice` (`slice.dfy`): `process` as a method with a loop over the rows,
  proved against a specification function `SliceSpec`.
- `SpecialPage` (`special_page.dfy`): the `execute` dispatch, and what a
  slice's outcome puts on the page for the pass.
- `Pass` (`pass.dfy`): a whole pass, made of slices whose reloader forms are
  posted back one after another. It carries the termination theorem.
- `Scenario` (`scenario.dfy`): one worked pass over five pages.

External pieces become parameters:

- the database rows are a `seq<Title>` in the query's order;
- `countPages` is the length of that sequence;
- `processPage` is an opaque step, and the slice records the titles it hands on;
- the `microtime` test after each row is an oracle `TimeCheck = nat -> bool`.
  In a multi-slice pass it is one oracle per slice, `clock(n)`.

Decoding follows the code, not a tidier rule:

- `s` and `e` pass through `intval`. A non-numeric value reads as 0.
- Nothing is clamped to be non-negative: a negative `s` or `e` is kept as
  `intval` reads it.
- `r` is kept as the posted text (`Reloads.Posted`). It becomes a number only
  when `+= 1` adds one to it (`Reloads.Counted`). A finished slice therefore
  reports the count exactly as it was posted.
- A negative offset would make the `OFFSET` clause of the page query negative.
  The model treats that as a failed query (`SliceOutcome.QueryFailed`).

## Model

| member | source | states |
|---|---|---|
| PhpInt.Intval | SpecialLinkTitles.php:95 | `intval` of any posted string is a PHP integer: nothing makes decoding fail |
| PhpInt.Saturate | SpecialLinkTitles.php:95 | a value outside the integer range reads as the nearer bound; one inside is kept |
| PhpInt.Decimal | SpecialLinkTitles.php:238-240 | the text written for an integer is a minus sign for a negative number, then at least one digit, and nothing else |
| PhpInt.IntvalOfDecimal | SpecialLinkTitles.php:238-240 | `intval` reads the decimal text PHP writes for any in-range integer, negative ones included, back as that integer, whatever non-digit text follows it |
| PhpInt.IntvalWithoutNumber | SpecialLinkTitles.php:95-99 | a string with no digit after its white space and optional sign (such as "abc5", " -x9", "+-3" or "") reads as 0 |
| PhpInt.NoDigitsNoLeadingNumber | SpecialLinkTitles.php:95-99 | a string with no digit at all holds no number for `intval` to read |
| PhpInt.NonNumericIntval | SpecialLinkTitles.php:95-99 | a string without digits (such as "abc", "-" or "") reads as 0 |
| ResumeCodec.ReloadsValue | SpecialLinkTitles.php:144 | the number `+= 1` adds to: a posted text is read as a PHP integer, a counted value is its own number |
| ResumeCodec.Decode | SpecialLinkTitles.php:95-109 | decoding never fails: `s` is `intval(s)`; `e` is `intval(e)` when present, else the page count; `r` is the raw posted text, or 0 when absent; `s` and `e` are PHP integers |
| ResumeCodec.NonNumericFieldsReadAsZero | SpecialLinkTitles.php:95-109 | forged `s`, `e`, `r` that hold no number (no digit after the white space and an optional sign) decode to 0, not to an error |
| ResumeCodec.ReloaderForm | SpecialLinkTitles.php:234-247 | `getReloaderForm` writes exactly the hidden fields `s`, `e` and `r`, and `intval` reads each back as the number it was written from |
| ResumeCodec.InfoPageForm | SpecialLinkTitles.php:178-181 | the info page's form posts only `s`, and it reads as offset 0 |
| ResumeCodec.ReloaderFormRoundTrip | SpecialLinkTitles.php:234-247 | decoding the reloader form's hidden fields gives back exactly the start and end it was built from, and a reload count whose value is the count |
| ResumeCodec.ReadBack | SpecialLinkTitles.php:238-240 | one hidden field's decimal text reads back as its integer |
| ResumeCodec.InfoPageStartsFresh | SpecialLinkTitles.php:178-181 | request values that are exactly the info page's form (`s=0`, no `e` or `r`) decode to offset 0, the page count as end, and reload count 0 |
| Slice.RowsFrom | SpecialLinkTitles.php:112-123 | the query with `OFFSET offset` returns the pages from that position on, in order, and none once the offset is past the last row |
| Slice.SliceSpec | SpecialLinkTitles.php:126-153 | a slice fails its query exactly for a negative offset; otherwise it keeps the end, moves the offset on by one per title handed on, keeps the count when finished and counts one more reload when not |
| Slice.ProcessedFrom | SpecialLinkTitles.php:126-136 | the row walk from position `i` processes at least that row when one is left, and never more rows than are available |
| Slice.RowsProcessed | SpecialLinkTitles.php:126-136 | a slice never processes more rows than the query returns |
| Slice.ProcessedFromBounds | SpecialLinkTitles.php:126-136 | the walk stops before the last row only because the time check fired on the last row it processed |
| Slice.RowsProcessedBounds | SpecialLinkTitles.php:126-136 | with a row left a slice processes at least one; no row follows a fired time check; with no check firing every row is processed |
| Slice.SliceWalksRowsInOrder | SpecialLinkTitles.php:112-129 | the titles handed on are exactly the pages from the old offset to the new one, in query order, and the offset grows by one per row; an offset past the rows processes nothing |
| Slice.SliceBudgetRule | SpecialLinkTitles.php:126-136 | a slice with a row left advances the offset; it processes no row after the check fires; it stops early only because the check fired; when the check never fires the new offset is the row count |
| Slice.Process | SpecialLinkTitles.php:91-153 | the loop computes `SliceSpec` of the decoded triple; a failed query happens exactly for a negative offset; `end` is never changed; an unfinished slice counts one more reload; a finished one keeps the count unchanged |
| SpecialPage.Execute | SpecialLinkTitles.php:59-71 | a posted request with `s` runs a slice and shows its response; any other request shows the info page with its `s=0` form |
| SpecialPage.ReloaderFields | SpecialLinkTitles.php:147-148 | the form a slice writes holds exactly `s`, `e` and `r`, and they read back as its offset, its end and its reload count |
| SpecialPage.Respond | SpecialLinkTitles.php:142-153 | a failed query shows a database error; otherwise the page reloads exactly when `start < end`, and a finished slice reports its end and its count as they are |
| SpecialPage.StartButtonStartsPass | SpecialLinkTitles.php:178-181 | the "Start linking" button, posted from a URL without `e` or `r` query parameters, runs a slice, and that slice starts from offset 0 with the page count as end and no reloads |
| SpecialPage.ReloadResumesWhereSliceStopped | SpecialLinkTitles.php:142-149 | the page reloads exactly when `start < end`; its form decodes to the slice's new start, its end and its reload count |
| Pass.Iterate | SpecialLinkTitles.php:142-149 | a pass runs at most `limit` slices and stops at the first finished one: every slice but the last is unfinished |
| Pass.Run | SpecialLinkTitles.php:142-149 | the chain of posted-back reloader forms: at most `limit` slices, and the page reloads after each but the last |
| Pass.NeverFinishesAt | SpecialLinkTitles.php:142-149 | in a pass that never finishes, the i-th slice is unfinished and stands at or before the last row |
| Pass.ReloadsUntilLastAt | SpecialLinkTitles.php:142-149 | in a pass that reloads until its last slice, the i-th slice but the last is unfinished, the next one starts further on, and it carries the starting count plus i + 1 |
| Pass.ReloadDecodes | SpecialLinkTitles.php:147-148 | the reloader form of a slice run from in-range values decodes to `Reload` of the slice |
| Pass.RunIsTrace | SpecialLinkTitles.php:95-109 | a pass over requests, each posting the previous reloader form, is the pass over decoded triples |
| Pass.IterateSimulates | SpecialLinkTitles.php:147-148 | two passes whose states stay related through every reload and whose slices agree on related states run the same slices |
| Pass.SlicesWalkAndCount | SpecialLinkTitles.php:126-153 | every slice from an offset within the rows walks them in order and counts its reload by the finish rule |
| Pass.ReloadCarries | SpecialLinkTitles.php:238-240 | the triple posted back keeps the slice's offset and end, and its count reads back as the count |
| Pass.IterateFinishes | SpecialLinkTitles.php:126-149 | with the row count as end, the offset strictly increases until a slice finishes at the last row, within one slice per remaining row |
| Pass.IterateHandsOnPages | SpecialLinkTitles.php:126-129 | such a pass hands on every page from the offset on exactly once, in order |
| Pass.IterateReloadsUntilLast | SpecialLinkTitles.php:142-149 | every slice but the last reloads with a count one higher than its predecessor's, and the next slice starts further on |
| Pass.IterateLastCount | SpecialLinkTitles.php:142-153 | the last slice reports the starting count plus one per reload |
| Pass.IterateStalls | SpecialLinkTitles.php:98-100 | with an end beyond the rows no slice ever finishes |
| Pass.TraceCompletes | SpecialLinkTitles.php:126-153 | a pass over triples from an offset within the rows, with the row count as end, finishes within the worst-case number of slices, hands on every page once, and counts its reloads |
| Pass.RunCompletes | SpecialLinkTitles.php:126-149 | termination: each posted-back reloader form makes the offset strictly increase until the pass finishes at the last row, within one slice per remaining row; every page is handed on once and in order; each reload adds one to the count |
| Pass.FreshPassCompletes | SpecialLinkTitles.php:178-181 | a pass started from the info page's button, from a URL without `e` or `r` query parameters, finishes within one slice per page, processes every page once and in order, and ends with one reload per slice after the first |
| Scenario.TwoRowsPerSlice | SpecialLinkTitles.php:126-153 | a pass over five pages started from the info page's form, with the time limit exceeded after every second row, takes three slices: they stop at offsets 2, 4 and 5, the first two unfinished with reload counts 1 and 2, the last finished with count 2 |
| Pass.EndBeyondRowsNeverFinishes | SpecialLinkTitles.php:142-149 | an `e` above the row count (pages deleted after the pass began, or a forged value) makes every slice reload, so the pass never finishes |

## Left out

- Database access (`wfGetDB`, `select`, `numRows`) is not modelled. The rows are a given sequence in query order, and `countPages` is its length.
- The `LIMIT 999999999` of the page query is not modelled: all rows from the offset are assumed to be returned.
- A negative `OFFSET` is modelled as a failed query. A database that clamps it to 0 instead is not modelled.
- `LinkTitles::processPage` is a foreign call whose source is not part of this model. It is an opaque step, and the slice only records which titles it hands on.
- Wall-clock time (`microtime`, the float comparison with `$wgLinkTitlesTimeLimit`) is an oracle per row and per slice.
- The progress figures `$index / $end * 100` and `sprintf` are float formatting, and are not modelled. They divide by zero when `end` is 0, and nothing here claims they are safe.
- The completion figure `$end / $reloads` is float formatting, and is not modelled. It divides by zero when the pass finished in its first slice, and nothing here claims it is safe.
- HTML, wikitext and JavaScript rendering are not modelled, apart from the values of the three hidden fields and the info page's `s` field.
- Permission checks (`userCanExecute`, `displayRestrictionError`) and the constructor are not modelled.
- Concurrent passes are not modelled: the code does not coordinate them.
- The undefined `$curTitle` when no row is left only affects the display, and is not modelled.
- `ResumeCodec.ReloadsValue` reads a posted `r` with `intval`. PHP's `+= 1` agrees with that reading on decimal integer text only; its float readings ("1.5", "1e3", and integers too large for 64 bits) are not modelled.
- `ResumeCodec.ReloadsValue` does not model PHP 5's `+=` on hexadecimal text: PHP 5 reads a posted `r=0x1A` as 26 and an unfinished slice then counts 27, while the model, like `intval`, reads it as 0 and counts 1.
- The model follows the `intval` of PHP 5 / 7.0. Later versions read some strings differently (from PHP 7.1, "1e3" reads as 1000), and PHP 8 rejects arithmetic on a non-numeric `r`; neither is modelled.
- Request values that are arrays instead of strings are not modelled.
- `Slice.Process` does not model an overflowing `$reloads += 1`. In PHP a count of PHP_INT_MAX plus 1 becomes a float, and the form then writes it as float text ("9.2233720368548E+18"). The model counts `IntMax + 1` as an unbounded integer and writes its decimal digits. Only a forged `r` reaches this case.
- `SpecialPage.StartButtonStartsPass` and `Pass.FreshPassCompletes` take the request values to be exactly the info page's form. The form posts to the page's own URL, query string included, and the request's values merge query parameters with posted fields. So an `e` or `r` in the URL the pass starts from would reach the decoding; such parameters are assumed absent. Reloader posts carry their own `s`, `e` and `r`, which take precedence.
- `Pass.RunCompletes`: the termination theorem assumes the row sequence does not change during the pass, and that the reload count stays a PHP integer. The page query has no `ORDER BY`, so even when no page changes, a stable row order from one request to the next is an assumption about the database, not something the code ensures.
