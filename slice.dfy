/** One time-boxed slice of the batch pass: `process` walks the main-namespace
    page rows from the start offset, hands each title to the link inserter,
    advances the offset by one per row and stops after the first row on which
    the time limit is exceeded; then it decides whether the pass is finished
    or the page must reload itself. */
module Slice {
  import opened PhpInt
  import opened ResumeCodec

  /** A page title, as the `page_title` column holds it. */
  type Title = string

  /** The time check made after each row of one slice: `overLimit(i)` holds when,
      after the row at position `i` of the slice (counting from 0), the time
      elapsed since the slice began exceeds the configured limit. */
  type TimeCheck = nat -> bool

  /** Rows processed from position `i` on, out of `available`: the row at `i`
      is processed, and the walk stops there when its time check fires. */
  function ProcessedFrom(overLimit: TimeCheck, i: nat, available: nat): (k: nat)
    requires i <= available
    ensures i <= k <= available
    ensures i < available ==> i < k
    decreases available - i
  {
    if i == available then available
    else if overLimit(i) then i + 1
    else ProcessedFrom(overLimit, i + 1, available)
  }

  /** How many of `available` rows one slice processes. */
  function RowsProcessed(overLimit: TimeCheck, available: nat): (k: nat)
    ensures k <= available
  {
    ProcessedFrom(overLimit, 0, available)
  }

  lemma {:induction false} ProcessedFromBounds(overLimit: TimeCheck, i: nat, available: nat)
    requires i <= available
    requires forall j :: 0 <= j < i ==> !overLimit(j)
    ensures var k := ProcessedFrom(overLimit, i, available);
      && (forall j :: 0 <= j < k - 1 ==> !overLimit(j))
      && (k < available ==> overLimit(k - 1))
    decreases available - i
  {
    if i < available && !overLimit(i) {
      ProcessedFromBounds(overLimit, i + 1, available);
    }
  }

  /** What the budget does to a slice: it processes every row when no time
      check fires, at least one row when there is one, never a row after the
      check has fired, and stops early only because the check fired. */
  lemma RowsProcessedBounds(overLimit: TimeCheck, available: nat)
    ensures var k := RowsProcessed(overLimit, available);
      && k <= available
      && (available > 0 ==> k >= 1)
      && (forall j :: 0 <= j < k - 1 ==> !overLimit(j))
      && (k < available ==> overLimit(k - 1))
      && ((forall j :: 0 <= j < available ==> !overLimit(j)) ==> k == available)
  {
    ProcessedFromBounds(overLimit, 0, available);
  }

  /** The rows of the page query with `OFFSET offset`: the page rows from that
      position on, in the query's order (none once the offset is past the end). */
  function RowsFrom(pages: seq<Title>, offset: nat): (rows: seq<Title>)
    ensures |rows| == if offset <= |pages| then |pages| - offset else 0
    ensures forall i :: 0 <= i < |rows| ==> rows[i] == pages[offset + i]
  {
    if offset <= |pages| then pages[offset..] else []
  }

  /** What one slice leaves behind: the new triple and the titles it handed to
      the link inserter, in order. */
  datatype SliceResult = SliceResult(start: int, end: int, reloads: Reloads, processed: seq<Title>) {
    /** The test `$start < $end` fails: there is nothing left to reload for. */
    predicate Finished() {
      !(start < end)
    }
  }

  /** A slice either runs or its page query fails. */
  datatype SliceOutcome = Ran(result: SliceResult) | QueryFailed

  /** The slice as a function of the decoded triple, the page rows and the time
      checks. A negative offset makes the page query fail; otherwise the end is
      kept, the offset moves on by one per title handed on, and the finish
      rule decides the reload count. */
  function SliceSpec(st: ResumeState, pages: seq<Title>, overLimit: TimeCheck): (o: SliceOutcome)
    ensures o.QueryFailed? <==> st.start < 0
    ensures o.Ran? ==> o.result.end == st.end && o.result.start == st.start + |o.result.processed|
    ensures o.Ran? && o.result.Finished() ==> o.result.reloads == st.reloads
    ensures o.Ran? && !o.result.Finished() ==> o.result.reloads == Counted(ReloadsValue(st.reloads) + 1)
  {
    if st.start < 0 then QueryFailed
    else
      var rows := RowsFrom(pages, st.start);
      var k := RowsProcessed(overLimit, |rows|);
      var start := st.start + k;
      Ran(SliceResult(
        start,
        st.end,
        if start < st.end then Counted(ReloadsValue(st.reloads) + 1) else st.reloads,
        rows[..k]))
  }

  /** Each row the slice processes is the next one in query order from the
      incoming offset, and the offset moves on by exactly one per row: the
      titles handed on are exactly the pages from the old to the new offset.
      An offset past the last row processes nothing and leaves the offset. */
  lemma SliceWalksRowsInOrder(st: ResumeState, pages: seq<Title>, overLimit: TimeCheck)
    requires st.start >= 0
    ensures var r := SliceSpec(st, pages, overLimit).result;
      && r.start == st.start + |r.processed|
      && (st.start <= |pages| ==> r.start <= |pages| && r.processed == pages[st.start..r.start])
      && (st.start > |pages| ==> r.start == st.start && r.processed == [])
  {
    var rows := RowsFrom(pages, st.start);
    var k := RowsProcessed(overLimit, |rows|);
    if st.start <= |pages| {
      assert rows[..k] == pages[st.start..st.start + k];
    }
  }

  /** The time check runs only after a row: a slice with a row left always
      advances, it never processes a row after the check has fired, it stops
      before the last row only because the check fired, and when the check
      never fires it processes every remaining row. */
  lemma SliceBudgetRule(st: ResumeState, pages: seq<Title>, overLimit: TimeCheck)
    requires 0 <= st.start <= |pages|
    ensures var r := SliceSpec(st, pages, overLimit).result;
      && (st.start < |pages| ==> r.start > st.start)
      && (forall j :: 0 <= j < |r.processed| - 1 ==> !overLimit(j))
      && (r.start < |pages| ==> overLimit(|r.processed| - 1))
      && ((forall j :: 0 <= j < |pages| - st.start ==> !overLimit(j)) ==> r.start == |pages|)
  {
    RowsProcessedBounds(overLimit, |RowsFrom(pages, st.start)|);
  }

  /** `process`: decode the triple, walk the rows from the offset, then apply
      the finish rule. `pages` are the main-namespace rows in the query's order;
      the count of pages, used when `e` is absent, is their number. */
  method Process(values: Fields, pages: seq<Title>, overLimit: TimeCheck) returns (outcome: SliceOutcome)
    requires "s" in values
    ensures outcome == SliceSpec(Decode(values, |pages|), pages, overLimit)
    ensures outcome.QueryFailed? <==> Intval(values["s"]) < 0
    ensures outcome.Ran? ==> outcome.result.end == Decode(values, |pages|).end
    ensures outcome.Ran? && outcome.result.Finished() ==>
              outcome.result.reloads == Decode(values, |pages|).reloads
    ensures outcome.Ran? && !outcome.result.Finished() ==>
              outcome.result.reloads == Counted(ReloadsValue(Decode(values, |pages|).reloads) + 1)
  {
    var st := Decode(values, |pages|);
    if st.start < 0 {
      return QueryFailed;
    }
    var rows := RowsFrom(pages, st.start);
    var start := st.start;
    var processed: seq<Title> := [];
    var i := 0;
    while i < |rows|
      invariant 0 <= i <= |rows|
      invariant start == st.start + i
      invariant processed == rows[..i]
      invariant ProcessedFrom(overLimit, i, |rows|) == RowsProcessed(overLimit, |rows|)
    {
      // LinkTitles::processPage(rows[i]) runs here; the model records the title.
      processed := processed + [rows[i]];
      start := start + 1;
      i := i + 1;
      if overLimit(i - 1) {
        break;
      }
    }
    var reloads := st.reloads;
    if start < st.end {
      reloads := Counted(ReloadsValue(reloads) + 1);
    }
    outcome := Ran(SliceResult(start, st.end, reloads, processed));
  }
}
