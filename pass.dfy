/** A whole batch pass: slice after slice, each request posting back the
    reloader form the previous slice produced, until a slice finds the pass
    finished. Nothing but the form connects one slice to the next. */
module Pass {
  import opened PhpInt
  import opened ResumeCodec
  import opened Slice
  import opened SpecialPage

  /** A pass as an iteration over the state one request hands to the next:
      `slices(n, s)` is the slice that the pass's n-th request runs from the
      state `s`, and `carry(r)` the state an unfinished slice `r` hands on.
      At most `limit` requests are made, the first being the `n`-th; the pass
      stops after the first finished slice, or when a page query fails:
      every slice of it but the last is unfinished. */
  function Iterate<S>(slices: (nat, S) -> SliceOutcome, carry: SliceResult -> S, s: S, n: nat, limit: nat): (t: seq<SliceResult>)
    ensures |t| <= limit
    ensures forall i :: 0 <= i < |t| - 1 ==> !t[i].Finished()
    decreases limit
  {
    if limit == 0 then []
    else
      match slices(n, s)
      case QueryFailed => []
      case Ran(r) =>
        if r.Finished() then [r]
        else [r] + Iterate(slices, carry, carry(r), n + 1, limit - 1)
  }

  /** The slice a request runs: `clock(n)` is the time check of the n-th
      slice (they differ from slice to slice). Every request of a pass has
      `s`, so the last case never arises in a pass. */
  function RequestSlices(pages: seq<Title>, clock: nat -> TimeCheck): (nat, Fields) -> SliceOutcome {
    (n: nat, values: Fields) =>
      if "s" in values then SliceSpec(Decode(values, |pages|), pages, clock(n)) else QueryFailed
  }

  /** The slices of a pass that starts from the request `values` and goes on
      with the request each reloader form posts: at most `limit` of them, and
      the page reloads after each but the last. */
  function Run(pages: seq<Title>, values: Fields, clock: nat -> TimeCheck, slice: nat, limit: nat): (t: seq<SliceResult>)
    requires "s" in values
    ensures |t| <= limit
    ensures forall i :: 0 <= i < |t| - 1 ==> !t[i].Finished()
  {
    Iterate(RequestSlices(pages, clock), ReloaderFields, values, slice, limit)
  }

  /** The slice run from a decoded triple. */
  function StateSlices(pages: seq<Title>, clock: nat -> TimeCheck): (nat, ResumeState) -> SliceOutcome {
    (n: nat, st: ResumeState) => SliceSpec(st, pages, clock(n))
  }

  /** The triple the request posted by a slice's reloader form starts from:
      its offset and end, and the posted text of its reload count. */
  function Reload(r: SliceResult): ResumeState {
    ResumeState(r.start, r.end, Posted(Decimal(ReloadsValue(r.reloads))))
  }

  /** The same pass, followed from triple to triple. */
  function Trace(pages: seq<Title>, st: ResumeState, clock: nat -> TimeCheck, slice: nat, limit: nat): seq<SliceResult> {
    Iterate(StateSlices(pages, clock), Reload, st, slice, limit)
  }

  /** The titles a run of slices handed to the link inserter, in order. */
  function AllProcessed(trace: seq<SliceResult>): seq<Title> {
    if trace == [] then [] else trace[0].processed + AllProcessed(trace[1..])
  }

  /** A request from which a pass over `pages` resumes: an offset within the
      rows and the row count as end. */
  predicate Resumable(values: Fields, pages: seq<Title>) {
    && "s" in values
    && |pages| <= IntMax
    && 0 <= Decode(values, |pages|).start <= |pages|
    && Decode(values, |pages|).end == |pages|
  }

  /** Slices needed in the worst case (one row per slice; one slice when no
      row is left). */
  function WorstCaseSlices(remaining: int): nat {
    if remaining <= 1 then 1 else remaining
  }

  /** No slice of `t` finishes, and none goes past row `rows`. */
  predicate NeverFinishes(t: seq<SliceResult>, rows: int) {
    t == [] || (!t[0].Finished() && t[0].start <= rows && NeverFinishes(t[1..], rows))
  }

  /** Every slice of `t` but the last reloads: it is unfinished, the next one
      starts further on, and the count it carries is one more than its
      predecessor's (`reloads` being the count the run started with). */
  predicate ReloadsUntilLast(t: seq<SliceResult>, reloads: int) {
    |t| <= 1 ||
    (&& !t[0].Finished()
     && t[0].start < t[1].start
     && t[0].reloads == Counted(reloads + 1)
     && ReloadsUntilLast(t[1..], reloads + 1))
  }

  /** What a slice run from the triple `s` does with the rows: it runs,
      keeps the end, hands on the rows from the offset on in query order,
      and moves on when a row is left. */
  predicate WalksFrom(o: SliceOutcome, s: ResumeState, pages: seq<Title>)
    requires 0 <= s.start
  {
    && o.Ran?
    && o.result.end == s.end
    && s.start <= o.result.start <= |pages|
    && o.result.processed == pages[s.start..o.result.start]
    && (s.start < |pages| ==> s.start < o.result.start)
  }

  /** What a slice does with the reload count, as `value` reads it: a
      finished slice keeps the count as it came, an unfinished one replaces it
      by its value plus one. */
  predicate CountsFrom(o: SliceOutcome, s: ResumeState, value: Reloads -> int) {
    o.Ran? ==>
      && (o.result.Finished() ==> o.result.reloads == s.reloads)
      && (!o.result.Finished() ==> o.result.reloads == Counted(value(s.reloads) + 1))
  }

  /** Every slice from an offset within the rows walks them. */
  ghost predicate Walks(slices: (nat, ResumeState) -> SliceOutcome, pages: seq<Title>) {
    forall n: nat, s: ResumeState :: 0 <= s.start <= |pages| ==> WalksFrom(slices(n, s), s, pages)
  }

  /** Every slice from an offset within the rows counts its reload. */
  ghost predicate Counts(slices: (nat, ResumeState) -> SliceOutcome, pages: seq<Title>, value: Reloads -> int) {
    forall n: nat, s: ResumeState :: 0 <= s.start <= |pages| ==> CountsFrom(slices(n, s), s, value)
  }

  /** The state handed on keeps the slice's offset and end. */
  ghost predicate Carries(carry: SliceResult -> ResumeState) {
    forall r: SliceResult :: carry(r).start == r.start && carry(r).end == r.end
  }

  /** The state handed on reads back, as `value` reads it, a counted reload
      count that is a PHP integer. */
  ghost predicate CarriesCount(carry: SliceResult -> ResumeState, value: Reloads -> int) {
    forall r: SliceResult :: r.reloads.Counted? && InRange(r.reloads.n) ==> value(carry(r).reloads) == r.reloads.n
  }

  /** What `NeverFinishes` says slice by slice: read with
      `EndBeyondRowsNeverFinishes`, the i-th slice of such a pass is
      unfinished and stands at or before the last row. */
  lemma {:induction false} NeverFinishesAt(t: seq<SliceResult>, rows: int, i: nat)
    requires NeverFinishes(t, rows) && i < |t|
    ensures !t[i].Finished() && t[i].start <= rows
  {
    if i > 0 {
      NeverFinishesAt(t[1..], rows, i - 1);
    }
  }

  /** What `ReloadsUntilLast` says slice by slice: read with `RunCompletes`,
      the i-th slice but the last is unfinished, the next one starts further
      on, and it carries the starting count plus i + 1. */
  lemma {:induction false} ReloadsUntilLastAt(t: seq<SliceResult>, reloads: int, i: nat)
    requires ReloadsUntilLast(t, reloads) && i + 1 < |t|
    ensures !t[i].Finished() && t[i].start < t[i + 1].start
    ensures t[i].reloads == Counted(reloads + i + 1)
  {
    if i > 0 {
      ReloadsUntilLastAt(t[1..], reloads + 1, i - 1);
    }
  }

  lemma NeverFinishesCons(r: SliceResult, rest: seq<SliceResult>, rows: int)
    requires !r.Finished() && r.start <= rows && NeverFinishes(rest, rows)
    ensures NeverFinishes([r] + rest, rows)
  {
    assert ([r] + rest)[1..] == rest;
  }

  lemma ReloadsUntilLastCons(r: SliceResult, rest: seq<SliceResult>, reloads: int)
    requires !r.Finished() && r.reloads == Counted(reloads + 1)
    requires rest != [] && r.start < rest[0].start
    requires ReloadsUntilLast(rest, reloads + 1)
    ensures ReloadsUntilLast([r] + rest, reloads)
  {
    assert ([r] + rest)[1..] == rest;
  }

  lemma AllProcessedCons(r: SliceResult, rest: seq<SliceResult>)
    ensures AllProcessed([r] + rest) == r.processed + AllProcessed(rest)
  {
    assert ([r] + rest)[1..] == rest;
  }

  /** Two iterations whose states stay related, and whose slices agree on
      related states, produce the same slices. */
  lemma {:induction false} IterateSimulates<A, B>(
      slicesA: (nat, A) -> SliceOutcome, carryA: SliceResult -> A,
      slicesB: (nat, B) -> SliceOutcome, carryB: SliceResult -> B,
      related: (A, B) -> bool, a: A, b: B, n: nat, limit: nat)
    requires related(a, b)
    requires forall m: nat, x: A, y: B :: related(x, y) ==> slicesA(m, x) == slicesB(m, y)
    requires forall m: nat, x: A, y: B {:trigger related(x, y), slicesA(m, x)} :: related(x, y) && slicesA(m, x).Ran? ==>
               related(carryA(slicesA(m, x).result), carryB(slicesA(m, x).result))
    ensures Iterate(slicesA, carryA, a, n, limit) == Iterate(slicesB, carryB, b, n, limit)
    decreases limit
  {
    if limit > 0 && slicesA(n, a).Ran? {
      var r := slicesA(n, a).result;
      IterateSimulates(slicesA, carryA, slicesB, carryB, related, carryA(r), carryB(r), n + 1, limit - 1);
    }
  }

  /** The reloader form of a slice run from a decoded request reads back as
      `Reload` of the slice. */
  lemma ReloadDecodes(pages: seq<Title>, st: ResumeState, overLimit: TimeCheck)
    requires 0 <= st.start && InRange(st.start) && InRange(st.end) && |pages| <= IntMax
    ensures var r := SliceSpec(st, pages, overLimit).result;
      && "s" in ReloaderFields(r)
      && Decode(ReloaderFields(r), |pages|) == Reload(r)
  {
    var r := SliceSpec(st, pages, overLimit).result;
    SliceWalksRowsInOrder(st, pages, overLimit);
    ReloaderFormRoundTrip(r.start, r.end, ReloadsValue(r.reloads), |pages|);
  }

  /** Requests and triples tell the same story: reading the reloader form of
      each slice back gives exactly `Reload` of it, so the pass over requests
      is the pass over triples (offsets and ends stay PHP integers as long as
      the row count is one). */
  lemma RunIsTrace(pages: seq<Title>, values: Fields, clock: nat -> TimeCheck, slice: nat, limit: nat)
    requires "s" in values && |pages| <= IntMax
    ensures Run(pages, values, clock, slice, limit) == Trace(pages, Decode(values, |pages|), clock, slice, limit)
  {
    var related := (v: Fields, st: ResumeState) => "s" in v && Decode(v, |pages|) == st;
    var slicesA := RequestSlices(pages, clock);
    var slicesB := StateSlices(pages, clock);
    forall m: nat, x: Fields, y: ResumeState {:trigger related(x, y), slicesA(m, x)} | related(x, y) && slicesA(m, x).Ran?
      ensures related(ReloaderFields(slicesA(m, x).result), Reload(slicesA(m, x).result))
    {
      assert y == Decode(x, |pages|);
      assert InRange(y.start) && InRange(y.end);
      ReloadDecodes(pages, y, clock(m));
    }
    IterateSimulates(slicesA, ReloaderFields, slicesB, Reload, related, values, Decode(values, |pages|), slice, limit);
  }

  /** Slices as `process` runs them walk the rows and count their reloads. */
  lemma SlicesWalkAndCount(pages: seq<Title>, clock: nat -> TimeCheck)
    ensures Walks(StateSlices(pages, clock), pages)
    ensures Counts(StateSlices(pages, clock), pages, ReloadsValue)
  {
    forall n: nat, s: ResumeState | 0 <= s.start <= |pages|
      ensures WalksFrom(StateSlices(pages, clock)(n, s), s, pages)
      ensures CountsFrom(StateSlices(pages, clock)(n, s), s, ReloadsValue)
    {
      SliceWalksRowsInOrder(s, pages, clock(n));
      SliceBudgetRule(s, pages, clock(n));
    }
  }

  /** The reloader form carries a slice's offset and end as they are, and its
      reload count as decimal text that reads back as the count. */
  lemma ReloadCarries()
    ensures Carries(Reload)
    ensures CarriesCount(Reload, ReloadsValue)
  {
    forall r: SliceResult | r.reloads.Counted? && InRange(r.reloads.n)
      ensures ReloadsValue(Reload(r).reloads) == r.reloads.n
    {
      ReadBack(r.reloads.n);
    }
  }

  /** A pass whose slices walk the rows, from an offset within them and with
      the row count as end, finishes at the last row within the worst-case
      number of slices, and its first slice moves on when a row is left. */
  lemma {:induction false} IterateFinishes(slices: (nat, ResumeState) -> SliceOutcome, carry: SliceResult -> ResumeState, pages: seq<Title>, st: ResumeState, n: nat, limit: nat)
    returns (t: seq<SliceResult>)
    requires Walks(slices, pages) && Carries(carry)
    requires 0 <= st.start <= |pages| && st.end == |pages|
    requires limit >= WorstCaseSlices(|pages| - st.start)
    ensures t == Iterate(slices, carry, st, n, limit)
    ensures 1 <= |t| <= WorstCaseSlices(|pages| - st.start)
    ensures t[|t| - 1].Finished() && t[|t| - 1].start == |pages|
    ensures st.start < |pages| ==> st.start < t[0].start
    decreases limit
  {
    assert WalksFrom(slices(n, st), st, pages);
    var r := slices(n, st).result;
    if r.Finished() {
      t := [r];
    } else {
      var rest := IterateFinishes(slices, carry, pages, carry(r), n + 1, limit - 1);
      t := [r] + rest;
      assert t[|t| - 1] == rest[|rest| - 1];
    }
  }

  /** The same pass hands every page from the offset on to the link inserter,
      exactly once and in order. */
  lemma {:induction false} IterateHandsOnPages(slices: (nat, ResumeState) -> SliceOutcome, carry: SliceResult -> ResumeState, pages: seq<Title>, st: ResumeState, n: nat, limit: nat)
    returns (t: seq<SliceResult>)
    requires Walks(slices, pages) && Carries(carry)
    requires 0 <= st.start <= |pages| && st.end == |pages|
    requires limit >= WorstCaseSlices(|pages| - st.start)
    ensures t == Iterate(slices, carry, st, n, limit)
    ensures AllProcessed(t) == pages[st.start..]
    decreases limit
  {
    assert WalksFrom(slices(n, st), st, pages);
    var r := slices(n, st).result;
    if r.Finished() {
      t := [r];
      AllProcessedCons(r, []);
    } else {
      var rest := IterateHandsOnPages(slices, carry, pages, carry(r), n + 1, limit - 1);
      t := [r] + rest;
      AllProcessedCons(r, rest);
      assert pages[st.start..] == pages[st.start..r.start] + pages[r.start..];
    }
  }

  /** In the same pass, when its slices also count their reloads, every slice
      but the last reloads with the count one higher than its predecessor. */
  lemma {:induction false} IterateReloadsUntilLast(slices: (nat, ResumeState) -> SliceOutcome, carry: SliceResult -> ResumeState, value: Reloads -> int, pages: seq<Title>, st: ResumeState, reloads: int, n: nat, limit: nat)
    returns (t: seq<SliceResult>)
    requires Walks(slices, pages) && Counts(slices, pages, value)
    requires Carries(carry) && CarriesCount(carry, value)
    requires 0 <= st.start <= |pages| && st.end == |pages|
    requires limit >= WorstCaseSlices(|pages| - st.start)
    requires value(st.reloads) == reloads && InRange(reloads) && reloads + limit <= IntMax
    ensures t == Iterate(slices, carry, st, n, limit)
    ensures 1 <= |t| && (st.start < |pages| ==> st.start < t[0].start)
    ensures ReloadsUntilLast(t, reloads)
    decreases limit
  {
    assert WalksFrom(slices(n, st), st, pages) && CountsFrom(slices(n, st), st, value);
    var r := slices(n, st).result;
    if r.Finished() {
      t := [r];
    } else {
      var next := carry(r);
      var rest := IterateReloadsUntilLast(slices, carry, value, pages, next, reloads + 1, n + 1, limit - 1);
      ReloadsUntilLastCons(r, rest, reloads);
      t := [r] + rest;
    }
  }

  /** In the same pass the last slice carries the starting count plus one
      per reload. */
  lemma {:induction false} IterateLastCount(slices: (nat, ResumeState) -> SliceOutcome, carry: SliceResult -> ResumeState, value: Reloads -> int, pages: seq<Title>, st: ResumeState, reloads: int, n: nat, limit: nat)
    returns (t: seq<SliceResult>)
    requires Walks(slices, pages) && Counts(slices, pages, value)
    requires Carries(carry) && CarriesCount(carry, value)
    requires 0 <= st.start <= |pages| && st.end == |pages|
    requires limit >= WorstCaseSlices(|pages| - st.start)
    requires value(st.reloads) == reloads && InRange(reloads) && reloads + limit <= IntMax
    ensures t == Iterate(slices, carry, st, n, limit)
    ensures 1 <= |t|
    ensures value(t[|t| - 1].reloads) == reloads + |t| - 1
    decreases limit
  {
    assert WalksFrom(slices(n, st), st, pages) && CountsFrom(slices(n, st), st, value);
    var r := slices(n, st).result;
    if r.Finished() {
      t := [r];
    } else {
      var next := carry(r);
      var rest := IterateLastCount(slices, carry, value, pages, next, reloads + 1, n + 1, limit - 1);
      t := [r] + rest;
      assert t[|t| - 1] == rest[|rest| - 1];
    }
  }

  /** A pass whose slices walk the rows, from an offset within them but with
      an end beyond them, never finishes. */
  lemma {:induction false} IterateStalls(slices: (nat, ResumeState) -> SliceOutcome, carry: SliceResult -> ResumeState, pages: seq<Title>, st: ResumeState, n: nat, limit: nat)
    returns (t: seq<SliceResult>)
    requires Walks(slices, pages) && Carries(carry)
    requires 0 <= st.start <= |pages| < st.end
    ensures t == Iterate(slices, carry, st, n, limit)
    ensures |t| == limit && NeverFinishes(t, |pages|)
    decreases limit
  {
    if limit > 0 {
      assert WalksFrom(slices(n, st), st, pages);
      var r := slices(n, st).result;
        var rest := IterateStalls(slices, carry, pages, carry(r), n + 1, limit - 1);
      NeverFinishesCons(r, rest, |pages|);
      t := [r] + rest;
    } else {
      t := [];
    }
  }

  /** The pass over triples from an offset within the rows, with the row
      count as end, finishes at the last row within the worst-case number of
      slices, hands on every page from the offset on, and counts its reloads. */
  lemma TraceCompletes(pages: seq<Title>, st: ResumeState, clock: nat -> TimeCheck, slice: nat, limit: nat)
    returns (t: seq<SliceResult>)
    requires 0 <= st.start <= |pages| && st.end == |pages|
    requires limit >= WorstCaseSlices(|pages| - st.start)
    requires InRange(ReloadsValue(st.reloads)) && ReloadsValue(st.reloads) + limit <= IntMax
    ensures t == Trace(pages, st, clock, slice, limit)
    ensures 1 <= |t| <= WorstCaseSlices(|pages| - st.start)
    ensures t[|t| - 1].Finished() && t[|t| - 1].start == |pages|
    ensures st.start < |pages| ==> st.start < t[0].start
    ensures ReloadsUntilLast(t, ReloadsValue(st.reloads))
    ensures ReloadsValue(t[|t| - 1].reloads) == ReloadsValue(st.reloads) + |t| - 1
    ensures AllProcessed(t) == pages[st.start..]
  {
    SlicesWalkAndCount(pages, clock);
    ReloadCarries();
    var slices := StateSlices(pages, clock);
    var reloads := ReloadsValue(st.reloads);
    t := IterateFinishes(slices, Reload, pages, st, slice, limit);
    var t2 := IterateHandsOnPages(slices, Reload, pages, st, slice, limit);
    var t3 := IterateReloadsUntilLast(slices, Reload, ReloadsValue, pages, st, reloads, slice, limit);
    var t4 := IterateLastCount(slices, Reload, ReloadsValue, pages, st, reloads, slice, limit);
  }

  /** Termination: with a stable row sequence and its length as end, feeding
      each slice's reloader form back in makes the offset strictly increase
      until the pass finishes, within one slice per remaining row. The finished
      pass stands exactly at the end, every page from the offset on was handed
      on exactly once and in order, and each reload added one to the count. */
  lemma RunCompletes(pages: seq<Title>, values: Fields, clock: nat -> TimeCheck, slice: nat, limit: nat)
    requires Resumable(values, pages)
    requires limit >= WorstCaseSlices(|pages| - Decode(values, |pages|).start)
    requires ReloadsValue(Decode(values, |pages|).reloads) + limit <= IntMax
    ensures var st := Decode(values, |pages|);
      var t := Run(pages, values, clock, slice, limit);
      && 1 <= |t| <= WorstCaseSlices(|pages| - st.start)
      && t[|t| - 1].Finished() && t[|t| - 1].start == |pages|
      && (st.start < |pages| ==> st.start < t[0].start)
      && ReloadsUntilLast(t, ReloadsValue(st.reloads))
      && ReloadsValue(t[|t| - 1].reloads) == ReloadsValue(st.reloads) + |t| - 1
      && AllProcessed(t) == pages[st.start..]
  {
    RunIsTrace(pages, values, clock, slice, limit);
    var t := TraceCompletes(pages, Decode(values, |pages|), clock, slice, limit);
  }

  /** A fresh pass, started from the info page's button, finishes within one
      slice per page (one slice when there is none), processes every page
      exactly once and in order, and ends with as many reloads as slices after
      the first. */
  lemma {:induction false} FreshPassCompletes(pages: seq<Title>, clock: nat -> TimeCheck)
    requires |pages| < IntMax
    ensures var t := Run(pages, InfoPageForm(), clock, 0, WorstCaseSlices(|pages|));
      && 1 <= |t| <= WorstCaseSlices(|pages|)
      && t[|t| - 1].Finished() && t[|t| - 1].start == |pages|
      && AllProcessed(t) == pages
      && ReloadsValue(t[|t| - 1].reloads) == |t| - 1
  {
    assert "e" != "s" && "r" != "s" by {
      assert "e"[0] != "s"[0] && "r"[0] != "s"[0];
    }
    InfoPageStartsFresh(InfoPageForm(), |pages|);
    RunCompletes(pages, InfoPageForm(), clock, 0, WorstCaseSlices(|pages|));
    assert pages[0..] == pages;
  }

  /** The end index is trusted as carried: when it lies beyond the rows (pages
      deleted after the pass began, or a forged `e`), the offset stops at the
      last row and every slice reloads the page again, so the pass never
      finishes, however many slices run. */
  lemma EndBeyondRowsNeverFinishes(pages: seq<Title>, values: Fields, clock: nat -> TimeCheck, slice: nat, limit: nat)
    requires "s" in values && |pages| <= IntMax
    requires 0 <= Decode(values, |pages|).start <= |pages| < Decode(values, |pages|).end
    ensures var t := Run(pages, values, clock, slice, limit);
      && |t| == limit
      && NeverFinishes(t, |pages|)
  {
    RunIsTrace(pages, values, clock, slice, limit);
    SlicesWalkAndCount(pages, clock);
    ReloadCarries();
    var t := IterateStalls(StateSlices(pages, clock), Reload, pages, Decode(values, |pages|), slice, limit);
  }
}
