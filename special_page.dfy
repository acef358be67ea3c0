/** The special page's entry point: which requests run a slice and which show the
    info page, and what a slice's outcome puts on the page that matters to the
    pass (the reloader form's hidden fields, or the completion figures). */
module SpecialPage {
  import opened PhpInt
  import opened ResumeCodec
  import opened Slice

  /** A request to the special page: whether it was posted, and its values. */
  datatype Request = Request(posted: bool, values: Fields)

  /** What a request's page carries for the pass. */
  datatype Response =
    | InfoPage(form: Fields)                     // the "Start linking" form
    | Progress(reloader: Fields)                 // auto-submitted reloader form
    | CompletedInfo(end: int, reloads: Reloads)  // totals shown when done
    | DatabaseError                              // the page query failed

  /** The hidden fields `getReloaderForm` writes for a slice's result: its
      offset, its end and its reload count, each read back by `intval` when
      it is a PHP integer. */
  function ReloaderFields(r: SliceResult): (f: Fields)
    ensures f.Keys == {"s", "e", "r"}
    ensures InRange(r.start) ==> Intval(f["s"]) == r.start
    ensures InRange(r.end) ==> Intval(f["e"]) == r.end
    ensures InRange(ReloadsValue(r.reloads)) ==> Intval(f["r"]) == ReloadsValue(r.reloads)
  {
    ReloaderForm(r.start, r.end, ReloadsValue(r.reloads))
  }

  /** The tail of `process`: reload while `$start < $end`, else report completion. */
  function Respond(outcome: SliceOutcome): (resp: Response)
    ensures resp.DatabaseError? <==> outcome.QueryFailed?
    ensures outcome.Ran? ==> (resp.Progress? <==> outcome.result.start < outcome.result.end)
    ensures resp.CompletedInfo? ==> resp.end == outcome.result.end && resp.reloads == outcome.result.reloads
    ensures !resp.InfoPage?
  {
    match outcome
    case QueryFailed => DatabaseError
    case Ran(r) => if r.Finished() then CompletedInfo(r.end, r.reloads) else Progress(ReloaderFields(r))
  }

  /** `execute` (after the permission check): a posted request with `s` runs a
      slice, any other request shows the info page. */
  method Execute(req: Request, pages: seq<Title>, overLimit: TimeCheck) returns (resp: Response)
    ensures !(req.posted && "s" in req.values) ==> resp == InfoPage(InfoPageForm())
    ensures req.posted && "s" in req.values ==>
              resp == Respond(SliceSpec(Decode(req.values, |pages|), pages, overLimit))
  {
    if req.posted {
      if "s" in req.values {
        var outcome := Process(req.values, pages, overLimit);
        resp := Respond(outcome);
      } else {
        resp := InfoPage(InfoPageForm());
      }
    } else {
      resp := InfoPage(InfoPageForm());
    }
  }

  /** Submitting the info page's form is a posted request with `s`, so it runs
      a slice, and that slice starts a fresh pass: offset 0, the counted pages
      as end, reload count 0. */
  lemma {:induction false} StartButtonStartsPass(pages: seq<Title>, overLimit: TimeCheck)
    ensures "s" in InfoPageForm()
    ensures SliceSpec(Decode(InfoPageForm(), |pages|), pages, overLimit)
            == SliceSpec(ResumeState(0, |pages|, Counted(0)), pages, overLimit)
  {
    assert "e" != "s" && "r" != "s" by {
      assert "e"[0] != "s"[0] && "r"[0] != "s"[0];
    }
    InfoPageStartsFresh(InfoPageForm(), |pages|);
  }

  /** A page that reloads itself carries its slice's triple: the reloader form's
      `s` and `e` decode to the slice's new start and its end, and its `r`
      to the incremented reload count, so the next slice resumes exactly where
      this one stopped. */
  lemma {:induction false} ReloadResumesWhereSliceStopped(outcome: SliceOutcome, pageCount: nat)
    requires outcome.Ran?
    requires InRange(outcome.result.start) && InRange(outcome.result.end)
    requires InRange(ReloadsValue(outcome.result.reloads))
    ensures Respond(outcome).Progress? <==> outcome.result.start < outcome.result.end
    ensures Respond(outcome).Progress? ==>
      var st := Decode(Respond(outcome).reloader, pageCount);
      && st.start == outcome.result.start
      && st.end == outcome.result.end
      && ReloadsValue(st.reloads) == ReloadsValue(outcome.result.reloads)
  {
    var r := outcome.result;
    ReloaderFormRoundTrip(r.start, r.end, ReloadsValue(r.reloads), pageCount);
  }
}
