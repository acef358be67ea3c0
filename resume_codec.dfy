/** The resume triple of a batch pass: how `process` reads the start offset `s`,
    the end index `e` and the reload count `r` from the request's values, and
    the hidden fields of the forms that carry the triple to the next request.
    The forms are the only place the state of a pass lives. */
module ResumeCodec {
  import opened PhpInt

  /** The request's values (posted form fields and query parameters), by name. */
  type Fields = map<string, string>

  /** The reload count as `process` holds it. A posted `r` is kept as the text
      that was posted; it only becomes a number when it is incremented. */
  datatype Reloads = Posted(text: string) | Counted(n: int)

  /** The number `$reloads += 1` adds one to: PHP's numeric reading of a posted
      text, taken as `intval`. On decimal integer text the two agree; PHP 5's
      `+=` also reads hexadecimal text such as "0x1A", which `intval` reads as 0. */
  function ReloadsValue(r: Reloads): (v: int)
    ensures r.Posted? ==> InRange(v)
    ensures r.Counted? ==> v == r.n
  {
    match r
    case Posted(text) => Intval(text)
    case Counted(n) => n
  }

  /** The triple a slice starts from. */
  datatype ResumeState = ResumeState(start: int, end: int, reloads: Reloads)

  /** Reading the triple from the values of a request that has `s`: `s` and `e`
      go through `intval`; without `e` the pages are counted; without `r` the
      count starts at 0. `pageCount` is what `countPages` would return. */
  function Decode(values: Fields, pageCount: nat): (st: ResumeState)
    requires "s" in values
    ensures InRange(st.start)
    ensures "e" in values ==> InRange(st.end)
  {
    ResumeState(
      Intval(values["s"]),
      if "e" in values then Intval(values["e"]) else pageCount,
      if "r" in values then Posted(values["r"]) else Counted(0))
  }

  /** The three hidden fields of the form that reloads the special page:
      exactly `s`, `e` and `r`, each of which `intval` reads back as the
      number it was written from, when that number is a PHP integer. */
  function ReloaderForm(start: int, end: int, reloads: int): (f: Fields)
    ensures f.Keys == {"s", "e", "r"}
    ensures InRange(start) ==> Intval(f["s"]) == start
    ensures InRange(end) ==> Intval(f["e"]) == end
    ensures InRange(reloads) ==> Intval(f["r"]) == reloads
  {
    assert "s" != "e" && "s" != "r" && "e" != "r" by {
      assert "s"[0] != "e"[0] && "s"[0] != "r"[0] && "e"[0] != "r"[0];
    }
    ReadBackInRange(start);
    ReadBackInRange(end);
    ReadBackInRange(reloads);
    map["s" := Decimal(start), "e" := Decimal(end), "r" := Decimal(reloads)]
  }

  /** The hidden field of the info page's "Start linking" button: only `s`,
      which reads as offset 0. */
  function InfoPageForm(): (f: Fields)
    ensures f.Keys == {"s"}
    ensures Intval(f["s"]) == 0
  {
    assert Intval("0") == 0 by {
      ReadBack(0);
    }
    map["s" := "0"]
  }

  /** Decoding the reloader form gives back exactly the start and end it was
      built from; the reload count comes back as its own decimal text, whose
      numeric value is the count whenever the count is a PHP integer. */
  lemma {:induction false} ReloaderFormRoundTrip(start: int, end: int, reloads: int, pageCount: nat)
    requires InRange(start) && InRange(end)
    ensures "s" in ReloaderForm(start, end, reloads)
    ensures Decode(ReloaderForm(start, end, reloads), pageCount)
            == ResumeState(start, end, Posted(Decimal(reloads)))
    ensures InRange(reloads) ==>
              ReloadsValue(Decode(ReloaderForm(start, end, reloads), pageCount).reloads) == reloads
  {
    var f := ReloaderForm(start, end, reloads);
    assert "s" != "e" && "s" != "r" && "e" != "r" by {
      assert "s"[0] != "e"[0] && "s"[0] != "r"[0] && "e"[0] != "r"[0];
    }
    assert f["r"] == Decimal(reloads);
  }

  /** `ReadBack` for whichever integer is in range. */
  lemma ReadBackInRange(n: int)
    ensures InRange(n) ==> Intval(Decimal(n)) == n
  {
    if InRange(n) {
      ReadBack(n);
    }
  }

  lemma ReadBack(n: int)
    requires InRange(n)
    ensures Intval(Decimal(n)) == n
  {
    IntvalOfDecimal(n, []);
    assert Decimal(n) + [] == Decimal(n);
  }

  /** A request carrying the info page's form (and no `e` or `r`) starts a
      fresh pass: offset 0, the counted pages as end, no reloads. */
  lemma {:induction false} InfoPageStartsFresh(values: Fields, pageCount: nat)
    requires "s" in values && values["s"] == InfoPageForm()["s"]
    requires "e" !in values && "r" !in values
    ensures Decode(values, pageCount) == ResumeState(0, pageCount, Counted(0))
    ensures ReloadsValue(Decode(values, pageCount).reloads) == 0
  {
    ReadBack(0);
    assert Decimal(0) == "0";
  }

  /** A forged or garbled `s`, `e` or `r` that holds no number (no digit
      after the white space and an optional sign) never makes decoding fail:
      it reads as 0. */
  lemma {:induction false} NonNumericFieldsReadAsZero(values: Fields, pageCount: nat)
    requires "s" in values
    requires forall k :: k in values && (k == "s" || k == "e" || k == "r") ==> NoLeadingNumber(values[k])
    ensures Decode(values, pageCount).start == 0
    ensures "e" in values ==> Decode(values, pageCount).end == 0
    ensures "r" in values ==> ReloadsValue(Decode(values, pageCount).reloads) == 0
  {
    IntvalWithoutNumber(values["s"]);
    if "e" in values {
      IntvalWithoutNumber(values["e"]);
    }
    if "r" in values {
      IntvalWithoutNumber(values["r"]);
    }
  }
}
