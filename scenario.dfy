module Scenario {
  import opened PhpInt
  import opened ResumeCodec
  import opened Slice
  import opened Pass

  /** Five pages, a pass started from the info page's button, and a time
      limit that is exceeded after every second row: the pass takes three
      slices, stopping at offsets 2, 4 and 5. The first two are unfinished
      and reload with counts 1 and 2; the last is finished and reports 2
      reloads. */
  lemma TwoRowsPerSlice(pages: seq<Title>)
    requires |pages| == 5
    ensures "s" in InfoPageForm()
    ensures var t := Run(pages, InfoPageForm(), (n: nat) => (i: nat) => i == 1, 0, 5);
      && |t| == 3
      && t[0].start == 2 && t[1].start == 4 && t[2].start == 5
      && !t[0].Finished() && !t[1].Finished() && t[2].Finished()
      && t[0].reloads == Counted(1) && t[1].reloads == Counted(2)
      && ReloadsValue(t[2].reloads) == 2
  {
    var clock := (n: nat) => (i: nat) => i == 1;
    assert "e" != "s" && "r" != "s" by {
      assert "e"[0] != "s"[0] && "r"[0] != "s"[0];
    }
    InfoPageStartsFresh(InfoPageForm(), |pages|);
    RunIsTrace(pages, InfoPageForm(), clock, 0, 5);
    var t := TraceCompletes(pages, ResumeState(0, 5, Counted(0)), clock, 0, 5);
    var over := clock(0);
    assert ProcessedFrom(over, 0, 5) == 2 && ProcessedFrom(over, 0, 3) == 2 && ProcessedFrom(over, 0, 1) == 1;
    var slices := StateSlices(pages, clock);
    ReadBack(1);
    var st1 := Reload(slices(0, ResumeState(0, 5, Counted(0))).result);
    assert st1 == ResumeState(2, 5, Posted(Decimal(1)));
    var st2 := Reload(slices(1, st1).result);
    assert st2.start == 4 && st2.end == 5;
    assert slices(2, st2).result.start == 5;
  }
}
