/**
 * The `while start < len(text)` loop of `split_text`.
 *
 * The loop is first stated for an arbitrary iteration function `step`
 * (`Run`), so that its properties (chunks stay stripped, stay bounded, the
 * loop finishes when every iteration advances) are proved once, independent
 * of how an iteration cuts its window. `SplitText` instantiates it with the
 * segmenter's `Step`.
 *
 * The loop as written need not finish: `StallNeverFinishes` and
 * `RestartNeverFinishes` exhibit texts on which it runs forever with the
 * default configuration. `SplitFixed` is the loop with the evidently
 * intended progress guarantee; `FixedAgrees` shows it computes the same
 * chunks wherever the loop as written finishes by advancing.
 */
module Splitter {
  import opened Wrappers
  import opened PyStrings
  import opened Segmenter

  // ---------------------------------------------------------------------
  // The loop for any iteration function.

  /** The loop from `start` over a text of length `n`, where `step(start)`
      is the iteration that begins at `start`, allowed `fuel` iterations;
      `None` when it has not finished by then. */
  function Run(step: int -> StepResult, n: int, start: int, fuel: nat): (r: Option<seq<string>>)
    ensures r.Some? ==> |r.value| <= fuel
    decreases fuel
  {
    if start >= n then Some([])
    else if fuel == 0 then None
    else
      match Run(step, n, step(start).next, fuel - 1)
      case None => None
      case Some(rest) => Some(Emit(step(start)) + rest)
  }

  /** The starts the loop visits from `start` within `fuel` iterations, in
      visiting order: each is inside the text, and each after the first is
      where the iteration before it sends the loop. */
  function Visited(step: int -> StepResult, n: int, start: int, fuel: nat): (vs: seq<int>)
    ensures |vs| <= fuel
    ensures vs != [] ==> vs[0] == start
    ensures forall i :: 0 <= i < |vs| ==> vs[i] < n
    ensures forall i :: 0 <= i < |vs| - 1 ==> vs[i + 1] == step(vs[i]).next
    decreases fuel
  {
    if start >= n || fuel == 0 then [] else [start] + Visited(step, n, step(start).next, fuel - 1)
  }

  /** The chunks the windows at `starts` emit, in order. */
  function Collect(step: int -> StepResult, starts: seq<int>): seq<string>
    decreases |starts|
  {
    if starts == [] then [] else Emit(step(starts[0])) + Collect(step, starts[1..])
  }

  /** `c` is the chunk of one of the windows at `starts`. */
  predicate FromWindow(step: int -> StepResult, starts: seq<int>, c: string) {
    exists j :: 0 <= j < |starts| && c == step(starts[j]).chunk
  }

  /** Every collected chunk is the chunk of one of the windows. */
  lemma {:induction false} CollectFrom(step: int -> StepResult, starts: seq<int>)
    ensures forall i :: 0 <= i < |Collect(step, starts)| ==> FromWindow(step, starts, Collect(step, starts)[i])
    decreases |starts|
  {
    if starts != [] {
      var e := Emit(step(starts[0]));
      var rest := Collect(step, starts[1..]);
      CollectFrom(step, starts[1..]);
      forall i | 0 <= i < |e + rest| ensures FromWindow(step, starts, (e + rest)[i]) {
        if i < |e| {
          assert (e + rest)[i] == step(starts[0]).chunk;
        } else {
          var k := i - |e|;
          assert 0 <= k < |rest| && (e + rest)[i] == rest[k];
          assert FromWindow(step, starts[1..], rest[k]);
          var j :| 0 <= j < |starts[1..]| && rest[k] == step(starts[1..][j]).chunk;
          assert starts[1..][j] == starts[j + 1];
        }
      }
    }
  }

  /** What the loop returns is what the windows it visits emit. */
  lemma {:induction false} RunVisits(step: int -> StepResult, n: int, start: int, fuel: nat)
    ensures Run(step, n, start, fuel).Some? ==>
      Run(step, n, start, fuel).value == Collect(step, Visited(step, n, start, fuel))
    decreases fuel
  {
    if start < n && fuel > 0 {
      var vs := Visited(step, n, start, fuel);
      RunVisits(step, n, step(start).next, fuel - 1);
      assert vs[1..] == Visited(step, n, step(start).next, fuel - 1);
    }
  }

  /** Every iteration started inside the text moves `start` forward. */
  ghost predicate Advances(step: int -> StepResult, n: int) {
    forall s :: 0 <= s < n ==> step(s).next > s
  }

  /** No iteration started inside the text moves `start` before it. */
  ghost predicate StaysInside(step: int -> StepResult, n: int) {
    forall s :: 0 <= s < n ==> step(s).next >= 0
  }

  /** Every cut lies after the start of its window. */
  ghost predicate WindowsMove(step: int -> StepResult) {
    forall s :: step(s).end > s
  }

  /** Every iteration emits only stripped, non-empty chunks. */
  ghost predicate EmitsStripped(step: int -> StepResult) {
    forall s :: AllStripped(Emit(step(s)))
  }

  /** Every iteration started inside the text keeps at most `size` characters. */
  ghost predicate EmitsAtMost(step: int -> StepResult, n: int, size: int) {
    forall s :: 0 <= s < n ==> |step(s).chunk| <= size
  }

  lemma {:induction false} RunStripped(step: int -> StepResult, n: int, start: int, fuel: nat)
    requires EmitsStripped(step)
    ensures Run(step, n, start, fuel).Some? ==> AllStripped(Run(step, n, start, fuel).value)
    decreases fuel
  {
    if start < n && fuel > 0 {
      var rest := Run(step, n, step(start).next, fuel - 1);
      RunStripped(step, n, step(start).next, fuel - 1);
      if rest.Some? {
        assert AllStripped(Emit(step(start)));
        AllStrippedConcat(Emit(step(start)), rest.value);
      }
    }
  }

  lemma {:induction false} RunBounded(step: int -> StepResult, n: int, start: int, fuel: nat, size: int)
    requires 0 <= start && StaysInside(step, n) && EmitsAtMost(step, n, size)
    ensures Run(step, n, start, fuel).Some? ==> AllAtMost(Run(step, n, start, fuel).value, size)
    decreases fuel
  {
    if start < n && fuel > 0 {
      var rest := Run(step, n, step(start).next, fuel - 1);
      RunBounded(step, n, step(start).next, fuel - 1, size);
      if rest.Some? {
        assert |step(start).chunk| <= size;
        AllAtMostConcat(Emit(step(start)), rest.value, size);
      }
    }
  }

  /** Every iteration the loop performs from `start` moves `start` forward;
      iterations the loop never reaches are unconstrained. */
  ghost predicate AdvancesAlong(step: int -> StepResult, n: int, start: int)
    decreases n - start
  {
    start >= n || (step(start).next > start && AdvancesAlong(step, n, step(start).next))
  }

  /** An iteration that advances wherever it starts inside the text
      advances along every path from inside the text. */
  lemma {:induction false} AdvancesEverywhere(step: int -> StepResult, n: int, start: int)
    requires Advances(step, n) && 0 <= start
    ensures AdvancesAlong(step, n, start)
    decreases n - start
  {
    if start < n {
      assert step(start).next > start;
      AdvancesEverywhere(step, n, step(start).next);
    }
  }

  /** When every iteration it performs advances, the loop finishes within
      `n - start` iterations. */
  lemma {:induction false} RunFinishes(step: int -> StepResult, n: int, start: int, fuel: nat)
    requires AdvancesAlong(step, n, start) && fuel >= n - start
    ensures Run(step, n, start, fuel).Some?
    decreases fuel
  {
    if start < n {
      assert step(start).next > start;
      RunFinishes(step, n, step(start).next, fuel - 1);
    }
  }

  /** A start inside the text that the iteration sends back to itself is
      never left: the loop does not finish for any fuel. */
  lemma {:induction false} RunStuck(step: int -> StepResult, n: int, s: int, fuel: nat)
    requires s < n && step(s).next == s
    ensures Run(step, n, s, fuel) == None
    decreases fuel
  {
    if fuel > 0 {
      RunStuck(step, n, s, fuel - 1);
    }
  }

  /** A loop whose first iteration leads to such a start never finishes
      either. */
  lemma RunLeadsToStuck(step: int -> StepResult, n: int, start: int, s: int, fuel: nat)
    requires start < n && step(start).next == s && s < n && step(s).next == s
    ensures Run(step, n, start, fuel) == None
  {
    if fuel > 0 {
      RunStuck(step, n, s, fuel - 1);
    }
  }

  /** Nor does one that reaches it after two iterations. */
  lemma RunLeadsToStuckIn2(step: int -> StepResult, n: int, start: int, mid: int, s: int, fuel: nat)
    requires start < n && step(start).next == mid && mid < n && step(mid).next == s
    requires s < n && step(s).next == s
    ensures Run(step, n, start, fuel) == None
  {
    if fuel > 0 {
      RunLeadsToStuck(step, n, mid, s, fuel - 1);
    }
  }

  // ---------------------------------------------------------------------
  // The loop as evidently intended: `start` strictly increases.

  /** The next start with the overlap applied only when it still moves the
      window forward; otherwise the next window starts at the cut. */
  function FixedNext(step: int -> StepResult, start: int): (next: int)
    requires WindowsMove(step)
    ensures next > start
    ensures step(start).next > start ==> next == step(start).next
  {
    var s := step(start);
    if s.next > start then s.next else s.end
  }

  /** The loop with `FixedNext`; it needs no fuel. */
  function RunFixed(step: int -> StepResult, n: int, start: int): (r: seq<string>)
    requires WindowsMove(step)
    ensures |r| <= if start < n then n - start else 0
    decreases n - start
  {
    if start >= n then []
    else Emit(step(start)) + RunFixed(step, n, FixedNext(step, start))
  }

  /** The starts the intended loop visits, in increasing order, all inside
      `[start, n)`. */
  function VisitedFixed(step: int -> StepResult, n: int, start: int): (vs: seq<int>)
    requires WindowsMove(step)
    ensures vs != [] ==> vs[0] == start
    ensures forall i :: 0 <= i < |vs| ==> start <= vs[i] < n
    ensures forall i :: 0 <= i < |vs| - 1 ==> vs[i] < vs[i + 1]
    decreases n - start
  {
    if start >= n then []
    else [start] + VisitedFixed(step, n, FixedNext(step, start))
  }

  lemma {:induction false} RunFixedVisits(step: int -> StepResult, n: int, start: int)
    requires WindowsMove(step)
    ensures RunFixed(step, n, start) == Collect(step, VisitedFixed(step, n, start))
    decreases n - start
  {
    if start < n {
      var vs := VisitedFixed(step, n, start);
      RunFixedVisits(step, n, FixedNext(step, start));
      assert vs[1..] == VisitedFixed(step, n, FixedNext(step, start));
    }
  }

  /** No iteration starts its successor after its own cut. */
  ghost predicate NoGaps(step: int -> StepResult) {
    forall s :: step(s).next <= step(s).end
  }

  /** Position `p` lies in one of the windows at `starts`. */
  predicate Covered(step: int -> StepResult, starts: seq<int>, p: int) {
    exists j :: 0 <= j < |starts| && starts[j] <= p < step(starts[j]).end
  }

  /** Without gaps between windows, the windows of the intended loop cover
      every position from `start` to the end of the text. */
  lemma {:induction false} FixedCovers(step: int -> StepResult, n: int, start: int, p: int)
    requires WindowsMove(step) && NoGaps(step) && start <= p < n
    ensures Covered(step, VisitedFixed(step, n, start), p)
    decreases n - start
  {
    var vs := VisitedFixed(step, n, start);
    var next := FixedNext(step, start);
    var rest := VisitedFixed(step, n, next);
    assert vs == [start] + rest;
    if p < step(start).end {
      assert vs[0] <= p < step(vs[0]).end;
    } else {
      assert next <= step(start).end;
      FixedCovers(step, n, next, p);
      var j :| 0 <= j < |rest| && rest[j] <= p < step(rest[j]).end;
      assert vs[j + 1] == rest[j];
    }
  }

  lemma {:induction false} RunFixedStripped(step: int -> StepResult, n: int, start: int)
    requires WindowsMove(step) && EmitsStripped(step)
    ensures AllStripped(RunFixed(step, n, start))
    decreases n - start
  {
    if start < n {
      RunFixedStripped(step, n, FixedNext(step, start));
      assert AllStripped(Emit(step(start)));
      AllStrippedConcat(Emit(step(start)), RunFixed(step, n, FixedNext(step, start)));
    }
  }

  lemma {:induction false} RunFixedBounded(step: int -> StepResult, n: int, start: int, size: int)
    requires WindowsMove(step) && 0 <= start && EmitsAtMost(step, n, size)
    ensures AllAtMost(RunFixed(step, n, start), size)
    decreases n - start
  {
    if start < n {
      RunFixedBounded(step, n, FixedNext(step, start), size);
      assert |step(start).chunk| <= size;
      AllAtMostConcat(Emit(step(start)), RunFixed(step, n, FixedNext(step, start)), size);
    }
  }

  /** Where every iteration it performs advances, the loop as written and
      the intended loop compute the same chunks. */
  lemma {:induction false} RunAgrees(step: int -> StepResult, n: int, start: int, fuel: nat)
    requires WindowsMove(step) && AdvancesAlong(step, n, start)
    requires fuel >= n - start
    ensures Run(step, n, start, fuel) == Some(RunFixed(step, n, start))
    decreases fuel
  {
    if start < n {
      assert step(start).next > start;
      RunAgrees(step, n, step(start).next, fuel - 1);
    }
  }

  // ---------------------------------------------------------------------
  // `split_text`.

  /** The loop body of `split_text` for one text and configuration. */
  function Iteration(text: string, cfg: Config): int -> StepResult {
    (s: int) => Step(text, s, cfg)
  }

  /** `split_text` run for at most `fuel` loop iterations: a text no longer
      than `chunkSize` comes back whole and untrimmed. */
  function SplitText(text: string, cfg: Config, fuel: nat): (r: Option<seq<string>>)
    ensures |text| <= cfg.chunkSize ==> r == Some([text])
  {
    if |text| <= cfg.chunkSize then Some([text]) else Run(Iteration(text, cfg), |text|, 0, fuel)
  }

  /** Every iteration started inside the text moves `start` forward. The
      source does not enforce this. */
  ghost predicate AlwaysAdvances(text: string, cfg: Config) {
    Advances(Iteration(text, cfg), |text|)
  }

  /** Every iteration `split_text` performs on the text moves `start`
      forward. Unlike `AlwaysAdvances`, starts the loop never reaches do
      not matter. */
  ghost predicate AdvancesFromZero(text: string, cfg: Config) {
    AdvancesAlong(Iteration(text, cfg), |text|, 0)
  }

  lemma AlwaysAdvancesFromZero(text: string, cfg: Config)
    requires AlwaysAdvances(text, cfg)
    ensures AdvancesFromZero(text, cfg)
  {
    AdvancesEverywhere(Iteration(text, cfg), |text|, 0);
  }

  /** No iteration started inside the text restarts before its beginning. */
  ghost predicate NeverRestartsBehind(text: string, cfg: Config) {
    StaysInside(Iteration(text, cfg), |text|)
  }

  lemma IterationStripped(text: string, cfg: Config)
    ensures EmitsStripped(Iteration(text, cfg))
  {
    forall s ensures AllStripped(Emit(Iteration(text, cfg)(s))) {
      var r := Step(text, s, cfg);
      assert Iteration(text, cfg)(s) == r;
    }
  }

  lemma IterationBounded(text: string, cfg: Config)
    requires 0 <= cfg.chunkSize
    ensures EmitsAtMost(Iteration(text, cfg), |text|, cfg.chunkSize)
  {
    forall s | 0 <= s < |text| ensures |Iteration(text, cfg)(s).chunk| <= cfg.chunkSize {
      StepChunkBounded(text, s, cfg);
    }
  }

  lemma IterationMoves(text: string, cfg: Config)
    requires cfg.chunkSize > 0
    ensures WindowsMove(Iteration(text, cfg))
  {
    forall s ensures Iteration(text, cfg)(s).end > s {
      assert Iteration(text, cfg)(s) == Step(text, s, cfg);
    }
  }

  /** `c` is `strip(text[s:end])` for one of the windows at `starts`,
      `end` being that window's cut. */
  predicate WindowOf(text: string, cfg: Config, starts: seq<int>, c: string) {
    exists j :: 0 <= j < |starts| && c == Strip(Slice(text, starts[j], CutEnd(text, starts[j], cfg)))
  }

  /** Position `p` of the text lies in one of the windows at `starts`. */
  predicate CoveredBy(text: string, cfg: Config, starts: seq<int>, p: int) {
    exists j :: 0 <= j < |starts| && starts[j] <= p < CutEnd(text, starts[j], cfg)
  }

  /** A chunk of some window of the loop body is that window's stripped
      text. */
  lemma IterationWindows(text: string, cfg: Config, starts: seq<int>, c: string)
    requires FromWindow(Iteration(text, cfg), starts, c)
    ensures WindowOf(text, cfg, starts, c)
  {
    var j :| 0 <= j < |starts| && c == Iteration(text, cfg)(starts[j]).chunk;
    assert Iteration(text, cfg)(starts[j]) == Step(text, starts[j], cfg);
  }

  /** With a non-negative overlap no window starts after the cut of the one
      before it. */
  lemma IterationNoGaps(text: string, cfg: Config)
    requires cfg.chunkOverlap >= 0
    ensures NoGaps(Iteration(text, cfg))
  {
    forall s ensures Iteration(text, cfg)(s).next <= Iteration(text, cfg)(s).end {
      assert Iteration(text, cfg)(s) == Step(text, s, cfg);
    }
  }

  /** Each chunk of a long text is `strip(text[start:end])` for a window
      that the loop visits, and the chunks come in visiting order. */
  lemma SplitTextWindows(text: string, cfg: Config, fuel: nat)
    ensures var r := SplitText(text, cfg, fuel);
      var vs := Visited(Iteration(text, cfg), |text|, 0, fuel);
      r.Some? && |text| > cfg.chunkSize ==>
        && r.value == Collect(Iteration(text, cfg), vs)
        && forall i :: 0 <= i < |r.value| ==> WindowOf(text, cfg, vs, r.value[i])
  {
    var r := SplitText(text, cfg, fuel);
    var it := Iteration(text, cfg);
    var vs := Visited(it, |text|, 0, fuel);
    if r.Some? && |text| > cfg.chunkSize {
      RunVisits(it, |text|, 0, fuel);
      CollectFrom(it, vs);
      forall i | 0 <= i < |r.value| ensures WindowOf(text, cfg, vs, r.value[i]) {
        IterationWindows(text, cfg, vs, r.value[i]);
      }
    }
  }

  /** A long text's chunks are non-empty and stripped; while no window
      starts before the text they are also at most `chunkSize` long. */
  lemma SplitTextChunks(text: string, cfg: Config, fuel: nat)
    ensures var r := SplitText(text, cfg, fuel);
      && (r.Some? && |text| > cfg.chunkSize ==> AllStripped(r.value))
      && (r.Some? && |text| > cfg.chunkSize && 0 <= cfg.chunkSize && NeverRestartsBehind(text, cfg) ==>
            AllAtMost(r.value, cfg.chunkSize))
  {
    if |text| > cfg.chunkSize {
      IterationStripped(text, cfg);
      RunStripped(Iteration(text, cfg), |text|, 0, fuel);
      if 0 <= cfg.chunkSize && NeverRestartsBehind(text, cfg) {
        IterationBounded(text, cfg);
        RunBounded(Iteration(text, cfg), |text|, 0, fuel, cfg.chunkSize);
      }
    }
  }

  /** Termination of `split_text` under the sufficient condition that every
      iteration it performs advances: `|text|` iterations are enough. */
  lemma SplitTerminates(text: string, cfg: Config)
    requires AdvancesFromZero(text, cfg)
    ensures SplitText(text, cfg, |text|).Some?
  {
    if |text| > cfg.chunkSize {
      RunFinishes(Iteration(text, cfg), |text|, 0, |text|);
    }
  }

  /** A loop that always advances never restarts before the text. */
  lemma AdvancingStaysInside(text: string, cfg: Config)
    requires AlwaysAdvances(text, cfg)
    ensures NeverRestartsBehind(text, cfg)
  {
    forall s | 0 <= s < |text| ensures Iteration(text, cfg)(s).next >= 0 {
      assert Iteration(text, cfg)(s).next > s;
    }
  }

  /** With no overlap (or a negative one) and a positive window, every
      iteration advances, so the loop finishes. */
  lemma NoOverlapAdvances(text: string, cfg: Config)
    requires cfg.chunkSize > 0 && cfg.chunkOverlap <= 0
    ensures AlwaysAdvances(text, cfg)
  {
    forall s | 0 <= s < |text| ensures Iteration(text, cfg)(s).next > s {
      assert Iteration(text, cfg)(s) == Step(text, s, cfg);
    }
  }

  /** Without any space or line feed every cut is a hard cut, so
      `chunkOverlap < chunkSize` is then enough for the loop to advance. */
  lemma HardCutsAdvance(text: string, cfg: Config)
    requires 0 <= cfg.chunkOverlap < cfg.chunkSize
    requires forall i :: 0 <= i < |text| ==> text[i] != ' ' && text[i] != '\n'
    ensures AlwaysAdvances(text, cfg)
  {
    NeverAt(text, "\n\n", 0);
    NeverAt(text, ". ", 1);
    NeverAt(text, " ", 0);
    forall s | 0 <= s < |text| ensures Iteration(text, cfg)(s).next > s {
      HardCut(text, s, cfg);
      assert Iteration(text, cfg)(s) == Step(text, s, cfg);
    }
  }

  // ---------------------------------------------------------------------
  // The loop as written does not always finish.

  /** 5000 characters whose only spaces are at offsets 500 and 600. */
  function StallText(): string {
    seq(5000, i => if i == 500 || i == 600 then ' ' else 'a')
  }

  /** The windows starting at 0 and at 400 are both cut at the space at 600. */
  lemma StallCut(start: int)
    requires start == 0 || start == 400
    ensures CutEnd(StallText(), start, Default) == 600
  {
    var t := StallText();
    var w := start + 1000;
    NeverAt(t, "\n\n", 0);
    NeverAt(t, ". ", 0);
    assert t[600..601] == [' '];
    forall k | 600 < k && k + 1 <= w ensures !IsAt(t, " ", k) {
      assert t[k..k + 1][0] == t[k] == 'a';
    }
    assert LastAfter(t, " ", start, w, 600);
    CutPriority(t, start, Default);
  }

  /** With the default configuration the window at 0 sends the loop to
      400, and the window at 400 sends it to 400 again. */
  lemma StallStep()
    ensures NextStart(StallText(), 0, Default) == 400
    ensures NextStart(StallText(), 400, Default) == 400
  {
    StallCut(0);
    StallCut(400);
  }

  /** The same two facts about the loop body as the loop sees it. */
  lemma StallIteration()
    ensures |StallText()| == 5000
    ensures Iteration(StallText(), Default)(0).next == 400
    ensures Iteration(StallText(), Default)(400).next == 400
  {
    StallStep();
    assert Iteration(StallText(), Default)(0) == Step(StallText(), 0, Default);
    assert Iteration(StallText(), Default)(400) == Step(StallText(), 400, Default);
  }

  /** No number of iterations finishes `split_text` on `StallText()` with
      `chunkSize = 1000` and `chunkOverlap = 200`, although the overlap is
      smaller than the window. */
  lemma StallNeverFinishes(fuel: nat)
    ensures SplitText(StallText(), Default, fuel) == None
  {
    StallIteration();
    RunLeadsToStuck(Iteration(StallText(), Default), |StallText()|, 0, 400, fuel);
  }

  /** 5000 characters whose only space is at offset 100. */
  function RestartText(): string {
    seq(5000, i => if i == 100 then ' ' else 'a')
  }

  /** A cut before `chunkOverlap` makes `start` negative: the window at 0
      is cut at the space at 100, so the next start is -100. */
  lemma RestartFirstCut()
    ensures NextStart(RestartText(), 0, Default) == -100
  {
    var t := RestartText();
    NeverAt(t, "\n\n", 0);
    NeverAt(t, ". ", 0);
    assert t[100..101] == [' '];
    forall k | 100 < k && k + 1 <= 1000 ensures !IsAt(t, " ", k) {
      assert t[k..k + 1][0] == t[k] == 'a';
    }
    assert LastAfter(t, " ", 0, 1000, 100);
    CutPriority(t, 0, Default);
  }

  /** From -100 the searches find nothing, yet `-1 > start` holds, so the
      window is cut at -1: `text[-100:-1]`, the text's tail, is emitted and
      the next start is -201. */
  lemma RestartTail()
    ensures Step(RestartText(), -100, Default).chunk == RestartText()[4900..4999]
    ensures NextStart(RestartText(), -100, Default) == -201
  {
    var t := RestartText();
    assert CutAt(t, -100, 900, Breaks) == -1;
    var tail := t[4900..4999];
    assert Slice(t, -100, -1) == tail;
    assert tail[0] == 'a' && tail[|tail| - 1] == 'a';
  }

  /** From -201 the window is again cut at -1 and the loop stays at -201. */
  lemma RestartStuck()
    ensures NextStart(RestartText(), -201, Default) == -201
  {
    assert CutAt(RestartText(), -201, 799, Breaks) == -1;
  }

  /** The three restarts as the loop sees them. */
  lemma RestartIteration()
    ensures |RestartText()| == 5000
    ensures Iteration(RestartText(), Default)(0).next == -100
    ensures Iteration(RestartText(), Default)(-100).next == -201
    ensures Iteration(RestartText(), Default)(-201).next == -201
  {
    RestartFirstCut();
    RestartTail();
    RestartStuck();
    assert Iteration(RestartText(), Default)(0) == Step(RestartText(), 0, Default);
    assert Iteration(RestartText(), Default)(-100) == Step(RestartText(), -100, Default);
    assert Iteration(RestartText(), Default)(-201) == Step(RestartText(), -201, Default);
  }

  /** `split_text` on `RestartText()` never finishes either. */
  lemma RestartNeverFinishes(fuel: nat)
    ensures SplitText(RestartText(), Default, fuel) == None
  {
    RestartIteration();
    RunLeadsToStuckIn2(Iteration(RestartText(), Default), |RestartText()|, 0, -100, -201, fuel);
  }

  // ---------------------------------------------------------------------
  // `split_text` with the evidently intended progress guarantee.

  /** Total for every text once `chunkSize > 0`; a short text comes back
      whole. */
  function SplitFixed(text: string, cfg: Config): (r: seq<string>)
    requires cfg.chunkSize > 0
    ensures |text| <= cfg.chunkSize ==> r == [text]
  {
    if |text| <= cfg.chunkSize then [text]
    else
      IterationMoves(text, cfg);
      RunFixed(Iteration(text, cfg), |text|, 0)
  }

  /** The intended loop keeps both chunk properties on every text, with no
      side condition on how the cuts fall. */
  lemma SplitFixedChunks(text: string, cfg: Config)
    requires cfg.chunkSize > 0
    ensures |text| > cfg.chunkSize ==>
      AllStripped(SplitFixed(text, cfg)) && AllAtMost(SplitFixed(text, cfg), cfg.chunkSize)
  {
    if |text| > cfg.chunkSize {
      IterationMoves(text, cfg);
      IterationStripped(text, cfg);
      IterationBounded(text, cfg);
      RunFixedStripped(Iteration(text, cfg), |text|, 0);
      RunFixedBounded(Iteration(text, cfg), |text|, 0, cfg.chunkSize);
    }
  }

  /** The starts the intended loop visits on a text. */
  function FixedStarts(text: string, cfg: Config): seq<int>
    requires cfg.chunkSize > 0
  {
    IterationMoves(text, cfg);
    VisitedFixed(Iteration(text, cfg), |text|, 0)
  }

  /** The intended loop's chunks of a long text are `strip(text[start:end])`
      of the windows it visits, in order, every window starting inside the
      text. */
  lemma SplitFixedWindows(text: string, cfg: Config)
    requires cfg.chunkSize > 0 && |text| > cfg.chunkSize
    ensures var vs := FixedStarts(text, cfg);
      && SplitFixed(text, cfg) == Collect(Iteration(text, cfg), vs)
      && (forall j :: 0 <= j < |vs| ==> 0 <= vs[j] < |text|)
      && forall i :: 0 <= i < |SplitFixed(text, cfg)| ==> WindowOf(text, cfg, vs, SplitFixed(text, cfg)[i])
  {
    var it := Iteration(text, cfg);
    IterationMoves(text, cfg);
    var vs := VisitedFixed(it, |text|, 0);
    var r := SplitFixed(text, cfg);
    RunFixedVisits(it, |text|, 0);
    CollectFrom(it, vs);
    forall i | 0 <= i < |r| ensures WindowOf(text, cfg, vs, r[i]) {
      IterationWindows(text, cfg, vs, r[i]);
    }
  }

  /** With a non-negative overlap the windows of the intended loop cover
      the whole text: no character is skipped. */
  lemma SplitFixedCovers(text: string, cfg: Config)
    requires cfg.chunkSize > 0 && cfg.chunkOverlap >= 0
    ensures forall p :: 0 <= p < |text| ==> CoveredBy(text, cfg, FixedStarts(text, cfg), p)
  {
    var it := Iteration(text, cfg);
    IterationMoves(text, cfg);
    IterationNoGaps(text, cfg);
    var vs := VisitedFixed(it, |text|, 0);
    forall p | 0 <= p < |text| ensures CoveredBy(text, cfg, vs, p) {
      FixedCovers(it, |text|, 0, p);
      var j :| 0 <= j < |vs| && vs[j] <= p < it(vs[j]).end;
      assert it(vs[j]) == Step(text, vs[j], cfg);
    }
  }

  /** Wherever every iteration of the loop as written advances, the
      intended loop computes exactly the same chunks. Where some iteration
      it performs does not advance, the two may differ even if the loop as
      written finishes later on. */
  lemma FixedAgrees(text: string, cfg: Config)
    requires cfg.chunkSize > 0 && AdvancesFromZero(text, cfg)
    ensures SplitText(text, cfg, |text|) == Some(SplitFixed(text, cfg))
  {
    if |text| > cfg.chunkSize {
      IterationMoves(text, cfg);
      RunAgrees(Iteration(text, cfg), |text|, 0, |text|);
    }
  }

  /** On `StallText()` the intended loop leaves 400 for the cut at 600. */
  lemma FixedLeavesStall()
    ensures WindowsMove(Iteration(StallText(), Default))
    ensures FixedNext(Iteration(StallText(), Default), 400) == 600
  {
    IterationMoves(StallText(), Default);
    StallCut(400);
  }
}
