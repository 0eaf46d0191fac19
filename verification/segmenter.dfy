/**
 * The text segmenter of the document processor (`split_text`): a window of
 * `chunkSize` characters slides over the text, each window is cut back to the
 * last paragraph break, sentence end or space after its start, the stripped
 * window is emitted, and the next window starts `chunkOverlap` characters
 * before the cut.
 *
 * One loop iteration is the pure function `Step`; the loop that repeats it
 * lives in the `Splitter` module.
 * Python's negative slice and `rfind` bounds are modelled, not clamped.
 */
module Segmenter {
  import opened Wrappers
  import opened PyStrings

  /** The processor's two constructor parameters. Neither is validated, so
      any integers are admitted here too. */
  datatype Config = Config(chunkSize: int, chunkOverlap: int)

  /** The constructor defaults. */
  const Default := Config(1000, 200)

  /** `p` is the last occurrence of `sub` that starts strictly after `lo`
      and ends by `hi`. */
  predicate LastAfter(text: string, sub: string, lo: int, hi: int, p: int) {
    && lo < p && p + |sub| <= hi && IsAt(text, sub, p)
    && forall k :: p < k && k + |sub| <= hi ==> !IsAt(text, sub, k)
  }

  /** No occurrence of `sub` starts strictly after `lo` and ends by `hi`. */
  predicate NoneAfter(text: string, sub: string, lo: int, hi: int) {
    forall k :: lo < k && k + |sub| <= hi ==> !IsAt(text, sub, k)
  }

  /** A cut-point kind: the pattern searched for and where, relative to
      the match, the window is cut. */
  datatype Break = Break(pattern: string, keep: nat)

  /** The cut points in priority order: paragraph break, sentence end
      (keeping the period), space. */
  const Breaks: seq<Break> := [Break("\n\n", 0), Break(". ", 1), Break(" ", 0)]

  /** The cut for the first kind in `kinds` that occurs after `start`
      within `[start, end)`, or `end` for a hard cut. */
  function CutAt(text: string, start: int, end: int, kinds: seq<Break>): (cut: int)
    requires forall i :: 0 <= i < |kinds| ==> kinds[i].keep < |kinds[i].pattern|
    ensures cut == end || cut > start
    ensures 0 <= start && 0 <= end ==> cut <= end
  {
    if kinds == [] then end
    else
      var p := RFind(text, kinds[0].pattern, start, end);
      if p > start then p + kinds[0].keep else CutAt(text, start, end, kinds[1..])
  }

  /** When none of the kinds occurs in the window, the cut is a hard cut. */
  lemma {:induction false} CutAtMisses(text: string, start: int, end: int, kinds: seq<Break>)
    requires forall i :: 0 <= i < |kinds| ==> kinds[i].keep < |kinds[i].pattern|
    requires 0 <= start
    requires forall i :: 0 <= i < |kinds| ==> RFind(text, kinds[i].pattern, start, end) == -1
    ensures CutAt(text, start, end, kinds) == end
    decreases |kinds|
  {
    if kinds != [] {
      assert RFind(text, kinds[0].pattern, start, end) == -1;
      CutAtMisses(text, start, end, kinds[1..]);
    }
  }

  /** Where the window that begins at `start` is cut. */
  function CutEnd(text: string, start: int, cfg: Config): (end: int)
    ensures cfg.chunkSize > 0 ==> end > start
    ensures 0 <= start && 0 <= start + cfg.chunkSize ==> end <= start + cfg.chunkSize
  {
    var end := start + cfg.chunkSize;
    if end < |text| then CutAt(text, start, end, Breaks) else end
  }

  /** A window of a text with no break in it is cut at its full size. */
  lemma HardCut(text: string, start: int, cfg: Config)
    requires 0 <= start
    requires forall k :: !IsAt(text, "\n\n", k)
    requires forall k :: !IsAt(text, ". ", k)
    requires forall k :: !IsAt(text, " ", k)
    ensures CutEnd(text, start, cfg) == start + cfg.chunkSize
  {
    var end := start + cfg.chunkSize;
    if end < |text| {
      forall i | 0 <= i < |Breaks| ensures RFind(text, Breaks[i].pattern, start, end) == -1 {
        assert !IsAt(text, Breaks[i].pattern, RFind(text, Breaks[i].pattern, start, end));
      }
      CutAtMisses(text, start, end, Breaks);
    }
  }

  /** Within a window that lies inside the text, the last match (if any)
      found by `rfind` after `lo` is exactly the last occurrence after `lo`. */
  lemma LastOrNone(text: string, sub: string, lo: int, hi: int)
    requires 0 <= lo <= hi <= |text|
    ensures var r := RFind(text, sub, lo, hi);
      && (r > lo ==> LastAfter(text, sub, lo, hi, r))
      && (r <= lo ==> NoneAfter(text, sub, lo, hi))
      && forall p :: LastAfter(text, sub, lo, hi, p) ==> p == r
  {
    var r := RFind(text, sub, lo, hi);
    RFindMisses(text, sub, lo, hi);
    forall p | LastAfter(text, sub, lo, hi, p) ensures p == r {
      assert NormIndex(hi, |text|) == hi;
    }
  }

  /** Cut-point priority: the last paragraph break after `start`, else the
      last `". "` after `start` (keeping the period), else the last space
      after `start`, else a hard cut at `start + chunkSize`. Together with
      `LastOrNone` the four cases are exhaustive. */
  lemma CutPriority(text: string, start: int, cfg: Config)
    requires 0 <= start && 0 <= cfg.chunkSize && start + cfg.chunkSize < |text|
    ensures var w := start + cfg.chunkSize; var e := CutEnd(text, start, cfg);
      && (forall p :: LastAfter(text, "\n\n", start, w, p) ==> e == p)
      && (NoneAfter(text, "\n\n", start, w) ==>
            forall q :: LastAfter(text, ". ", start, w, q) ==> e == q + 1)
      && (NoneAfter(text, "\n\n", start, w) && NoneAfter(text, ". ", start, w) ==>
            forall p :: LastAfter(text, " ", start, w, p) ==> e == p)
      && ((NoneAfter(text, "\n\n", start, w) && NoneAfter(text, ". ", start, w)
           && NoneAfter(text, " ", start, w)) ==> e == w)
  {
    var w := start + cfg.chunkSize;
    assert CutEnd(text, start, cfg) == CutAt(text, start, w, Breaks);
    ThreeKinds(text, start, w, "\n\n", 0, ". ", 1, " ", 0);
  }

  /** The priority among three kinds of cut, for any three kinds. */
  lemma ThreeKinds(text: string, start: int, w: int, pa: string, ka: nat, pb: string, kb: nat, pc: string, kc: nat)
    requires 0 <= start <= w <= |text| && ka < |pa| && kb < |pb| && kc < |pc|
    ensures var e := CutAt(text, start, w, [Break(pa, ka), Break(pb, kb), Break(pc, kc)]);
      && (forall p :: LastAfter(text, pa, start, w, p) ==> e == p + ka)
      && (NoneAfter(text, pa, start, w) ==>
            forall q :: LastAfter(text, pb, start, w, q) ==> e == q + kb)
      && (NoneAfter(text, pa, start, w) && NoneAfter(text, pb, start, w) ==>
            forall p :: LastAfter(text, pc, start, w, p) ==> e == p + kc)
      && ((NoneAfter(text, pa, start, w) && NoneAfter(text, pb, start, w)
           && NoneAfter(text, pc, start, w)) ==> e == w)
  {
    var kinds := [Break(pa, ka), Break(pb, kb), Break(pc, kc)];
    var b1, b2 := kinds[1..], kinds[2..];
    assert b1[0] == kinds[1] && b2[0] == kinds[2] && b1[1..] == b2 && b2[1..] == [];
    FirstKindDecides(text, start, w, kinds);
    FirstKindDecides(text, start, w, b1);
    FirstKindDecides(text, start, w, b2);
  }

  /** The first kind in the list decides the cut when it occurs after
      `start`; otherwise the rest of the list does. */
  lemma FirstKindDecides(text: string, start: int, w: int, kinds: seq<Break>)
    requires 0 <= start <= w <= |text| && kinds != []
    requires forall i :: 0 <= i < |kinds| ==> kinds[i].keep < |kinds[i].pattern|
    ensures forall p :: LastAfter(text, kinds[0].pattern, start, w, p) ==>
              CutAt(text, start, w, kinds) == p + kinds[0].keep
    ensures NoneAfter(text, kinds[0].pattern, start, w) ==>
              CutAt(text, start, w, kinds) == CutAt(text, start, w, kinds[1..])
  {
    LastOrNone(text, kinds[0].pattern, start, w);
  }

  /** One iteration of the loop: the cut, the chunk kept from the window
      (empty when the stripped window is empty, and then not emitted), and
      where the next window starts. Before the end of the text the next
      window overlaps this one's cut by exactly `chunkOverlap` characters;
      a window that reaches the end of the text ends the loop. The loop
      moves forward exactly when the window ends the loop or its cut lies
      more than `chunkOverlap` characters after `start`. */
  datatype StepResult = StepResult(end: int, chunk: string, next: int)

  function Step(text: string, start: int, cfg: Config): (s: StepResult)
    ensures s.chunk != [] ==> !IsSpace(s.chunk[0]) && !IsSpace(s.chunk[|s.chunk| - 1])
    ensures s.end < |text| ==> s.end - s.next == cfg.chunkOverlap
    ensures s.end >= |text| ==> s.next >= |text|
    ensures cfg.chunkSize > 0 ==> (s.next > start <==> s.end >= |text| || s.end - start > cfg.chunkOverlap)
  {
    var end := CutEnd(text, start, cfg);
    var chunk := Strip(Slice(text, start, end));
    StepResult(end, chunk, if end < |text| then end - cfg.chunkOverlap else end)
  }

  /** From a non-negative start, the window `text[start:end]` is never
      longer than `chunkSize`. */
  lemma StepChunkBounded(text: string, start: int, cfg: Config)
    requires 0 <= start && 0 <= cfg.chunkSize
    ensures |Step(text, start, cfg).chunk| <= cfg.chunkSize
  {
    assert |Slice(text, start, CutEnd(text, start, cfg))| <= cfg.chunkSize;
  }

  /** The chunk list a step contributes. */
  function Emit(s: StepResult): seq<string> {
    if s.chunk == [] then [] else [s.chunk]
  }

  /** A chunk as the long-text branch emits it: non-empty, with no
      whitespace at either end. */
  predicate IsStrippedChunk(c: string) {
    c != [] && !IsSpace(c[0]) && !IsSpace(c[|c| - 1])
  }

  /** Every element of `cs` is a stripped, non-empty chunk. */
  predicate AllStripped(cs: seq<string>) {
    forall i :: 0 <= i < |cs| ==> IsStrippedChunk(cs[i])
  }

  lemma AllStrippedConcat(a: seq<string>, b: seq<string>)
    requires AllStripped(a) && AllStripped(b)
    ensures AllStripped(a + b)
  {
    forall i | 0 <= i < |a + b| ensures IsStrippedChunk((a + b)[i]) {
      if i < |a| { assert (a + b)[i] == a[i]; } else { assert (a + b)[i] == b[i - |a|]; }
    }
  }

  lemma AllAtMostConcat(a: seq<string>, b: seq<string>, size: int)
    requires AllAtMost(a, size) && AllAtMost(b, size)
    ensures AllAtMost(a + b, size)
  {
    forall i | 0 <= i < |a + b| ensures |(a + b)[i]| <= size {
      if i < |a| { assert (a + b)[i] == a[i]; } else { assert (a + b)[i] == b[i - |a|]; }
    }
  }

  /** Every element of `cs` is at most `size` long. */
  predicate AllAtMost(cs: seq<string>, size: int) {
    forall i :: 0 <= i < |cs| ==> |cs[i]| <= size
  }

  /** Where the iteration that starts at `start` sends the loop next. */
  function NextStart(text: string, start: int, cfg: Config): int {
    Step(text, start, cfg).next
  }

  /** A pattern with a character that does not occur in the text occurs
      nowhere in it. */
  lemma NeverAt(text: string, sub: string, j: nat)
    requires j < |sub|
    requires forall i :: 0 <= i < |text| ==> text[i] != sub[j]
    ensures forall k :: !IsAt(text, sub, k)
  {
    forall k | 0 <= k && k + |sub| <= |text| ensures !IsAt(text, sub, k) {
      assert text[k..k + |sub|][j] == text[k + j];
    }
  }
}
