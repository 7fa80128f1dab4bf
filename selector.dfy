/**
 * `extract_highlights`: a content scan over the transcript segments, a
 * random fill up to the requested number of clips, and a final slice.
 *
 * The random source is injected: `draws` holds the successive values
 * `random.random()` returns, each in [0, 1); fill iteration `k` consumes
 * `draws[2 * k]` for the start and `draws[2 * k + 1]` for the length.
 */
module Selector {
  import opened Wrappers
  import opened PyBuiltins
  import Scorer

  /** One entry of `transcription['segments']`. */
  datatype Segment = Segment(start: real, end: real, text: string)

  /** A highlight: the `(start, end)` tuple the selector appends. */
  datatype Span = Span(start: real, end: real)

  /** `transcription['segments'][-1]` on an empty list raises IndexError. */
  datatype Error = IndexError

  // ---------------------------------------------------------------------
  // Content scan
  // ---------------------------------------------------------------------

  /** The segment scores as interesting and its duration lies in [minLen, maxLen]. */
  predicate Qualifies(seg: Segment, minLen: real, maxLen: real, keywords: seq<string>) {
    Scorer.IsInteresting(seg.text, keywords) && minLen <= seg.end - seg.start <= maxLen
  }

  function SpanOf(seg: Segment): Span {
    Span(seg.start, seg.end)
  }

  /** The test the content scan applies to each segment, as a function value. */
  function Qualifier(minLen: real, maxLen: real, keywords: seq<string>): Segment -> bool {
    seg => Qualifies(seg, minLen, maxLen, keywords)
  }

  /**
   * What the `for` loop over the segments has appended after visiting the
   * first `n`, for a segment test `q`. The scan is stated for any test so
   * that its properties do not depend on how a segment is scored.
   */
  function ContentUpTo(segs: seq<Segment>, n: nat, q: Segment -> bool): seq<Span>
    requires n <= |segs|
  {
    if n == 0 then []
    else
      ContentUpTo(segs, n - 1, q)
        + (if q(segs[n - 1]) then [SpanOf(segs[n - 1])] else [])
  }

  /** What the content scan appends for the whole transcript. */
  function ContentSpans(segs: seq<Segment>, minLen: real, maxLen: real, keywords: seq<string>): seq<Span> {
    ContentUpTo(segs, |segs|, Qualifier(minLen, maxLen, keywords))
  }

  /** Reference for the content scan: the indices below `n` of the qualifying segments, in order. */
  function ContentIndices(segs: seq<Segment>, n: nat, q: Segment -> bool): seq<nat>
    requires n <= |segs|
  {
    if n == 0 then []
    else
      ContentIndices(segs, n - 1, q)
        + (if q(segs[n - 1]) then [n - 1] else [])
  }

  /**
   * The indices are strictly increasing, each names a qualifying segment
   * below `n`, and every qualifying segment below `n` is named.
   */
  predicate SelectsQualifying(segs: seq<Segment>, n: nat, idx: seq<nat>, q: Segment -> bool)
    requires n <= |segs|
  {
    (forall j :: 0 <= j < |idx| ==> idx[j] < n && q(segs[idx[j]])) &&
    (forall j, k :: 0 <= j < k < |idx| ==> idx[j] < idx[k]) &&
    (forall i :: 0 <= i < n && q(segs[i]) ==> i in idx)
  }

  lemma {:induction false} ContentIndicesSpec(segs: seq<Segment>, n: nat, q: Segment -> bool)
    requires n <= |segs|
    ensures SelectsQualifying(segs, n, ContentIndices(segs, n, q), q)
  {
    IndicesBelow(segs, n, q);
    IndicesIncreasing(segs, n, q);
    IndicesComplete(segs, n, q);
  }

  lemma {:induction false} IndicesBelow(segs: seq<Segment>, n: nat, q: Segment -> bool)
    requires n <= |segs|
    ensures forall j :: 0 <= j < |ContentIndices(segs, n, q)| ==>
      ContentIndices(segs, n, q)[j] < n && q(segs[ContentIndices(segs, n, q)[j]])
  {
    if n > 0 {
      IndicesBelow(segs, n - 1, q);
      var prior := ContentIndices(segs, n - 1, q);
      var idx := ContentIndices(segs, n, q);
      var tail := if q(segs[n - 1]) then [n - 1] else [];
      assert idx == prior + tail;
      forall j | 0 <= j < |idx| ensures idx[j] < n && q(segs[idx[j]]) {
        if j < |prior| {
          assert idx[j] == prior[j];
        } else {
          assert idx[j] == tail[0] == n - 1;
        }
      }
    }
  }

  lemma {:induction false} IndicesIncreasing(segs: seq<Segment>, n: nat, q: Segment -> bool)
    requires n <= |segs|
    ensures forall j, k :: 0 <= j < k < |ContentIndices(segs, n, q)| ==>
      ContentIndices(segs, n, q)[j] < ContentIndices(segs, n, q)[k]
  {
    if n > 0 {
      IndicesIncreasing(segs, n - 1, q);
      IndicesBelow(segs, n - 1, q);
      var prior := ContentIndices(segs, n - 1, q);
      var idx := ContentIndices(segs, n, q);
      var tail := if q(segs[n - 1]) then [n - 1] else [];
      assert idx == prior + tail;
      forall j, k | 0 <= j < k < |idx| ensures idx[j] < idx[k] {
        assert idx[j] == prior[j] < n - 1;
        if k < |prior| {
          assert idx[k] == prior[k];
        } else {
          assert idx[k] == tail[0] == n - 1;
        }
      }
    }
  }

  lemma {:induction false} IndicesComplete(segs: seq<Segment>, n: nat, q: Segment -> bool)
    requires n <= |segs|
    ensures forall i :: 0 <= i < n && q(segs[i]) ==> i in ContentIndices(segs, n, q)
  {
    if n > 0 {
      IndicesComplete(segs, n - 1, q);
      var prior := ContentIndices(segs, n - 1, q);
      var idx := ContentIndices(segs, n, q);
      assert idx[..|prior|] == prior;
      assert q(segs[n - 1]) ==> idx[|prior|] == n - 1;
    }
  }

  /**
   * The content phase emits exactly `(start, end)` of the qualifying
   * segments, in transcript order.
   */
  lemma {:induction false} ContentSpec(segs: seq<Segment>, n: nat, q: Segment -> bool)
    requires n <= |segs|
    ensures var idx := ContentIndices(segs, n, q);
      var content := ContentUpTo(segs, n, q);
      |content| == |idx| &&
      forall j :: 0 <= j < |idx| ==> idx[j] < |segs| && content[j] == SpanOf(segs[idx[j]])
  {
    if n > 0 {
      ContentSpec(segs, n - 1, q);
    }
  }

  /**
   * For the clipper's own test: segment `i` is selected exactly when it
   * scores as interesting and lasts between minLen and maxLen, and the
   * content spans are those segments' `(start, end)`, in transcript order.
   */
  lemma ContentScanSpec(segs: seq<Segment>, minLen: real, maxLen: real, keywords: seq<string>)
    ensures var idx := ContentIndices(segs, |segs|, Qualifier(minLen, maxLen, keywords));
      (forall i :: 0 <= i < |segs| ==>
        (i in idx <==> Scorer.IsInteresting(segs[i].text, keywords) && minLen <= segs[i].end - segs[i].start <= maxLen)) &&
      |ContentSpans(segs, minLen, maxLen, keywords)| == |idx| &&
      (forall j :: 0 <= j < |idx| ==> idx[j] < |segs| && ContentSpans(segs, minLen, maxLen, keywords)[j] == SpanOf(segs[idx[j]]))
  {
    var q := Qualifier(minLen, maxLen, keywords);
    ContentIndicesSpec(segs, |segs|, q);
    ContentSpec(segs, |segs|, q);
    var idx := ContentIndices(segs, |segs|, q);
    forall i | 0 <= i < |segs| && i in idx ensures q(segs[i]) {
      var j :| 0 <= j < |idx| && idx[j] == i;
    }
  }

  /** Every span lasts between minLen and maxLen. */
  predicate DurationsWithin(spans: seq<Span>, minLen: real, maxLen: real) {
    forall k :: 0 <= k < |spans| ==> minLen <= spans[k].end - spans[k].start <= maxLen
  }

  /** Every content span has a duration in [minLen, maxLen]. */
  lemma ContentDurations(segs: seq<Segment>, minLen: real, maxLen: real, keywords: seq<string>)
    ensures DurationsWithin(ContentSpans(segs, minLen, maxLen, keywords), minLen, maxLen)
  {
    var q := Qualifier(minLen, maxLen, keywords);
    ContentIndicesSpec(segs, |segs|, q);
    ContentSpec(segs, |segs|, q);
  }

  // ---------------------------------------------------------------------
  // Synthetic fill
  // ---------------------------------------------------------------------

  predicate ValidDraws(draws: seq<real>) {
    forall k :: 0 <= k < |draws| ==> 0.0 <= draws[k] < 1.0
  }

  /** One fill iteration: a start in [0, lastEnd - maxLen], a length in [minLen, maxLen]. */
  function Synthetic(lastEnd: real, minLen: real, maxLen: real, u: real, v: real): Span
    requires 0.0 <= u < 1.0 && 0.0 <= v < 1.0
  {
    var start := Uniform(0.0, lastEnd - maxLen, u);
    Span(start, start + Uniform(minLen, maxLen, v))
  }

  /** The spans the first `n` fill iterations append. */
  function Fill(lastEnd: real, minLen: real, maxLen: real, draws: seq<real>, n: nat): (f: seq<Span>)
    requires ValidDraws(draws) && 2 * n <= |draws|
    ensures |f| == n
  {
    if n == 0 then []
    else
      Fill(lastEnd, minLen, maxLen, draws, n - 1)
        + [Synthetic(lastEnd, minLen, maxLen, draws[2 * (n - 1)], draws[2 * (n - 1) + 1])]
  }

  /** Fill iteration `k` is built from draws `2 * k` and `2 * k + 1`. */
  lemma {:induction false} FillAt(lastEnd: real, minLen: real, maxLen: real, draws: seq<real>, n: nat, k: nat)
    requires ValidDraws(draws) && 2 * n <= |draws| && k < n
    ensures Fill(lastEnd, minLen, maxLen, draws, n)[k]
      == Synthetic(lastEnd, minLen, maxLen, draws[2 * k], draws[2 * k + 1])
  {
    if k < n - 1 {
      FillAt(lastEnd, minLen, maxLen, draws, n - 1, k);
    }
  }

  /**
   * With `lastEnd >= maxLen` and `minLen <= maxLen`, every synthetic span
   * starts in [0, lastEnd - maxLen] and lasts between minLen and maxLen.
   * With `lastEnd < maxLen` (a range the code never checks) the start lies
   * in [lastEnd - maxLen, 0] instead, so it can be negative.
   */
  lemma SyntheticBounds(lastEnd: real, minLen: real, maxLen: real, draws: seq<real>, n: nat)
    requires ValidDraws(draws) && 2 * n <= |draws|
    ensures var f := Fill(lastEnd, minLen, maxLen, draws, n);
      forall k :: 0 <= k < n ==>
        (maxLen <= lastEnd ==> 0.0 <= f[k].start <= lastEnd - maxLen) &&
        (lastEnd < maxLen ==> lastEnd - maxLen <= f[k].start <= 0.0) &&
        (minLen <= maxLen ==> minLen <= f[k].end - f[k].start <= maxLen)
    ensures minLen <= maxLen ==> DurationsWithin(Fill(lastEnd, minLen, maxLen, draws, n), minLen, maxLen)
  {
    var f := Fill(lastEnd, minLen, maxLen, draws, n);
    forall k | 0 <= k < n
      ensures (maxLen <= lastEnd ==> 0.0 <= f[k].start <= lastEnd - maxLen)
      ensures (lastEnd < maxLen ==> lastEnd - maxLen <= f[k].start <= 0.0)
      ensures (minLen <= maxLen ==> minLen <= f[k].end - f[k].start <= maxLen)
    {
      var u, v := draws[2 * k], draws[2 * k + 1];
      FillAt(lastEnd, minLen, maxLen, draws, n, k);
      assert f[k].start == Uniform(0.0, lastEnd - maxLen, u);
      assert f[k].end - f[k].start == Uniform(minLen, maxLen, v);
      UniformBounds(0.0, lastEnd - maxLen, u);
      UniformBounds(minLen, maxLen, v);
    }
  }

  // ---------------------------------------------------------------------
  // The whole selection
  // ---------------------------------------------------------------------

  /** The number of random values the fill loop reads; on an empty transcript it raises before reading any. */
  function DrawsNeeded(segs: seq<Segment>, minLen: real, maxLen: real, keywords: seq<string>, numClips: int): int {
    if segs == [] then 0 else 2 * (numClips - |ContentSpans(segs, minLen, maxLen, keywords)|)
  }

  /**
   * What `extract_highlights` returns, or the error it raises. It fails
   * only when the fill has to run on an empty transcript. Otherwise a
   * non-negative `numClips` gives exactly `numClips` spans, the first
   * `numClips` content spans whenever there are that many, and a negative
   * `numClips` drops that many content spans from the end, as Python's
   * slice does.
   */
  function Highlights(segs: seq<Segment>, minLen: real, maxLen: real, keywords: seq<string>, numClips: int,
                      draws: seq<real>): (r: Result<seq<Span>, Error>)
    requires ValidDraws(draws) && DrawsNeeded(segs, minLen, maxLen, keywords, numClips) <= |draws|
    ensures r.Failure? <==> segs == [] && 0 < numClips
    ensures r.Success? && 0 <= numClips ==> |r.value| == numClips
    ensures var content := ContentSpans(segs, minLen, maxLen, keywords);
      0 <= numClips <= |content| ==> r == Success(content[..numClips])
    ensures var content := ContentSpans(segs, minLen, maxLen, keywords);
      numClips < 0 ==> r == Success(content[..if |content| + numClips <= 0 then 0 else |content| + numClips])
  {
    var content := ContentSpans(segs, minLen, maxLen, keywords);
    if numClips <= |content| then Success(PyPrefix(content, numClips))
    else if segs == [] then Failure(IndexError)
    else
      var lastEnd := segs[|segs| - 1].end;
      Success(PyPrefix(content + Fill(lastEnd, minLen, maxLen, draws, numClips - |content|), numClips))
  }

  /** The `for` loop of `extract_highlights` over the transcript segments. */
  method ScanContent(segs: seq<Segment>, minLen: real, maxLen: real, keywords: seq<string>) returns (highlights: seq<Span>)
    ensures highlights == ContentSpans(segs, minLen, maxLen, keywords)
  {
    highlights := [];
    for i := 0 to |segs|
      invariant highlights == ContentUpTo(segs, i, Qualifier(minLen, maxLen, keywords))
    {
      var seg := segs[i];
      var duration := seg.end - seg.start;
      if Scorer.IsInteresting(seg.text, keywords) {
        if minLen <= duration <= maxLen {
          highlights := highlights + [Span(seg.start, seg.end)];
        }
      }
    }
  }

  /** `extract_highlights`: the content scan, the `while` loop that fills up to `numClips`, and the slice. */
  method ExtractHighlights(segs: seq<Segment>, minLen: real, maxLen: real, keywords: seq<string>, numClips: int,
                           draws: seq<real>) returns (r: Result<seq<Span>, Error>)
    requires ValidDraws(draws) && DrawsNeeded(segs, minLen, maxLen, keywords, numClips) <= |draws|
    ensures r == Highlights(segs, minLen, maxLen, keywords, numClips, draws)
  {
    var highlights := ScanContent(segs, minLen, maxLen, keywords);
    ghost var content := highlights;
    ghost var fillEnd := if segs == [] then 0.0 else segs[|segs| - 1].end;
    HighlightsCases(segs, minLen, maxLen, keywords, numClips, draws);
    var drawn: nat := 0;
    while |highlights| < numClips
      invariant |highlights| == |content| + drawn
      invariant drawn == 0 || |content| + drawn <= numClips
      invariant drawn > 0 ==> segs != []
      invariant highlights == content + Fill(fillEnd, minLen, maxLen, draws, drawn)
      decreases numClips - |highlights|
    {
      if segs == [] {
        return Failure(IndexError);
      }
      var lastEnd := segs[|segs| - 1].end;
      var start := Uniform(0.0, lastEnd - maxLen, draws[2 * drawn]);
      var end := start + Uniform(minLen, maxLen, draws[2 * drawn + 1]);
      assert Span(start, end) == Synthetic(fillEnd, minLen, maxLen, draws[2 * drawn], draws[2 * drawn + 1]);
      highlights := highlights + [Span(start, end)];
      drawn := drawn + 1;
    }
    r := Success(PyPrefix(highlights, numClips));
    if drawn == 0 {
      assert highlights == content;
    } else {
      assert highlights == content + Fill(fillEnd, minLen, maxLen, draws, numClips - |content|);
    }
  }

  /** The three outcomes of the selection, one per branch of `Highlights`. */
  lemma HighlightsCases(segs: seq<Segment>, minLen: real, maxLen: real, keywords: seq<string>, numClips: int,
                        draws: seq<real>)
    requires ValidDraws(draws) && DrawsNeeded(segs, minLen, maxLen, keywords, numClips) <= |draws|
    ensures var content := ContentSpans(segs, minLen, maxLen, keywords);
      numClips <= |content| ==> Highlights(segs, minLen, maxLen, keywords, numClips, draws) == Success(PyPrefix(content, numClips))
    ensures var content := ContentSpans(segs, minLen, maxLen, keywords);
      segs == [] && |content| < numClips ==> Highlights(segs, minLen, maxLen, keywords, numClips, draws) == Failure(IndexError)
    ensures var content := ContentSpans(segs, minLen, maxLen, keywords);
      segs != [] && |content| < numClips ==>
        2 * (numClips - |content|) <= |draws| &&
        Highlights(segs, minLen, maxLen, keywords, numClips, draws)
          == Success(PyPrefix(content + Fill(segs[|segs| - 1].end, minLen, maxLen, draws, numClips - |content|), numClips))
  {
  }

  // ---------------------------------------------------------------------
  // Properties of the selection
  // ---------------------------------------------------------------------

  /**
   * Content spans come first, synthetic ones after: with `m` the smaller of
   * `numClips` and the number of content spans, the result is the first `m`
   * content spans followed by the first `numClips - m` fill iterations.
   */
  lemma ContentBeforeSynthetic(segs: seq<Segment>, minLen: real, maxLen: real, keywords: seq<string>, numClips: int,
                               draws: seq<real>)
    requires ValidDraws(draws) && DrawsNeeded(segs, minLen, maxLen, keywords, numClips) <= |draws|
    requires segs != [] && 0 <= numClips
    ensures var r := Highlights(segs, minLen, maxLen, keywords, numClips, draws);
      var content := ContentSpans(segs, minLen, maxLen, keywords);
      var m := if numClips <= |content| then numClips else |content|;
      2 * (numClips - m) <= |draws| &&
      r == Success(content[..m] + Fill(segs[|segs| - 1].end, minLen, maxLen, draws, numClips - m))
  {
    var content := ContentSpans(segs, minLen, maxLen, keywords);
    var lastEnd := segs[|segs| - 1].end;
    if numClips <= |content| {
      var f := Fill(lastEnd, minLen, maxLen, draws, 0);
      assert f == [];
      assert content[..numClips] + f == content[..numClips];
    } else {
      var f := Fill(lastEnd, minLen, maxLen, draws, numClips - |content|);
      assert Highlights(segs, minLen, maxLen, keywords, numClips, draws) == Success(PyPrefix(content + f, numClips));
      assert PyPrefix(content + f, numClips) == content + f;
      assert content[..|content|] == content;
    }
  }

  lemma PrefixDurations(spans: seq<Span>, n: int, minLen: real, maxLen: real)
    requires DurationsWithin(spans, minLen, maxLen)
    ensures DurationsWithin(PyPrefix(spans, n), minLen, maxLen)
  {
    var p := PyPrefix(spans, n);
    assert p == spans[..|p|];
  }

  lemma ConcatDurations(a: seq<Span>, b: seq<Span>, minLen: real, maxLen: real)
    requires DurationsWithin(a, minLen, maxLen) && DurationsWithin(b, minLen, maxLen)
    ensures DurationsWithin(a + b, minLen, maxLen)
  {
    forall k | |a| <= k < |a + b| ensures (a + b)[k] == b[k - |a|] { }
  }

  /**
   * Every selected span lasts between minLen and maxLen, provided
   * minLen <= maxLen.
   */
  lemma HighlightDurations(segs: seq<Segment>, minLen: real, maxLen: real, keywords: seq<string>, numClips: int,
                           draws: seq<real>)
    requires ValidDraws(draws) && DrawsNeeded(segs, minLen, maxLen, keywords, numClips) <= |draws|
    requires minLen <= maxLen
    ensures var r := Highlights(segs, minLen, maxLen, keywords, numClips, draws);
      r.Success? ==> DurationsWithin(r.value, minLen, maxLen)
  {
    var content := ContentSpans(segs, minLen, maxLen, keywords);
    ContentDurations(segs, minLen, maxLen, keywords);
    if numClips <= |content| {
      PrefixDurations(content, numClips, minLen, maxLen);
    } else if segs != [] {
      var lastEnd := segs[|segs| - 1].end;
      var n := numClips - |content|;
      SyntheticBounds(lastEnd, minLen, maxLen, draws, n);
      var f := Fill(lastEnd, minLen, maxLen, draws, n);
      ConcatDurations(content, f, minLen, maxLen);
      PrefixDurations(content + f, numClips, minLen, maxLen);
    }
  }
}
