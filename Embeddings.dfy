/**
 * The per-segment voiceprint step: a window of half a second around the
 * middle of each segment, clamped to the waveform, is cut out and embedded;
 * the segment is kept only when the cut is non-empty and its embedding has
 * a positive norm. The encoder and the norm test are parameters: `embed`
 * stands for `encoder.embed_utterance` and `nonZero` for
 * `np.linalg.norm(e) > 0`.
 */
module Embeddings {

  import opened Segments

  /** A quarter of a second in samples: the window reaches this far either side. */
  const HalfWindow: int := 4000

  /** `HalfWindow` is 0.25 s at the sample rate. */
  lemma HalfWindowIsQuarterSecond()
    ensures 4 * HalfWindow == SampleRate
  {
  }

  function Max(a: int, b: int): int { if a < b then b else a }

  function Min(a: int, b: int): int { if a < b then a else b }

  /** `start + (end - start) / 2`, in samples. */
  function Midpoint(seg: Segment): int
  {
    seg.start + (seg.end - seg.start) / 2
  }

  /** The middle of a well-ordered segment lies inside it, rounded down to a whole sample. */
  lemma MidpointInSegment(seg: Segment)
    requires seg.start <= seg.end
    ensures seg.start <= Midpoint(seg) <= seg.end
    ensures 0 <= (seg.end - Midpoint(seg)) - (Midpoint(seg) - seg.start) <= 1
  {
  }

  /** `max(0, middle - 0.25 s)`. */
  function ExtractStart(middle: int): int
  {
    Max(0, middle - HalfWindow)
  }

  /** `min(duration, middle + 0.25 s)`. */
  function ExtractEnd(middle: int, wavLen: nat): int
  {
    Min(wavLen, middle + HalfWindow)
  }

  /** How Python normalises one bound of a slice `s[lo:hi]` of a sequence of length `len`. */
  function SliceBound(i: int, len: nat): (j: nat)
    ensures j <= len
    ensures 0 <= i <= len ==> j == i
  {
    if i < 0 then Max(0, i + len) else Min(i, len)
  }

  /** Python's `s[lo:hi]`: negative bounds count from the end, bounds are clamped. */
  function PySlice<T>(s: seq<T>, lo: int, hi: int): seq<T>
  {
    var a := SliceBound(lo, |s|);
    var b := SliceBound(hi, |s|);
    if a < b then s[a..b] else []
  }

  /** `wav_audio[int(start_extract * 16000):int(end_extract * 16000)]` for a window around `middle`. */
  function WindowSlice<S>(wav: seq<S>, middle: int): seq<S>
  {
    PySlice(wav, ExtractStart(middle), ExtractEnd(middle, |wav|))
  }

  /** The cut the script embeds for one segment. */
  function SegmentSlice<S>(seg: Segment, wav: seq<S>): seq<S>
  {
    WindowSlice(wav, Midpoint(seg))
  }

  /**
   * The window is clamped to the waveform and the cut is the plain
   * sub-sequence between its bounds: Python's counting from the end never
   * applies as long as the window does not end before the waveform starts
   * (which holds for every segment with a non-negative midpoint). The cut
   * is at most half a second long.
   */
  lemma WindowInBounds<S>(wav: seq<S>, middle: int)
    requires middle + HalfWindow >= 0
    ensures 0 <= ExtractStart(middle) && ExtractEnd(middle, |wav|) <= |wav|
    ensures WindowSlice(wav, middle) ==
      if ExtractStart(middle) < ExtractEnd(middle, |wav|) then wav[ExtractStart(middle)..ExtractEnd(middle, |wav|)] else []
    ensures |WindowSlice(wav, middle)| <= 2 * HalfWindow
  {
  }

  /** A window that lies inside the waveform yields the full half second around its middle. */
  lemma FullWindow<S>(wav: seq<S>, middle: int)
    requires HalfWindow <= middle && middle + HalfWindow <= |wav|
    ensures WindowSlice(wav, middle) == wav[middle - HalfWindow..middle + HalfWindow]
    ensures |WindowSlice(wav, middle)| == 2 * HalfWindow
  {
    var lo, hi := middle - HalfWindow, middle + HalfWindow;
    assert ExtractStart(middle) == lo && ExtractEnd(middle, |wav|) == hi;
    assert SliceBound(lo, |wav|) == lo && SliceBound(hi, |wav|) == hi;
    assert PySlice(wav, lo, hi) == wav[lo..hi];
  }

  /** A window that starts at or past the end of the waveform yields an empty cut. */
  lemma WindowPastEnd<S>(wav: seq<S>, middle: int)
    requires middle - HalfWindow >= |wav|
    ensures WindowSlice(wav, middle) == []
  {
  }

  /** Whether the script keeps a cut: it is non-empty and its embedding has a positive norm. */
  predicate UsableCut<S, E>(cut: seq<S>, embed: seq<S> -> E, nonZero: E -> bool)
  {
    |cut| > 0 && nonZero(embed(cut))
  }

  /** Whether the script keeps a segment: the cut around its middle is usable. */
  predicate Usable<S, E>(seg: Segment, wav: seq<S>, embed: seq<S> -> E, nonZero: E -> bool)
  {
    UsableCut(SegmentSlice(seg, wav), embed, nonZero)
  }

  /** The cut of every segment, in segment order. */
  function Cuts<S>(segments: seq<Segment>, wav: seq<S>): (cuts: seq<seq<S>>)
    ensures |cuts| == |segments|
  {
    seq(|segments|, i requires 0 <= i < |segments| => SegmentSlice(segments[i], wav))
  }

  /** `valid_indices` after the loop has looked at the first `n` cuts. */
  function KeptIndices<S, E>(cuts: seq<seq<S>>, embed: seq<S> -> E, nonZero: E -> bool, n: nat): (vi: seq<nat>)
    requires n <= |cuts|
  {
    if n == 0 then []
    else
      KeptIndices(cuts, embed, nonZero, n - 1) +
      (if UsableCut(cuts[n - 1], embed, nonZero) then [n - 1] else [])
  }

  /** `embeddings` after the loop has looked at the first `n` cuts, parallel to `KeptIndices`. */
  function KeptEmbeddings<S, E>(cuts: seq<seq<S>>, embed: seq<S> -> E, nonZero: E -> bool, n: nat): (es: seq<E>)
    requires n <= |cuts|
    ensures |es| == |KeptIndices(cuts, embed, nonZero, n)|
  {
    if n == 0 then []
    else
      KeptEmbeddings(cuts, embed, nonZero, n - 1) +
      (if UsableCut(cuts[n - 1], embed, nonZero) then [embed(cuts[n - 1])] else [])
  }

  /** The kept indices are strictly increasing and each is below `n`. */
  lemma {:induction false} KeptIndicesOrdered<S, E>(cuts: seq<seq<S>>, embed: seq<S> -> E, nonZero: E -> bool, n: nat)
    requires n <= |cuts|
    ensures StrictlyIncreasing(KeptIndices(cuts, embed, nonZero, n))
    ensures forall k :: 0 <= k < |KeptIndices(cuts, embed, nonZero, n)| ==> KeptIndices(cuts, embed, nonZero, n)[k] < n
  {
    if n > 0 {
      KeptIndicesOrdered(cuts, embed, nonZero, n - 1);
    }
  }

  /**
   * Cut `i` is kept exactly when it is usable: an empty cut, or one whose
   * embedding has norm zero, never enters `valid_indices`.
   */
  lemma {:induction false} KeptIndicesExact<S, E>(cuts: seq<seq<S>>, embed: seq<S> -> E, nonZero: E -> bool, n: nat)
    requires n <= |cuts|
    ensures forall i :: 0 <= i < n ==> (i in KeptIndices(cuts, embed, nonZero, n) <==> UsableCut(cuts[i], embed, nonZero))
  {
    if n > 0 {
      KeptIndicesExact(cuts, embed, nonZero, n - 1);
      KeptIndicesOrdered(cuts, embed, nonZero, n - 1);
      assert n - 1 !in KeptIndices(cuts, embed, nonZero, n - 1);
    }
  }

  /** The k-th kept embedding is the embedding of the k-th kept cut. */
  lemma {:induction false} KeptEmbeddingsParallel<S, E>(cuts: seq<seq<S>>, embed: seq<S> -> E, nonZero: E -> bool, n: nat)
    requires n <= |cuts|
    ensures var vi := KeptIndices(cuts, embed, nonZero, n);
      forall k :: 0 <= k < |vi| ==>
        vi[k] < |cuts| && KeptEmbeddings(cuts, embed, nonZero, n)[k] == embed(cuts[vi[k]])
  {
    KeptIndicesOrdered(cuts, embed, nonZero, n);
    if n > 0 {
      KeptEmbeddingsParallel(cuts, embed, nonZero, n - 1);
    }
  }

  /** When no cut is usable, nothing is collected. */
  lemma {:induction false} NothingUsableNothingKept<S, E>(cuts: seq<seq<S>>, embed: seq<S> -> E, nonZero: E -> bool, n: nat)
    requires n <= |cuts|
    requires forall i :: 0 <= i < n ==> !UsableCut(cuts[i], embed, nonZero)
    ensures KeptIndices(cuts, embed, nonZero, n) == []
    ensures KeptEmbeddings(cuts, embed, nonZero, n) == []
  {
    if n > 0 {
      NothingUsableNothingKept(cuts, embed, nonZero, n - 1);
    }
  }

  /** Segment `i` is kept exactly when it is usable, stated over the segments themselves. */
  lemma KeptSegmentsExact<S, E>(segments: seq<Segment>, wav: seq<S>, embed: seq<S> -> E, nonZero: E -> bool)
    ensures var vi := KeptIndices(Cuts(segments, wav), embed, nonZero, |segments|);
      StrictlyIncreasing(vi) &&
      (forall k :: 0 <= k < |vi| ==> vi[k] < |segments|) &&
      (forall i :: 0 <= i < |segments| ==> (i in vi <==> Usable(segments[i], wav, embed, nonZero)))
  {
    var cuts := Cuts(segments, wav);
    KeptIndicesOrdered(cuts, embed, nonZero, |segments|);
    KeptIndicesExact(cuts, embed, nonZero, |segments|);
    forall i | 0 <= i < |segments|
      ensures UsableCut(cuts[i], embed, nonZero) <==> Usable(segments[i], wav, embed, nonZero)
    {
      assert cuts[i] == SegmentSlice(segments[i], wav);
    }
  }

  /** The k-th kept embedding is the embedding of the cut of the k-th kept segment. */
  lemma KeptSegmentsEmbedded<S, E>(segments: seq<Segment>, wav: seq<S>, embed: seq<S> -> E, nonZero: E -> bool)
    ensures var cuts := Cuts(segments, wav);
      var vi := KeptIndices(cuts, embed, nonZero, |segments|);
      var es := KeptEmbeddings(cuts, embed, nonZero, |segments|);
      |es| == |vi| &&
      forall k :: 0 <= k < |vi| ==> vi[k] < |segments| && es[k] == embed(SegmentSlice(segments[vi[k]], wav))
  {
    var cuts := Cuts(segments, wav);
    var vi := KeptIndices(cuts, embed, nonZero, |segments|);
    KeptIndicesOrdered(cuts, embed, nonZero, |segments|);
    KeptEmbeddingsParallel(cuts, embed, nonZero, |segments|);
    forall k | 0 <= k < |vi|
      ensures vi[k] < |segments| && cuts[vi[k]] == SegmentSlice(segments[vi[k]], wav)
    {
    }
  }

  /** When no segment is usable, nothing is collected. */
  lemma NothingUsableSegments<S, E>(segments: seq<Segment>, wav: seq<S>, embed: seq<S> -> E, nonZero: E -> bool)
    requires forall i :: 0 <= i < |segments| ==> !Usable(segments[i], wav, embed, nonZero)
    ensures KeptIndices(Cuts(segments, wav), embed, nonZero, |segments|) == []
    ensures KeptEmbeddings(Cuts(segments, wav), embed, nonZero, |segments|) == []
  {
    var cuts := Cuts(segments, wav);
    forall i | 0 <= i < |segments|
      ensures !UsableCut(cuts[i], embed, nonZero)
    {
      assert cuts[i] == SegmentSlice(segments[i], wav);
    }
    NothingUsableNothingKept(cuts, embed, nonZero, |segments|);
  }

  /**
   * The collection loop: one forward pass over the segments that appends
   * the embedding and the index of every usable segment, in parallel.
   */
  method CollectEmbeddings<S, E>(segments: seq<Segment>, wav: seq<S>, embed: seq<S> -> E, nonZero: E -> bool)
    returns (embeddings: seq<E>, validIndices: seq<nat>)
    ensures validIndices == KeptIndices(Cuts(segments, wav), embed, nonZero, |segments|)
    ensures embeddings == KeptEmbeddings(Cuts(segments, wav), embed, nonZero, |segments|)
    ensures StrictlyIncreasing(validIndices) && |embeddings| == |validIndices|
    ensures forall k :: 0 <= k < |validIndices| ==>
      validIndices[k] < |segments| && embeddings[k] == embed(SegmentSlice(segments[validIndices[k]], wav))
    ensures forall i :: 0 <= i < |segments| ==>
      (i in validIndices <==> Usable(segments[i], wav, embed, nonZero))
  {
    ghost var cuts := Cuts(segments, wav);
    embeddings := [];
    validIndices := [];
    var i := 0;
    while i < |segments|
      invariant i <= |segments|
      invariant validIndices == KeptIndices(cuts, embed, nonZero, i)
      invariant embeddings == KeptEmbeddings(cuts, embed, nonZero, i)
    {
      var audioSegment := SegmentSlice(segments[i], wav);
      assert cuts[i] == audioSegment;
      ghost var usable := UsableCut(audioSegment, embed, nonZero);
      assert KeptIndices(cuts, embed, nonZero, i + 1) == validIndices + (if usable then [i] else []);
      assert KeptEmbeddings(cuts, embed, nonZero, i + 1) == embeddings + (if usable then [embed(audioSegment)] else []);
      if |audioSegment| > 0 {
        var embedding := embed(audioSegment);
        if nonZero(embedding) {
          embeddings := embeddings + [embedding];
          validIndices := validIndices + [i];
        }
      }
      i := i + 1;
    }
    KeptSegmentsExact(segments, wav, embed, nonZero);
    KeptSegmentsEmbedded(segments, wav, embed, nonZero);
  }
}
