/**
 * One pass of the per-file loop body: read the speaker count (or skip the
 * file), collect the embeddings, cluster them and merge the labels back
 * into the transcript. The recogniser's segments, the waveform and the
 * three model calls come in as parameters.
 */
module Pipeline {

  import opened Wrappers
  import opened Text
  import opened Segments
  import opened SpeakerCount
  import opened Embeddings
  import opened Clustering
  import opened Merge

  /** The cluster ids the script obtains for a file. */
  function FileClusters<S, E(!new)>(
    bounds: SpeakerBounds, segments: seq<Segment>, wav: seq<S>,
    embed: seq<S> -> E, nonZero: E -> bool, predict: (SpeakerBounds, seq<E>) -> seq<int>): (clusters: seq<int>)
    requires OneIdPerEmbedding(predict)
    ensures |clusters| == |KeptIndices(Cuts(segments, wav), embed, nonZero, |segments|)|
  {
    ClusterIds(KeptEmbeddings(Cuts(segments, wav), embed, nonZero, |segments|), bounds, predict)
  }

  /** The transcript lines the script writes for a file. */
  function FileLines<S, E(!new)>(
    bounds: SpeakerBounds, segments: seq<Segment>, wav: seq<S>,
    embed: seq<S> -> E, nonZero: E -> bool, predict: (SpeakerBounds, seq<E>) -> seq<int>): (lines: seq<Line>)
    requires OneIdPerEmbedding(predict)
    ensures |lines| == |segments|
  {
    MergedLines(segments, KeptIndices(Cuts(segments, wav), embed, nonZero, |segments|),
      FileClusters(bounds, segments, wav, embed, nonZero, predict))
  }

  /**
   * The loop body for one file: `None` when the speaker count is rejected
   * and the file is skipped, otherwise the text written to the `.txt` file.
   */
  method TranscribeFile<S, E(!new)>(
    speakerInput: string, segments: seq<Segment>, wav: seq<S>,
    embed: seq<S> -> E, nonZero: E -> bool, predict: (SpeakerBounds, seq<E>) -> seq<int>)
    returns (transcript: Option<string>)
    requires OneIdPerEmbedding(predict)
    ensures transcript.None? <==> ParseSpeakerCount(speakerInput).None?
    ensures transcript.Some? ==>
      transcript.value == Render(FileLines(ParseSpeakerCount(speakerInput).value, segments, wav, embed, nonZero, predict))
  {
    var parsed := ParseSpeakerCount(speakerInput);
    if parsed.None? {
      return None;
    }
    var bounds := parsed.value;
    var embeddings, validIndices := CollectEmbeddings(segments, wav, embed, nonZero);
    var clusters := ClusterIds(embeddings, bounds, predict);
    var finalText := MergeTranscript(segments, validIndices, clusters);
    transcript := Some(finalText);
  }

  /**
   * End to end: one line per segment in segment order, carrying the
   * stripped text; a segment gets a speaker label exactly when its cut was
   * usable, and the k-th kept segment gets the k-th cluster id; the ids
   * appear in the transcript once each, in order.
   */
  lemma FileLinesCorrect<S, E(!new)>(
    bounds: SpeakerBounds, segments: seq<Segment>, wav: seq<S>,
    embed: seq<S> -> E, nonZero: E -> bool, predict: (SpeakerBounds, seq<E>) -> seq<int>)
    requires OneIdPerEmbedding(predict)
    ensures var lines := FileLines(bounds, segments, wav, embed, nonZero, predict);
      |lines| == |segments| &&
      forall i :: 0 <= i < |segments| ==>
        lines[i].text == Strip(segments[i].text, StrBlanks) &&
        (lines[i].speaker.Speaker? <==> Usable(segments[i], wav, embed, nonZero))
    ensures var lines := FileLines(bounds, segments, wav, embed, nonZero, predict);
      var vi := KeptIndices(Cuts(segments, wav), embed, nonZero, |segments|);
      var clusters := FileClusters(bounds, segments, wav, embed, nonZero, predict);
      (forall k :: 0 <= k < |vi| ==> vi[k] < |lines| && lines[vi[k]].speaker == Speaker(clusters[k])) &&
      SpeakerIds(lines) == clusters
  {
    FileLinesLabelled(bounds, segments, wav, embed, nonZero, predict);
    FileLinesClustered(bounds, segments, wav, embed, nonZero, predict);
  }

  /** The text and the presence of a label, line by line. */
  lemma FileLinesLabelled<S, E(!new)>(
    bounds: SpeakerBounds, segments: seq<Segment>, wav: seq<S>,
    embed: seq<S> -> E, nonZero: E -> bool, predict: (SpeakerBounds, seq<E>) -> seq<int>)
    requires OneIdPerEmbedding(predict)
    ensures var lines := FileLines(bounds, segments, wav, embed, nonZero, predict);
      |lines| == |segments| &&
      forall i :: 0 <= i < |segments| ==>
        lines[i].text == Strip(segments[i].text, StrBlanks) &&
        (lines[i].speaker.Speaker? <==> Usable(segments[i], wav, embed, nonZero))
  {
    var lines := FileLines(bounds, segments, wav, embed, nonZero, predict);
    var vi := KeptIndices(Cuts(segments, wav), embed, nonZero, |segments|);
    var clusters := FileClusters(bounds, segments, wav, embed, nonZero, predict);
    KeptSegmentsExact(segments, wav, embed, nonZero);
    MergedLinesLabels(segments, vi, clusters);
  }

  /** The k-th kept segment carries the k-th cluster id, and the ids appear once each, in order. */
  lemma FileLinesClustered<S, E(!new)>(
    bounds: SpeakerBounds, segments: seq<Segment>, wav: seq<S>,
    embed: seq<S> -> E, nonZero: E -> bool, predict: (SpeakerBounds, seq<E>) -> seq<int>)
    requires OneIdPerEmbedding(predict)
    ensures var lines := FileLines(bounds, segments, wav, embed, nonZero, predict);
      var vi := KeptIndices(Cuts(segments, wav), embed, nonZero, |segments|);
      var clusters := FileClusters(bounds, segments, wav, embed, nonZero, predict);
      (forall k :: 0 <= k < |vi| ==> vi[k] < |lines| && lines[vi[k]].speaker == Speaker(clusters[k])) &&
      SpeakerIds(lines) == clusters
  {
    var lines := FileLines(bounds, segments, wav, embed, nonZero, predict);
    var vi := KeptIndices(Cuts(segments, wav), embed, nonZero, |segments|);
    var clusters := FileClusters(bounds, segments, wav, embed, nonZero, predict);
    KeptIndicesOrdered(Cuts(segments, wav), embed, nonZero, |segments|);
    forall k | 0 <= k < |vi|
      ensures lines[vi[k]].speaker == Speaker(clusters[k])
    {
      LabelCorrect(vi, clusters, vi[k]);
    }
    EachClusterUsedOnce(segments, vi, clusters);
    assert clusters[..|vi|] == clusters;
  }

  /**
   * When no segment yields a usable embedding, the clusterer's answer
   * plays no part and every line is `Unbekannt`.
   */
  lemma NoEmbeddingsAllUnknown<S, E(!new)>(
    bounds: SpeakerBounds, segments: seq<Segment>, wav: seq<S>,
    embed: seq<S> -> E, nonZero: E -> bool,
    predict: (SpeakerBounds, seq<E>) -> seq<int>, other: (SpeakerBounds, seq<E>) -> seq<int>)
    requires OneIdPerEmbedding(predict) && OneIdPerEmbedding(other)
    requires forall i :: 0 <= i < |segments| ==> !Usable(segments[i], wav, embed, nonZero)
    ensures FileClusters(bounds, segments, wav, embed, nonZero, predict) == []
    ensures FileLines(bounds, segments, wav, embed, nonZero, predict) == FileLines(bounds, segments, wav, embed, nonZero, other)
    ensures forall i :: 0 <= i < |segments| ==> FileLines(bounds, segments, wav, embed, nonZero, predict)[i].speaker == Unknown
  {
    NothingUsableSegments(segments, wav, embed, nonZero);
    FileLinesCorrect(bounds, segments, wav, embed, nonZero, predict);
  }

  /**
   * The written transcript splits at newlines into exactly one
   * `label: text` line per segment, in segment order, when no segment text
   * holds a newline of its own.
   */
  lemma TranscriptOneLinePerSegment<S, E(!new)>(
    bounds: SpeakerBounds, segments: seq<Segment>, wav: seq<S>,
    embed: seq<S> -> E, nonZero: E -> bool, predict: (SpeakerBounds, seq<E>) -> seq<int>)
    requires OneIdPerEmbedding(predict)
    requires forall i :: 0 <= i < |segments| ==> '\n' !in Strip(segments[i].text, StrBlanks)
    ensures var lines := FileLines(bounds, segments, wav, embed, nonZero, predict);
      var parts := Split(Render(lines), '\n');
      |parts| == |segments| + 1 && parts[|segments|] == "" &&
      forall i :: 0 <= i < |segments| ==>
        parts[i] == LabelText(lines[i].speaker) + ": " + Strip(segments[i].text, StrBlanks)
  {
    var lines := FileLines(bounds, segments, wav, embed, nonZero, predict);
    FileLinesCorrect(bounds, segments, wav, embed, nonZero, predict);
    forall i | 0 <= i < |lines| ensures '\n' !in lines[i].text {
      assert lines[i].text == Strip(segments[i].text, StrBlanks);
    }
    RenderSplitsIntoLines(lines);
    assert Split(Render(lines), '\n') == LineTexts(lines) + [""];
  }

  /**
   * A newline left inside a segment's stripped text breaks that segment's
   * line in two: the written text then has more lines than segments.
   */
  lemma TranscriptInnerNewline<S, E(!new)>(
    bounds: SpeakerBounds, segments: seq<Segment>, wav: seq<S>,
    embed: seq<S> -> E, nonZero: E -> bool, predict: (SpeakerBounds, seq<E>) -> seq<int>, i: nat)
    requires OneIdPerEmbedding(predict)
    requires i < |segments| && '\n' in Strip(segments[i].text, StrBlanks)
    ensures |Split(Render(FileLines(bounds, segments, wav, embed, nonZero, predict)), '\n')| > |segments| + 1
  {
    var lines := FileLines(bounds, segments, wav, embed, nonZero, predict);
    FileLinesLabelled(bounds, segments, wav, embed, nonZero, predict);
    InnerNewlineMoreLines(lines, i);
  }
}
