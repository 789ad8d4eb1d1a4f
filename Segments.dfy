/**
 * One transcript segment as the recogniser yields it. Times are kept as
 * sample offsets into the 16 kHz waveform rather than float seconds.
 */
module Segments {

  /** Samples per second of the preprocessed waveform. */
  const SampleRate: int := 16000

  datatype Segment = Segment(start: int, end: int, text: string)

  /** The invariant the collection loop keeps for `valid_indices`. */
  predicate StrictlyIncreasing(s: seq<int>)
  {
    forall j, k :: 0 <= j < k < |s| ==> s[j] < s[k]
  }
}
