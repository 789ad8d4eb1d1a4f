/**
 * The alignment merge: one forward pass over all segments with a cursor
 * `cluster_index` into `valid_indices` / `clusters`. A segment whose index
 * is the one under the cursor gets `Sprecher_<id>` and moves the cursor on;
 * every other segment gets `Unbekannt`. Each segment contributes the line
 * `<label>: <stripped text>\n`.
 */
module Merge {

  import opened Text
  import opened Segments

  datatype Label = Speaker(id: int) | Unknown

  /** The label as it is written into the transcript. */
  function LabelText(l: Label): string
  {
    match l
    case Speaker(id) => "Sprecher_" + IntToString(id)
    case Unknown => "Unbekannt"
  }

  datatype Line = Line(speaker: Label, text: string)

  /** One line of the transcript without its newline. */
  function LineText(l: Line): string
  {
    LabelText(l.speaker) + ": " + l.text
  }

  /** `final_text`: every line followed by a newline. */
  function Render(lines: seq<Line>): string
  {
    if lines == [] then "" else LineText(lines[0]) + "\n" + Render(lines[1..])
  }

  /** `cluster_index` once the loop has handled segments 0 .. n-1. */
  function CursorAfter(validIndices: seq<int>, n: nat): (c: nat)
    ensures c <= |validIndices| && c <= n
  {
    if n == 0 then 0
    else
      var c := CursorAfter(validIndices, n - 1);
      if c < |validIndices| && validIndices[c] == n - 1 then c + 1 else c
  }

  /** The label the loop gives segment `i`. */
  function LabelAt(validIndices: seq<int>, clusters: seq<int>, i: nat): Label
    requires |validIndices| <= |clusters|
  {
    var c := CursorAfter(validIndices, i);
    if c < |validIndices| && validIndices[c] == i then Speaker(clusters[c]) else Unknown
  }

  /** The transcript lines, one per segment, in segment order. */
  function MergedLines(segments: seq<Segment>, validIndices: seq<int>, clusters: seq<int>): (lines: seq<Line>)
    requires |validIndices| <= |clusters|
    ensures |lines| == |segments|
  {
    seq(|segments|, i requires 0 <= i < |segments| => Line(LabelAt(validIndices, clusters, i), Strip(segments[i].text, StrBlanks)))
  }

  /** The cluster ids of the labelled lines, in line order. */
  function SpeakerIds(lines: seq<Line>): seq<int>
  {
    if lines == [] then []
    else
      var last := lines[|lines| - 1];
      SpeakerIds(lines[..|lines| - 1]) + (if last.speaker.Speaker? then [last.speaker.id] else [])
  }

  /** Extending a prefix by one element; the merge loop uses it to grow the rendered lines. */
  lemma PrefixSnoc<T>(s: seq<T>, i: nat)
    requires i < |s|
    ensures s[..i + 1] == s[..i] + [s[i]]
  {
  }

  lemma {:induction false} RenderAppend(lines: seq<Line>, l: Line)
    ensures Render(lines + [l]) == Render(lines) + (LineText(l) + "\n")
  {
    if lines == [] {
      assert lines + [l] == [l];
    } else {
      assert (lines + [l])[1..] == lines[1..] + [l];
      RenderAppend(lines[1..], l);
    }
  }

  /**
   * The merge loop. It accumulates `final_text` line by line while the
   * cursor walks along `valid_indices`; every cluster id it reads lies
   * within `clusters`.
   */
  method MergeTranscript(segments: seq<Segment>, validIndices: seq<int>, clusters: seq<int>) returns (finalText: string)
    requires |validIndices| <= |clusters|
    ensures finalText == Render(MergedLines(segments, validIndices, clusters))
  {
    ghost var lines := MergedLines(segments, validIndices, clusters);
    finalText := "";
    var clusterIndex := 0;
    for i := 0 to |segments|
      invariant clusterIndex == CursorAfter(validIndices, i)
      invariant finalText == Render(lines[..i])
    {
      ghost var cursor := clusterIndex;
      var speaker: Label;
      if clusterIndex < |validIndices| && i == validIndices[clusterIndex] {
        speaker := Speaker(clusters[clusterIndex]);
        clusterIndex := clusterIndex + 1;
      } else {
        speaker := Unknown;
      }
      assert clusterIndex == CursorAfter(validIndices, i + 1) by {
        assert cursor == CursorAfter(validIndices, i);
      }
      var text := Strip(segments[i].text, StrBlanks);
      ghost var line := Line(speaker, text);
      assert Render(lines[..i + 1]) == finalText + (LineText(line) + "\n") by {
        assert speaker == LabelAt(validIndices, clusters, i);
        assert lines[i] == line;
        PrefixSnoc(lines, i);
        RenderAppend(lines[..i], line);
      }
      var formatted := LabelText(speaker) + ": " + text + "\n";
      assert formatted == LineText(line) + "\n";
      finalText := finalText + formatted;
    }
    assert lines[..|segments|] == lines;
  }

  /** The cursor never goes back and moves by at most one per segment. */
  lemma CursorStep(validIndices: seq<int>, n: nat)
    ensures CursorAfter(validIndices, n) <= CursorAfter(validIndices, n + 1) <= CursorAfter(validIndices, n) + 1
  {
  }

  /**
   * With strictly increasing, non-negative indices the cursor after `n`
   * segments sits exactly past the entries below `n`.
   */
  lemma {:induction false} CursorPartitions(validIndices: seq<int>, n: nat)
    requires StrictlyIncreasing(validIndices)
    requires forall k :: 0 <= k < |validIndices| ==> 0 <= validIndices[k]
    ensures forall k :: 0 <= k < |validIndices| ==> (k < CursorAfter(validIndices, n) <==> validIndices[k] < n)
  {
    if n > 0 {
      CursorPartitions(validIndices, n - 1);
    }
  }

  /**
   * With strictly increasing indices all below the number of segments the
   * cursor ends at the end of `valid_indices`: every entry is consumed.
   */
  lemma CursorConsumesAll(validIndices: seq<int>, n: nat)
    requires StrictlyIncreasing(validIndices)
    requires forall k :: 0 <= k < |validIndices| ==> 0 <= validIndices[k] < n
    ensures CursorAfter(validIndices, n) == |validIndices|
  {
    CursorPartitions(validIndices, n);
    var c := CursorAfter(validIndices, n);
    if |validIndices| > 0 {
      var last := |validIndices| - 1;
      assert validIndices[last] < n;
      assert last < c;
    }
  }

  /**
   * With strictly increasing, non-negative indices segment `i` gets a
   * speaker label exactly when `i` is in `valid_indices`, and then the id
   * at the same position of `clusters`.
   */
  lemma LabelCorrect(validIndices: seq<int>, clusters: seq<int>, i: nat)
    requires |validIndices| <= |clusters|
    requires StrictlyIncreasing(validIndices)
    requires forall k :: 0 <= k < |validIndices| ==> 0 <= validIndices[k]
    ensures LabelAt(validIndices, clusters, i).Speaker? <==> i in validIndices
    ensures forall k :: 0 <= k < |validIndices| && validIndices[k] == i ==>
      LabelAt(validIndices, clusters, i) == Speaker(clusters[k])
  {
    CursorPartitions(validIndices, i);
    var c := CursorAfter(validIndices, i);
    forall k | 0 <= k < |validIndices| && validIndices[k] == i
      ensures LabelAt(validIndices, clusters, i) == Speaker(clusters[k])
    {
      assert c <= k;
      if k > 0 {
        assert validIndices[k - 1] < validIndices[k];
        assert k - 1 < c;
      }
    }
  }

  /**
   * Line by line: the stripped text of its segment, and a speaker label
   * exactly when the segment's index is among the valid indices.
   */
  lemma MergedLinesLabels(segments: seq<Segment>, validIndices: seq<int>, clusters: seq<int>)
    requires |validIndices| <= |clusters|
    requires StrictlyIncreasing(validIndices)
    requires forall k :: 0 <= k < |validIndices| ==> 0 <= validIndices[k]
    ensures var lines := MergedLines(segments, validIndices, clusters);
      forall i :: 0 <= i < |segments| ==>
        lines[i].text == Strip(segments[i].text, StrBlanks) &&
        (lines[i].speaker.Speaker? <==> i in validIndices)
  {
    var lines := MergedLines(segments, validIndices, clusters);
    forall i | 0 <= i < |segments|
      ensures lines[i].speaker.Speaker? <==> i in validIndices
    {
      LabelCorrect(validIndices, clusters, i);
    }
  }

  /** The ids of the first `n` lines extend those of the first `n - 1` by the id of line `n - 1`, if it has one. */
  lemma SpeakerIdsSnoc(lines: seq<Line>, n: nat)
    requires 0 < n <= |lines|
    ensures var last := lines[n - 1].speaker;
      SpeakerIds(lines[..n]) == SpeakerIds(lines[..n - 1]) + (if last.Speaker? then [last.id] else [])
  {
    var prefix := lines[..n];
    assert prefix[..n - 1] == lines[..n - 1];
    assert prefix[n - 1] == lines[n - 1];
  }

  /**
   * Whatever the indices, the speaker ids written into the first `n`
   * lines are exactly the first cursor-many cluster ids, in order: none is
   * skipped, repeated or reordered.
   */
  lemma {:induction false} SpeakerIdsPrefix(lines: seq<Line>, validIndices: seq<int>, clusters: seq<int>, n: nat)
    requires |validIndices| <= |clusters|
    requires n <= |lines|
    requires forall i :: 0 <= i < n ==> lines[i].speaker == LabelAt(validIndices, clusters, i)
    ensures SpeakerIds(lines[..n]) == clusters[..CursorAfter(validIndices, n)]
  {
    if n > 0 {
      var c := CursorAfter(validIndices, n - 1);
      assert SpeakerIds(lines[..n - 1]) == clusters[..c] by {
        SpeakerIdsPrefix(lines, validIndices, clusters, n - 1);
      }
      SpeakerIdsSnoc(lines, n);
      if c < |validIndices| && validIndices[c] == n - 1 {
        assert clusters[..c + 1] == clusters[..c] + [clusters[c]];
      }
    }
  }

  /**
   * With strictly increasing indices below the number of segments, the
   * transcript uses each of the first |valid_indices| cluster ids exactly
   * once, in order.
   */
  lemma EachClusterUsedOnce(segments: seq<Segment>, validIndices: seq<int>, clusters: seq<int>)
    requires |validIndices| <= |clusters|
    requires StrictlyIncreasing(validIndices)
    requires forall k :: 0 <= k < |validIndices| ==> 0 <= validIndices[k] < |segments|
    ensures SpeakerIds(MergedLines(segments, validIndices, clusters)) == clusters[..|validIndices|]
  {
    var lines := MergedLines(segments, validIndices, clusters);
    SpeakerIdsPrefix(lines, validIndices, clusters, |segments|);
    CursorConsumesAll(validIndices, |segments|);
    assert lines[..|segments|] == lines;
  }

  lemma LabelTextHasNoNewline(l: Label)
    ensures '\n' !in LabelText(l)
  {
    if l.Speaker? {
      var d := IntToString(l.id);
      assert d[0] != '\n';
      assert forall k :: 1 <= k < |d| ==> d[k] != '\n';
      assert LabelText(l) == "Sprecher_" + d;
    }
  }

  /** Different labels are written differently: the label text names exactly one speaker. */
  lemma LabelTextInjective(a: Label, b: Label)
    requires LabelText(a) == LabelText(b)
    ensures a == b
  {
    var pre := "Sprecher_";
    if a.Speaker? && b.Speaker? {
      var da, db := IntToString(a.id), IntToString(b.id);
      assert da == LabelText(a)[|pre|..];
      assert db == LabelText(b)[|pre|..];
      if a.id >= 0 {
        assert b.id >= 0;
      } else {
        assert da[1..] == db[1..];
      }
    }
  }

  /** The transcript's lines without their newlines, in order. */
  function LineTexts(lines: seq<Line>): (texts: seq<string>)
    ensures |texts| == |lines|
    ensures forall i :: 0 <= i < |lines| ==> texts[i] == LineText(lines[i])
  {
    if lines == [] then [] else [LineText(lines[0])] + LineTexts(lines[1..])
  }

  /**
   * Splitting the transcript at newlines gives back exactly one line per
   * entry, in order, followed by the empty rest after the last newline,
   * provided no text holds a newline of its own.
   */
  lemma {:induction false} RenderSplitsIntoLines(lines: seq<Line>)
    requires forall i :: 0 <= i < |lines| ==> '\n' !in lines[i].text
    ensures Split(Render(lines), '\n') == LineTexts(lines) + [""]
  {
    if lines == [] {
      SplitNoSeparator("", '\n');
    } else {
      var head := LineText(lines[0]);
      var rest := lines[1..];
      calc {
        Split(Render(lines), '\n');
        { assert Render(lines) == head + ['\n'] + Render(rest); }
        Split(head + ['\n'] + Render(rest), '\n');
        { assert '\n' !in head by {
            LabelTextHasNoNewline(lines[0].speaker);
            assert head == LabelText(lines[0].speaker) + ": " + lines[0].text;
          }
          SplitAtFirst(head, Render(rest), '\n');
        }
        [head] + Split(Render(rest), '\n');
        { RenderSplitsIntoLines(rest); }
        [head] + (LineTexts(rest) + [""]);
        { assert LineTexts(lines) == [head] + LineTexts(rest); }
        LineTexts(lines) + [""];
      }
    }
  }

  /**
   * The transcript holds at least one newline per entry, and one more for
   * every newline inside an entry's text.
   */
  lemma {:induction false} RenderNewlines(lines: seq<Line>)
    ensures Count(Render(lines), '\n') >= |lines|
    ensures (exists i :: 0 <= i < |lines| && '\n' in lines[i].text) ==> Count(Render(lines), '\n') > |lines|
  {
    if lines != [] {
      var head := LineText(lines[0]);
      var rest := lines[1..];
      RenderNewlines(rest);
      assert Render(lines) == head + ("\n" + Render(rest));
      CountAppend(head, "\n" + Render(rest), '\n');
      CountAppend("\n", Render(rest), '\n');
      assert head == (LabelText(lines[0].speaker) + ": ") + lines[0].text;
      CountAppend(LabelText(lines[0].speaker) + ": ", lines[0].text, '\n');
      if '\n' in lines[0].text {
        CountPresent(lines[0].text, '\n');
      } else if exists i :: 0 <= i < |lines| && '\n' in lines[i].text {
        var i :| 0 <= i < |lines| && '\n' in lines[i].text;
        assert i > 0 && rest[i - 1] == lines[i];
      }
    }
  }

  /**
   * A newline inside an entry's text splits it: the transcript then has
   * more lines than entries.
   */
  lemma InnerNewlineMoreLines(lines: seq<Line>, i: nat)
    requires i < |lines| && '\n' in lines[i].text
    ensures |Split(Render(lines), '\n')| > |lines| + 1
  {
    RenderNewlines(lines);
  }

  /** No segments give the empty transcript. */
  lemma NoSegmentsEmptyTranscript(validIndices: seq<int>, clusters: seq<int>)
    requires |validIndices| <= |clusters|
    ensures Render(MergedLines([], validIndices, clusters)) == ""
  {
  }

  /**
   * Three segments of which only the first and the last were kept, with
   * cluster ids [1, 0]: the labels are Sprecher_1, Unbekannt, Sprecher_0.
   */
  lemma SparseExample(segments: seq<Segment>)
    requires |segments| == 3
    ensures var lines := MergedLines(segments, [0, 2], [1, 0]);
      lines[0].speaker == Speaker(1) && lines[1].speaker == Unknown && lines[2].speaker == Speaker(0)
  {
    assert CursorAfter([0, 2], 1) == 1;
    assert CursorAfter([0, 2], 2) == 1;
  }

  /**
   * Why the order matters: with `valid_indices` out of order the merge
   * labels segment 0 as unknown although it has a cluster id, and the
   * second id is never used.
   */
  lemma UnorderedIndicesMisalign()
    ensures LabelAt([1, 0], [7, 8], 0) == Unknown
    ensures LabelAt([1, 0], [7, 8], 1) == Speaker(7)
    ensures CursorAfter([1, 0], 2) == 1
  {
    assert CursorAfter([1, 0], 1) == 0;
  }
}
