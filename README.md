# WhisperScribe speaker alignment, modelled in Dafny

WhisperScribe (`script.py`) turns each `.mp3`/`.flac` file in a directory
into a speaker-labelled transcript. Whisper transcribes the audio into timed
segments. Resemblyzer computes a voiceprint for half a second around the
middle of each segment. A spectral clusterer groups the voiceprints into
speakers. The cluster ids are then merged back into the transcript as
`Sprecher_<id>: <text>` lines, or `Unbekannt: <text>` for segments that had
no usable voiceprint.

This project models the logic between those library calls:

- `SpeakerCount.dfy`: reading the user's speaker count or range into the
  clusterer's bounds, or deciding to skip the file. It includes a model of
  Python's `int()`.
- `Embeddings.dfy`: the window arithmetic around each segment's midpoint,
  and the loop that collects `embeddings` and `valid_indices` in parallel.
- `Clustering.dfy`: the guard that skips the clusterer when there are no
  embeddings.
- `Merge.dfy`: the single-pass merge with the cursor `cluster_index` that
  builds `final_text`.
- `Pipeline.dfy`: the per-file flow that ties these together, with the
  end-to-end properties.
- `Text.dfy`: Python's `str.strip()`, `str.split('-')` and `str(int)`, and the
  whitespace that `int()` skips.
- `Segments.dfy`: the segment record and the sample rate.
- `Wrappers.dfy`: the option type.

The encoder, the norm test and the clusterer are parameters. `embed` stands
for `encoder.embed_utterance`, and `nonZero` for `np.linalg.norm(e) > 0`.
`predict` stands for `SpectralClusterer(...).predict`. All that is assumed
of `predict` is that it returns one id per embedding (`OneIdPerEmbedding`).
Segment times are sample offsets into the 16 kHz waveform. The speaker
label prefix is `Sprecher_`, as written at script.py:116.

Two whitespace sets are in play. `str.strip()` (script.py:120) removes every
character for which `str.isspace` holds. `int()` (script.py:39, 45) skips
only `" \t\n\v\f\r"` among the ASCII characters, plus the non-ASCII
`isspace` characters, so the ASCII separators U+001C..U+001F are padding
for `strip()` but make `int()` fail. `Text.Blanks` names the two sets.
`int()` also refuses a literal of more than 4300 digits (underscores not
counted, leading zeros counted). That is CPython's default limit on
conversions between `str` and `int`; `SpeakerCount.MaxStrDigits` holds it.

## Model

| member | source | states |
|---|---|---|
| SpeakerCount.ParseSpeakerCount | script.py:37-49 | An accepted answer gives non-negative bounds. An answer without `-` gives the exact bound (n, n). |
| SpeakerCount.ParseDigits | script.py:45 | Definition of the digits `int()` accepts after the sign. It is characterised by `ParseDigitsOfGroups` and `ParseDigitsOnlyGroups`. |
| SpeakerCount.IsDigitGroups | script.py:45 | Definition of the grammar of the digits `int()` accepts: decimal digits, at least one, with single underscores only between two digits. It is characterised by `ParseDigitsOfGroups` and `ParseDigitsOnlyGroups`. |
| SpeakerCount.RemoveUnderscores | script.py:45 | A literal without underscores is left unchanged. `RemoveUnderscoresDigits` shows that only digits remain once the grouping underscores are dropped. |
| SpeakerCount.RemoveUnderscoresDigits | script.py:45 | Once the underscores of a literal made of digits and underscores are removed, only digits are left. |
| SpeakerCount.ParseSigned | script.py:45 | `int()` after stripping: an accepted literal without `-` has a non-negative value. |
| SpeakerCount.ParseSignedNegative | script.py:45 | A `-` in front of an accepted digit literal negates its value. |
| SpeakerCount.ParseSignedPositive | script.py:45 | A `+` in front of an accepted digit literal keeps its value. |
| SpeakerCount.ParseSignedBadStart | script.py:45 | A literal that starts with neither a sign nor a digit is refused. |
| SpeakerCount.ParseIntUnpadded | script.py:45 | A text that neither starts nor ends with `int()`'s whitespace is read as it stands. |
| SpeakerCount.ParseIntDigits | script.py:45 | An unpadded run of at most 4300 digits is read as its decimal value. |
| SpeakerCount.ParseSingleCount | script.py:43-49 | An answer without `-` gives (n, n) when `int()` reads n from it, and skips the file when `int()` fails. |
| SpeakerCount.ParseCountPadded | script.py:43-46 | A digit run of at most 4300 digits, padded with `int()`'s whitespace, gives the exact bound (n, n) for its value n. |
| SpeakerCount.ParseInt | script.py:45 | `int()` never gives a negative value for a string without `-`. |
| SpeakerCount.ParseDigitsOfGroups | script.py:45 | Non-empty runs of digits joined by single underscores are read as the value of all their digits together, when there are at most 4300 of them. With more, the literal is refused. |
| SpeakerCount.ParseDigitsOnlyGroups | script.py:45 | Only such joins are accepted: every accepted literal splits at `_` into non-empty digit runs, holds at most 4300 digits, and its value is that of the runs' digits together. |
| SpeakerCount.ParseDigitsOfDigits | script.py:45 | A plain run of at most 4300 decimal digits, leading zeros included, is read as its decimal value. |
| SpeakerCount.ParseSignedDigitString | script.py:45 | A run of at most 4300 digits with an optional `+` or `-` in front is read as that value, negated for `-`. |
| SpeakerCount.ParseIntPaddedLiteral | script.py:45 | `int()` ignores padding made of its own whitespace (`" \t\n\v\f\r"` and the non-ASCII `isspace` characters): the padded text reads as the text alone. |
| SpeakerCount.ParseIntPadded | script.py:45 | `int()` reads any run of at most 4300 digits, with padding from its own whitespace and an optional `+` or `-`, as its signed decimal value. |
| SpeakerCount.ParseIntNatToString | script.py:45 | `int()` reads back the decimal rendering of every natural number that `str()` can render, that is, of at most 4300 digits. |
| SpeakerCount.ParseIntEmpty | script.py:44-49 | The empty string is not an integer. |
| SpeakerCount.ParseRange | script.py:37-42 | An answer `low-high` with a single `-` yields (int(low), int(high)) exactly when both sides are integers. Otherwise the file is skipped. |
| SpeakerCount.ParseRejectsSeveralDashes | script.py:39-42 | An answer with two or more `-` always skips the file, because the split does not give two parts. |
| SpeakerCount.ParseCountRoundTrip | script.py:43-46 | A rendered count n of at most 4300 digits reads back as the bound (n, n). |
| SpeakerCount.ParseRangeRoundTrip | script.py:37-39 | Every rendered pair `a-b` of at most 4300 digits a side reads back as (a, b), including a > b, which is not rejected. |
| SpeakerCount.ParseRangeExamples | script.py:33-39 | "2-5" gives (2, 5) and "5-2" gives (5, 2). |
| SpeakerCount.ParsePaddedExample | script.py:44-46 | " 3 " gives (3, 3). |
| SpeakerCount.ParseRejectsWord | script.py:43-49 | Any non-empty word of lowercase letters, such as "abc", skips the file. |
| SpeakerCount.WordIsNotInt | script.py:45 | `int()` refuses a word of lowercase letters. |
| SpeakerCount.ParseRejectsSeparatorPadding | script.py:43-49 | A run of digits behind one of U+001C..U+001F, such as "\x1c3", skips the file. `strip()` would reduce it to the digits, but `int()` does not take these separators as padding. |
| SpeakerCount.SeparatorIsStripped | script.py:120 | `strip()` removes a separator U+001C..U+001F in front of a digit run and leaves the digits. |
| SpeakerCount.SeparatorIsNotInt | script.py:45 | `int()` refuses a digit run with a separator U+001C..U+001F in front. |
| SpeakerCount.ParseRejectsTooManyDigits | script.py:43-49 | A count of more than 4300 digits skips the file. |
| SpeakerCount.ParseRejectsNegative | script.py:37-42 | A negative count such as "-3" skips the file: the part before the dash is empty and not an integer. |
| Text.Split | script.py:39 | `split('-')` gives one more part than there are dashes. No part holds a dash, and joining the parts gives the input back. |
| Text.SplitJoin | script.py:39 | Splitting the join of dash-free parts gives the parts back. |
| Text.Strip | script.py:120 | The stripped text has no whitespace of the chosen set at either end: `isspace` for `str.strip()`, `int()`'s own set for the padding `int()` skips. |
| Text.StripLeft | script.py:120 | The result is a suffix of the input, everything dropped in front is whitespace of the chosen set, and the result does not start with such whitespace. |
| Text.StripRight | script.py:120 | The result is a prefix of the input, everything dropped behind is whitespace of the chosen set, and the result does not end with such whitespace. |
| Text.StripKeepsOut | script.py:120 | Stripping only removes characters: one that is absent before is absent after. |
| Text.StripIdempotent | script.py:120 | Stripping twice with the same set is the same as stripping once. |
| Text.StripPadded | script.py:120 | Stripping removes exactly the surrounding whitespace of the chosen set. |
| Text.NatToStringValue | script.py:116 | The decimal rendering of n has the value n. |
| Text.IntToString | script.py:116 | The rendered cluster id is non-empty and starts with `-` exactly for negative ids. A non-negative id renders as digits whose decimal value is the id. A negative id renders as `-` followed by at least one digit, and those digits have the value of the id's magnitude. |
| Text.NatToString | script.py:116 | The rendering of a natural number is non-empty and all decimal digits. Its value is given by `Text.NatToStringValue`. |
| Text.IsSpace | script.py:120 | Definition of `str.isspace` for one character. It is used through `Text.Strip` and `Text.StripPadded`. |
| Text.IsBlank | script.py:45 | Definition of the two whitespace sets: `isspace` for `strip()`, and `isspace` without U+001C..U+001F for `int()`. It is characterised by `SpeakerCount.ParseRejectsSeparatorPadding`. |
| Text.SplitAtSeparator | script.py:39 | A leading `-` gives an empty first part. The rest of the parts are those of the remainder. |
| Text.SplitAtOther | script.py:39 | Any other leading character starts the first part. |
| Embeddings.HalfWindowIsQuarterSecond | script.py:86-87 | The window reaches 4000 samples to either side, which is 0.25 s at 16 kHz. |
| Embeddings.Midpoint | script.py:80-83 | Definition of the middle sample of a segment. It is characterised by `Embeddings.MidpointInSegment`, and `Embeddings.FullWindow` and `Embeddings.WindowInBounds` describe the window around it. |
| Embeddings.MidpointInSegment | script.py:80-83 | For a segment whose start is not after its end, the middle lies between the two, and rounding down puts it at most one sample closer to the start than to the end. |
| Embeddings.ExtractStart | script.py:86 | Definition of `start_extract`, clamped at 0. It is characterised by `Embeddings.WindowInBounds`. |
| Embeddings.ExtractEnd | script.py:87 | Definition of `end_extract`, clamped at the end of the waveform. It is characterised by `Embeddings.WindowInBounds`. |
| Embeddings.SliceBound | script.py:89 | A slice bound lands in [0, len], and a bound already in range is kept as it is. |
| Embeddings.PySlice | script.py:89 | Definition of Python's slice `s[lo:hi]`. It is characterised by `Embeddings.WindowInBounds`, `Embeddings.FullWindow` and `Embeddings.WindowPastEnd`. |
| Embeddings.WindowSlice | script.py:86-89 | Definition of the cut around a midpoint. It is characterised by the same three lemmas. |
| Embeddings.SegmentSlice | script.py:80-89 | Definition of `audio_segment` for one segment. It is characterised by the same three lemmas. |
| Embeddings.Usable | script.py:90-92 | Definition of the test the script applies: the cut is non-empty and its embedding has a positive norm. It is characterised by `Embeddings.KeptSegmentsExact`. |
| Embeddings.UsableCut | script.py:90-92 | Definition of the test on one cut: it is non-empty and its embedding has a positive norm. It is characterised by `Embeddings.KeptIndicesExact`. |
| Embeddings.Cuts | script.py:79-89 | There is one cut per segment. |
| Embeddings.KeptIndices | script.py:78-94 | Definition of `valid_indices` after n segments. It is characterised by `Embeddings.KeptIndicesOrdered` and `Embeddings.KeptIndicesExact`. |
| Embeddings.KeptEmbeddings | script.py:77-93 | There are exactly as many embeddings as collected indices. The correspondence is given by `Embeddings.KeptEmbeddingsParallel`. |
| Embeddings.WindowInBounds | script.py:86-89 | The window is clamped to [0, len(wav_audio)]. For a segment with a non-negative midpoint the cut is the plain slice between the bounds, and it is at most half a second long. |
| Embeddings.FullWindow | script.py:85-89 | A window inside the waveform yields exactly half a second of samples centred on the midpoint. |
| Embeddings.WindowPastEnd | script.py:86-90 | A window that starts at or past the end of the waveform yields an empty cut. |
| Embeddings.KeptIndicesOrdered | script.py:79-100 | The collected indices are strictly increasing and each is below the number of cuts seen. |
| Embeddings.KeptIndicesExact | script.py:89-100 | Index i is collected exactly when cut i is non-empty and its embedding has a positive norm. |
| Embeddings.KeptSegmentsExact | script.py:79-100 | Over the segments' own cuts: the collected indices are strictly increasing and in range, and a segment is collected exactly when it is usable. |
| Embeddings.KeptEmbeddingsParallel | script.py:93-94 | The k-th embedding is the embedding of the k-th collected cut. |
| Embeddings.KeptSegmentsEmbedded | script.py:89-94 | Over the segments' own cuts: the k-th embedding is the embedding of the cut of the k-th collected segment. |
| Embeddings.NothingUsableNothingKept | script.py:90-100 | When no cut is usable, both lists stay empty. |
| Embeddings.NothingUsableSegments | script.py:90-100 | When no segment is usable, both lists stay empty. |
| Embeddings.CollectEmbeddings | script.py:77-100 | The loop returns the specified lists. `valid_indices` is strictly increasing and within range, both lists have the same length and correspond entry by entry, and a segment is listed exactly when it is usable. |
| Clustering.ClusterIds | script.py:104-108 | One cluster id per embedding, and none when there are no embeddings. |
| Clustering.ClusteringSkippedWhenEmpty | script.py:104-108 | With no embeddings the result does not depend on the clusterer. |
| Merge.LabelText | script.py:115-119 | Definition of `Sprecher_<id>` or `Unbekannt`. It is characterised by `Merge.LabelTextInjective` and `Merge.LabelTextHasNoNewline`, and `Pipeline.TranscriptOneLinePerSegment` shows it opens each transcript line. |
| Merge.LineText | script.py:121 | Definition of `<label>: <text>`. It is characterised by `Merge.RenderSplitsIntoLines`. |
| Merge.Render | script.py:112-121 | Definition of `final_text` as the lines joined, each followed by a newline. It is characterised by `Merge.RenderAppend`, `Merge.RenderSplitsIntoLines` and `Merge.RenderNewlines`. |
| Merge.LabelAt | script.py:114-119 | Definition of the label segment i receives. It is characterised by `Merge.LabelCorrect`. |
| Merge.MergedLines | script.py:112-121 | There is one line per segment. The contents are given by `Merge.MergedLinesLabels` and `Merge.EachClusterUsedOnce`. |
| Merge.MergedLinesLabels | script.py:114-120 | Each line carries its segment's stripped text, and a speaker label exactly when the segment's index is in `valid_indices`. |
| Merge.CursorAfter | script.py:113-117 | The cursor never exceeds the length of `valid_indices` or the number of segments handled. |
| Merge.MergeTranscript | script.py:112-121 | The loop's `final_text` is the rendering of the specified lines, one per segment. Every cluster id it reads is in range. |
| Merge.RenderAppend | script.py:121 | Appending one line to the transcript appends its rendering to the text. |
| Merge.CursorStep | script.py:113-117 | The cursor never goes back and rises by at most one per segment. |
| Merge.CursorPartitions | script.py:113-117 | For strictly increasing indices, after n segments the cursor sits exactly past the entries below n. |
| Merge.CursorConsumesAll | script.py:113-117 | For strictly increasing indices below the number of segments, the cursor ends at len(valid_indices). |
| Merge.LabelCorrect | script.py:115-119 | For strictly increasing indices, segment i gets a speaker label exactly when i is in `valid_indices`. If `valid_indices[k] == i`, the label is `Sprecher_<clusters[k]>`. |
| Merge.SpeakerIdsPrefix | script.py:115-117 | The speaker ids written so far are exactly the first cursor-many cluster ids, in order. |
| Merge.EachClusterUsedOnce | script.py:113-117 | For strictly increasing, in-range indices, the transcript uses each cluster id exactly once, in order. |
| Merge.LabelTextHasNoNewline | script.py:116-119 | A speaker label never contains a newline. |
| Merge.LabelTextInjective | script.py:115-119 | Two labels with the same text are the same label: `Unbekannt` is never a speaker label, and `Sprecher_<id>` determines the id, its sign included. |
| Merge.RenderSplitsIntoLines | script.py:121 | When no entry's text holds a newline, splitting the text at newlines gives back one `label: text` line per entry, in order. |
| Merge.RenderNewlines | script.py:121 | The text holds at least one newline per entry, and more when some entry's text holds a newline. |
| Merge.InnerNewlineMoreLines | script.py:120-121 | A newline inside an entry's text gives the text more lines than entries. |
| Merge.NoSegmentsEmptyTranscript | script.py:112-121 | Zero segments give the empty string. |
| Merge.SparseExample | script.py:114-121 | With indices [0, 2] and ids [1, 0] over three segments, the labels are Sprecher_1, Unbekannt, Sprecher_0. |
| Merge.UnorderedIndicesMisalign | script.py:115-119 | Indices out of order would mislabel a segment and leave a cluster id unused, so the ordering invariant is needed. |
| Pipeline.FileClusters | script.py:104-108 | There is one cluster id per kept segment. |
| Pipeline.FileLines | script.py:77-121 | There is one transcript line per segment. The contents are given by `Pipeline.FileLinesCorrect`. |
| Pipeline.TranscribeFile | script.py:37-121 | A file is skipped exactly when the speaker count is rejected. Otherwise the text written is the rendering of the file's specified lines. |
| Pipeline.FileLinesCorrect | script.py:77-121 | There is one line per segment, in order, with the stripped text. A segment gets a speaker label exactly when it is usable, and the k-th kept segment gets the k-th cluster id. Every id is used once, in order. |
| Pipeline.FileLinesLabelled | script.py:112-120 | One line per segment with the stripped text, labelled exactly when the segment is usable. |
| Pipeline.FileLinesClustered | script.py:113-117 | The k-th kept segment gets the k-th cluster id, and the ids appear once each, in order. |
| Pipeline.NoEmbeddingsAllUnknown | script.py:104-119 | With no usable segment there are no cluster ids, the clusterer's answer plays no part, and every line is `Unbekannt`. |
| Pipeline.TranscriptOneLinePerSegment | script.py:112-121 | When no segment's stripped text holds a newline, the written text splits into exactly one `label: text` line per segment, in order, followed by the empty rest. |
| Pipeline.TranscriptInnerNewline | script.py:120-121 | When some segment's stripped text still holds a newline, the written text has more lines than there are segments. |

## Left out

- Model loading, transcription and the per-file directory loop (script.py:9-34, 64-66, 73) are left out. `os.listdir`, the extension filter, `input()` and the colorama messages are I/O. The segments and the user's answer are parameters.
- Audio conversion, WAV export, `preprocess_wav` and `os.remove` (script.py:58-62, 68-70, 130-132) are codec and file I/O. The waveform is a parameter `wav`.
- Writing the `.txt` file (script.py:123-128) is left out. The model returns the text that would be written.
- `encoder.embed_utterance`, `np.linalg.norm` and the spectral clusterer (script.py:51-56, 91-92, 105-106) are foreign models. They are the parameters `embed`, `nonZero` and `predict`. `np.vstack` is folded into `predict`, which receives the list of embeddings.
- Embeddings.Midpoint: times are integer sample offsets, so the midpoint is rounded down to a whole sample. The float seconds, the ±0.25 s arithmetic and the `int(x * 16000)` truncation of script.py:80-89 are not modelled. The clamp and Python's slice rules are modelled.
- SpeakerCount.ParseInt: `int()` also accepts non-ASCII decimal digits. They are not modelled, so such input is read as invalid. The whitespace it skips is modelled: `" \t\n\v\f\r"` and the non-ASCII `isspace` characters.
- SpeakerCount.MaxStrDigits: the 4300-digit limit is CPython's default. Changing it with `sys.set_int_max_str_digits`, `PYTHONINTMAXSTRDIGITS` or `-X int_max_str_digits` is not modelled, and neither are Python versions without the limit.
- Text.IntToString: renders every cluster id, without `str()`'s 4300-digit limit. Cluster ids are small, so the limit never applies at script.py:116.
- Merge.MergeTranscript: requires at least as many cluster ids as valid indices. With fewer, the script would stop with an `IndexError`. That cannot happen here, because `ClusterIds` returns one id per embedding.
- Clustering.ClusterIds: requires the clusterer to return one id per embedding. The script relies on this without checking it.
