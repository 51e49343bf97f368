# Persian subtitle pipeline: verified model of its core

This project is a Dafny model of the logic at the centre of a video-to-Persian-subtitle
pipeline. It covers three parts. Each works on one segment record: `start`, `end`, `text`,
an optional `original_text` and an optional list of `words`, each word with an optional
`probability`.

- **The subtitle generator** (`src/subtitle_generator.py`):
  - the two-pass reflow of segments. The merge pass folds a too-short segment into the one
    before it. The split pass cuts a too-long segment after sentence punctuation and
    shares its duration among the pieces by character count;
  - timestamp formatting and greedy line wrapping;
  - the SRT, WebVTT, plain-text and bilingual SRT layouts. Each writer returns the text the
    original writes to its file;
  - the clean-prose document, and the choice of files made by `generate_all_formats`.
- **The translator** (`src/translator.py`):
  - the `Translator` object with its translation cache;
  - `translate_text`: blank input, a cache hit, then a bounded retry loop with capped
    exponential backoff, and a fall-back to the original text;
  - `translate_segments`, run one segment at a time and then sorted by start time;
  - `translate_batch`, a chunk loop with a per-chunk fall-back.

  The remote service is an oracle: a script of answers, one per request. The object
  records every request it sends and every pause it takes.
- **Small utilities** (`src/utils.py`):
  - `format_duration`;
  - the low-confidence filter `flag_low_confidence_segments`;
  - the decisions of `validate_file` and `output_already_exists`. What the file system
    knows (existence, modification times) is passed in.

Times are exact `real`s. Python's floor division, remainder and `int()` are spelled out in
module `PyMath`. Strings are `seq<char>`. `str.isspace()`, `strip`, `split`, `join`,
zero-padded integer formatting and ASCII lower-casing are in module `Strings`. The
configuration defaults of `config.py` are the constants of module `Config`. Segments are
values, so the copies the original makes (`seg.copy()`) leave the caller's segments as they
were without further proof.

Modules are split by file:
- `chunks.dfy`: `range(0, n, k)` windows;
- `split.dfy`: the look-behind regex split;
- `reflow.dfy`: reflow;
- `subtitles.dfy`: writers;
- `translator.dfy`: translator;
- `utils.dfy`: utilities;
- `segments.dfy`: records and configuration;
- `strings.dfy`, `pymath.dfy` and `maybe.dfy`: building blocks.

## Model

| member | source | states |
|---|---|---|
| Reflow.MergePass | src/subtitle_generator.py:167-190 | The merge loop, which updates the last accumulated segment field by field, computes exactly `MergeShort`: a segment is folded into its predecessor iff something has been accumulated and its duration is below `min_dur`. |
| Reflow.HeadsExact | src/subtitle_generator.py:173 | The group heads are exactly the first segment and every segment whose duration is at least `min_dur`. They are listed once each, in increasing order, starting with index 0, so the first segment is always kept. |
| Reflow.MergeShortIsGroups | src/subtitle_generator.py:168-190 | Output segment `k` is the fold of the `k`-th group: a head together with the short segments that follow it up to the next head. |
| Reflow.FoldGroupFields | src/subtitle_generator.py:174-187 | A merged group keeps the head's `start` and takes the last member's `end`. Its text is the members' texts joined by single spaces. `original_text` and `words` are the concatenation of the members that carry them when the head carries one, and are absent otherwise. |
| Reflow.GroupedJoinLast | src/subtitle_generator.py:174-187 | Absorbing one more short segment into the last merged segment keeps every merged segment the fold of its group. |
| Reflow.GroupedAppend | src/subtitle_generator.py:188-190 | Appending a copy of a head starts a new one-member group and keeps the earlier groups. |
| Reflow.MergeKeepsJoinedText | src/subtitle_generator.py:177 | Merging loses no text: the output's texts joined by spaces equal the input's texts joined by spaces. |
| Reflow.MergeStepText | src/subtitle_generator.py:173-190 | One merge step on a non-empty accumulator adds the new text after one space, whether the segment is absorbed or appended. |
| Reflow.MergeNonEmpty | src/subtitle_generator.py:168-190 | The merge output is never longer than its input, and is empty iff the input is. |
| Reflow.MergeEnds | src/subtitle_generator.py:174-176 | The merge output starts where the first input segment starts and ends where the last one ends. |
| Reflow.SplitPass | src/subtitle_generator.py:193-234 | The split loop over the merged segments emits, for each one, exactly the segments `SplitLong` gives for it. |
| Reflow.SplitSegment | src/subtitle_generator.py:197-232 | One iteration of the split loop yields `SplitLong(seg, max_dur)`. |
| Reflow.CutParts | src/subtitle_generator.py:214-232 | The loop over the parts, with running time `t`, yields the pieces: piece `k` starts at `start + dur * (chars before k) / total` and lasts `dur * len(part k) / total`. |
| Reflow.CutPart | src/subtitle_generator.py:219-229 | One step builds the piece for the part at `t` and returns the share `dur * len(part) / total_chars` it takes. |
| Reflow.SplitLongKeeps | src/subtitle_generator.py:200-210 | A segment no longer than `max_dur`, or one the regex does not cut into two parts or more, comes back unchanged as the only output. |
| Reflow.SplitLongIsPieces | src/subtitle_generator.py:206-232 | A cut segment becomes the pieces of its parts, shared by the parts' total length. That length is at least 1, so the `max(..., 1)` guard never acts. |
| Reflow.PiecesTiming | src/subtitle_generator.py:214-232 | For a cut segment the first piece starts at the parent's `start` and the last ends at `start + dur`. Each piece starts where the previous one ends, and each lasts `dur` times its part's share of the characters. |
| Reflow.PiecesContiguous | src/subtitle_generator.py:224-232 | Piece `k + 1` starts exactly where piece `k` ends. |
| Reflow.PiecesLastEnd | src/subtitle_generator.py:214-232 | The shares of all parts add up to the parent's duration, so the last piece ends at `start + dur`. |
| Reflow.PartDurationAdds | src/subtitle_generator.py:219-220 | Shares are additive: the share of `a` characters plus that of `b` is the share of `a + b`. |
| Reflow.PiecesContent | src/subtitle_generator.py:223-229 | Every piece's text is its stripped part and it has no `words`. Its `original_text` is that same stripped part when the parent had one, and absent otherwise. |
| Reflow.SplitLongContent | src/subtitle_generator.py:206-229 | A cut segment yields one piece per part, each with the stripped part as text, no words, and an `original_text` equal to the stripped part iff the parent had one. |
| Reflow.ReflowSegments | src/subtitle_generator.py:137-234 | `reflow_segments` is the split pass applied to the merge pass. An absent threshold takes its default (0.8 s and 7.0 s). |
| Reflow.SplitAllLength | src/subtitle_generator.py:197-232 | The split pass never loses a segment: it returns at least as many segments as it is given. |
| Split.SplitAfterSound | src/subtitle_generator.py:195 | `re.split(r"(?<=[P])\s+", s)` is modelled. The parts and separators interleave back to `s`. Each separator is a non-empty whitespace run. Every part but the last ends in a mark. No later part starts with whitespace. No part holds a mark followed by whitespace. |
| Split.SplitReassembles | src/subtitle_generator.py:206 | Splitting loses nothing: parts interleaved with the cut whitespace runs give back the text. |
| Split.SplitPartsEndInMark | src/subtitle_generator.py:195 | Every cut is made right after one of the marks: each part but the last is non-empty and ends in a mark. |
| Split.SplitPartsUnbroken | src/subtitle_generator.py:195 | The split is maximal: no part contains a mark followed by whitespace. |
| Split.SplitPartsStartClean | src/subtitle_generator.py:195 | The greedy `\s+` takes the whole run: no part after the first starts with whitespace. |
| Split.SplitSeparatorsAreRuns | src/subtitle_generator.py:195 | What is cut out is only non-empty runs of whitespace. |
| Split.SplitPartsHaveLength | src/subtitle_generator.py:214 | Two or more parts hold at least one character between them. |
| Split.NextBreak | src/subtitle_generator.py:195 | Finds the first position at or after `from` where the look-behind pattern matches (whitespace right after a mark), or the end when there is none. |
| Subtitles.TimestampFieldsInRange | src/subtitle_generator.py:254-257 | Minutes and seconds lie in `[0, 60)` and milliseconds in `[0, 1000)`, whatever the input. Hours are non-negative for a non-negative input. |
| Subtitles.TimestampDenotes | src/subtitle_generator.py:254-257 | The four fields denote the input: hours, minutes and seconds give `floor(seconds)`, and with the milliseconds `floor(seconds * 1000)`. |
| Subtitles.TimestampLayout | src/subtitle_generator.py:240-262 | The timestamp has the form `HH:MM:SS,mmm` for `"srt"` and `HH:MM:SS.mmm` for any other format type, with two-digit minutes and seconds and three-digit milliseconds. For a non-negative input the hours are digits and the text reads back as the input's whole milliseconds. Below 100 hours it is exactly 12 characters. |
| Subtitles.FieldsLayout | src/subtitle_generator.py:259-262 | The f-string `{h:02d}:{m:02d}:{s:02d}{sep}{ms:03d}` puts its separators at fixed places from the end, and reads back as `h*3600000 + m*60000 + s*1000 + ms`. |
| Subtitles.FillIsGreedy | src/subtitle_generator.py:130 | The greedy fill of words into lines keeps every word, in order. No line is empty. Each line fits the width unless it is a single word. No line could have taken the first word of the next. |
| Subtitles.WrapLinesSound | src/subtitle_generator.py:126-131 | A text longer than the width is broken into lines that are the greedy fill of its words. Each line is its words joined by single spaces and fits the width, or is a single word. |
| Subtitles.WordsOfLines | src/subtitle_generator.py:130 | Every word placed on a line is free of whitespace. |
| Subtitles.BlocksAreNumbered | src/subtitle_generator.py:288 | A document is the concatenation, for `i = 1..n`, of the block of the `i`-th segment (`enumerate(segments, 1)`). |
| Subtitles.BlocksAgree | src/subtitle_generator.py:288-298 | Two layouts that agree on every segment produce the same document. |
| Subtitles.WriteCues | src/subtitle_generator.py:288-298 | The cue loop writes, for each segment `i` from 1, `"{i}\n{start} --> {end}\n{text}\n\n"`. The text is the stripped, shaped and wrapped segment text. |
| Subtitles.WriteCue | src/subtitle_generator.py:289-298 | The four writes of one cue append exactly that cue. |
| Subtitles.GenerateSrt | src/subtitle_generator.py:267-301 | The SRT file is the numbered cues with `HH:MM:SS,mmm` timings. |
| Subtitles.GenerateVtt | src/subtitle_generator.py:306-338 | The WebVTT file is `"WEBVTT\n\n"` followed by the same numbered cues with `HH:MM:SS.mmm` timings, as in section 4.1 of the W3C WebVTT specification. |
| Subtitles.GenerateTxt | src/subtitle_generator.py:343-377 | The transcript is, per segment, `[start --> end]` on its own line when timestamps are asked for, then the wrapped text and a blank line. |
| Subtitles.WriteTimedBlocks | src/subtitle_generator.py:361-369 | The timed loop writes the bracketed SRT timing line, the text and a blank line per segment. |
| Subtitles.WriteTimedBlock | src/subtitle_generator.py:364-369 | One timed block appends `[start --> end]\n` then the text and a blank line. |
| Subtitles.WritePlainBlocks | src/subtitle_generator.py:370-374 | The untimed loop writes the text and a blank line per segment. |
| Subtitles.GenerateBilingualSrt | src/subtitle_generator.py:382-429 | The bilingual file is SRT cues whose text is preceded by the stripped original line exactly when originals are asked for and the segment carries one. |
| Subtitles.WriteBilingualCue | src/subtitle_generator.py:407-426 | One bilingual cue: number, timing, the original line when asked for and present, the translation, a blank line. |
| Subtitles.BilingualIsSrt | src/subtitle_generator.py:419-424 | With no original to show (not asked for, or none present), the bilingual file is the SRT file. |
| Subtitles.CollapseSqueezesGaps | src/subtitle_generator.py:477 | `re.sub(r"\s+", " ", s)` is the words of `s` in order, with one space in place of each non-empty whitespace run before, between and after them. |
| Subtitles.CollapseKeepsWords | src/subtitle_generator.py:477 | Collapsing keeps the words of the text, and its whitespace runs become single spaces, so the result starts or ends with a space exactly when the text starts or ends with whitespace. |
| Subtitles.CollapseSingleSpaced | src/subtitle_generator.py:477 | A text that is already single-spaced is left as it is. |
| Subtitles.CollapseIdempotent | src/subtitle_generator.py:477 | Collapsing twice is collapsing once. |
| Subtitles.CollectRawSentences | src/subtitle_generator.py:467-471 | The collecting loop gathers the stripped texts of the segments, leaving out those that strip to nothing. |
| Subtitles.AddSentence | src/subtitle_generator.py:469-471 | One iteration adds the stripped text of the segment after the sentences so far, when it is non-empty. |
| Subtitles.RawSentencesStep | src/subtitle_generator.py:469-471 | One more segment adds its stripped text when that is non-empty, and changes nothing otherwise. |
| Subtitles.RawSentencesTrimmed | src/subtitle_generator.py:467-471 | Every raw sentence is non-empty and is its own strip. |
| Subtitles.StrippedNonEmptyTrimmed | src/subtitle_generator.py:483 | Every sentence kept by `[s.strip() for s in parts if s.strip()]` is non-empty and its own strip. |
| Subtitles.CleanTextShape | src/subtitle_generator.py:486-491 | For a positive step `k` the prose has `ceil(n / k)` paragraphs of 1 to `k` sentences each, together holding every sentence in order. |
| Subtitles.ParagraphStep | src/subtitle_generator.py:487-491 | The paragraph at `i` is the shaped join of the window `sentences[i : i + k]`, and the paragraphs after it are those of the rest. |
| Subtitles.GroupParagraphs | src/subtitle_generator.py:486-491 | The loop over `range(0, n, k)` yields each window of `k` sentences joined by spaces and shaped. |
| Subtitles.GenerateCleanPersianText | src/subtitle_generator.py:434-499 | The clean prose is the paragraphs joined by blank lines plus a final newline. It is absent for a step of zero, where `range` raises. |
| Subtitles.GenerateExtras | src/subtitle_generator.py:535-543 | The two extra files are the bilingual SRT with originals and the prose at three sentences a paragraph. |
| Subtitles.Outputs | src/subtitle_generator.py:525-545 | The returned dictionary always holds `srt`, `vtt` and `txt` at `base.srt`, `base.vtt` and `base.txt`. It also holds `bilingual_srt` (`base_bilingual.srt`) and `clean_persian` (`base_clean.txt`) exactly when the extras are produced. |
| Subtitles.GenerateAllFormats | src/subtitle_generator.py:504-545 | SRT, WebVTT and timed text are always produced with their contents. The bilingual SRT and the clean prose are produced iff the option is on and some segment has an `original_text`. |
| Translation.TextHashOfStripped | src/translator.py:95-108 | The cache key depends only on the stripped text: a text and its strip share a key. |
| Translation.BackoffMonotone | src/translator.py:161 | The pause `min(base * 2^attempt, max_delay)` never decreases with the attempt number and never exceeds the cap. |
| Translation.Attempts | src/translator.py:147-175 | The retry loop from a given attempt: an answered attempt always carries a result. |
| Translation.AttemptsRaise | src/translator.py:159-169 | A failed attempt that is not the last sends one request, takes the backoff pause and continues with the next attempt. |
| Translation.AttemptsSchedule | src/translator.py:147-175 | The loop sends no more than the remaining attempts, always the stripped text. It sends none iff no attempt remains. It pauses once between each two requests (and not after the last), with the `k`-th pause the backoff of attempt `k`. Each pause follows a failed request. The unused answers are left. |
| Translation.AttemptsFollowBackoff | src/translator.py:147-175 | With the configured delays, the requests and pauses of the loop follow the capped, non-decreasing backoff schedule. |
| Translation.BlankPassesThrough | src/translator.py:127-129 | Empty or blank text is returned as it is. Nothing is read, asked or stored. |
| Translation.CacheHit | src/translator.py:131-138 | A cached text is answered from the cache without asking the service and without changing anything. |
| Translation.FirstAnswerStored | src/translator.py:150-157 | When the first request answers, its answer is returned and cached. A falsy answer is replaced by the original, unstripped text. There is one request, for the stripped text, and no pause. |
| Translation.AllAttemptsFail | src/translator.py:159-175 | When every attempt fails, the original text is returned and the cache is untouched. Exactly `retry_count` requests are sent, with `retry_count - 1` pauses. |
| Translation.AllFailFrom | src/translator.py:159-175 | From any attempt on, all failures give back the text after one request per remaining attempt and one pause fewer. |
| Translation.NoneOnlyWithoutAttempts | src/translator.py:141-175 | For a non-blank, uncached text the result is `None` iff `retry_count <= 0`, where the loop body never runs. |
| Translation.AttemptsAnswer | src/translator.py:147-175 | With at least one attempt left, the loop always returns a text. |
| Translation.DefaultAlwaysAnswers | src/translator.py:141-142 | With the configured retry count (3) there is always a text to return. |
| Translation.PausesFollowBackoff | src/translator.py:110-175 | Any call only appends to the request and pause records, following the backoff schedule for the stripped text. |
| Translation.SameKeySharesEntry | src/translator.py:131-157 | Once a text is answered and cached, a later call with a text that has the same strip returns the same value without asking the service. |
| Translation.Translator.constructor | src/translator.py:47-75 | A new translator has its languages, caching from the configuration, an empty cache and empty records. |
| Translation.Translator.TranslateText | src/translator.py:110-175 | `translate_text` returns the value and leaves the state that `TranslateSpec` gives: blank input, then the cache, then the retry loop. |
| Translation.Translator.RetryLoop | src/translator.py:146-175 | The retry loop with its early returns computes `Attempts`. It caches the answer when caching is on and an attempt answered, and records its requests and pauses. |
| Translation.TranslateTexts | src/translator.py:207-227 | Translating a list of texts in turn, each call seeing the state the previous left, gives one result per text. |
| Translation.Annotate | src/translator.py:224-227 | Each output segment is a copy of its input with `original_text` set to the input text and `text` set to its translation. |
| Translation.InsertByStart | src/translator.py:237 | Inserting into a list sorted by start adds exactly that element. |
| Translation.InsertKeepsSorted | src/translator.py:237 | Inserting after every element that does not start later keeps the list sorted by start. |
| Translation.SortByStartCorrect | src/translator.py:237 | The stable sort by `start` gives a list ordered by start that is a permutation of its input. |
| Translation.InsertIsStable | src/translator.py:237 | Inserting puts the new segment after every segment of the same start time. |
| Translation.SortByStartIsStable | src/translator.py:237 | The sort is stable: for every start time, the segments starting then come in the same order as in the input. |
| Translation.TranslatedSegmentsShape | src/translator.py:217-237 | `translate_segments` returns one entry per input segment, sorted by start and a permutation of the annotated copies. Each is an input segment with `original_text` set to its text and `text` set to its translation. |
| Translation.Translator.TranslateSegments | src/translator.py:177-240 | `translate_segments` translates each segment's text in turn and returns the annotated copies sorted by start. |
| Translation.Translator.TranslateInOrder | src/translator.py:204-234 | Before the sort, every segment is annotated with its translation, in input order. |
| Translation.Translator.TranslateBatch | src/translator.py:242-275 | `translate_batch` leaves the value and state `BatchSpec` gives: the chunk loop over `range(0, n, chunk_size)`. |
| Translation.Translator.TranslateChunk | src/translator.py:261-273 | One chunk is sent as a batch request. On failure each of its texts goes through `translate_text`. Then a half-second pause is taken. |
| Translation.Translator.TranslateEach | src/translator.py:269-270 | The fall-back translates each text of the failed chunk in turn, in order. |
| Translation.Translator.TranslateAt | src/translator.py:269-270 | One fall-back step answers the text at `k` and leaves the state from which the rest is translated. |
| Translation.BatchRequestsInOrder | src/translator.py:260-273 | The batch requests are the chunks, in order, with at least one pause per chunk. |
| Translation.BatchOrder | src/translator.py:260-265 | For a positive chunk size the batch requests are consecutive chunks of 1 to `chunk_size` texts that together are the input in order, `ceil(n / chunk_size)` of them. |
| Translation.BatchChunkFrame | src/translator.py:261-273 | One chunk records exactly its own batch request and at least the pause after it. |
| Translation.BatchChunkReplies | src/translator.py:262-270 | A chunk consumes one batch answer. A successful batch answer is the chunk's output, and a failed one gives one translation per text of the chunk. |
| Translation.BatchKeepsLength | src/translator.py:260-270 | When every successful batch answer has as many texts as its chunk, the output has one text per input text. |
| Translation.TranslateTextsFrame | src/translator.py:269-270 | Single-text translations leave the batch requests and batch answers as they were, and never remove a recorded pause. |
| Utils.DaySeconds | src/utils.py:51 | `timedelta(seconds=int(seconds)).seconds` lies in `[0, 86400)`. |
| Utils.FormatDurationRoundTrip | src/utils.py:51-60 | The duration text reads back as the seconds of the day part. It has three fields from an hour up, two from a minute, one otherwise. Hours are below 24 and minutes and seconds below 60. |
| Utils.FormatDurationExamples | src/utils.py:42-43 | 65 seconds is `"1m 5s"` and 3665 seconds is `"1h 1m 5s"`. |
| Utils.DurationTextReads | src/utils.py:55-60 | Each of the three f-string layouts reads back as its seconds, with one field per unit from the first non-zero one down. |
| Utils.FieldRoundTrip | src/utils.py:56-60 | A field such as `5m` is one word and reads back as its number of unit seconds. |
| Utils.FlagLowConfidenceSegments | src/utils.py:311-354 | The flagged list has exactly the segments with word data whose mean confidence is strictly below the threshold (default 0.5). Each is a copy of its segment with its mean and its input index, and they come in input order. |
| Utils.FlagsStep | src/utils.py:338-352 | One more segment keeps the earlier flags and adds its own exactly when it is below the threshold. |
| Utils.FlagsIndices | src/utils.py:348-352 | Every flag points at an input segment, carries a copy of it and its mean, and that segment is below the threshold. |
| Utils.FlagsOrdered | src/utils.py:338-352 | Flag indices strictly increase. |
| Utils.FlagsComplete | src/utils.py:338-352 | A segment is flagged iff it has word data and its mean is strictly below the threshold. |
| Utils.Probabilities | src/utils.py:344 | Each word's confidence, 1.0 where none was given. |
| Utils.MissingConfidenceIsOne | src/utils.py:344-345 | Words without confidences average 1.0, so they are never flagged under the default threshold. |
| Utils.MeanInUnitRange | src/utils.py:345 | When every confidence lies in [0, 1], so does the mean. |
| Utils.Name | src/utils.py:425 | `Path(p).name` is the part of the path after its last separator, or the whole path when it has none. |
| Utils.NameWithoutSeparator | src/utils.py:425 | A path without a separator is its own name. |
| Utils.LastDot | src/utils.py:227 | Finds the last `.` of a string, or reports that there is none. |
| Utils.Suffix | src/utils.py:227 | `Path(p).suffix` ends the name and is a dot followed by at least one non-dot character. It is empty iff the name is empty, has no dot after its first character, or ends with a dot. |
| Utils.SuffixOfDotted | src/utils.py:227 | A separator-free name `a.b` with `a` and `b` non-empty and no dot in `b` has suffix `.b`, case kept. |
| Utils.Stem | src/utils.py:425 | `Path(p).stem` followed by the suffix is the name. |
| Utils.ValidateFile | src/utils.py:210-231 | A file is valid iff it exists and the extension list is absent or empty, or holds the lower-cased suffix. |
| Utils.ValidateIgnoresCase | src/utils.py:227 | Two paths whose suffixes agree once lower-cased are accepted or refused together, whatever the file system says and whatever extensions are given. |
| Utils.OutputAlreadyExists | src/utils.py:403-431 | The result is true iff the output directory and `<stem>_persian.srt` exist and that file is at least as new as the video. It is absent (the original raises) iff the directory and the subtitle file exist but the video has no modification time. |
| Utils.NewerVideoIsReprocessed | src/utils.py:429-431 | A video strictly newer than its subtitles is processed again. |
| Utils.OutputNamedByStem | src/utils.py:425 | Videos with the same stem map to the same subtitle file, whatever their directory and extension. |
| Strings.Strip | src/subtitle_generator.py:292 | `str.strip()` is empty iff the text is all whitespace; otherwise it starts and ends with non-whitespace, so no more could be removed. |
| Strings.StripIsSlice | src/subtitle_generator.py:292 | `str.strip()` is a slice `s[i..j]` of the text with only whitespace before `i` and after `j`. |
| Strings.StripIdempotent | src/translator.py:108 | Stripping twice is stripping once. |
| Strings.WordsReassemble | src/subtitle_generator.py:130 | The words of `str.split()`, in order, interleaved with the text's whitespace runs give back the text. |
| Strings.GapsSeparate | src/subtitle_generator.py:130 | Those runs are whitespace only, and the ones between two words are not empty, so the words are the maximal non-whitespace runs. |
| Strings.WordsOfInterleave | src/subtitle_generator.py:130 | Conversely, words put together with such runs split back into exactly those words and runs: the decomposition is unique. |
| Strings.JoinLength | src/subtitle_generator.py:488 | A join is as long as its parts plus one separator between each pair. |
| Strings.DecimalOfIntToString | src/utils.py:56-60 | `str(n)` reads back as `n`. |
| Strings.PadIntRoundTrip | src/subtitle_generator.py:260 | `f"{n:0{w}d}"` of a number below `10^w` is exactly `w` digits and reads back as `n`. |
| Strings.PadIntDigits | src/subtitle_generator.py:260 | A padded non-negative number is at least `w` digits and reads back as the number. |
| Strings.Lower | src/utils.py:227 | `str.lower()` on ASCII maps `A`-`Z` to `a`-`z` and keeps every other character. |
| Chunking.ChunksShape | src/translator.py:260-261 | The windows `xs[i : i + k]` for `i` in `range(0, n, k)` hold the items in order. There are `ceil(n / k)` of them, each with 1 to `k` items and all but the last exactly `k`. |
| Chunking.ChunksFront | src/subtitle_generator.py:487-488 | The windows from position `i` are the window at `i` followed by the windows after it. |
| PyMath.Mod | src/subtitle_generator.py:255-257 | Python's `x % m` for positive `m` lies in `[0, m)` and satisfies `x == m * (x // m) + x % m`. |
| PyMath.Trunc | src/utils.py:51 | `int(x)` rounds toward zero. |
| PyMath.FloorDivNested | src/subtitle_generator.py:254-255 | Stacked floor divisions recombine: `x // b == a * (x // (a*b)) + (x % (a*b)) // b`. |

## Left out

- File writing, UTF-8 and BOM encoding and logging are not modelled. Each writer returns the text it would write, and `generate_all_formats` maps each format to a path and its contents instead of returning the written path.
- Subtitles.ShapePersian: `_shape_persian` is the identity. That is the original's fall-back when the reshaping libraries are absent or fail; the reshaping and bidi libraries are foreign code.
- Subtitles.WrapText: `textwrap.wrap` is modelled as a plain greedy fill of `str.split()` words. Its handling of over-long words (which it breaks), of hyphens and of whitespace other than word separation is not reproduced.
- Subtitles.WrapText: the model requires a width of at least 1. `textwrap` raises for a width below 1.
- Floating point is read as exact real arithmetic. `int((seconds % 1) * 1000)`, the proportional split and the mean confidence carry no rounding error here.
- Utils.FormatDuration: `timedelta(seconds=int(seconds))` raises `OverflowError` when `int(seconds)` is above 86399999999999 or below -86399999913600. The model returns a text for every real.
- Utils.FlagLowConfidenceSegments: `round(avg_p, 4)` is not modelled. The stored mean is the exact mean.
- Translation.TextHash: MD5 is not modelled. The key is the stripped text itself, so distinct texts never share a key. In the original an MD5 collision would answer one text with the other's cached translation; this model cannot represent that case.
- Translation.Translator.TranslateSegments: the thread pool, `as_completed`, the cache lock and the thread-local service clients are not modelled. Texts are translated one after another in input order. The sort is stable (Translation.SortByStartIsStable), so ties on `start` keep input order.
- Translation.Translator.TranslateSegments: the original's order for such ties is completion order, which it does not fix.
- Translation.Translator.TranslateSegments: the error path for a raised task (lines 229-234 of src/translator.py) is not modelled, because the modelled `translate_text` never raises.
- Translation.Translator.TranslateSegments: `max_workers` and `show_progress` only steer threads and the progress bar, and are dropped.
- The remote service is a script of answers, one per request. An exhausted script raises on every further request. A falsy answer is the empty text.
- `time.sleep` is not modelled as a delay. Each pause is recorded in the translator's `sleeps`, including the half second between batch chunks.
- Translation.Translator.TranslateText: `retry_count <= 0` returns `None`, as the original does by falling off the end of the function.
- Translation.Translator.TranslateBatch: a chunk size of zero, where `range` raises, returns `None`. A negative chunk size gives no chunks.
- Subtitles.GenerateCleanPersianText: a step of zero, where `range` raises, returns `None`. A negative step gives an empty range: no paragraph, and the text `"\n"`.
- Utils.OutputAlreadyExists, Utils.ValidateFile, Subtitles.Outputs, Subtitles.GenerateAllFormats: paths are treated as text. `Path` normalisation (repeated or trailing separators, `.` components) is not modelled, and neither is the rule of Python 3.13 and later for suffixes that end in a dot. So `ValidateFile("clip.mp4/", …)` finds no suffix where `pathlib` finds `.mp4`, and a base path `out/v/` gives `out/v/.srt` where Python writes `out/v.srt`. The command-line driver passes `Path` values, which are already normalised.
- Utils.OutputAlreadyExists: the file system is a map from existing paths to modification times.
- Utils.ValidateFile: only ASCII letters are lower-cased. Unicode case mapping is not modelled.
- Loop bodies are factored into helper methods with their own contracts: `CutPart`, `CutParts`, `AddSentence`, `WriteCue`, `WriteTimedBlock`, `WriteBilingualCue`, `TranslateAt`, `TranslateChunk` and `RetryLoop`. Each does what the corresponding loop body does.
- Reflow.MergeEnds: it does not claim that merging preserves total duration. Gaps between segments are absorbed into the merged segment, so that claim does not hold; what holds is that the first start and the last end are kept.
- `audio_extractor.py` (ffmpeg wrapper), `transcriber.py` (speech model wrapper), `main.py` (command line and orchestration) and the I/O helpers of `utils.py` are not part of this model. The last include `get_video_info`, `save_json`, `save_review_list`, `cleanup_temp_files`, `create_output_directory`, `print_banner` and `print_summary`.
