/** The text builders of `SubtitleGenerator` (src/subtitle_generator.py):
    timestamps, line wrapping, the SRT, WebVTT, plain-text and bilingual cue
    layouts, the clean-prose document and the choice of formats made by
    `generate_all_formats`. Each writer returns the text it would write. */
module Subtitles {
  import opened Maybe
  import opened Strings
  import opened PyMath
  import opened Segments
  import opened Split
  import opened Chunking
  import Config

  // ==================================================================
  //  Timestamps
  // ==================================================================

  /** `int(seconds // 3600)` */
  function Hours(seconds: real): int
  {
    FloorDiv(seconds, 3600.0)
  }

  /** `int((seconds % 3600) // 60)` */
  function Minutes(seconds: real): int
  {
    FloorDiv(Mod(seconds, 3600.0), 60.0)
  }

  /** `int(seconds % 60)` */
  function Secs(seconds: real): int
  {
    Trunc(Mod(seconds, 60.0))
  }

  /** `int((seconds % 1) * 1000)` */
  function Millis(seconds: real): int
  {
    Trunc(Mod(seconds, 1.0) * 1000.0)
  }

  /** The character between seconds and milliseconds: a comma for `"srt"`,
      a full stop for any other format type. */
  function MillisSeparator(formatType: string): char
  {
    if formatType == "srt" then ',' else '.'
  }

  /** `format_timestamp(seconds, format_type)`: `HH:MM:SS,mmm` or
      `HH:MM:SS.mmm`, each field zero-padded (hours to at least two digits). */
  function FormatTimestamp(seconds: real, formatType: string): string
  {
    PadInt(Hours(seconds), 2) + TimestampTail(seconds, formatType)
  }

  /** Everything after the hours: `:MM:SS,mmm`. */
  function TimestampTail(seconds: real, formatType: string): string
  {
    ":" + PadInt(Minutes(seconds), 2) + ":" + PadInt(Secs(seconds), 2)
    + [MillisSeparator(formatType)] + PadInt(Millis(seconds), 3)
  }

  /** Minutes and seconds lie in `[0, 60)` and milliseconds in `[0, 1000)`
      for every input, negative ones included; hours are non-negative for a
      non-negative input. */
  lemma TimestampFieldsInRange(seconds: real)
    ensures 0 <= Minutes(seconds) < 60
    ensures 0 <= Secs(seconds) < 60
    ensures 0 <= Millis(seconds) < 1000
    ensures seconds >= 0.0 ==> Hours(seconds) >= 0
  {
    var r := Mod(seconds, 3600.0);
    var m := Minutes(seconds);
    assert r == 60.0 * (m as real) + Mod(r, 60.0);
    var f := Mod(seconds, 1.0);
    assert 0.0 <= f * 1000.0 < 1000.0;
    if seconds >= 0.0 {
      assert seconds / 3600.0 >= 0.0;
    }
  }

  /** The fields denote the time: hours, minutes and seconds add up to the
      whole seconds of the input, and with the milliseconds to its whole
      milliseconds. */
  lemma TimestampDenotes(seconds: real)
    ensures Hours(seconds) * 3600 + Minutes(seconds) * 60 + Secs(seconds) == seconds.Floor
    ensures Hours(seconds) * 3600000 + Minutes(seconds) * 60000 + Secs(seconds) * 1000 + Millis(seconds)
         == (seconds * 1000.0).Floor
  {
    var h := Hours(seconds);
    var m := Minutes(seconds);
    FloorDivNested(seconds, 60, 60.0);
    var q := FloorDiv(seconds, 60.0);
    assert q == 60 * h + m;
    var r2 := Mod(seconds, 60.0);
    assert seconds == (q as real) * 60.0 + r2;
    FloorShift(60 * q, r2);
    assert seconds.Floor == 60 * q + r2.Floor;
    var f := Mod(seconds, 1.0);
    assert FloorDiv(seconds, 1.0) == seconds.Floor;
    assert seconds * 1000.0 == (1000 * seconds.Floor) as real + f * 1000.0;
    FloorShift(1000 * seconds.Floor, f * 1000.0);
  }

  /** The whole milliseconds a timestamp's text denotes, read back from its
      fields: hours before the last ten characters, then two digits of
      minutes, two of seconds and three of milliseconds. */
  function TimestampMillis(ts: string): int
    requires |ts| >= 10
  {
    var n := |ts|;
    DecimalValue(ts[..n - 10]) * 3600000 + DecimalValue(ts[n - 9..n - 7]) * 60000
    + DecimalValue(ts[n - 6..n - 4]) * 1000 + DecimalValue(ts[n - 3..])
  }

  /** The layout of every timestamp: at least twelve characters, ending in
      `:MM:SS` and the separator the format asks for followed by `mmm`, all
      digits; for a non-negative time the hours are digits as well, exactly
      two of them below 100 hours, and reading the text back gives the
      input's whole milliseconds. */
  lemma TimestampLayout(seconds: real, formatType: string)
    ensures var ts := FormatTimestamp(seconds, formatType);
      var n := |ts|;
      && n >= 12
      && ts[n - 10] == ':' && ts[n - 7] == ':' && ts[n - 4] == MillisSeparator(formatType)
      && AllDigits(ts[n - 9..n - 7]) && AllDigits(ts[n - 6..n - 4]) && AllDigits(ts[n - 3..])
      && (seconds >= 0.0 ==> AllDigits(ts[..n - 10]) && TimestampMillis(ts) == (seconds * 1000.0).Floor)
      && (0.0 <= seconds < 360000.0 ==> n == 12)
  {
    TimestampFieldsInRange(seconds);
    TimestampDenotes(seconds);
    if 0.0 <= seconds < 360000.0 {
      assert seconds / 3600.0 < 100.0;
    }
    FieldsLayout(FormatTimestamp(seconds, formatType), Hours(seconds), Minutes(seconds), Secs(seconds), Millis(seconds),
                 MillisSeparator(formatType));
  }

  /** The same on the integer fields: `HH:MM:SS,mmm` with the hours taking
      two characters or more. */
  lemma FieldsLayout(ts: string, h: int, m: int, s: int, ms: int, sep: char)
    requires 0 <= m < 60 && 0 <= s < 60 && 0 <= ms < 1000
    requires ts == PadInt(h, 2) + (":" + PadInt(m, 2) + ":" + PadInt(s, 2) + [sep] + PadInt(ms, 3))
    ensures var n := |ts|;
      && n >= 12
      && ts[n - 10] == ':' && ts[n - 7] == ':' && ts[n - 4] == sep
      && AllDigits(ts[n - 9..n - 7]) && AllDigits(ts[n - 6..n - 4]) && AllDigits(ts[n - 3..])
      && (h >= 0 ==> AllDigits(ts[..n - 10]) && TimestampMillis(ts) == h * 3600000 + m * 60000 + s * 1000 + ms)
      && (0 <= h < 100 ==> n == 12)
  {
    var hh, mm, ss, mss := PadInt(h, 2), PadInt(m, 2), PadInt(s, 2), PadInt(ms, 3);
    PadIntRoundTrip(m, 2);
    PadIntRoundTrip(s, 2);
    PadIntRoundTrip(ms, 3);
    assert ts == hh + ":" + mm + ":" + ss + [sep] + mss;
    TimestampPieces(ts, hh, mm, ss, sep, mss);
    if h >= 0 {
      PadIntDigits(h, 2);
      MillisOf(ts, hh, mm, ss, mss);
    }
    if 0 <= h < 100 {
      PadIntRoundTrip(h, 2);
    }
  }

  /** Where the fields sit in `HH:MM:SS,mmm` when the hours take at least
      two characters. */
  lemma TimestampPieces(ts: string, hh: string, mm: string, ss: string, sep: char, ms: string)
    requires |hh| >= 2 && |mm| == 2 && |ss| == 2 && |ms| == 3
    requires ts == hh + ":" + mm + ":" + ss + [sep] + ms
    ensures var n := |ts|;
      && n == |hh| + 10
      && ts[n - 10] == ':' && ts[n - 7] == ':' && ts[n - 4] == sep
      && ts[..n - 10] == hh && ts[n - 9..n - 7] == mm && ts[n - 6..n - 4] == ss && ts[n - 3..] == ms
  {
  }

  /** Reading `HH:MM:SS,mmm` back in milliseconds from its four fields. */
  lemma MillisOf(ts: string, hh: string, mm: string, ss: string, ms: string)
    requires |ts| >= 10
    requires ts[..|ts| - 10] == hh && ts[|ts| - 9..|ts| - 7] == mm && ts[|ts| - 6..|ts| - 4] == ss && ts[|ts| - 3..] == ms
    ensures TimestampMillis(ts) == DecimalValue(hh) * 3600000 + DecimalValue(mm) * 60000
                                 + DecimalValue(ss) * 1000 + DecimalValue(ms)
  {
  }

  // ==================================================================
  //  Line wrapping
  // ==================================================================

  /** The length of a line made of `ws` joined by single spaces. */
  function LineLength(ws: seq<string>): nat
  {
    |Join(ws, " ")|
  }

  /** One step of the greedy fill: the word goes on the current line when it
      still fits after a space, and starts a new line otherwise. */
  function FillStep(lines: seq<seq<string>>, w: string, width: nat): seq<seq<string>>
  {
    if lines != [] && LineLength(lines[|lines| - 1]) + 1 + |w| <= width
    then lines[..|lines| - 1] + [lines[|lines| - 1] + [w]]
    else lines + [[w]]
  }

  /** The words of each line, filled greedily left to right. */
  function Fill(ws: seq<string>, width: nat): seq<seq<string>>
    decreases |ws|
  {
    if ws == [] then [] else FillStep(Fill(ws[..|ws| - 1], width), ws[|ws| - 1], width)
  }

  /** What a greedy fill is, stated without the fill: the lines hold the
      words in order, none is empty, each fits the width unless it is a
      single word, and no line could have taken the first word of the next. */
  predicate GreedyLines(lines: seq<seq<string>>, ws: seq<string>, width: nat)
  {
    && Flatten(lines) == ws
    && (forall k | 0 <= k < |lines| :: lines[k] != [])
    && (forall k | 0 <= k < |lines| :: LineLength(lines[k]) <= width || |lines[k]| == 1)
    && (forall k | 0 <= k < |lines| - 1 :: LineLength(lines[k]) + 1 + |lines[k + 1][0]| > width)
  }

  /** The fill is greedy. */
  lemma {:induction false} FillIsGreedy(ws: seq<string>, width: nat)
    ensures GreedyLines(Fill(ws, width), ws, width)
    decreases |ws|
  {
    if ws != [] {
      var p := ws[..|ws| - 1];
      var w := ws[|ws| - 1];
      assert ws == p + [w];
      FillIsGreedy(p, width);
      FillStepGreedy(Fill(p, width), p, w, width);
    }
  }

  lemma FillStepGreedy(lines: seq<seq<string>>, ws: seq<string>, w: string, width: nat)
    requires GreedyLines(lines, ws, width)
    ensures GreedyLines(FillStep(lines, w, width), ws + [w], width)
  {
    if lines != [] && LineLength(lines[|lines| - 1]) + 1 + |w| <= width {
      var init := lines[..|lines| - 1];
      var last := lines[|lines| - 1];
      assert lines == init + [last];
      FillJoinGreedy(init, last, ws, w, width);
    } else {
      FillNewLineGreedy(lines, ws, w, width);
    }
  }

  /** The word joins the last line, which still fits. */
  lemma FillJoinGreedy(init: seq<seq<string>>, last: seq<string>, ws: seq<string>, w: string, width: nat)
    requires GreedyLines(init + [last], ws, width)
    requires LineLength(last) + 1 + |w| <= width
    ensures GreedyLines(init + [last + [w]], ws + [w], width)
  {
    var lines := init + [last];
    var out := init + [last + [w]];
    assert last == lines[|lines| - 1] && last != [];
    FlattenSnoc(init, last);
    FlattenSnoc(init, last + [w]);
    JoinSnoc(last, w, " ");
    forall k | 0 <= k < |out|
      ensures out[k] != [] && (LineLength(out[k]) <= width || |out[k]| == 1)
    {
      if k < |init| {
        assert out[k] == lines[k];
      }
    }
    forall k | 0 <= k < |out| - 1
      ensures LineLength(out[k]) + 1 + |out[k + 1][0]| > width
    {
      assert out[k] == lines[k];
      if k + 1 == |out| - 1 {
        assert out[k + 1][0] == last[0] == lines[k + 1][0];
      } else {
        assert out[k + 1] == lines[k + 1];
      }
    }
  }

  /** The word starts a new line. */
  lemma FillNewLineGreedy(lines: seq<seq<string>>, ws: seq<string>, w: string, width: nat)
    requires GreedyLines(lines, ws, width)
    requires !(lines != [] && LineLength(lines[|lines| - 1]) + 1 + |w| <= width)
    ensures GreedyLines(lines + [[w]], ws + [w], width)
  {
    var out := lines + [[w]];
    FlattenSnoc(lines, [w]);
    forall k | 0 <= k < |out|
      ensures out[k] != [] && (LineLength(out[k]) <= width || |out[k]| == 1)
    {
      if k < |lines| {
        assert out[k] == lines[k];
      }
    }
    forall k | 0 <= k < |out| - 1
      ensures LineLength(out[k]) + 1 + |out[k + 1][0]| > width
    {
      assert out[k] == lines[k];
      if k + 1 < |lines| {
        assert out[k + 1] == lines[k + 1];
      }
    }
  }

  /** `_wrap_text`: a text that fits is returned as it is; a longer one is
      broken into greedily filled lines joined by newlines. */
  function WrapText(text: string, width: nat): string
    requires width >= 1
  {
    if |text| <= width then text else Join(WrapLines(text, width), "\n")
  }

  /** The lines a text too long for `width` is broken into. */
  function WrapLines(text: string, width: nat): (lines: seq<string>)
    ensures |lines| == |Fill(Words(text), width)|
  {
    var fill := Fill(Words(text), width);
    seq(|fill|, k requires 0 <= k < |fill| => Join(fill[k], " "))
  }

  /** The wrap keeps every word, in order, one space apart within a line:
      each line is words joined by single spaces, fits `width` or is a single
      word, and (greedy) could not take the next line's first word. */
  lemma WrapLinesSound(text: string, width: nat)
    ensures var fill := Fill(Words(text), width);
      var lines := WrapLines(text, width);
      && GreedyLines(fill, Words(text), width)
      && (forall k | 0 <= k < |lines| :: lines[k] == Join(fill[k], " "))
      && (forall k | 0 <= k < |lines| :: |lines[k]| <= width || NoSpace(lines[k]))
  {
    var ws := Words(text);
    var fill := Fill(ws, width);
    var lines := WrapLines(text, width);
    FillIsGreedy(ws, width);
    assert Flatten(fill) == ws;
    WordsOfLines(fill);
    forall k | 0 <= k < |lines|
      ensures lines[k] == Join(fill[k], " ")
      ensures |lines[k]| <= width || NoSpace(lines[k])
    {
      assert lines[k] == Join(fill[k], " ");
      if |fill[k]| == 1 {
        assert Join(fill[k], " ") == fill[k][0];
      }
    }
  }

  /** Every member of a line of words is a word: non-empty and free of
      whitespace. */
  lemma {:induction false} WordsOfLines(lines: seq<seq<string>>)
    requires forall i | 0 <= i < |Flatten(lines)| :: NoSpace(Flatten(lines)[i])
    ensures forall k, j | 0 <= k < |lines| && 0 <= j < |lines[k]| :: NoSpace(lines[k][j])
    decreases |lines|
  {
    if lines != [] {
      var f := Flatten(lines);
      assert f == lines[0] + Flatten(lines[1..]);
      forall i | 0 <= i < |Flatten(lines[1..])| ensures NoSpace(Flatten(lines[1..])[i]) {
        assert Flatten(lines[1..])[i] == f[|lines[0]| + i];
      }
      WordsOfLines(lines[1..]);
      forall k, j | 0 <= k < |lines| && 0 <= j < |lines[k]| ensures NoSpace(lines[k][j]) {
        if k == 0 {
          assert lines[0][j] == f[j];
        } else {
          assert lines[k] == lines[1..][k - 1];
        }
      }
    }
  }

  // ==================================================================
  //  Document layout
  // ==================================================================

  /** The blocks written for `segs`, one per segment, where `block(i, seg)`
      lays out the `i`-th segment counting from 1 (`enumerate(segments, 1)`). */
  function Blocks(segs: seq<Segment>, block: (nat, Segment) -> string): string
    decreases |segs|
  {
    if segs == [] then ""
    else Blocks(segs[..|segs| - 1], block) + block(|segs|, segs[|segs| - 1])
  }

  /** Writing one more segment appends its block. */
  lemma BlocksSnoc(segs: seq<Segment>, i: nat, block: (nat, Segment) -> string)
    requires i < |segs|
    ensures Blocks(segs[..i + 1], block) == Blocks(segs[..i], block) + block(i + 1, segs[i])
  {
    assert segs[..i + 1][..i] == segs[..i];
  }

  /** A document is the concatenation, for `i = 1..n`, of the block of the
      `i`-th segment. */
  lemma {:induction false} BlocksAreNumbered(segs: seq<Segment>, block: (nat, Segment) -> string)
    ensures Blocks(segs, block)
         == Flatten(seq(|segs|, k requires 0 <= k < |segs| => block(k + 1, segs[k])))
    decreases |segs|
  {
    var all := seq(|segs|, k requires 0 <= k < |segs| => block(k + 1, segs[k]));
    if segs != [] {
      var n := |segs|;
      var p := segs[..n - 1];
      BlocksAreNumbered(p, block);
      var init := seq(|p|, k requires 0 <= k < |p| => block(k + 1, p[k]));
      assert all == init + [block(n, segs[n - 1])];
      FlattenSnoc(init, block(n, segs[n - 1]));
    } else {
      assert all == [];
    }
  }

  /** Two layouts that agree on every segment give the same document. */
  lemma {:induction false} BlocksAgree(segs: seq<Segment>, b1: (nat, Segment) -> string, b2: (nat, Segment) -> string)
    requires forall k | 0 <= k < |segs| :: b1(k + 1, segs[k]) == b2(k + 1, segs[k])
    ensures Blocks(segs, b1) == Blocks(segs, b2)
    decreases |segs|
  {
    if segs != [] {
      var p := segs[..|segs| - 1];
      forall k | 0 <= k < |p| ensures b1(k + 1, p[k]) == b2(k + 1, p[k]) {
        assert p[k] == segs[k];
      }
      BlocksAgree(p, b1, b2);
    }
  }

  /** `_shape_persian` without the optional reshaping libraries: the text as
      it is. */
  function ShapePersian(text: string): string
  {
    text
  }

  /** The text line(s) of a cue: the stripped, shaped and wrapped text. */
  function CueText(seg: Segment, maxChars: nat): string
    requires maxChars >= 1
  {
    WrapText(ShapePersian(Strip(seg.text)), maxChars)
  }

  /** `{start} --> {end}` */
  function Timing(seg: Segment, formatType: string): string
  {
    FormatTimestamp(seg.start, formatType) + " --> " + FormatTimestamp(seg.end, formatType)
  }

  /** A cue from its parts: its number, its timing line, its text and a blank
      line. */
  function CueOf(number: string, timing: string, text: string): string
  {
    number + "\n" + timing + "\n" + text + "\n" + "\n"
  }

  /** The layout of the `i`-th cue of an SRT or WebVTT file. */
  function CueLayout(formatType: string, maxChars: nat): (nat, Segment) -> string
    requires maxChars >= 1
  {
    (i: nat, seg: Segment) => CueOf(IntToString(i), Timing(seg, formatType), CueText(seg, maxChars))
  }

  /** The four writes of one cue append the cue. */
  lemma CueWrites(before: string, number: string, startTime: string, endTime: string, text: string)
    ensures before + number + "\n" + startTime + " --> " + endTime + "\n" + text + "\n" + "\n"
         == before + CueOf(number, startTime + " --> " + endTime, text)
  {
  }

  /** The loop of `generate_srt` and `generate_vtt` over
      `enumerate(segments, 1)`, writing one cue per segment. */
  method WriteCues(segments: seq<Segment>, formatType: string, maxChars: nat) returns (out: string)
    requires maxChars >= 1
    ensures out == Blocks(segments, CueLayout(formatType, maxChars))
  {
    ghost var layout := CueLayout(formatType, maxChars);
    out := "";
    var i := 0;
    while i < |segments|
      invariant 0 <= i <= |segments|
      invariant out == Blocks(segments[..i], layout)
    {
      BlocksSnoc(segments, i, layout);
      out := WriteCue(out, i + 1, segments[i], formatType, maxChars);
      i := i + 1;
    }
    assert segments[..i] == segments;
  }

  /** The body of that loop: the four writes of the cue numbered `i`. */
  method WriteCue(before: string, i: nat, segment: Segment, formatType: string, maxChars: nat) returns (out: string)
    requires maxChars >= 1
    ensures out == before + CueLayout(formatType, maxChars)(i, segment)
  {
    var startTime := FormatTimestamp(segment.start, formatType);
    var endTime := FormatTimestamp(segment.end, formatType);
    var text := WrapText(ShapePersian(Strip(segment.text)), maxChars);
    out := before + IntToString(i) + "\n";
    out := out + startTime + " --> " + endTime + "\n";
    out := out + text + "\n";
    out := out + "\n";
    CueWrites(before, IntToString(i), startTime, endTime, text);
  }

  /** The text of the SRT file `generate_srt` writes. */
  method GenerateSrt(segments: seq<Segment>, maxChars: nat) returns (content: string)
    requires maxChars >= 1
    ensures content == Blocks(segments, CueLayout("srt", maxChars))
  {
    content := WriteCues(segments, "srt", maxChars);
  }

  /** The text of the WebVTT file `generate_vtt` writes: the `WEBVTT` header
      and a blank line, then the cues with full stops before the
      milliseconds (the file body of section 4.1 of the W3C WebVTT
      specification, with the cue numbers as cue identifiers). */
  method GenerateVtt(segments: seq<Segment>, maxChars: nat) returns (content: string)
    requires maxChars >= 1
    ensures content == "WEBVTT\n\n" + Blocks(segments, CueLayout("vtt", maxChars))
  {
    var cues := WriteCues(segments, "vtt", maxChars);
    content := "WEBVTT\n\n" + cues;
  }

  /** A block of the plain-text transcript from its header and text. */
  function TxtBlockOf(header: string, text: string): string
  {
    header + text + "\n\n"
  }

  /** The layout of a transcript block: the bracketed timing line when
      timestamps are asked for, then the text and a blank line. */
  function TxtLayout(includeTimestamps: bool, maxChars: nat): (nat, Segment) -> string
    requires maxChars >= 1
  {
    (i: nat, seg: Segment) =>
      TxtBlockOf(if includeTimestamps then "[" + Timing(seg, "srt") + "]\n" else "", CueText(seg, maxChars))
  }

  /** The writes of one transcript block append the block. */
  lemma TxtWrites(before: string, startTime: string, endTime: string, text: string)
    ensures before + "[" + startTime + " --> " + endTime + "]\n" + text + "\n\n"
         == before + TxtBlockOf("[" + (startTime + " --> " + endTime) + "]\n", text)
    ensures before + text + "\n\n" == before + TxtBlockOf("", text)
  {
  }

  /** The text of the transcript `generate_txt` writes. */
  method GenerateTxt(segments: seq<Segment>, includeTimestamps: bool, maxChars: nat) returns (content: string)
    requires maxChars >= 1
    ensures content == Blocks(segments, TxtLayout(includeTimestamps, maxChars))
  {
    if includeTimestamps {
      content := WriteTimedBlocks(segments, maxChars);
    } else {
      content := WritePlainBlocks(segments, maxChars);
    }
  }

  /** The loop of `generate_txt` with timestamps. */
  method WriteTimedBlocks(segments: seq<Segment>, maxChars: nat) returns (content: string)
    requires maxChars >= 1
    ensures content == Blocks(segments, TxtLayout(true, maxChars))
  {
    ghost var layout := TxtLayout(true, maxChars);
    content := "";
    var i := 0;
    while i < |segments|
      invariant 0 <= i <= |segments|
      invariant content == Blocks(segments[..i], layout)
    {
      BlocksSnoc(segments, i, layout);
      content := WriteTimedBlock(content, segments[i], maxChars);
      i := i + 1;
    }
    assert segments[..i] == segments;
  }

  /** The body of that loop: the timing line in brackets, then the text. */
  method WriteTimedBlock(before: string, segment: Segment, maxChars: nat) returns (content: string)
    requires maxChars >= 1
    ensures forall i: nat :: content == before + TxtLayout(true, maxChars)(i, segment)
  {
    var startTime := FormatTimestamp(segment.start, "srt");
    var endTime := FormatTimestamp(segment.end, "srt");
    var text := WrapText(ShapePersian(Strip(segment.text)), maxChars);
    content := before + "[" + startTime + " --> " + endTime + "]\n";
    content := content + text + "\n\n";
    TxtWrites(before, startTime, endTime, text);
  }

  /** The loop of `generate_txt` without timestamps. */
  method WritePlainBlocks(segments: seq<Segment>, maxChars: nat) returns (content: string)
    requires maxChars >= 1
    ensures content == Blocks(segments, TxtLayout(false, maxChars))
  {
    ghost var layout := TxtLayout(false, maxChars);
    content := "";
    var i := 0;
    while i < |segments|
      invariant 0 <= i <= |segments|
      invariant content == Blocks(segments[..i], layout)
    {
      BlocksSnoc(segments, i, layout);
      var text := WrapText(ShapePersian(Strip(segments[i].text)), maxChars);
      ghost var before := content;
      content := content + text + "\n\n";
      TxtWrites(before, "", "", text);
      assert content == before + layout(i + 1, segments[i]);
      i := i + 1;
    }
    assert segments[..i] == segments;
  }

  /** The stripped original text and a newline, when asked for and present. */
  function OriginalLine(seg: Segment, includeOriginal: bool): string
  {
    if includeOriginal && seg.originalText.Some? then Strip(seg.originalText.value) + "\n" else ""
  }

  /** The layout of a bilingual cue: an SRT cue whose text is preceded by the
      original line. */
  function BilingualLayout(includeOriginal: bool, maxChars: nat): (nat, Segment) -> string
    requires maxChars >= 1
  {
    (i: nat, seg: Segment) =>
      CueOf(IntToString(i), Timing(seg, "srt"), OriginalLine(seg, includeOriginal) + CueText(seg, maxChars))
  }

  /** The writes of one bilingual cue with its original line. */
  lemma BilingualWrites(before: string, number: string, startTime: string, endTime: string, original: string, text: string)
    ensures before + number + "\n" + startTime + " --> " + endTime + "\n" + original + "\n" + text + "\n" + "\n"
         == before + CueOf(number, startTime + " --> " + endTime, (original + "\n") + text)
  {
  }

  /** The text of the file `generate_bilingual_srt` writes. */
  method GenerateBilingualSrt(segments: seq<Segment>, includeOriginal: bool, maxChars: nat) returns (content: string)
    requires maxChars >= 1
    ensures content == Blocks(segments, BilingualLayout(includeOriginal, maxChars))
  {
    ghost var layout := BilingualLayout(includeOriginal, maxChars);
    content := "";
    var i := 0;
    while i < |segments|
      invariant 0 <= i <= |segments|
      invariant content == Blocks(segments[..i], layout)
    {
      BlocksSnoc(segments, i, layout);
      content := WriteBilingualCue(content, i + 1, segments[i], includeOriginal, maxChars);
      i := i + 1;
    }
    assert segments[..i] == segments;
  }

  /** The body of that loop: number and timing, the original line when asked
      for and present, the translation, a blank line. */
  method WriteBilingualCue(before: string, i: nat, segment: Segment, includeOriginal: bool, maxChars: nat) returns (content: string)
    requires maxChars >= 1
    ensures content == before + BilingualLayout(includeOriginal, maxChars)(i, segment)
  {
    var startTime := FormatTimestamp(segment.start, "srt");
    var endTime := FormatTimestamp(segment.end, "srt");
    var translatedText := WrapText(ShapePersian(Strip(segment.text)), maxChars);
    content := before + IntToString(i) + "\n";
    content := content + startTime + " --> " + endTime + "\n";
    if includeOriginal && segment.originalText.Some? {
      var originalText := Strip(segment.originalText.value);
      content := content + originalText + "\n";
      content := content + translatedText + "\n";
      BilingualWrites(before, IntToString(i), startTime, endTime, originalText, translatedText);
    } else {
      content := content + translatedText + "\n";
      CueWrites(before, IntToString(i), startTime, endTime, translatedText);
      assert "" + translatedText == translatedText;
    }
    content := content + "\n";
  }

  predicate HasOriginal(segs: seq<Segment>)
  {
    exists k | 0 <= k < |segs| :: segs[k].originalText.Some?
  }

  /** Without original texts to show (none present, or not asked for) the
      bilingual file is the SRT file. */
  lemma BilingualIsSrt(segs: seq<Segment>, includeOriginal: bool, maxChars: nat)
    requires maxChars >= 1
    requires !includeOriginal || !HasOriginal(segs)
    ensures Blocks(segs, BilingualLayout(includeOriginal, maxChars)) == Blocks(segs, CueLayout("srt", maxChars))
  {
    forall k | 0 <= k < |segs|
      ensures BilingualLayout(includeOriginal, maxChars)(k + 1, segs[k]) == CueLayout("srt", maxChars)(k + 1, segs[k])
    {
      assert OriginalLine(segs[k], includeOriginal) == "";
      assert "" + CueText(segs[k], maxChars) == CueText(segs[k], maxChars);
    }
    BlocksAgree(segs, BilingualLayout(includeOriginal, maxChars), CueLayout("srt", maxChars));
  }

  // ==================================================================
  //  Clean prose
  // ==================================================================

  /** The marks after which `generate_clean_persian_text` ends a sentence:
      `. ! ? ؟` (U+061F is the Arabic question mark). */
  const CleanPunctuation: set<char> := {'.', '!', '?', '\U{061F}'}

  /** No whitespace but single spaces. */
  predicate SingleSpaced(s: string)
  {
    && (forall i | 0 <= i < |s| :: IsSpace(s[i]) ==> s[i] == ' ')
    && (forall i | 0 <= i < |s| - 1 :: !(s[i] == ' ' && s[i + 1] == ' '))
  }

  /** `re.sub(r"\s+", " ", s)`: every maximal run of whitespace becomes one
      space. */
  function CollapseSpace(s: string): (r: string)
    ensures SingleSpaced(r)
    ensures r != [] && r[0] == ' ' <==> s != [] && IsSpace(s[0])
    ensures s != [] ==> r != []
    decreases |s|
  {
    if s == [] then []
    else if IsSpace(s[0]) then
      var rest := s[RunEnd(s, 0)..];
      var t := CollapseSpace(rest);
      assert t != [] ==> t[0] != ' ';
      " " + t
    else [s[0]] + CollapseSpace(s[1..])
  }

  /** A text that is already single-spaced is left as it is, so collapsing
      twice is collapsing once. */
  lemma {:induction false} CollapseSingleSpaced(s: string)
    requires SingleSpaced(s)
    ensures CollapseSpace(s) == s
    decreases |s|
  {
    if s != [] {
      if IsSpace(s[0]) {
        var j := RunEnd(s, 0);
        assert j == 1 by {
          if |s| > 1 { assert !IsSpace(s[1]); }
        }
        CollapseSingleSpaced(s[1..]);
      } else {
        CollapseSingleSpaced(s[1..]);
      }
    }
  }

  lemma CollapseIdempotent(s: string)
    ensures CollapseSpace(CollapseSpace(s)) == CollapseSpace(s)
  {
    CollapseSingleSpaced(CollapseSpace(s));
  }

  /** One space for a non-empty run of whitespace, nothing for an empty one. */
  function Squeezed(g: string): string
  {
    if g == [] then "" else " "
  }

  function Squeeze(gs: seq<string>): seq<string>
  {
    seq(|gs|, k requires 0 <= k < |gs| => Squeezed(gs[k]))
  }

  lemma SqueezeCons(g: string, gs: seq<string>)
    ensures Squeeze([g] + gs) == [Squeezed(g)] + Squeeze(gs)
  {
  }

  /** Collapsing keeps every word of `s`, in order, and puts one space in
      place of each non-empty run of whitespace around or between them. */
  lemma {:induction false} CollapseSqueezesGaps(s: string)
    ensures CollapseSpace(s) == Interleave(Squeeze(Gaps(s)), Words(s))
    decreases |s|
  {
    if LStrip(s) == [] {
      CollapseBlank(s);
    } else {
      var lead, w, rest := WordsUnfold(s);
      Associative(lead, w, rest);
      CollapseSqueezesGaps(rest);
      CollapseStep(s, lead, w, rest);
    }
  }

  lemma CollapseBlank(s: string)
    requires LStrip(s) == []
    ensures CollapseSpace(s) == Interleave(Squeeze(Gaps(s)), Words(s))
  {
    WordsBlank(s);
    CollapseGap(s, []);
    AppendEmpty(s);
  }

  lemma CollapseStep(s: string, lead: string, w: string, rest: string)
    requires s == lead + (w + rest) && AllSpace(lead) && w != [] && NoSpace(w)
    requires Words(s) == [w] + Words(rest) && Gaps(s) == [lead] + Gaps(rest)
    requires CollapseSpace(rest) == Interleave(Squeeze(Gaps(rest)), Words(rest))
    ensures CollapseSpace(s) == Interleave(Squeeze(Gaps(s)), Words(s))
  {
    assert (w + rest)[0] == w[0];
    CollapseGap(lead, w + rest);
    CollapseWord(w, rest);
    SqueezedStep(lead, w, Gaps(rest), Words(rest), CollapseSpace(rest));
  }

  lemma SqueezedStep(lead: string, w: string, gs: seq<string>, ws: seq<string>, rest: string)
    requires |gs| == |ws| + 1 && Interleave(Squeeze(gs), ws) == rest
    ensures Interleave(Squeeze([lead] + gs), [w] + ws) == Squeezed(lead) + (w + rest)
  {
    SqueezeCons(lead, gs);
    InterleaveStep(Squeezed(lead), w, Squeeze(gs), ws, rest);
    Associative(Squeezed(lead), w, rest);
  }

  /** A run of whitespace before a non-whitespace character, or before
      nothing, collapses to one space (to nothing when the run is empty). */
  lemma CollapseGap(g: string, u: string)
    requires AllSpace(g) && (u == [] || !IsSpace(u[0]))
    ensures CollapseSpace(g + u) == Squeezed(g) + CollapseSpace(u)
  {
    var x := g + u;
    Halves(g, u);
    if g != [] {
      var j := RunEnd(x, 0);
      assert forall i | 0 <= i < |g| :: x[i] == g[i];
      assert forall i | 0 <= i < j :: IsSpace(x[i]) by {
        forall i | 0 <= i < j ensures IsSpace(x[i]) { assert x[0..j][i] == x[i]; }
      }
      assert u != [] ==> x[|g|] == u[0];
      assert j == |g|;
    }
  }

  /** A word is copied as it is. */
  lemma {:induction false} CollapseWord(w: string, u: string)
    requires NoSpace(w)
    ensures CollapseSpace(w + u) == w + CollapseSpace(u)
    decreases |w|
  {
    if w != [] {
      var x := w + u;
      assert x[1..] == w[1..] + u;
      CollapseWord(w[1..], u);
      Associative([w[0]], w[1..], CollapseSpace(u));
      HeadTail(w);
    } else {
      PrependEmpty(u);
      PrependEmpty(CollapseSpace(u));
    }
  }

  /** Squeezed gaps still separate the words. */
  lemma SqueezeSeparating(gs: seq<string>, n: nat)
    requires Separating(gs, n)
    ensures Separating(Squeeze(gs), n)
  {
  }

  /** So the collapsed text has the same words as the original, and its
      gaps are the squeezed gaps: both ends included, it starts (ends) with
      a space exactly when the original starts (ends) with whitespace. */
  lemma CollapseKeepsWords(s: string)
    ensures Words(CollapseSpace(s)) == Words(s)
    ensures Gaps(CollapseSpace(s)) == Squeeze(Gaps(s))
  {
    CollapseSqueezesGaps(s);
    GapsSeparate(s);
    SqueezeSeparating(Gaps(s), |Words(s)|);
    WordsOfInterleave(Squeeze(Gaps(s)), Words(s));
  }

  /** The stripped texts of the segments, leaving out those that strip to
      nothing (`raw_sentences`). */
  function RawSentences(segs: seq<Segment>): (raw: seq<string>)
    ensures |raw| <= |segs|
    decreases |segs|
  {
    if segs == [] then []
    else
      var t := Strip(segs[|segs| - 1].text);
      RawSentences(segs[..|segs| - 1]) + (if t != [] then [t] else [])
  }

  /** Each raw sentence is non-empty and its own strip. */
  lemma {:induction false} RawSentencesTrimmed(segs: seq<Segment>)
    ensures AllTrimmed(RawSentences(segs))
    decreases |segs|
  {
    if segs != [] {
      var t := Strip(segs[|segs| - 1].text);
      var init := RawSentences(segs[..|segs| - 1]);
      RawSentencesTrimmed(segs[..|segs| - 1]);
      if t != [] {
        assert RawSentences(segs) == init + [t];
        AllTrimmedSnoc(init, t);
      }
    }
  }

  /** `[s.strip() for s in parts if s.strip()]` */
  function StrippedNonEmpty(parts: seq<string>): (r: seq<string>)
    ensures |r| <= |parts|
    decreases |parts|
  {
    if parts == [] then []
    else
      var t := Strip(parts[0]);
      (if t != [] then [t] else []) + StrippedNonEmpty(parts[1..])
  }

  /** Each kept part is non-empty and its own strip. */
  lemma {:induction false} StrippedNonEmptyTrimmed(parts: seq<string>)
    ensures AllTrimmed(StrippedNonEmpty(parts))
    decreases |parts|
  {
    if parts != [] {
      var t := Strip(parts[0]);
      var rest := StrippedNonEmpty(parts[1..]);
      StrippedNonEmptyTrimmed(parts[1..]);
      if t != [] {
        assert StrippedNonEmpty(parts) == [t] + rest;
        AllTrimmedCons(t, rest);
      }
    }
  }

  /** The sentences of the prose document: the raw sentences joined by
      spaces, whitespace collapsed, cut after sentence punctuation, stripped,
      empty ones dropped. */
  function CleanSentences(segs: seq<Segment>): seq<string>
  {
    StrippedNonEmpty(SplitAfter(CollapseSpace(Join(RawSentences(segs), " ")), CleanPunctuation))
  }

  /** Each chunk of sentences joined by single spaces (and shaped). */
  function ParagraphTexts(cs: seq<seq<string>>): (ps: seq<string>)
    ensures |ps| == |cs|
    decreases |cs|
  {
    if cs == [] then [] else [ShapePersian(Join(cs[0], " "))] + ParagraphTexts(cs[1..])
  }

  /** The paragraphs for `sentences_per_paragraph == k`; a negative step
      gives an empty range and so no paragraph. */
  function Paragraphs(sentences: seq<string>, k: int): seq<string>
    requires k != 0
  {
    if k < 0 then [] else ParagraphTexts(Chunks(sentences, k))
  }

  /** The text of the prose document: the paragraphs separated by blank
      lines, then a newline; `None` for a step of zero, where `range`
      raises `ValueError`. */
  function CleanText(segs: seq<Segment>, k: int): Option<string>
  {
    CleanDocument(CleanSentences(segs), k)
  }

  function CleanDocument(sentences: seq<string>, k: int): Option<string>
  {
    if k == 0 then None else Some(Join(Paragraphs(sentences, k), "\n\n") + "\n")
  }

  /** For a positive step the document has `ceil(n / k)` paragraphs of at
      most `k` sentences, together holding every sentence in order. */
  lemma CleanTextShape(sentences: seq<string>, k: nat)
    requires k >= 1
    ensures var cs := Chunks(sentences, k);
      && Flatten(cs) == sentences
      && |Paragraphs(sentences, k)| == |cs| == (|sentences| + k - 1) / k
      && (forall j | 0 <= j < |cs| :: 1 <= |cs[j]| <= k)
  {
    ChunksShape(sentences, k);
  }

  /** Taking the paragraph at `i` from `range(0, n, k)` leaves the
      paragraphs of the rest. */
  lemma ParagraphStep(sentences: seq<string>, i: nat, k: nat)
    requires k >= 1 && i < |sentences|
    ensures var j := if i + k < |sentences| then i + k else |sentences|;
      ParagraphTexts(Chunks(sentences[i..], k))
      == [ShapePersian(Join(sentences[i..j], " "))] + ParagraphTexts(Chunks(sentences[j..], k))
  {
    var j := if i + k < |sentences| then i + k else |sentences|;
    ChunksFront(sentences, i, k);
    ParagraphTextsCons(sentences[i..j], Chunks(sentences[j..], k));
  }

  lemma ParagraphTextsCons(c: seq<string>, cs: seq<seq<string>>)
    ensures ParagraphTexts([c] + cs) == [ShapePersian(Join(c, " "))] + ParagraphTexts(cs)
  {
    assert ([c] + cs)[1..] == cs;
  }

  /** `generate_clean_persian_text`: collects the raw sentences, joins and
      re-splits them, then groups them into paragraphs. */
  method GenerateCleanPersianText(segments: seq<Segment>, sentencesPerParagraph: int) returns (r: Option<string>)
    ensures r == CleanText(segments, sentencesPerParagraph)
  {
    var rawSentences := CollectRawSentences(segments);
    var fullText := Join(rawSentences, " ");
    fullText := CollapseSpace(fullText);
    var sentences := StrippedNonEmpty(SplitAfter(fullText, CleanPunctuation));
    assert sentences == CleanSentences(segments);
    assert CleanText(segments, sentencesPerParagraph) == CleanDocument(sentences, sentencesPerParagraph);
    if sentencesPerParagraph == 0 {
      return None;
    }
    var paragraphs: seq<string> := [];
    if sentencesPerParagraph > 0 {
      paragraphs := GroupParagraphs(sentences, sentencesPerParagraph);
    }
    r := Some(Join(paragraphs, "\n\n") + "\n");
  }

  /** Step 1: the loop collecting the non-empty stripped texts. */
  method CollectRawSentences(segments: seq<Segment>) returns (rawSentences: seq<string>)
    ensures rawSentences == RawSentences(segments)
  {
    rawSentences := [];
    var i := 0;
    while i < |segments|
      invariant 0 <= i <= |segments|
      invariant rawSentences == RawSentences(segments[..i])
    {
      rawSentences := AddSentence(rawSentences, segments, i);
      i := i + 1;
    }
    assert segments[..i] == segments;
  }

  /** The body of the collecting loop: the stripped text of segment `i`,
      when there is one, goes after the sentences collected so far. */
  method AddSentence(before: seq<string>, segments: seq<Segment>, i: nat) returns (after: seq<string>)
    requires i < |segments| && before == RawSentences(segments[..i])
    ensures after == RawSentences(segments[..i + 1])
  {
    var text := Strip(segments[i].text);
    RawSentencesStep(segments, i, text);
    after := before;
    if text != [] {
      after := after + [text];
    }
  }

  /** The raw sentences of one more segment. */
  lemma RawSentencesStep(segments: seq<Segment>, i: nat, t: string)
    requires i < |segments| && t == Strip(segments[i].text)
    ensures t != [] ==> RawSentences(segments[..i + 1]) == RawSentences(segments[..i]) + [t]
    ensures t == [] ==> RawSentences(segments[..i + 1]) == RawSentences(segments[..i])
  {
    assert segments[..i + 1][..i] == segments[..i];
  }

  /** Step 5: the loop over `range(0, len(sentences), k)` for a positive
      step, joining each window of `k` sentences. */
  method GroupParagraphs(sentences: seq<string>, k: nat) returns (paragraphs: seq<string>)
    requires k >= 1
    ensures paragraphs == ParagraphTexts(Chunks(sentences, k))
  {
    paragraphs := [];
    var n := |sentences|;
    var j := 0;
    ghost var full := ParagraphTexts(Chunks(sentences, k));
    ghost var rest := full;
    assert sentences[j..] == sentences;
    while j < n
      invariant 0 <= j <= n
      invariant rest == ParagraphTexts(Chunks(sentences[j..], k))
      invariant paragraphs + rest == full
      decreases n - j
    {
      var hi := if j + k < n then j + k else n;
      ParagraphStep(sentences, j, k);
      var para := Join(sentences[j..hi], " ");
      para := ShapePersian(para);
      ghost var after := ParagraphTexts(Chunks(sentences[hi..], k));
      AppendStep(paragraphs, [para], rest, after, full);
      paragraphs := paragraphs + [para];
      rest := after;
      j := hi;
    }
    assert sentences[j..] == [];
    assert paragraphs + [] == paragraphs;
  }

  // ==================================================================
  //  All formats
  // ==================================================================

  /** A file `generate_all_formats` produced: where it goes and what it holds. */
  datatype Written = Written(path: string, content: string)

  /** The formats `generate_all_formats` can write; `Key` is the name it files
      each one under in the dictionary it returns. */
  datatype Format = Srt | Vtt | Txt | BilingualSrt | CleanPersian
  {
    function Key(): string
    {
      match this
      case Srt => "srt"
      case Vtt => "vtt"
      case Txt => "txt"
      case BilingualSrt => "bilingual_srt"
      case CleanPersian => "clean_persian"
    }
  }

  /** The dictionary `generate_all_formats` returns, from the contents it
      wrote: the three timed formats, and the bilingual and clean files when
      there are any. */
  function Outputs(basePath: string, srt: string, vtt: string, txt: string, extra: Option<(string, string)>): (m: map<Format, Written>)
    ensures m.Keys == {Srt, Vtt, Txt} + (if extra.Some? then {BilingualSrt, CleanPersian} else {})
    ensures m[Srt] == Written(basePath + ".srt", srt)
    ensures m[Vtt] == Written(basePath + ".vtt", vtt)
    ensures m[Txt] == Written(basePath + ".txt", txt)
    ensures extra.Some? ==> m[BilingualSrt] == Written(basePath + "_bilingual.srt", extra.value.0)
    ensures extra.Some? ==> m[CleanPersian] == Written(basePath + "_clean.txt", extra.value.1)
  {
    var timed := map[Srt := Written(basePath + ".srt", srt),
                     Vtt := Written(basePath + ".vtt", vtt),
                     Txt := Written(basePath + ".txt", txt)];
    match extra
    case None => timed
    case Some((bilingual, clean)) =>
      timed[BilingualSrt := Written(basePath + "_bilingual.srt", bilingual)]
           [CleanPersian := Written(basePath + "_clean.txt", clean)]
  }

  /** The two files written only for translated segments: the bilingual SRT
      showing the originals, and the prose at three sentences a paragraph. */
  method GenerateExtras(segments: seq<Segment>) returns (bilingual: string, clean: string)
    ensures bilingual == Blocks(segments, BilingualLayout(true, Config.MaxCharsPerCaption))
    ensures Some(clean) == CleanText(segments, 3)
  {
    bilingual := GenerateBilingualSrt(segments, true, Config.MaxCharsPerCaption);
    var document := GenerateCleanPersianText(segments, 3);
    assert document.Some?;
    clean := document.value;
  }

  /** `generate_all_formats(segments, base_output_path, include_bilingual)`
      with the generator's configured line width: SRT, WebVTT and plain text
      always; the bilingual SRT and the clean prose (three sentences a
      paragraph) exactly when they are asked for and some segment carries an
      original text. */
  method GenerateAllFormats(segments: seq<Segment>, basePath: string, includeBilingual: bool)
    returns (results: map<Format, Written>)
    ensures results.Keys == {Srt, Vtt, Txt}
      + (if includeBilingual && HasOriginal(segments) then {BilingualSrt, CleanPersian} else {})
    ensures results[Srt] == Written(basePath + ".srt", Blocks(segments, CueLayout("srt", Config.MaxCharsPerCaption)))
    ensures results[Vtt] == Written(basePath + ".vtt", "WEBVTT\n\n" + Blocks(segments, CueLayout("vtt", Config.MaxCharsPerCaption)))
    ensures results[Txt] == Written(basePath + ".txt", Blocks(segments, TxtLayout(true, Config.MaxCharsPerCaption)))
    ensures BilingualSrt in results ==>
      results[BilingualSrt] == Written(basePath + "_bilingual.srt", Blocks(segments, BilingualLayout(true, Config.MaxCharsPerCaption)))
    ensures CleanPersian in results ==>
      results[CleanPersian].path == basePath + "_clean.txt" && CleanText(segments, 3) == Some(results[CleanPersian].content)
  {
    var maxChars: nat := Config.MaxCharsPerCaption;
    var srt := GenerateSrt(segments, maxChars);
    var vtt := GenerateVtt(segments, maxChars);
    var txt := GenerateTxt(segments, true, maxChars);
    var extra: Option<(string, string)> := None;
    if includeBilingual && HasOriginal(segments) {
      var bilingual, clean := GenerateExtras(segments);
      extra := Some((bilingual, clean));
    }
    results := Outputs(basePath, srt, vtt, txt, extra);
    assert CleanPersian in results ==> extra.Some? && results[CleanPersian].content == extra.value.1;
  }
}
