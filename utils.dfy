/** The small helpers of src/utils.py that decide something: the duration
    text, the low-confidence filter, and the two checks on files. What the
    file system knows (whether a path exists, its modification time) is
    passed in. */
module Utils {
  import opened Maybe
  import opened Strings
  import opened PyMath
  import opened Segments
  import Config

  // ------------------------------------------------------------------
  //  format_duration
  // ------------------------------------------------------------------

  /** `timedelta(seconds=int(seconds)).seconds`: the whole seconds, less any
      whole days (for a negative count, what is left after borrowing days). */
  function DaySeconds(seconds: real): (t: int)
    ensures 0 <= t < 86400
  {
    Trunc(seconds) % 86400
  }

  /** One field of the duration text: the number and its unit letter. */
  function Field(n: nat, unit: char): string
  {
    IntToString(n) + [unit]
  }

  /** `format_duration(seconds)`: hours, minutes and seconds of the day
      part, via `divmod` by 3600 and by 60. */
  function FormatDuration(seconds: real): string
  {
    var t := DaySeconds(seconds);
    DurationText(t / 3600, (t % 3600) / 60, (t % 3600) % 60)
  }

  /** `f"{hours}h {minutes}m {seconds}s"`, leaving out the leading fields
      that are zero. */
  function DurationText(hours: nat, minutes: nat, secs: nat): string
  {
    if hours > 0 then Field(hours, 'h') + " " + (Field(minutes, 'm') + " " + Field(secs, 's'))
    else if minutes > 0 then Field(minutes, 'm') + " " + Field(secs, 's')
    else Field(secs, 's')
  }

  function UnitSeconds(unit: char): nat
  {
    if unit == 'h' then 3600 else if unit == 'm' then 60 else if unit == 's' then 1 else 0
  }

  /** The seconds one field stands for. */
  function FieldValue(w: string): nat
  {
    if w == [] then 0 else DecimalValue(w[..|w| - 1]) * UnitSeconds(w[|w| - 1])
  }

  function SumFields(ws: seq<string>): nat
  {
    if ws == [] then 0 else FieldValue(ws[0]) + SumFields(ws[1..])
  }

  /** Reads a duration text back: the sum of its space-separated fields. */
  function ReadDuration(s: string): nat
  {
    SumFields(Words(s))
  }

  /** The duration text names the seconds of the day part exactly: it reads
      back as that number; it has an hours field iff there is at least an
      hour, a minutes field iff there is at least a minute; and the fields
      are in range (hours below 24, minutes and seconds below 60). */
  lemma FormatDurationRoundTrip(seconds: real)
    ensures ReadDuration(FormatDuration(seconds)) == DaySeconds(seconds)
    ensures var t := DaySeconds(seconds);
      |Words(FormatDuration(seconds))| == (if t >= 3600 then 3 else if t >= 60 then 2 else 1)
    ensures var t := DaySeconds(seconds);
      t / 3600 < 24 && (t % 3600) / 60 < 60 && (t % 3600) % 60 < 60
  {
    var t := DaySeconds(seconds);
    var hours, minutes, secs := t / 3600, (t % 3600) / 60, (t % 3600) % 60;
    assert t == hours * 3600 + minutes * 60 + secs;
    DurationTextReads(hours, minutes, secs, FormatDuration(seconds));
  }

  /** The two examples of the function's documentation: a minute and five
      seconds, and an hour, a minute and five seconds. */
  lemma FormatDurationExamples()
    ensures FormatDuration(65.0) == "1m 5s"
    ensures FormatDuration(3665.0) == "1h 1m 5s"
  {
    assert Trunc(65.0) == 65 && DaySeconds(65.0) == 65;
    assert Trunc(3665.0) == 3665 && DaySeconds(3665.0) == 3665;
    assert Field(1, 'h') == "1h" && Field(1, 'm') == "1m" && Field(5, 's') == "5s" by {
      assert IntToString(1) == "1";
      assert IntToString(5) == "5";
    }
    assert FormatDuration(65.0) == DurationText(0, 1, 5);
    assert FormatDuration(3665.0) == DurationText(1, 1, 5);
  }

  /** The text of a duration reads back as its seconds, one field for each
      unit from the first non-zero one down. */
  lemma DurationTextReads(hours: nat, minutes: nat, secs: nat, text: string)
    requires text == DurationText(hours, minutes, secs)
    ensures ReadDuration(text) == (if hours > 0 then hours * 3600 + minutes * 60 + secs
                                   else if minutes > 0 then minutes * 60 + secs else secs)
    ensures |Words(text)| == (if hours > 0 then 3 else if minutes > 0 then 2 else 1)
  {
    if hours > 0 {
      ReadHoursText(hours, minutes, secs, text);
    } else if minutes > 0 {
      ReadMinutesText(minutes, secs, text);
    } else {
      ReadSecondsText(secs, text);
    }
  }

  lemma ReadHoursText(hours: nat, minutes: nat, secs: nat, text: string)
    requires text == Field(hours, 'h') + " " + (Field(minutes, 'm') + " " + Field(secs, 's'))
    ensures ReadDuration(text) == hours * 3600 + minutes * 60 + secs
    ensures |Words(text)| == 3
  {
    FieldRoundTrip(hours, 'h');
    FieldRoundTrip(minutes, 'm');
    FieldRoundTrip(secs, 's');
    ReadThree(Field(hours, 'h'), Field(minutes, 'm'), Field(secs, 's'));
  }

  lemma ReadSecondsText(secs: nat, text: string)
    requires text == Field(secs, 's')
    ensures ReadDuration(text) == secs
    ensures Words(text) == [Field(secs, 's')]
  {
    FieldRoundTrip(secs, 's');
    assert UnitSeconds('s') == 1;
    assert FieldValue(text) == secs;
    ReadWord(text);
    WordsSingle(text);
  }

  lemma ReadMinutesText(minutes: nat, secs: nat, text: string)
    requires text == Field(minutes, 'm') + " " + Field(secs, 's')
    ensures ReadDuration(text) == minutes * 60 + secs
    ensures |Words(text)| == 2
  {
    FieldRoundTrip(minutes, 'm');
    FieldRoundTrip(secs, 's');
    ReadTwo(Field(minutes, 'm'), Field(secs, 's'));
  }

  lemma ReadTwo(a: string, b: string)
    requires a != [] && NoSpace(a) && b != [] && NoSpace(b)
    ensures ReadDuration(a + " " + b) == FieldValue(a) + FieldValue(b)
    ensures |Words(a + " " + b)| == 2
  {
    ReadCons(a, b);
    ReadWord(b);
  }

  lemma ReadThree(a: string, b: string, c: string)
    requires a != [] && NoSpace(a) && b != [] && NoSpace(b) && c != [] && NoSpace(c)
    ensures ReadDuration(a + " " + (b + " " + c)) == FieldValue(a) + FieldValue(b) + FieldValue(c)
    ensures |Words(a + " " + (b + " " + c))| == 3
  {
    ReadCons(a, b + " " + c);
    ReadTwo(b, c);
  }

  /** A leading word adds its field to what the rest reads as. */
  lemma ReadCons(w: string, rest: string)
    requires w != [] && NoSpace(w)
    ensures ReadDuration(w + " " + rest) == FieldValue(w) + ReadDuration(rest)
    ensures |Words(w + " " + rest)| == 1 + |Words(rest)|
  {
    WordsCons(w, rest);
    assert ([w] + Words(rest))[1..] == Words(rest);
  }

  /** A single word reads as its own field. */
  lemma ReadWord(w: string)
    requires w != [] && NoSpace(w)
    ensures ReadDuration(w) == FieldValue(w) && |Words(w)| == 1
  {
    WordsSingle(w);
    assert [w][1..] == [];
    assert SumFields([w]) == FieldValue(w) + SumFields([]);
  }

  /** A field is a word, and it reads back as its number of unit seconds. */
  lemma FieldRoundTrip(n: nat, unit: char)
    requires unit in {'h', 'm', 's'}
    ensures Field(n, unit) != [] && NoSpace(Field(n, unit))
    ensures FieldValue(Field(n, unit)) == n * UnitSeconds(unit)
  {
    var f := Field(n, unit);
    assert f[..|f| - 1] == IntToString(n);
    DecimalOfIntToString(n);
    forall i | 0 <= i < |f|
      ensures !IsSpace(f[i])
    {
      if i < |f| - 1 { assert IsDigit(IntToString(n)[i]); }
    }
  }

  // ------------------------------------------------------------------
  //  flag_low_confidence_segments
  // ------------------------------------------------------------------

  /** A segment held for review: a copy of the segment, the mean confidence
      of its words and its position in the input. */
  datatype Flagged = Flagged(segment: Segment, avgProbability: real, segmentIndex: nat)

  /** Each word's confidence, 1.0 where the recogniser gave none. */
  function Probabilities(ws: seq<Word>): (ps: seq<real>)
    ensures |ps| == |ws|
    ensures forall i | 0 <= i < |ws| :: ps[i] == ws[i].probability.GetOr(1.0)
  {
    seq(|ws|, i requires 0 <= i < |ws| => ws[i].probability.GetOr(1.0))
  }

  function Sum(xs: seq<real>): real
  {
    if xs == [] then 0.0 else xs[0] + Sum(xs[1..])
  }

  /** `sum(probs) / len(probs)`. */
  function MeanProbability(ws: seq<Word>): real
    requires ws != []
  {
    Sum(Probabilities(ws)) / (|ws| as real)
  }

  /** The words of a segment, none when the key is absent. */
  function WordsOf(seg: Segment): seq<Word>
  {
    seg.words.GetOr([])
  }

  /** A segment with word data whose mean confidence is strictly below the
      threshold. */
  predicate LowConfidence(seg: Segment, threshold: real)
  {
    WordsOf(seg) != [] && MeanProbability(WordsOf(seg)) < threshold
  }

  /** `flag_low_confidence_segments(segments, threshold)`: exactly the
      low-confidence segments, in input order, each with its mean and index. */
  method FlagLowConfidenceSegments(segments: seq<Segment>, threshold: Option<real>) returns (flagged: seq<Flagged>)
    ensures flagged == Flags(segments, threshold.GetOr(Config.LowConfidenceThreshold), |segments|)
    ensures forall i | 0 <= i < |flagged| ::
      && flagged[i].segmentIndex < |segments|
      && flagged[i].segment == segments[flagged[i].segmentIndex]
      && LowConfidence(segments[flagged[i].segmentIndex], threshold.GetOr(Config.LowConfidenceThreshold))
      && flagged[i].avgProbability == MeanProbability(WordsOf(segments[flagged[i].segmentIndex]))
    ensures forall i, j | 0 <= i < j < |flagged| :: flagged[i].segmentIndex < flagged[j].segmentIndex
    ensures forall k | 0 <= k < |segments| ::
      LowConfidence(segments[k], threshold.GetOr(Config.LowConfidenceThreshold))
      <==> exists i | 0 <= i < |flagged| :: flagged[i].segmentIndex == k
  {
    var th := threshold.GetOr(Config.LowConfidenceThreshold);
    flagged := [];
    var idx := 0;
    while idx < |segments|
      invariant 0 <= idx <= |segments|
      invariant flagged == Flags(segments, th, idx)
    {
      var seg := segments[idx];
      var words := WordsOf(seg);
      if words != [] {
        var avg := MeanProbability(words);
        if avg < th {
          flagged := flagged + [Flagged(seg, avg, idx)];
        }
      }
      idx := idx + 1;
    }
    FlagsIndices(segments, th, |segments|);
    FlagsOrdered(segments, th, |segments|);
    FlagsComplete(segments, th, |segments|);
  }

  /** The flags the loop has collected after the first `n` segments. */
  function Flags(segments: seq<Segment>, th: real, n: nat): seq<Flagged>
    requires n <= |segments|
  {
    if n == 0 then []
    else
      var seg := segments[n - 1];
      Flags(segments, th, n - 1)
      + (if LowConfidence(seg, th) then [Flagged(seg, MeanProbability(WordsOf(seg)), n - 1)] else [])
  }

  /** One more segment keeps the earlier flags and adds its own when it is
      below the threshold. */
  lemma FlagsStep(segments: seq<Segment>, th: real, n: nat)
    requires 0 < n <= |segments|
    ensures var p := Flags(segments, th, n - 1);
      var f := Flags(segments, th, n);
      var seg := segments[n - 1];
      && |f| == |p| + (if LowConfidence(seg, th) then 1 else 0)
      && (forall i | 0 <= i < |p| :: f[i] == p[i])
      && (LowConfidence(seg, th) ==> f[|p|] == Flagged(seg, MeanProbability(WordsOf(seg)), n - 1))
  {
  }

  /** Every flag points at one of the first `n` segments, carries a copy of
      it and its mean, and that segment is below the threshold. */
  lemma {:induction false} FlagsIndices(segments: seq<Segment>, th: real, n: nat)
    requires n <= |segments|
    ensures var f := Flags(segments, th, n);
      forall i | 0 <= i < |f| ::
        && f[i].segmentIndex < n
        && f[i].segment == segments[f[i].segmentIndex]
        && LowConfidence(segments[f[i].segmentIndex], th)
        && f[i].avgProbability == MeanProbability(WordsOf(segments[f[i].segmentIndex]))
  {
    if n > 0 {
      FlagsIndices(segments, th, n - 1);
      FlagsStep(segments, th, n);
    }
  }

  /** The flags come in input order. */
  lemma {:induction false} FlagsOrdered(segments: seq<Segment>, th: real, n: nat)
    requires n <= |segments|
    ensures var f := Flags(segments, th, n);
      forall i, j | 0 <= i < j < |f| :: f[i].segmentIndex < f[j].segmentIndex
  {
    if n > 0 {
      FlagsOrdered(segments, th, n - 1);
      FlagsIndices(segments, th, n - 1);
      FlagsStep(segments, th, n);
    }
  }

  /** A segment among the first `n` is flagged exactly when it is below the
      threshold. */
  lemma {:induction false} FlagsComplete(segments: seq<Segment>, th: real, n: nat)
    requires n <= |segments|
    ensures var f := Flags(segments, th, n);
      forall k | 0 <= k < n :: LowConfidence(segments[k], th) <==> exists i | 0 <= i < |f| :: f[i].segmentIndex == k
  {
    if n > 0 {
      var p := Flags(segments, th, n - 1);
      var f := Flags(segments, th, n);
      FlagsComplete(segments, th, n - 1);
      FlagsIndices(segments, th, n - 1);
      FlagsStep(segments, th, n);
      forall k | 0 <= k < n
        ensures LowConfidence(segments[k], th) <==> exists i | 0 <= i < |f| :: f[i].segmentIndex == k
      {
        if k == n - 1 {
          if LowConfidence(segments[k], th) {
            assert f[|p|].segmentIndex == k;
          }
        } else if LowConfidence(segments[k], th) {
          var i :| 0 <= i < |p| && p[i].segmentIndex == k;
          assert f[i].segmentIndex == k;
        }
      }
    }
  }

  /** Words without a confidence count as fully confident: a segment none
      of whose words has one has mean 1.0 and is never flagged at the
      configured threshold. */
  lemma MissingConfidenceIsOne(ws: seq<Word>)
    requires ws != [] && forall i | 0 <= i < |ws| :: ws[i].probability.None?
    ensures MeanProbability(ws) == 1.0
  {
    var ps := Probabilities(ws);
    forall i | 0 <= i < |ps|
      ensures ps[i] == 1.0
    {
      assert ps[i] == ws[i].probability.GetOr(1.0);
    }
    SumOfOnes(ps);
    var n := |ws| as real;
    assert Sum(ps) == n;
    assert n / n == 1.0;
  }

  lemma {:induction false} SumOfOnes(xs: seq<real>)
    requires forall i | 0 <= i < |xs| :: xs[i] == 1.0
    ensures Sum(xs) == |xs| as real
  {
    if xs != [] {
      SumOfOnes(xs[1..]);
    }
  }

  /** When every confidence lies in [0, 1], so does the mean. */
  lemma MeanInUnitRange(ws: seq<Word>)
    requires ws != []
    requires forall i | 0 <= i < |ws| :: ws[i].probability.Some? ==> 0.0 <= ws[i].probability.value <= 1.0
    ensures 0.0 <= MeanProbability(ws) <= 1.0
  {
    var ps := Probabilities(ws);
    SumBounds(ps);
    var n := |ws| as real;
    var m := Sum(ps) / n;
    assert m * n == Sum(ps);
    if m > 1.0 {
      MulStrict(1.0, m, n);
    }
  }

  lemma {:induction false} SumBounds(xs: seq<real>)
    requires forall i | 0 <= i < |xs| :: 0.0 <= xs[i] <= 1.0
    ensures 0.0 <= Sum(xs) <= |xs| as real
  {
    if xs != [] {
      SumBounds(xs[1..]);
    }
  }

  // ------------------------------------------------------------------
  //  Paths
  // ------------------------------------------------------------------

  /** The last component of a path (`Path(p).name`), for a path without
      a trailing separator: everything after the last `/`, or the whole
      path when it has none. */
  function Name(path: string): (n: string)
    ensures '/' !in n
    ensures |n| <= |path| && n == path[|path| - |n|..]
    ensures n == path || path[|path| - |n| - 1] == '/'
    decreases |path|
  {
    if path == [] then []
    else if path[|path| - 1] == '/' then []
    else
      var n := Name(path[..|path| - 1]) + [path[|path| - 1]];
      assert path[..|path| - 1][|path| - 1 - (|n| - 1)..] + [path[|path| - 1]] == path[|path| - |n|..];
      n
  }

  /** Position of the last `.` in `s`, if any (`str.rfind('.')`). */
  function LastDot(s: string): (i: Option<nat>)
    ensures i.Some? ==> i.value < |s| && s[i.value] == '.' && '.' !in s[i.value + 1..]
    ensures i.None? ==> '.' !in s
    decreases |s|
  {
    if s == [] then None
    else if s[|s| - 1] == '.' then Some(|s| - 1)
    else
      var r := LastDot(s[..|s| - 1]);
      assert r.Some? ==> s[r.value + 1..] == s[..|s| - 1][r.value + 1..] + [s[|s| - 1]];
      assert r.None? ==> s == s[..|s| - 1] + [s[|s| - 1]];
      r
  }

  /** `Path(p).suffix`: from the last dot of the name on, when that dot is
      neither the name's first nor its last character; otherwise empty. */
  function Suffix(path: string): (r: string)
    ensures r == [] || (|r| >= 2 && r[0] == '.' && '.' !in r[1..] && '/' !in r)
    ensures |r| <= |Name(path)| && r == Name(path)[|Name(path)| - |r|..]
    ensures r == [] <==>
      Name(path) == [] || '.' !in Name(path)[1..] || Name(path)[|Name(path)| - 1] == '.'
  {
    NameSuffix(Name(path))
  }

  /** The suffix of a last path component. */
  function NameSuffix(name: string): (r: string)
    requires '/' !in name
    ensures r == [] || (|r| >= 2 && r[0] == '.' && '.' !in r[1..] && '/' !in r)
    ensures |r| <= |name| && r == name[|name| - |r|..]
    ensures r == [] <==> name == [] || '.' !in name[1..] || name[|name| - 1] == '.'
  {
    InnerDot(name);
    match LastDot(name)
    case Some(i) =>
      if 0 < i < |name| - 1 then
        assert forall k | 0 <= k < |name| - i :: name[i..][k] == name[i + k];
        name[i..]
      else []
    case None => []
  }

  /** The last dot is neither first nor last exactly when there is a dot
      after the first character and the last character is not one. */
  lemma InnerDot(name: string)
    ensures (LastDot(name).Some? && 0 < LastDot(name).value < |name| - 1) <==>
      (name != [] && '.' in name[1..] && name[|name| - 1] != '.')
  {
    var d := LastDot(name);
    if d.Some? {
      var i := d.value;
      if 0 < i { assert name[1..][i - 1] == '.'; }
      if i < |name| - 1 { assert name[i + 1..][|name| - i - 2] == name[|name| - 1]; }
      if i == 0 { assert name[1..] == name[i + 1..]; }
    } else if name != [] {
      assert forall k | 0 <= k < |name| - 1 :: name[1..][k] == name[k + 1];
    }
  }

  /** `Path(p).stem`: the name without its suffix. */
  function Stem(path: string): (r: string)
    ensures r + Suffix(path) == Name(path)
  {
    var name := Name(path);
    var suffix := Suffix(path);
    SplitAt(name, |name| - |suffix|);
    name[..|name| - |suffix|]
  }

  // ------------------------------------------------------------------
  //  validate_file
  // ------------------------------------------------------------------

  /** `validate_file(file_path, extensions)`, with `fileExists` what the file
      system says of the path: an existing file passes when no extensions
      are given (none or an empty list) or its lower-cased suffix is one of
      them. */
  function ValidateFile(path: string, fileExists: bool, extensions: Option<seq<string>>): (ok: bool)
    ensures ok <==> fileExists && (extensions.None? || extensions.value == [] || Lower(Suffix(path)) in extensions.value)
  {
    if !fileExists then false
    else if extensions.Some? && extensions.value != [] && Lower(Suffix(path)) !in extensions.value then false
    else true
  }

  /** Case does not matter on the file's side: two paths whose suffixes
      agree once lower-cased are accepted or refused together. */
  lemma ValidateIgnoresCase(p: string, q: string, fileExists: bool, extensions: Option<seq<string>>)
    requires Lower(Suffix(p)) == Lower(Suffix(q))
    ensures ValidateFile(p, fileExists, extensions) == ValidateFile(q, fileExists, extensions)
  {
  }

  /** A separator-free name with a dot after its first character and
      before its last, and no dot after it: its suffix runs from that dot
      (`Path("clip.MP4").suffix == ".MP4"`). */
  lemma SuffixOfDotted(a: string, b: string)
    requires a != [] && b != [] && '/' !in a + "." + b && '.' !in b
    ensures Suffix(a + "." + b) == "." + b
  {
    NameWithoutSeparator(a + "." + b);
    NameSuffixOfDotted(a, b, a + "." + b);
  }

  lemma NameSuffixOfDotted(a: string, b: string, name: string)
    requires a != [] && b != [] && name == a + "." + b && '/' !in name && '.' !in b
    ensures NameSuffix(name) == "." + b
  {
    LastDotBefore(a, b);
    Associative(a, ".", b);
    Halves(a, "." + b);
  }

  /** A path without a separator is its own name. */
  lemma {:induction false} NameWithoutSeparator(p: string)
    requires '/' !in p
    ensures Name(p) == p
    decreases |p|
  {
    if p != [] {
      assert '/' !in p[..|p| - 1] by {
        assert forall k | 0 <= k < |p| - 1 :: p[..|p| - 1][k] == p[k];
      }
      NameWithoutSeparator(p[..|p| - 1]);
      InitLast(p);
    }
  }

  /** The last dot is the one after which no dot follows. */
  lemma {:induction false} LastDotBefore(a: string, b: string)
    requires '.' !in b
    ensures LastDot(a + "." + b) == Some(|a|)
    decreases |b|
  {
    if b != [] {
      var s := a + "." + b;
      assert s[..|s| - 1] == a + "." + b[..|b| - 1];
      assert '.' !in b[..|b| - 1] by {
        assert forall k | 0 <= k < |b| - 1 :: b[..|b| - 1][k] == b[k];
      }
      LastDotBefore(a, b[..|b| - 1]);
      assert s[|s| - 1] == b[|b| - 1];
    }
  }

  // ------------------------------------------------------------------
  //  output_already_exists
  // ------------------------------------------------------------------

  /** The SRT file a finished run leaves for a video: `<stem>_persian.srt`
      in the output directory. */
  function PersianSrtPath(videoPath: string, outputDir: string): string
  {
    outputDir + "/" + Stem(videoPath) + "_persian.srt"
  }

  /** `output_already_exists(video_path, output_dir)`, with `mtimes` the
      modification time of every path that exists. `None` is the
      `FileNotFoundError` raised when the output is there but the video is
      not. */
  function OutputAlreadyExists(videoPath: string, outputDir: string, mtimes: map<string, real>): (r: Option<bool>)
    ensures r == Some(true) <==>
      outputDir in mtimes && PersianSrtPath(videoPath, outputDir) in mtimes && videoPath in mtimes
      && mtimes[PersianSrtPath(videoPath, outputDir)] >= mtimes[videoPath]
    ensures r.None? <==>
      outputDir in mtimes && PersianSrtPath(videoPath, outputDir) in mtimes && videoPath !in mtimes
  {
    if outputDir !in mtimes then Some(false)
    else
      var srt := PersianSrtPath(videoPath, outputDir);
      if srt !in mtimes then Some(false)
      else if videoPath !in mtimes then None
      else Some(mtimes[srt] >= mtimes[videoPath])
  }

  /** Touching the video after the output was written makes it stale:
      with a strictly newer video the run is not skipped. */
  lemma NewerVideoIsReprocessed(videoPath: string, outputDir: string, mtimes: map<string, real>)
    requires videoPath in mtimes && PersianSrtPath(videoPath, outputDir) in mtimes
    requires mtimes[videoPath] > mtimes[PersianSrtPath(videoPath, outputDir)]
    ensures OutputAlreadyExists(videoPath, outputDir, mtimes) == Some(false)
  {
  }

  /** The output file is named after the video's stem, whatever directory the
      video is in and whatever its extension. */
  lemma OutputNamedByStem(v1: string, v2: string, outputDir: string)
    requires Stem(v1) == Stem(v2)
    ensures PersianSrtPath(v1, outputDir) == PersianSrtPath(v2, outputDir)
  {
  }
}
