/** The few pieces of Python's `str` that the subtitle pipeline relies on:
    whitespace as `str.isspace` and the regular-expression class `\s` see it,
    `strip`, `split()`, `join`, decimal rendering of integers (`f"{n}"` and
    `f"{n:02d}"`) and lower-casing. */
module Strings {

  // ------------------------------------------------------------------
  //  Whitespace
  // ------------------------------------------------------------------

  /** The characters for which Python's `str.isspace()` holds; `\s` in a
      `str` pattern matches exactly these. */
  predicate IsSpace(c: char)
  {
    || ('\t' <= c <= '\r')                 // \t \n \v \f \r
    || ('\U{1C}' <= c <= '\U{1F}')         // information separators
    || c == ' ' || c == '\U{85}' || c == '\U{A0}' || c == '\U{1680}'
    || ('\U{2000}' <= c <= '\U{200A}')
    || c == '\U{2028}' || c == '\U{2029}' || c == '\U{202F}' || c == '\U{205F}' || c == '\U{3000}'
  }

  predicate AllSpace(s: string)
  {
    forall i | 0 <= i < |s| :: IsSpace(s[i])
  }

  predicate NoSpace(s: string)
  {
    forall i | 0 <= i < |s| :: !IsSpace(s[i])
  }

  /** `s.lstrip()`: the longest suffix of `s` that does not start with whitespace. */
  function LStrip(s: string): (r: string)
    ensures |r| <= |s| && r == s[|s| - |r|..]
    ensures AllSpace(s[..|s| - |r|])
    ensures r == [] || !IsSpace(r[0])
    decreases |s|
  {
    if s != [] && IsSpace(s[0]) then
      var r := LStrip(s[1..]);
      SliceOfSlice(s, 1, |s| - 1 - |r|);
      ConsPrefix(s, |s| - |r|);
      AllSpaceCons(s[0], s[1..][..|s| - 1 - |r|]);
      r
    else s
  }

  lemma AllSpaceCons(c: char, t: string)
    requires IsSpace(c) && AllSpace(t)
    ensures AllSpace([c] + t)
  {
  }

  /** `s.rstrip()`: the longest prefix of `s` that does not end with whitespace. */
  function RStrip(s: string): (r: string)
    ensures |r| <= |s| && r == s[..|r|]
    ensures AllSpace(s[|r|..])
    ensures r == [] || !IsSpace(r[|r| - 1])
    decreases |s|
  {
    if s != [] && IsSpace(s[|s| - 1]) then
      var t := s[..|s| - 1];
      var r := RStrip(t);
      assert t[..|r|] == s[..|r|];
      assert s[|r|..] == t[|r|..] + [s[|s| - 1]];
      r
    else s
  }

  /** `s.strip()`. */
  function Strip(s: string): (r: string)
    ensures |r| <= |s|
    ensures r == [] <==> AllSpace(s)
    ensures r != [] ==> !IsSpace(r[0]) && !IsSpace(r[|r| - 1])
  {
    var l := LStrip(s);
    var r := RStrip(l);
    assert r == [] ==> AllSpace(s) by {
      if r == [] {
        assert AllSpace(l[0..]);
        assert s[..|s|] == s;
      }
    }
    assert r != [] ==> !IsSpace(r[0]) by {
      if r != [] { assert r[0] == l[0]; }
    }
    r
  }

  /** `r` is the slice of `s` at `i`, with only whitespace on either side. */
  predicate TrimmedAt(s: string, r: string, i: nat)
  {
    i + |r| <= |s| && r == s[i..i + |r|] && AllSpace(s[..i]) && AllSpace(s[i + |r|..])
  }

  /** `strip` cuts a slice out of the text with only whitespace on either
      side of it; by the contract of `Strip` nothing more could be cut. */
  lemma StripIsSlice(s: string)
    ensures exists i :: TrimmedAt(s, Strip(s), i)
  {
    assert Strip(s) == RStrip(LStrip(s));
    TrimmedSlice(s, LStrip(s), Strip(s));
  }

  /** A prefix `r` of a suffix `l` of `s`, with only whitespace cut off on
      either side, is a slice of `s` with only whitespace around it. */
  lemma TrimmedSlice(s: string, l: string, r: string)
    requires |l| <= |s| && l == s[|s| - |l|..] && AllSpace(s[..|s| - |l|])
    requires |r| <= |l| && r == l[..|r|] && AllSpace(l[|r|..])
    ensures TrimmedAt(s, r, |s| - |l|)
  {
    SliceOfSlice(s, |s| - |l|, |r|);
  }

  /** A string that neither starts nor ends with whitespace is its own strip. */
  lemma StripTrimmed(s: string)
    requires s == [] || (!IsSpace(s[0]) && !IsSpace(s[|s| - 1]))
    ensures Strip(s) == s
  {
  }

  /** A non-empty string with no whitespace at either end: what `strip`
      leaves of a string that is not blank, and its own strip
      (`StripTrimmed`). */
  predicate Trimmed(s: string)
  {
    s != [] && !IsSpace(s[0]) && !IsSpace(s[|s| - 1])
  }

  predicate AllTrimmed(xs: seq<string>)
  {
    forall k | 0 <= k < |xs| :: Trimmed(xs[k])
  }

  lemma AllTrimmedSnoc(xs: seq<string>, t: string)
    requires AllTrimmed(xs) && Trimmed(t)
    ensures AllTrimmed(xs + [t])
  {
  }

  lemma AllTrimmedCons(t: string, xs: seq<string>)
    requires Trimmed(t) && AllTrimmed(xs)
    ensures AllTrimmed([t] + xs)
  {
  }

  /** Stripping twice is stripping once. */
  lemma StripIdempotent(s: string)
    ensures Strip(Strip(s)) == Strip(s)
  {
    StripTrimmed(Strip(s));
  }

  // ------------------------------------------------------------------
  //  Words: `s.split()` with no separator
  // ------------------------------------------------------------------

  /** Length of the leading run of non-whitespace characters. */
  function WordEnd(s: string): (k: nat)
    ensures k <= |s|
    ensures NoSpace(s[..k])
    ensures k < |s| ==> IsSpace(s[k])
    ensures s != [] && !IsSpace(s[0]) ==> k > 0
    decreases |s|
  {
    if s == [] || IsSpace(s[0]) then 0
    else
      var k := 1 + WordEnd(s[1..]);
      assert s[..k] == [s[0]] + s[1..][..k - 1];
      k
  }

  /** `s.split()`: the maximal runs of non-whitespace characters, in order. */
  function Words(s: string): (ws: seq<string>)
    ensures AllWords(ws)
    decreases |s|
  {
    var t := LStrip(s);
    if t == [] then []
    else
      var k := WordEnd(t);
      var rest := Words(t[k..]);
      AllWordsCons(t[..k], rest);
      [t[..k]] + rest
  }

  predicate AllWords(ws: seq<string>)
  {
    forall i | 0 <= i < |ws| :: ws[i] != [] && NoSpace(ws[i])
  }

  lemma AllWordsCons(w: string, ws: seq<string>)
    requires w != [] && NoSpace(w) && AllWords(ws)
    ensures AllWords([w] + ws)
  {
  }

  /** The whitespace around and between the words of `s`: the run before
      the first word, one run between each two consecutive words and the
      run after the last word. */
  function Gaps(s: string): (gs: seq<string>)
    ensures |gs| == |Words(s)| + 1
    decreases |s|
  {
    var t := LStrip(s);
    var lead := s[..|s| - |t|];
    if t == [] then [lead] else [lead] + Gaps(t[WordEnd(t)..])
  }

  /** `gs` can stand between `n` words so that they are the maximal runs of
      non-whitespace: every gap is whitespace only and the `n - 1` gaps
      between two words are not empty. */
  predicate Separating(gs: seq<string>, n: nat)
  {
    && |gs| == n + 1
    && (forall k | 0 <= k < |gs| :: AllSpace(gs[k]))
    && (forall k | 0 < k < n :: gs[k] != [])
  }

  /** Whitespace followed by a non-whitespace character (or nothing) is
      stripped up to that character. */
  lemma {:induction false} LStripSpaces(g: string, u: string)
    requires AllSpace(g) && (u == [] || !IsSpace(u[0]))
    ensures LStrip(g + u) == u
    decreases |g|
  {
    if g != [] {
      assert (g + u)[1..] == g[1..] + u;
      LStripSpaces(g[1..], u);
    } else {
      assert g + u == u;
    }
  }

  /** The first word ends where the first whitespace begins. */
  lemma {:induction false} WordEndOf(a: string, rest: string)
    requires NoSpace(a) && (rest == [] || IsSpace(rest[0]))
    ensures WordEnd(a + rest) == |a|
    decreases |a|
  {
    if a != [] {
      assert (a + rest)[1..] == a[1..] + rest;
      WordEndOf(a[1..], rest);
    }
  }

  lemma WordsSingle(a: string)
    requires a != [] && NoSpace(a)
    ensures Words(a) == [a]
  {
    WordEndOf(a, []);
    assert a + [] == a;
  }

  /** A word followed by a space and more text is the first word of it. */
  lemma WordsCons(a: string, b: string)
    requires a != [] && NoSpace(a)
    ensures Words(a + " " + b) == [a] + Words(b)
  {
    var s := a + " " + b;
    assert LStrip(s) == s;
    WordEndOf(a, " " + b);
    assert s == a + (" " + b);
    assert s[|a|..] == " " + b;
    assert LStrip(" " + b) == LStrip(b) by {
      assert (" " + b)[1..] == b;
    }
  }

  /** One step of `split()`: the leading whitespace, the first word and
      the text after it. */
  lemma WordsUnfold(s: string) returns (lead: string, w: string, rest: string)
    requires LStrip(s) != []
    ensures s == lead + w + rest
    ensures AllSpace(lead) && w != [] && NoSpace(w) && (rest == [] || IsSpace(rest[0]))
    ensures Words(s) == [w] + Words(rest)
    ensures Gaps(s) == [lead] + Gaps(rest)
  {
    var t := LStrip(s);
    var k := WordEnd(t);
    lead, w, rest := s[..|s| - |t|], t[..k], t[k..];
    SplitAt(s, |s| - |t|);
    SplitAt(t, k);
    Associative(lead, w, rest);
  }

  /** `WordsUnfold` without the text itself, which the proofs about the
      gaps alone do better without. */
  lemma WordsShape(s: string) returns (lead: string, w: string, rest: string)
    requires LStrip(s) != []
    ensures |rest| < |s|
    ensures AllSpace(lead) && (rest == [] || IsSpace(rest[0]))
    ensures Words(s) == [w] + Words(rest)
    ensures Gaps(s) == [lead] + Gaps(rest)
  {
    lead, w, rest := WordsUnfold(s);
  }

  /** A text that starts with whitespace has a non-empty leading gap. */
  lemma LeadingGap(s: string)
    requires Words(s) != [] && (s == [] || IsSpace(s[0]))
    ensures Gaps(s)[0] != []
  {
    var u := LStrip(s);
    assert |u| == |s| ==> u == s;
  }

  lemma SeparatingCons(g: string, gs: seq<string>, n: nat, hs: seq<string>, m: nat)
    requires AllSpace(g) && Separating(gs, n) && (n > 0 ==> gs[0] != [])
    requires hs == [g] + gs && m == n + 1
    ensures Separating(hs, m)
  {
    forall j | 0 < j < n + 1
      ensures hs[j] != []
    {
      assert hs[j] == gs[j - 1];
    }
    forall j | 0 <= j < |hs|
      ensures AllSpace(hs[j])
    {
      if j > 0 { assert hs[j] == gs[j - 1]; }
    }
  }

  /** `s` is its words, in order, with its gaps around and between them. */
  lemma {:induction false} WordsReassemble(s: string)
    ensures Interleave(Gaps(s), Words(s)) == s
    decreases |s|
  {
    if LStrip(s) == [] {
      WordsBlank(s);
    } else {
      var lead, w, rest := WordsUnfold(s);
      WordsReassemble(rest);
      ReassembleCons(s, lead, w, rest);
    }
  }

  /** The gaps separate the words as maximal runs: all whitespace, and not
      empty between two words. */
  lemma {:induction false} GapsSeparate(s: string)
    ensures Separating(Gaps(s), |Words(s)|)
    decreases |s|
  {
    if LStrip(s) == [] {
      WordsBlank(s);
    } else {
      var lead, w, rest := WordsShape(s);
      GapsSeparate(rest);
      if Words(rest) != [] {
        LeadingGap(rest);
      }
      SeparatingCons(lead, Gaps(rest), |Words(rest)|, Gaps(s), |Words(s)|);
    }
  }

  lemma ReassembleCons(s: string, lead: string, w: string, rest: string)
    requires s == lead + w + rest
    requires Words(s) == [w] + Words(rest) && Gaps(s) == [lead] + Gaps(rest)
    requires Interleave(Gaps(rest), Words(rest)) == rest
    ensures Interleave(Gaps(s), Words(s)) == s
  {
    InterleaveStep(lead, w, Gaps(rest), Words(rest), rest);
  }

  /** A blank text has no words and is its one gap. */
  lemma WordsBlank(s: string)
    requires LStrip(s) == []
    ensures Words(s) == [] && Gaps(s) == [s] && AllSpace(s)
    ensures Interleave(Gaps(s), Words(s)) == s
  {
    assert s[..|s|] == s;
  }

  lemma InterleaveStep(p: string, sep: string, parts: seq<string>, seps: seq<string>, rest: string)
    requires |parts| == |seps| + 1 && Interleave(parts, seps) == rest
    ensures Interleave([p] + parts, [sep] + seps) == p + sep + rest
  {
    InterleaveCons(p, sep, parts, seps);
  }

  /** Conversely, words with separating gaps between them are what
      `split()` finds again, and the gaps are the text's gaps: the
      decomposition of `WordsReassemble` and `GapsSeparate` is the only
      one. */
  lemma {:induction false} WordsOfInterleave(gs: seq<string>, ws: seq<string>)
    requires AllWords(ws) && Separating(gs, |ws|)
    ensures Words(Interleave(gs, ws)) == ws
    ensures Gaps(Interleave(gs, ws)) == gs
    decreases |ws|
  {
    var g := gs[0];
    if |ws| == 0 {
      LStripSpaces(g, []);
      AppendEmpty(g);
      WordsBlank(g);
    } else {
      var w := ws[0];
      var r := Interleave(gs[1..], ws[1..]);
      Associative(g, w, r);
      assert r == [] || IsSpace(r[0]) by {
        if |ws| > 1 {
          InterleaveHead(gs[1..], ws[1..]);
        }
      }
      SeparatingTail(gs, |ws|);
      WordsOfInterleave(gs[1..], ws[1..]);
      WordsAfter(Interleave(gs, ws), g, w, r);
      HeadTail(ws);
      HeadTail(gs);
    }
  }

  /** A text of whitespace, a word and a text that is empty or starts with
      whitespace has that word first and that whitespace as first gap. */
  lemma WordsAfter(x: string, g: string, w: string, r: string)
    requires x == g + (w + r) && AllSpace(g) && w != [] && NoSpace(w) && (r == [] || IsSpace(r[0]))
    ensures Words(x) == [w] + Words(r) && Gaps(x) == [g] + Gaps(r)
  {
    LStripSpaces(g, w + r);
    WordEndOf(w, r);
    Halves(w, r);
    Halves(g, w + r);
  }

  lemma InterleaveHead(parts: seq<string>, seps: seq<string>)
    requires |parts| == |seps| + 1 && parts[0] != []
    ensures Interleave(parts, seps)[0] == parts[0][0]
  {
  }

  lemma SeparatingTail(gs: seq<string>, n: nat)
    requires n > 0 && Separating(gs, n)
    ensures Separating(gs[1..], n - 1)
  {
    forall j | 0 < j < n - 1
      ensures gs[1..][j] != []
    {
      assert gs[1..][j] == gs[j + 1];
    }
  }

  // ------------------------------------------------------------------
  //  Sequences, generically: kept apart from `IsSpace`, whose many cases
  //  make the same facts expensive on strings
  // ------------------------------------------------------------------

  lemma SplitAt<T>(s: seq<T>, j: nat)
    requires j <= |s|
    ensures s[..j] + s[j..] == s
  {
  }

  lemma AppendEmpty<T>(s: seq<T>)
    ensures s + [] == s
  {
  }

  lemma PrependEmpty<T>(s: seq<T>)
    ensures [] + s == s
  {
  }

  lemma InitLast<T>(s: seq<T>)
    requires s != []
    ensures s[..|s| - 1] + [s[|s| - 1]] == s
  {
  }

  lemma ConsPrefix<T>(s: seq<T>, n: nat)
    requires 1 <= n <= |s|
    ensures s[..n] == [s[0]] + s[1..][..n - 1]
  {
  }

  lemma SliceOfSlice<T>(s: seq<T>, i: nat, n: nat)
    requires i + n <= |s|
    ensures s[i..][..n] == s[i..i + n] && s[i..][n..] == s[i + n..]
  {
  }

  lemma Halves<T>(a: seq<T>, b: seq<T>)
    ensures (a + b)[..|a|] == a && (a + b)[|a|..] == b
  {
  }

  lemma HeadTail<T>(s: seq<T>)
    requires s != []
    ensures s == [s[0]] + s[1..]
  {
  }

  lemma Associative<T>(a: seq<T>, b: seq<T>, c: seq<T>)
    ensures a + b + c == a + (b + c)
  {
  }

  // ------------------------------------------------------------------
  //  Joining
  // ------------------------------------------------------------------

  /** `parts[0] + seps[0] + parts[1] + ... + parts[n-1]`. */
  function Interleave(parts: seq<string>, seps: seq<string>): string
    requires |parts| == |seps| + 1
  {
    if |parts| == 1 then parts[0] else parts[0] + seps[0] + Interleave(parts[1..], seps[1..])
  }

  lemma InterleaveCons(p: string, sep: string, parts: seq<string>, seps: seq<string>)
    requires |parts| == |seps| + 1
    ensures Interleave([p] + parts, [sep] + seps) == p + sep + Interleave(parts, seps)
  {
    assert ([p] + parts)[1..] == parts;
    assert ([sep] + seps)[1..] == seps;
  }

  /** `sep.join(parts)`. */
  function Join(parts: seq<string>, sep: string): string
  {
    if |parts| == 0 then ""
    else if |parts| == 1 then parts[0]
    else parts[0] + sep + Join(parts[1..], sep)
  }

  /** Appending one more part adds one separator and the part. */
  lemma {:induction false} JoinSnoc(parts: seq<string>, p: string, sep: string)
    requires parts != []
    ensures Join(parts + [p], sep) == Join(parts, sep) + sep + p
  {
    if |parts| > 1 {
      assert (parts + [p])[1..] == parts[1..] + [p];
      JoinSnoc(parts[1..], p, sep);
    }
  }

  /** The length of a join: every part plus one separator between each pair. */
  lemma {:induction false} JoinLength(parts: seq<string>, sep: string)
    requires parts != []
    ensures |Join(parts, sep)| == TotalLength(parts) + (|parts| - 1) * |sep|
  {
    if |parts| > 1 {
      JoinLength(parts[1..], sep);
    }
  }

  /** Sum of the lengths of the parts (`sum(len(p) for p in parts)`). */
  function TotalLength(parts: seq<string>): nat
  {
    if parts == [] then 0 else |parts[0]| + TotalLength(parts[1..])
  }

  lemma {:induction false} TotalLengthSnoc(parts: seq<string>, p: string)
    ensures TotalLength(parts + [p]) == TotalLength(parts) + |p|
  {
    if parts != [] {
      assert (parts + [p])[1..] == parts[1..] + [p];
      TotalLengthSnoc(parts[1..], p);
    }
  }

  /** All elements of a sequence of sequences, in order. */
  function Flatten<T>(xss: seq<seq<T>>): seq<T>
  {
    if xss == [] then [] else xss[0] + Flatten(xss[1..])
  }

  lemma {:induction false} FlattenSnoc<T>(xss: seq<seq<T>>, xs: seq<T>)
    ensures Flatten(xss + [xs]) == Flatten(xss) + xs
  {
    if xss != [] {
      assert (xss + [xs])[1..] == xss[1..] + [xs];
      FlattenSnoc(xss[1..], xs);
    }
  }

  /** Moving the front of what is left onto what is done keeps the whole. */
  lemma AppendStep<T>(done: seq<T>, step: seq<T>, rest: seq<T>, after: seq<T>, whole: seq<T>)
    requires done + rest == whole && rest == step + after
    ensures (done + step) + after == whole
  {
  }

  function Repeat(c: char, n: nat): (r: string)
    ensures |r| == n && forall i | 0 <= i < n :: r[i] == c
  {
    if n == 0 then "" else [c] + Repeat(c, n - 1)
  }

  // ------------------------------------------------------------------
  //  Decimal numbers
  // ------------------------------------------------------------------

  predicate IsDigit(c: char)
  {
    '0' <= c <= '9'
  }

  predicate AllDigits(s: string)
  {
    forall i | 0 <= i < |s| :: IsDigit(s[i])
  }

  function DigitChar(d: nat): char
    requires d < 10
  {
    ['0', '1', '2', '3', '4', '5', '6', '7', '8', '9'][d]
  }

  function DigitValue(c: char): nat
  {
    if IsDigit(c) then (c as int - '0' as int) else 0
  }

  lemma DigitRoundTrip(d: nat)
    requires d < 10
    ensures IsDigit(DigitChar(d)) && DigitValue(DigitChar(d)) == d
  {
  }

  /** `str(n)` for a non-negative integer. */
  function IntToString(n: nat): (r: string)
    ensures r != [] && AllDigits(r)
    ensures |r| > 1 ==> r[0] != '0'
  {
    if n < 10 then [DigitChar(n)]
    else
      var r := IntToString(n / 10) + [DigitChar(n % 10)];
      assert r[0] == IntToString(n / 10)[0];
      r
  }

  /** The number a string of decimal digits denotes (`int(s)` for digit strings). */
  function DecimalValue(s: string): nat
  {
    if s == [] then 0 else DecimalValue(s[..|s| - 1]) * 10 + DigitValue(s[|s| - 1])
  }

  /** Reading back what `IntToString` wrote gives the number. */
  lemma {:induction false} DecimalOfIntToString(n: nat)
    ensures DecimalValue(IntToString(n)) == n
  {
    if n >= 10 {
      var a := IntToString(n / 10);
      var r := a + [DigitChar(n % 10)];
      assert r[..|r| - 1] == a;
      DecimalOfIntToString(n / 10);
    }
  }

  /** Leading zeros do not change the value of a digit string. */
  lemma {:induction false} DecimalLeadingZeros(k: nat, s: string)
    ensures DecimalValue(Repeat('0', k) + s) == DecimalValue(s)
    decreases |s|, k
  {
    if s == [] {
      if k > 0 {
        assert Repeat('0', k) + s == Repeat('0', k - 1) + ['0'];
        assert (Repeat('0', k - 1) + ['0'])[..k - 1] == Repeat('0', k - 1) + [];
        DecimalLeadingZeros(k - 1, []);
      }
    } else {
      var z := Repeat('0', k);
      assert (z + s)[..|z + s| - 1] == z + s[..|s| - 1];
      DecimalLeadingZeros(k, s[..|s| - 1]);
    }
  }

  function Pow10(k: nat): nat
  {
    if k == 0 then 1 else 10 * Pow10(k - 1)
  }

  /** A number below 10^k has at most k digits. */
  lemma {:induction false} IntToStringLength(n: nat, k: nat)
    requires 1 <= k && n < Pow10(k)
    ensures |IntToString(n)| <= k
  {
    if n >= 10 {
      IntToStringLength(n / 10, k - 1);
    }
  }

  /** `f"{n:0{width}d}"`: decimal digits left-padded with zeros to `width`;
      a negative number keeps its sign in front of the zeros. */
  function PadInt(n: int, width: nat): string
  {
    if n >= 0 then ZeroFill(IntToString(n), width)
    else "-" + ZeroFill(IntToString(-n), if width > 0 then width - 1 else 0)
  }

  function ZeroFill(digits: string, width: nat): (r: string)
    ensures |r| == if |digits| >= width then |digits| else width
  {
    if |digits| >= width then digits else Repeat('0', width - |digits|) + digits
  }

  /** A padded non-negative number is a digit string of exactly `width`
      characters when it fits, and reads back as the number. */
  lemma PadIntRoundTrip(n: nat, width: nat)
    requires 1 <= width && n < Pow10(width)
    ensures |PadInt(n, width)| == width
    ensures AllDigits(PadInt(n, width))
    ensures DecimalValue(PadInt(n, width)) == n
  {
    IntToStringLength(n, width);
    PadIntDigits(n, width);
  }

  /** Whatever its size, a padded non-negative number is a digit string of at
      least `width` characters that reads back as the number. */
  lemma PadIntDigits(n: nat, width: nat)
    ensures |PadInt(n, width)| >= width
    ensures AllDigits(PadInt(n, width))
    ensures DecimalValue(PadInt(n, width)) == n
  {
    var d := IntToString(n);
    DecimalOfIntToString(n);
    if |d| < width {
      var z := Repeat('0', width - |d|);
      DecimalLeadingZeros(width - |d|, d);
      ZerosThenDigits(z, d);
      assert PadInt(n, width) == z + d;
    } else {
      assert PadInt(n, width) == d;
    }
  }

  lemma ZerosThenDigits(z: string, d: string)
    requires forall i | 0 <= i < |z| :: z[i] == '0'
    requires AllDigits(d)
    ensures AllDigits(z + d)
  {
    forall i | 0 <= i < |z + d| ensures IsDigit((z + d)[i]) {
      if i >= |z| {
        assert (z + d)[i] == d[i - |z|];
      }
    }
  }

  // ------------------------------------------------------------------
  //  Case
  // ------------------------------------------------------------------

  /** `str.lower()` on the ASCII letters. */
  function Lower(s: string): (r: string)
    ensures |r| == |s|
    ensures forall i | 0 <= i < |s| :: r[i] == if 'A' <= s[i] <= 'Z' then (s[i] as int + 32) as char else s[i]
  {
    if s == [] then []
    else [if 'A' <= s[0] <= 'Z' then (s[0] as int + 32) as char else s[0]] + Lower(s[1..])
  }
}
