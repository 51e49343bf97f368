/** `SubtitleGenerator.reflow_segments` (src/subtitle_generator.py): a merge
    pass that folds each too-short segment into its predecessor, then a split
    pass that cuts each too-long segment after sentence punctuation and shares
    its duration among the pieces in proportion to their length. */
module Reflow {
  import opened Maybe
  import opened Strings
  import opened Segments
  import opened Split
  import Config

  // ==================================================================
  //  Merge pass
  // ==================================================================

  /** What happens to `merged[-1]` (`prev`) when `seg` is folded into it: it
      keeps its start, takes the end of `seg`, the texts are joined with one
      space, and `original_text` and `words` are concatenated only when both
      sides carry them (otherwise `prev` keeps its own). */
  function Absorb(prev: Segment, seg: Segment): Segment
  {
    prev.(
      end := seg.end,
      text := prev.text + " " + seg.text,
      originalText :=
        if prev.originalText.Some? && seg.originalText.Some?
        then Some(prev.originalText.value + " " + seg.originalText.value)
        else prev.originalText,
      words :=
        if prev.words.Some? && seg.words.Some?
        then Some(prev.words.value + seg.words.value)
        else prev.words)
  }

  /** The accumulator `merged` after the merge pass has seen `segs`: a segment
      is folded into the last accumulated one exactly when the accumulator is
      non-empty and its own duration is below `minDur`. */
  function MergeShort(segs: seq<Segment>, minDur: real): seq<Segment>
    decreases |segs|
  {
    if segs == [] then []
    else MergeStep(MergeShort(segs[..|segs| - 1], minDur), segs[|segs| - 1], minDur)
  }

  /** One iteration of the merge loop on the accumulator. */
  function MergeStep(acc: seq<Segment>, seg: Segment, minDur: real): seq<Segment>
  {
    if acc != [] && Duration(seg) < minDur
    then acc[..|acc| - 1] + [Absorb(acc[|acc| - 1], seg)]
    else acc + [seg]
  }

  /** The merge pass of `reflow_segments`, updating the last accumulated
      segment field by field as the original does. */
  method MergePass(segments: seq<Segment>, minDur: real) returns (merged: seq<Segment>)
    ensures merged == MergeShort(segments, minDur)
  {
    merged := [];
    var i := 0;
    while i < |segments|
      invariant 0 <= i <= |segments|
      invariant merged == MergeShort(segments[..i], minDur)
    {
      var seg := segments[i];
      assert segments[..i + 1][..i] == segments[..i];
      ghost var want := MergeStep(merged, seg, minDur);
      var dur := seg.end - seg.start;
      if merged != [] && dur < minDur {
        var prev := merged[|merged| - 1];
        ghost var goal := Absorb(prev, seg);
        prev := prev.(end := seg.end);
        prev := prev.(text := prev.text + " " + seg.text);
        if prev.originalText.Some? && seg.originalText.Some? {
          prev := prev.(originalText := Some(prev.originalText.value + " " + seg.originalText.value));
        }
        if prev.words.Some? && seg.words.Some? {
          prev := prev.(words := Some(prev.words.GetOr([]) + seg.words.GetOr([])));
        }
        assert prev == goal;
        merged := merged[|merged| - 1 := prev];
      } else {
        merged := merged + [seg];
      }
      assert merged == want;
      i := i + 1;
    }
    assert segments[..i] == segments;
  }

  // ------------------------------------------------------------------
  //  An independent description of the merge pass: groups led by heads
  // ------------------------------------------------------------------

  /** A segment that starts a merged group: the first one, or one whose
      duration is at least `minDur`. */
  predicate IsHead(segs: seq<Segment>, i: int, minDur: real)
    requires 0 <= i < |segs|
  {
    i == 0 || Duration(segs[i]) >= minDur
  }

  /** The indices of the heads of `segs`, in increasing order. */
  function Heads(segs: seq<Segment>, minDur: real): (h: seq<nat>)
    ensures forall k | 0 <= k < |h| :: h[k] < |segs|
    decreases |segs|
  {
    if segs == [] then []
    else
      var p := segs[..|segs| - 1];
      Heads(p, minDur) + (if IsHead(segs, |segs| - 1, minDur) then [|segs| - 1] else [])
  }

  /** `Heads` lists exactly the heads, each once, in increasing order, and
      starts with the first segment. */
  lemma {:induction false} HeadsExact(segs: seq<Segment>, minDur: real)
    ensures var h := Heads(segs, minDur);
      && (forall k, l | 0 <= k < l < |h| :: h[k] < h[l])
      && (forall i | 0 <= i < |segs| :: IsHead(segs, i, minDur) <==> i in h)
      && (segs != [] ==> h != [] && h[0] == 0)
    decreases |segs|
  {
    if segs != [] {
      var p := segs[..|segs| - 1];
      HeadsExact(p, minDur);
      forall i | 0 <= i < |p| ensures IsHead(segs, i, minDur) == IsHead(p, i, minDur) {
        assert segs[i] == p[i];
      }
    }
  }

  /** The one-past-last index of the `k`-th group: the next head, or the end. */
  function GroupEnd(h: seq<nat>, k: nat, n: nat): nat
    requires k < |h|
  {
    if k + 1 < |h| then h[k + 1] else n
  }

  /** The left fold of `Absorb` over a non-empty group. */
  function FoldGroup(g: seq<Segment>): Segment
    requires g != []
    decreases |g|
  {
    if |g| == 1 then g[0] else Absorb(FoldGroup(g[..|g| - 1]), g[|g| - 1])
  }

  /** `m[k]` is the fold of the `k`-th group of `segs`, the groups starting at
      the indices `h`. */
  predicate Grouped(m: seq<Segment>, segs: seq<Segment>, h: seq<nat>)
  {
    && |m| == |h|
    && forall k | 0 <= k < |m| ::
         h[k] < GroupEnd(h, k, |segs|) <= |segs| &&
         m[k] == FoldGroup(segs[h[k]..GroupEnd(h, k, |segs|)])
  }

  /** Each merged segment is the fold of one group: a head together with the
      short segments up to the next head. */
  lemma {:induction false} MergeShortIsGroups(segs: seq<Segment>, minDur: real)
    ensures Grouped(MergeShort(segs, minDur), segs, Heads(segs, minDur))
    decreases |segs|
  {
    if segs != [] {
      var n := |segs|;
      var p := segs[..n - 1];
      var x := segs[n - 1];
      assert segs == p + [x];
      MergeShortIsGroups(p, minDur);
      MergeNonEmpty(p, minDur);
      var mp := MergeShort(p, minDur);
      var hp := Heads(p, minDur);
      if mp != [] && Duration(x) < minDur {
        assert Heads(segs, minDur) == hp;
        GroupedJoinLast(mp, p, hp, x);
      } else {
        assert Heads(segs, minDur) == hp + [n - 1];
        GroupedAppend(mp, p, hp, x);
      }
    }
  }

  /** Folding one more segment into the last group keeps the grouping. */
  lemma GroupedJoinLast(m: seq<Segment>, segs: seq<Segment>, h: seq<nat>, x: Segment)
    requires Grouped(m, segs, h) && m != []
    ensures Grouped(m[..|m| - 1] + [Absorb(m[|m| - 1], x)], segs + [x], h)
  {
    var n := |segs| + 1;
    var s2 := segs + [x];
    var m2 := m[..|m| - 1] + [Absorb(m[|m| - 1], x)];
    forall k | 0 <= k < |m2|
      ensures h[k] < GroupEnd(h, k, n) <= n
      ensures m2[k] == FoldGroup(s2[h[k]..GroupEnd(h, k, n)])
    {
      JoinLastAt(m, segs, h, x, k);
    }
  }

  /** The `k`-th group after one more segment is folded into the last one. */
  lemma JoinLastAt(m: seq<Segment>, segs: seq<Segment>, h: seq<nat>, x: Segment, k: nat)
    requires |m| == |h| && k < |m|
    requires h[k] < GroupEnd(h, k, |segs|) <= |segs|
    requires m[k] == FoldGroup(segs[h[k]..GroupEnd(h, k, |segs|)])
    ensures var m2 := m[..|m| - 1] + [Absorb(m[|m| - 1], x)];
      && h[k] < GroupEnd(h, k, |segs| + 1) <= |segs| + 1
      && m2[k] == FoldGroup((segs + [x])[h[k]..GroupEnd(h, k, |segs| + 1)])
  {
    var n := |segs| + 1;
    var m2 := m[..|m| - 1] + [Absorb(m[|m| - 1], x)];
    if k < |m| - 1 {
      assert m2[k] == m[k];
      GroupKept(segs, h, x, k);
    } else {
      assert m2[k] == Absorb(m[k], x);
      assert GroupEnd(h, k, n) == n && GroupEnd(h, k, n - 1) == n - 1;
      assert segs[h[k]..n - 1] == segs[h[k]..];
      GroupExtended(segs, h[k], x);
    }
  }

  /** A group before the last one is not touched by one more segment. */
  lemma GroupKept(segs: seq<Segment>, h: seq<nat>, x: Segment, k: nat)
    requires k + 1 < |h| && h[k] < h[k + 1] <= |segs|
    ensures GroupEnd(h, k, |segs| + 1) == GroupEnd(h, k, |segs|)
    ensures (segs + [x])[h[k]..GroupEnd(h, k, |segs| + 1)] == segs[h[k]..GroupEnd(h, k, |segs|)]
  {
  }

  /** The last group, extended by one segment, folds to the old fold
      absorbing it. */
  lemma GroupExtended(segs: seq<Segment>, i: nat, x: Segment)
    requires i < |segs|
    ensures FoldGroup((segs + [x])[i..|segs| + 1]) == Absorb(FoldGroup(segs[i..]), x)
  {
    var g := (segs + [x])[i..|segs| + 1];
    assert g[..|g| - 1] == segs[i..];
    assert g[|g| - 1] == x;
  }

  /** A segment that starts a new group adds a one-member group. */
  lemma GroupedAppend(m: seq<Segment>, segs: seq<Segment>, h: seq<nat>, x: Segment)
    requires Grouped(m, segs, h)
    ensures Grouped(m + [x], segs + [x], h + [|segs|])
  {
    var n := |segs| + 1;
    var s2 := segs + [x];
    var m2 := m + [x];
    var h2 := h + [|segs|];
    forall k | 0 <= k < |m2|
      ensures h2[k] < GroupEnd(h2, k, n) <= n
      ensures m2[k] == FoldGroup(s2[h2[k]..GroupEnd(h2, k, n)])
    {
      if k < |m| {
        assert GroupEnd(h2, k, n) == GroupEnd(h, k, n - 1);
        assert s2[h2[k]..GroupEnd(h2, k, n)] == segs[h[k]..GroupEnd(h, k, n - 1)];
      } else {
        assert s2[h2[k]..GroupEnd(h2, k, n)] == [x];
      }
    }
  }

  function Texts(g: seq<Segment>): (ts: seq<string>)
    ensures |ts| == |g| && forall i | 0 <= i < |g| :: ts[i] == g[i].text
  {
    if g == [] then [] else [g[0].text] + Texts(g[1..])
  }

  lemma TextsSnoc(g: seq<Segment>, x: Segment)
    ensures Texts(g + [x]) == Texts(g) + [x.text]
  {
    var a := Texts(g + [x]);
    var b := Texts(g) + [x.text];
    forall i | 0 <= i < |a| ensures a[i] == b[i] {
      if i < |g| {
        assert (g + [x])[i] == g[i];
      }
    }
  }

  /** The `original_text` values present in `g`, in order. */
  function PresentOriginals(g: seq<Segment>): seq<string>
    decreases |g|
  {
    if g == [] then []
    else
      var last := g[|g| - 1];
      PresentOriginals(g[..|g| - 1]) + (if last.originalText.Some? then [last.originalText.value] else [])
  }

  /** The words of the members of `g` that carry a word list, in order. */
  function PresentWords(g: seq<Segment>): seq<Word>
    decreases |g|
  {
    if g == [] then []
    else
      var last := g[|g| - 1];
      PresentWords(g[..|g| - 1]) + (if last.words.Some? then last.words.value else [])
  }

  /** What a merged group looks like: the head's start, the last member's end,
      all texts joined with single spaces; the head's `original_text` and
      `words`, when it has them, extended by those of every member that has
      them; when the head has none, none. */
  lemma FoldGroupFields(g: seq<Segment>)
    requires g != []
    ensures var f := FoldGroup(g);
      && f.start == g[0].start
      && f.end == g[|g| - 1].end
      && f.text == Join(Texts(g), " ")
      && f.originalText == (if g[0].originalText.None? then None else Some(Join(PresentOriginals(g), " ")))
      && f.words == (if g[0].words.None? then None else Some(PresentWords(g)))
    decreases |g|
  {
    FoldGroupTimes(g);
    FoldGroupText(g);
    FoldGroupOriginals(g);
    FoldGroupWords(g);
  }

  lemma {:induction false} FoldGroupTimes(g: seq<Segment>)
    requires g != []
    ensures FoldGroup(g).start == g[0].start && FoldGroup(g).end == g[|g| - 1].end
    decreases |g|
  {
    if |g| > 1 {
      var p := g[..|g| - 1];
      FoldGroupTimes(p);
      assert p[0] == g[0];
    }
  }

  lemma {:induction false} FoldGroupText(g: seq<Segment>)
    requires g != []
    ensures FoldGroup(g).text == Join(Texts(g), " ")
    decreases |g|
  {
    if |g| > 1 {
      var p := g[..|g| - 1];
      var x := g[|g| - 1];
      FoldGroupText(p);
      assert g == p + [x];
      TextsSnoc(p, x);
      JoinSnoc(Texts(p), x.text, " ");
    }
  }

  lemma {:induction false} FoldGroupOriginals(g: seq<Segment>)
    requires g != []
    ensures FoldGroup(g).originalText == (if g[0].originalText.None? then None else Some(Join(PresentOriginals(g), " ")))
    decreases |g|
  {
    if |g| == 1 {
      assert g[..0] == [];
    } else {
      var p := g[..|g| - 1];
      var x := g[|g| - 1];
      FoldGroupOriginals(p);
      assert p[0] == g[0];
      assert PresentOriginals(g) == PresentOriginals(p) + (if x.originalText.Some? then [x.originalText.value] else []);
      if g[0].originalText.Some? {
        assert PresentOriginals(p) != [] by { PresentOriginalsHead(p); }
        if x.originalText.Some? {
          JoinSnoc(PresentOriginals(p), x.originalText.value, " ");
        } else {
          assert PresentOriginals(p) + [] == PresentOriginals(p);
        }
      }
    }
  }

  lemma {:induction false} FoldGroupWords(g: seq<Segment>)
    requires g != []
    ensures FoldGroup(g).words == (if g[0].words.None? then None else Some(PresentWords(g)))
    decreases |g|
  {
    if |g| == 1 {
      assert g[..0] == [];
      assert PresentWords(g[..0]) == [];
      if g[0].words.Some? {
        assert PresentWords(g) == [] + g[0].words.value == g[0].words.value;
      }
    } else {
      var p := g[..|g| - 1];
      var x := g[|g| - 1];
      FoldGroupWords(p);
      assert p[0] == g[0];
      assert PresentWords(g) == PresentWords(p) + (if x.words.Some? then x.words.value else []);
      if g[0].words.Some? && x.words.None? {
        assert PresentWords(p) + [] == PresentWords(p);
      }
    }
  }

  lemma {:induction false} PresentOriginalsHead(g: seq<Segment>)
    requires g != [] && g[0].originalText.Some?
    ensures PresentOriginals(g) != []
    decreases |g|
  {
    if |g| > 1 {
      PresentOriginalsHead(g[..|g| - 1]);
    }
  }

  /** Merging only joins texts with single spaces: the space-joined texts of
      the output are the space-joined texts of the input. */
  lemma {:induction false} MergeKeepsJoinedText(segs: seq<Segment>, minDur: real)
    ensures Join(Texts(MergeShort(segs, minDur)), " ") == Join(Texts(segs), " ")
    decreases |segs|
  {
    if segs != [] {
      var n := |segs|;
      var p := segs[..n - 1];
      var x := segs[n - 1];
      assert segs == p + [x];
      TextsSnoc(p, x);
      if p == [] {
        assert MergeShort(segs, minDur) == [x];
      } else {
        MergeKeepsJoinedText(p, minDur);
        MergeNonEmpty(p, minDur);
        MergeStepText(MergeShort(p, minDur), x, minDur);
        JoinSnoc(Texts(p), x.text, " ");
      }
    }
  }

  /** One merge step on a non-empty accumulator adds the new text after one
      space, whether the segment is folded in or appended. */
  lemma MergeStepText(acc: seq<Segment>, x: Segment, minDur: real)
    requires acc != []
    ensures Join(Texts(MergeStep(acc, x, minDur)), " ") == Join(Texts(acc), " ") + " " + x.text
  {
    if Duration(x) < minDur {
      var a := acc[..|acc| - 1];
      var prev := acc[|acc| - 1];
      assert acc == a + [prev];
      TextsSnoc(a, prev);
      TextsSnoc(a, Absorb(prev, x));
      if a != [] {
        JoinSnoc(Texts(a), prev.text, " ");
        JoinSnoc(Texts(a), prev.text + " " + x.text, " ");
      }
    } else {
      TextsSnoc(acc, x);
      JoinSnoc(Texts(acc), x.text, " ");
    }
  }

  /** The merge pass emits something exactly when it is given something, and
      never more segments than it was given: one per head. */
  lemma {:induction false} MergeNonEmpty(segs: seq<Segment>, minDur: real)
    ensures |MergeShort(segs, minDur)| <= |segs|
    ensures MergeShort(segs, minDur) == [] <==> segs == []
    decreases |segs|
  {
    if segs != [] {
      MergeNonEmpty(segs[..|segs| - 1], minDur);
    }
  }

  /** The first input segment always survives as the start of the first
      output segment, even when it is shorter than `minDur`; the last output
      segment ends where the last input segment ends. */
  lemma MergeEnds(segs: seq<Segment>, minDur: real)
    requires segs != []
    ensures var m := MergeShort(segs, minDur);
      && m != []
      && m[0].start == segs[0].start
      && m[|m| - 1].end == segs[|segs| - 1].end
  {
    MergeShortIsGroups(segs, minDur);
    HeadsExact(segs, minDur);
    var m := MergeShort(segs, minDur);
    var h := Heads(segs, minDur);
    FoldGroupFields(segs[h[0]..GroupEnd(h, 0, |segs|)]);
    FoldGroupFields(segs[h[|h| - 1]..GroupEnd(h, |h| - 1, |segs|)]);
  }

  // ==================================================================
  //  Split pass
  // ==================================================================

  /** The characters after which `reflow_segments` may cut a long segment:
      `. ! ? ، ؛ : ;` (U+060C and U+061B are the Arabic comma and semicolon). */
  const ReflowPunctuation: set<char> := {'.', '!', '?', '\U{060C}', '\U{061B}', ':', ';'}

  /** `dur * (len(part) / total_chars)` */
  function PartDuration(dur: real, len: nat, total: real): real
    requires total > 0.0
  {
    dur * ((len as real) / total)
  }

  lemma PartDurationAdds(dur: real, a: nat, b: nat, total: real)
    requires total > 0.0
    ensures PartDuration(dur, a, total) + PartDuration(dur, b, total) == PartDuration(dur, a + b, total)
  {
    assert (a as real) / total + (b as real) / total == ((a + b) as real) / total;
  }

  /** One fragment of a split segment: a copy of `seg` covering `[t, t + d]`
      whose text is the stripped part, whose `original_text` (if `seg` had one)
      is that same stripped part, and which has no `words`. */
  function Piece(seg: Segment, part: string, t: real, d: real): Segment
  {
    seg.(start := t, end := t + d, text := Strip(part),
         originalText := if seg.originalText.Some? then Some(Strip(part)) else None,
         words := None)
  }

  /** The fragments `reflow_segments` cuts `seg` into: fragment `k` covers
      the time share of `parts[k]`, placed after the shares of the parts
      before it. */
  function Pieces(seg: Segment, parts: seq<string>, dur: real, total: real): (ps: seq<Segment>)
    requires total > 0.0
    ensures |ps| == |parts|
  {
    seq(|parts|, k requires 0 <= k < |parts| =>
      Piece(seg, parts[k], seg.start + PartDuration(dur, TotalLength(parts[..k]), total),
            PartDuration(dur, |parts[k]|, total)))
  }

  /** Fragment `k + 1` starts exactly where fragment `k` ends. */
  lemma PiecesContiguous(seg: Segment, parts: seq<string>, dur: real, total: real, k: nat)
    requires total > 0.0 && k + 1 < |parts|
    ensures Pieces(seg, parts, dur, total)[k + 1].start == Pieces(seg, parts, dur, total)[k].end
  {
    PieceAt(seg, parts, dur, total, k);
    PieceAt(seg, parts, dur, total, k + 1);
    PrefixLength(parts, k);
    PartDurationAdds(dur, TotalLength(parts[..k]), |parts[k]|, total);
  }

  /** Where fragment `k` starts and ends. */
  lemma PieceAt(seg: Segment, parts: seq<string>, dur: real, total: real, k: nat)
    requires total > 0.0 && k < |parts|
    ensures var p := Pieces(seg, parts, dur, total)[k];
      && p.start == seg.start + PartDuration(dur, TotalLength(parts[..k]), total)
      && p.end == p.start + PartDuration(dur, |parts[k]|, total)
  {
  }

  /** One more part in the prefix adds its length. */
  lemma PrefixLength(parts: seq<string>, k: nat)
    requires k < |parts|
    ensures TotalLength(parts[..k + 1]) == TotalLength(parts[..k]) + |parts[k]|
  {
    assert parts[..k + 1] == parts[..k] + [parts[k]];
    TotalLengthSnoc(parts[..k], parts[k]);
  }

  /** Taking one more part adds one piece, placed after the earlier ones. */
  lemma PiecesSnoc(seg: Segment, parts: seq<string>, j: nat, dur: real, total: real)
    requires total > 0.0 && j < |parts|
    ensures TotalLength(parts[..j + 1]) == TotalLength(parts[..j]) + |parts[j]|
    ensures Pieces(seg, parts[..j + 1], dur, total)
         == Pieces(seg, parts[..j], dur, total)
            + [Piece(seg, parts[j], seg.start + PartDuration(dur, TotalLength(parts[..j]), total),
                     PartDuration(dur, |parts[j]|, total))]
  {
    var p := parts[..j];
    var q := parts[..j + 1];
    assert q == p + [parts[j]];
    TotalLengthSnoc(p, parts[j]);
    var a := Pieces(seg, q, dur, total);
    var b := Pieces(seg, p, dur, total);
    PiecesPrefix(seg, p, q, dur, total);
    assert a == b + [a[j]];
  }

  /** The pieces of a prefix of the parts are a prefix of the pieces. */
  lemma PiecesPrefix(seg: Segment, p: seq<string>, q: seq<string>, dur: real, total: real)
    requires total > 0.0 && |p| <= |q| && q[..|p|] == p
    ensures forall k | 0 <= k < |p| :: Pieces(seg, q, dur, total)[k] == Pieces(seg, p, dur, total)[k]
  {
    forall k | 0 <= k < |p| ensures Pieces(seg, q, dur, total)[k] == Pieces(seg, p, dur, total)[k] {
      assert q[..k] == p[..k];
      assert q[k] == p[k];
      PieceValue(seg, q, dur, total, k);
      PieceValue(seg, p, dur, total, k);
    }
  }

  /** Fragment `k`, spelled out. */
  lemma PieceValue(seg: Segment, parts: seq<string>, dur: real, total: real, k: nat)
    requires total > 0.0 && k < |parts|
    ensures Pieces(seg, parts, dur, total)[k]
         == Piece(seg, parts[k], seg.start + PartDuration(dur, TotalLength(parts[..k]), total),
                  PartDuration(dur, |parts[k]|, total))
  {
  }

  /** What splitting one segment gives back (the body of the loop over
      `merged`). */
  function SplitLong(seg: Segment, maxDur: real): seq<Segment>
  {
    if Duration(seg) <= maxDur then [seg]
    else
      var parts := SplitAfter(seg.text, ReflowPunctuation);
      if |parts| <= 1 then [seg]
      else Pieces(seg, parts, Duration(seg), Max(TotalLength(parts), 1) as real)
  }

  function Max(a: int, b: int): int
  {
    if a >= b then a else b
  }

  /** The split pass over a whole list: each segment replaced by its pieces. */
  function SplitAll(segs: seq<Segment>, maxDur: real): seq<Segment>
    decreases |segs|
  {
    if segs == [] then []
    else SplitAll(segs[..|segs| - 1], maxDur) + SplitLong(segs[|segs| - 1], maxDur)
  }

  /** A segment that fits, or that has no cut point, comes back unchanged. */
  lemma SplitLongKeeps(seg: Segment, maxDur: real)
    requires Duration(seg) <= maxDur || |SplitAfter(seg.text, ReflowPunctuation)| <= 1
    ensures SplitLong(seg, maxDur) == [seg]
  {
  }

  /** The fragments tile the parent's time: the first starts at the parent's
      start, each starts where the previous one ended, the last ends at the
      parent's start plus `dur` when the shares are of the whole text, and
      each lasts `dur` times its part's share of the characters. */
  lemma PiecesTiming(seg: Segment, parts: seq<string>, dur: real, total: real)
    requires parts != [] && total == TotalLength(parts) as real && total > 0.0
    ensures var out := Pieces(seg, parts, dur, total);
      && out[0].start == seg.start
      && out[|out| - 1].end == seg.start + dur
      && (forall k | 0 <= k < |out| - 1 :: out[k + 1].start == out[k].end)
      && (forall k | 0 <= k < |out| :: Duration(out[k]) == PartDuration(dur, |parts[k]|, total))
  {
    PiecesFirstStart(seg, parts, dur, total);
    PiecesLastEnd(seg, parts, dur, total);
    PiecesChain(seg, parts, dur, total);
    PiecesDurations(seg, parts, dur, total);
  }

  lemma PiecesFirstStart(seg: Segment, parts: seq<string>, dur: real, total: real)
    requires parts != [] && total > 0.0
    ensures Pieces(seg, parts, dur, total)[0].start == seg.start
  {
    PieceAt(seg, parts, dur, total, 0);
    assert parts[..0] == [];
  }

  lemma PiecesChain(seg: Segment, parts: seq<string>, dur: real, total: real)
    requires total > 0.0
    ensures var out := Pieces(seg, parts, dur, total);
      forall k | 0 <= k < |out| - 1 :: out[k + 1].start == out[k].end
  {
    var out := Pieces(seg, parts, dur, total);
    forall k | 0 <= k < |out| - 1 ensures out[k + 1].start == out[k].end {
      PiecesContiguous(seg, parts, dur, total, k);
    }
  }

  lemma PiecesDurations(seg: Segment, parts: seq<string>, dur: real, total: real)
    requires total > 0.0
    ensures var out := Pieces(seg, parts, dur, total);
      forall k | 0 <= k < |out| :: Duration(out[k]) == PartDuration(dur, |parts[k]|, total)
  {
  }

  lemma PiecesLastEnd(seg: Segment, parts: seq<string>, dur: real, total: real)
    requires parts != [] && total == TotalLength(parts) as real && total > 0.0
    ensures var out := Pieces(seg, parts, dur, total);
      out[|out| - 1].end == seg.start + dur
  {
    var n := |parts|;
    assert parts[..n] == parts;
    PieceAt(seg, parts, dur, total, n - 1);
    PrefixLength(parts, n - 1);
    LastShare(seg.start, dur, TotalLength(parts[..n - 1]), |parts[n - 1]|, total);
  }

  /** The shares of all the parts add up to the whole duration. */
  lemma LastShare(start: real, dur: real, a: nat, b: nat, total: real)
    requires total == (a + b) as real && total > 0.0
    ensures start + PartDuration(dur, a, total) + PartDuration(dur, b, total) == start + dur
  {
    PartDurationAdds(dur, a, b, total);
    PartDurationWhole(dur, a + b);
  }

  lemma PartDurationWhole(dur: real, n: nat)
    requires n > 0
    ensures PartDuration(dur, n, n as real) == dur
  {
    assert (n as real) / (n as real) == 1.0;
  }

  /** Every fragment has the stripped part as its text, that same stripped
      part as its `original_text` when the parent had one (and none
      otherwise), and no words. */
  lemma PiecesContent(seg: Segment, parts: seq<string>, dur: real, total: real)
    requires total > 0.0
    ensures var out := Pieces(seg, parts, dur, total);
      forall k | 0 <= k < |out| ::
        && out[k].text == Strip(parts[k])
        && out[k].words == None
        && out[k].originalText == (if seg.originalText.Some? then Some(Strip(parts[k])) else None)
  {
    var out := Pieces(seg, parts, dur, total);
    forall k | 0 <= k < |out|
      ensures && out[k].text == Strip(parts[k])
              && out[k].words == None
              && out[k].originalText == (if seg.originalText.Some? then Some(Strip(parts[k])) else None)
    {
      PieceValue(seg, parts, dur, total, k);
    }
  }

  /** A cut segment becomes the pieces of its parts, shared by the parts' total
      length (the `max(..., 1)` guard does not act). */
  lemma SplitLongIsPieces(seg: Segment, maxDur: real, parts: seq<string>)
    requires parts == SplitAfter(seg.text, ReflowPunctuation)
    requires Duration(seg) > maxDur && |parts| >= 2
    ensures TotalLength(parts) >= 1
    ensures SplitLong(seg, maxDur) == Pieces(seg, parts, Duration(seg), TotalLength(parts) as real)
  {
    SplitPartsHaveLength(seg.text, ReflowPunctuation);
    assert Max(TotalLength(parts), 1) == TotalLength(parts);
  }

  /** Every fragment of a cut segment has the stripped part as its text, that
      same stripped part as its `original_text` when the segment had one (and
      none otherwise), and no words. */
  lemma SplitLongContent(seg: Segment, maxDur: real)
    requires Duration(seg) > maxDur && |SplitAfter(seg.text, ReflowPunctuation)| >= 2
    ensures var parts := SplitAfter(seg.text, ReflowPunctuation);
      var out := SplitLong(seg, maxDur);
      && |out| == |parts|
      && forall k | 0 <= k < |out| ::
           && out[k].text == Strip(parts[k])
           && out[k].words == None
           && out[k].originalText == (if seg.originalText.Some? then Some(Strip(parts[k])) else None)
  {
    var parts := SplitAfter(seg.text, ReflowPunctuation);
    PiecesContent(seg, parts, Duration(seg), Max(TotalLength(parts), 1) as real);
  }

  /** The split pass of `reflow_segments`: a loop over the merged segments
      that emits each one's fragments. */
  method SplitPass(merged: seq<Segment>, maxDur: real) returns (result: seq<Segment>)
    ensures result == SplitAll(merged, maxDur)
  {
    result := [];
    var i := 0;
    while i < |merged|
      invariant 0 <= i <= |merged|
      invariant result == SplitAll(merged[..i], maxDur)
    {
      assert merged[..i + 1][..i] == merged[..i];
      var pieces := SplitSegment(merged[i], maxDur);
      result := result + pieces;
      i := i + 1;
    }
    assert merged[..i] == merged;
  }

  /** The body of the split loop for one segment: a segment that is cut is
      walked part by part, advancing the running time `t` by each part's share
      of the duration. */
  method SplitSegment(seg: Segment, maxDur: real) returns (pieces: seq<Segment>)
    ensures pieces == SplitLong(seg, maxDur)
  {
    var dur := seg.end - seg.start;
    if dur <= maxDur {
      return [seg];
    }
    var parts := SplitAfter(seg.text, ReflowPunctuation);
    if |parts| <= 1 {
      return [seg];
    }
    var totalChars := Max(TotalLength(parts), 1) as real;
    pieces := CutParts(seg, parts, dur, totalChars);
  }

  /** The loop over the parts of a cut segment, advancing the running time
      `t` by each part's share of the duration. */
  method CutParts(seg: Segment, parts: seq<string>, dur: real, totalChars: real) returns (pieces: seq<Segment>)
    requires totalChars > 0.0
    ensures pieces == Pieces(seg, parts, dur, totalChars)
  {
    var t := seg.start;
    pieces := [];
    var j := 0;
    while j < |parts|
      invariant 0 <= j <= |parts|
      invariant t == seg.start + PartDuration(dur, TotalLength(parts[..j]), totalChars)
      invariant pieces == Pieces(seg, parts[..j], dur, totalChars)
    {
      var partText := parts[j];
      var newSeg, partDur := CutPart(seg, partText, t, dur, totalChars);
      CutTime(seg.start, parts, j, dur, totalChars, t, partDur);
      CutPieces(seg, parts, j, dur, totalChars, t, partDur, newSeg, pieces);
      pieces := pieces + [newSeg];
      t := t + partDur;
      j := j + 1;
    }
    assert parts[..j] == parts;
  }

  /** One step of the split loop keeps the running time at the start plus
      the shares of the parts walked. */
  lemma CutTime(start: real, parts: seq<string>, j: nat, dur: real, total: real, t: real, d: real)
    requires total > 0.0 && j < |parts|
    requires t == start + PartDuration(dur, TotalLength(parts[..j]), total)
    requires d == PartDuration(dur, |parts[j]|, total)
    ensures t + d == start + PartDuration(dur, TotalLength(parts[..j + 1]), total)
  {
    PrefixLength(parts, j);
    PartDurationAdds(dur, TotalLength(parts[..j]), |parts[j]|, total);
  }

  /** One step of the split loop keeps the fragments so far those of the
      parts walked. */
  lemma CutPieces(seg: Segment, parts: seq<string>, j: nat, dur: real, total: real,
                  t: real, d: real, newSeg: Segment, pieces: seq<Segment>)
    requires total > 0.0 && j < |parts|
    requires t == seg.start + PartDuration(dur, TotalLength(parts[..j]), total)
    requires pieces == Pieces(seg, parts[..j], dur, total)
    requires d == PartDuration(dur, |parts[j]|, total) && newSeg == Piece(seg, parts[j], t, d)
    ensures pieces + [newSeg] == Pieces(seg, parts[..j + 1], dur, total)
  {
    PiecesSnoc(seg, parts, j, dur, total);
  }

  /** One step of the split loop: the fragment for `partText` starting at `t`,
      and the share of the duration it takes. */
  method CutPart(seg: Segment, partText: string, t: real, dur: real, totalChars: real)
    returns (newSeg: Segment, partDur: real)
    requires totalChars > 0.0
    ensures partDur == PartDuration(dur, |partText|, totalChars)
    ensures newSeg == Piece(seg, partText, t, partDur)
  {
    var frac := (|partText| as real) / totalChars;
    partDur := dur * frac;
    newSeg := seg.(start := t, end := t + partDur, text := Strip(partText));
    if seg.originalText.Some? {
      newSeg := newSeg.(originalText := Some(Strip(partText)));
    }
    newSeg := newSeg.(words := None);
  }

  // ==================================================================
  //  Both passes
  // ==================================================================

  /** `reflow_segments(segments, min_dur, max_dur)`; an absent threshold
      takes its configured default. */
  method ReflowSegments(segments: seq<Segment>, minDur: Option<real>, maxDur: Option<real>)
    returns (result: seq<Segment>)
    ensures result == SplitAll(MergeShort(segments, minDur.GetOr(Config.SegmentMinDuration)),
                               maxDur.GetOr(Config.SegmentMaxDuration))
  {
    var lo := if minDur.Some? then minDur.value else Config.SegmentMinDuration;
    var hi := if maxDur.Some? then maxDur.value else Config.SegmentMaxDuration;
    var merged := MergePass(segments, lo);
    result := SplitPass(merged, hi);
  }

  /** The split pass never loses a segment: every input gives at least one
      output, so the result is empty only when its input is. */
  lemma {:induction false} SplitAllLength(segs: seq<Segment>, maxDur: real)
    ensures |SplitAll(segs, maxDur)| >= |segs|
    decreases |segs|
  {
    if segs != [] {
      SplitAllLength(segs[..|segs| - 1], maxDur);
      var seg := segs[|segs| - 1];
      var parts := SplitAfter(seg.text, ReflowPunctuation);
      if Duration(seg) > maxDur && |parts| >= 2 {
        SplitLongIsPieces(seg, maxDur, parts);
      }
    }
  }
}
