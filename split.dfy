/** `re.split(r"(?<=[P])\s+", s)` for a set `P` of punctuation marks: the
    split both `reflow_segments` and `generate_clean_persian_text` use to cut
    text after sentence punctuation. */
module Split {
  import opened Strings

  /** Position `i` is where the pattern `(?<=[P])\s+` can start to match:
      a whitespace character right after one of the marks in `punct`. */
  predicate IsBreak(s: string, punct: set<char>, i: int)
  {
    0 < i < |s| && s[i - 1] in punct && IsSpace(s[i])
  }

  /** The first break at or after `from`, or `|s|` when there is none. */
  function NextBreak(s: string, punct: set<char>, from: nat): (i: nat)
    requires from <= |s|
    ensures from <= i <= |s|
    ensures i < |s| ==> IsBreak(s, punct, i)
    ensures forall j | from <= j < i :: !IsBreak(s, punct, j)
    decreases |s| - from
  {
    if from == |s| || IsBreak(s, punct, from) then from else NextBreak(s, punct, from + 1)
  }

  /** The end of the whitespace run that starts at `i` (the greedy `\s+`). */
  function RunEnd(s: string, i: nat): (j: nat)
    requires i <= |s|
    ensures i <= j <= |s|
    ensures AllSpace(s[i..j])
    ensures j < |s| ==> !IsSpace(s[j])
    ensures i < |s| && IsSpace(s[i]) ==> i < j
    decreases |s| - i
  {
    if i < |s| && IsSpace(s[i]) then
      var j := RunEnd(s, i + 1);
      assert s[i..j] == [s[i]] + s[i + 1..j];
      j
    else i
  }

  /** `re.split(r"(?<=[P])\s+", s)` for the set of marks `punct`: the pieces
      between the whitespace runs that follow a mark. */
  function SplitAfter(s: string, punct: set<char>): (parts: seq<string>)
    ensures |parts| >= 1
    decreases |s|
  {
    var i := NextBreak(s, punct, 0);
    if i == |s| then [s]
    else [s[..i]] + SplitAfter(s[RunEnd(s, i)..], punct)
  }

  /** The whitespace runs `SplitAfter` cuts out, in order. */
  function SplitSeparators(s: string, punct: set<char>): seq<string>
    decreases |s|
  {
    var i := NextBreak(s, punct, 0);
    if i == |s| then []
    else [s[i..RunEnd(s, i)]] + SplitSeparators(s[RunEnd(s, i)..], punct)
  }

  predicate NoBreak(s: string, punct: set<char>)
  {
    forall i | 0 <= i < |s| :: !IsBreak(s, punct, i)
  }

  /** What the split does, stated without the split: putting the cut-out runs
      back between the parts gives the input; every run is non-empty
      whitespace following a part that ends in a mark; the next part does not
      start with whitespace (the runs are maximal); and no part has a break
      left inside it. */
  lemma SplitAfterSound(s: string, punct: set<char>, parts: seq<string>, seps: seq<string>)
    requires parts == SplitAfter(s, punct) && seps == SplitSeparators(s, punct)
    ensures |parts| == |seps| + 1
    ensures Interleave(parts, seps) == s
    ensures forall k | 0 <= k < |seps| :: seps[k] != [] && AllSpace(seps[k])
    ensures forall k | 0 <= k < |parts| - 1 :: parts[k] != [] && parts[k][|parts[k]| - 1] in punct
    ensures forall k | 1 <= k < |parts| :: parts[k] == [] || !IsSpace(parts[k][0])
    ensures forall k | 0 <= k < |parts| :: NoBreak(parts[k], punct)
  {
    SplitReassembles(s, punct);
    SplitSeparatorsAreRuns(s, punct);
    SplitPartsEndInMark(s, punct);
    SplitPartsStartClean(s, punct);
    SplitPartsUnbroken(s, punct);
  }

  /** The two equations of `SplitAfter` and `SplitSeparators` when a break exists. */
  lemma SplitUnfold(s: string, punct: set<char>)
    requires NextBreak(s, punct, 0) < |s|
    ensures var i := NextBreak(s, punct, 0);
      var j := RunEnd(s, i);
      && 0 < i < j <= |s|
      && SplitAfter(s, punct) == [s[..i]] + SplitAfter(s[j..], punct)
      && SplitSeparators(s, punct) == [s[i..j]] + SplitSeparators(s[j..], punct)
  {
  }

  lemma {:induction false} SplitReassembles(s: string, punct: set<char>)
    ensures |SplitAfter(s, punct)| == |SplitSeparators(s, punct)| + 1
    ensures Interleave(SplitAfter(s, punct), SplitSeparators(s, punct)) == s
    decreases |s|
  {
    var i := NextBreak(s, punct, 0);
    if i < |s| {
      SplitUnfold(s, punct);
      var j := RunEnd(s, i);
      SplitReassembles(s[j..], punct);
      InterleaveCons(s[..i], s[i..j], SplitAfter(s[j..], punct), SplitSeparators(s[j..], punct));
      assert s == s[..i] + s[i..j] + s[j..];
    }
  }

  lemma {:induction false} SplitSeparatorsAreRuns(s: string, punct: set<char>)
    ensures var seps := SplitSeparators(s, punct);
      forall k | 0 <= k < |seps| :: seps[k] != [] && AllSpace(seps[k])
    decreases |s|
  {
    var i := NextBreak(s, punct, 0);
    if i < |s| {
      SplitUnfold(s, punct);
      SplitSeparatorsAreRuns(s[RunEnd(s, i)..], punct);
    }
  }

  lemma {:induction false} SplitPartsEndInMark(s: string, punct: set<char>)
    ensures var parts := SplitAfter(s, punct);
      forall k | 0 <= k < |parts| - 1 :: parts[k] != [] && parts[k][|parts[k]| - 1] in punct
    decreases |s|
  {
    var i := NextBreak(s, punct, 0);
    if i < |s| {
      SplitUnfold(s, punct);
      var rest := SplitAfter(s[RunEnd(s, i)..], punct);
      SplitPartsEndInMark(s[RunEnd(s, i)..], punct);
      var head := s[..i];
      assert head != [] && head[|head| - 1] in punct by {
        assert head[i - 1] == s[i - 1];
      }
      EndInMarkCons(head, rest, punct);
    }
  }

  lemma EndInMarkCons(head: string, rest: seq<string>, punct: set<char>)
    requires head != [] && head[|head| - 1] in punct
    requires forall k | 0 <= k < |rest| - 1 :: rest[k] != [] && rest[k][|rest[k]| - 1] in punct
    ensures var parts := [head] + rest;
      forall k | 0 <= k < |parts| - 1 :: parts[k] != [] && parts[k][|parts[k]| - 1] in punct
  {
    var parts := [head] + rest;
    forall k | 0 <= k < |parts| - 1 ensures parts[k] != [] && parts[k][|parts[k]| - 1] in punct {
      if k > 0 {
        assert parts[k] == rest[k - 1];
      }
    }
  }

  lemma {:induction false} SplitPartsStartClean(s: string, punct: set<char>)
    ensures var parts := SplitAfter(s, punct);
      forall k | 1 <= k < |parts| :: parts[k] == [] || !IsSpace(parts[k][0])
    decreases |s|
  {
    var i := NextBreak(s, punct, 0);
    if i < |s| {
      SplitUnfold(s, punct);
      var rest := s[RunEnd(s, i)..];
      SplitPartsStartClean(rest, punct);
      var r0 := SplitAfter(rest, punct)[0];
      assert r0 == [] || !IsSpace(r0[0]) by {
        var ri := NextBreak(rest, punct, 0);
        if ri < |rest| {
          SplitUnfold(rest, punct);
          assert r0 == rest[..ri];
        }
        if r0 != [] {
          assert r0[0] == rest[0];
        }
      }
    }
  }

  lemma {:induction false} SplitPartsUnbroken(s: string, punct: set<char>)
    ensures var parts := SplitAfter(s, punct);
      forall k | 0 <= k < |parts| :: NoBreak(parts[k], punct)
    decreases |s|
  {
    var i := NextBreak(s, punct, 0);
    if i < |s| {
      SplitUnfold(s, punct);
      SplitPartsUnbroken(s[RunEnd(s, i)..], punct);
      forall m | 0 <= m < i ensures !IsBreak(s[..i], punct, m) {
        assert !IsBreak(s, punct, m);
      }
    } else {
      forall m | 0 <= m < |s| ensures !IsBreak(s, punct, m) { }
    }
  }

  /** A segment with at least two parts has at least one character to share
      the time by, so the `max(..., 1)` guard in the original never acts. */
  lemma SplitPartsHaveLength(s: string, punct: set<char>)
    requires |SplitAfter(s, punct)| >= 2
    ensures TotalLength(SplitAfter(s, punct)) >= 1
  {
    SplitAfterSound(s, punct, SplitAfter(s, punct), SplitSeparators(s, punct));
  }
}
