/** The memoising translator of src/translator.py. The remote translation
    service is an oracle: a script of the answers it will give, consumed one
    request at a time, together with a record of the requests it was sent and
    of the pauses the translator took. Threads, locks and the progress bar
    are not modelled; `translate_segments` runs its tasks one after another. */
module Translation {
  import opened Maybe
  import opened Strings
  import opened Segments
  import opened Chunking
  import Config

  // ------------------------------------------------------------------
  //  The service and the translator's state
  // ------------------------------------------------------------------

  /** One answer of the service to a single-text request: it raises, or it
      returns a text (the empty text standing for any falsy value). */
  datatype Reply = Raises | Returns(text: string)

  /** Everything a translation can read or change, as one value:
      - `cache`: stored translations by key;
      - `replies`, `batchReplies`: the answers the service has still to give
        to single and to batch requests (`None` = the batch request raises);
        once a script runs out, every further request raises;
      - `calls`, `batchCalls`: the requests sent so far, in order;
      - `sleeps`: the pauses taken so far, in seconds, in order. */
  datatype Service = Service(
    cache: map<string, string>,
    replies: seq<Reply>,
    batchReplies: seq<Option<seq<string>>>,
    calls: seq<string>,
    batchCalls: seq<seq<string>>,
    sleeps: seq<real>)

  function NextReply(replies: seq<Reply>): Reply
  {
    if replies == [] then Raises else replies[0]
  }

  function Drop<T>(xs: seq<T>): seq<T>
  {
    if xs == [] then [] else xs[1..]
  }

  function NextBatchReply(replies: seq<Option<seq<string>>>): Option<seq<string>>
  {
    if replies == [] then None else replies[0]
  }

  /** `_text_hash`: the cache key of a text. The digest is abstracted by the
      trimmed text itself, which never collides. An MD5 collision would make
      the original answer one text with another's cached translation; that
      case is not represented here. */
  function TextHash(text: string): string
  {
    Strip(text)
  }

  /** Surrounding whitespace does not change the key: `translate_text` hashes
      the stripped text, which has the same key as the text itself. */
  lemma TextHashOfStripped(text: string)
    ensures TextHash(Strip(text)) == TextHash(text)
  {
    StripIdempotent(text);
  }

  // ------------------------------------------------------------------
  //  Backoff
  // ------------------------------------------------------------------

  function Pow2(k: nat): (p: real)
    ensures p >= 1.0
  {
    if k == 0 then 1.0 else 2.0 * Pow2(k - 1)
  }

  function Min(a: real, b: real): real
  {
    if a <= b then a else b
  }

  /** The pause after failed attempt `attempt` (counting from 0):
      `min(base_delay * 2 ** attempt, max_delay)`. */
  function Backoff(attempt: nat, base: real, maxDelay: real): real
  {
    Min(base * Pow2(attempt), maxDelay)
  }

  /** Pauses grow with the attempt number and never exceed the cap. */
  lemma {:induction false} BackoffMonotone(i: nat, j: nat, base: real, maxDelay: real)
    requires i <= j && base >= 0.0
    ensures Backoff(i, base, maxDelay) <= Backoff(j, base, maxDelay) <= maxDelay
    decreases j - i
  {
    if i < j {
      BackoffMonotone(i, j - 1, base, maxDelay);
      assert base * Pow2(j - 1) <= base * Pow2(j) by {
        assert base * Pow2(j - 1) >= 0.0;
        assert base * Pow2(j) == 2.0 * (base * Pow2(j - 1));
      }
      assert Backoff(j - 1, base, maxDelay) <= Backoff(j, base, maxDelay);
    }
  }

  // ------------------------------------------------------------------
  //  translate_text
  // ------------------------------------------------------------------

  /** What the retry loop did from attempt `attempt` on: the value it
      returned (`None` when it fell off the end), whether that value came
      from the service (and so goes into the cache), the answers left, the
      requests sent and the pauses taken. */
  datatype Attempt = Attempt(result: Option<string>, answered: bool, replies: seq<Reply>, calls: seq<string>, sleeps: seq<real>)

  /** `for attempt in range(retry_count)` from `attempt` on. A reply ends the
      loop with the translation, or with `text` when the reply is falsy; a
      failure pauses and tries again, except after the last attempt, which
      gives up with `text`. */
  function Attempts(text: string, stripped: string, attempt: nat, retryCount: int, replies: seq<Reply>, base: real, maxDelay: real): (o: Attempt)
    ensures o.answered ==> o.result.Some?
    decreases if attempt < retryCount then retryCount - attempt else 0
  {
    if retryCount <= attempt then Attempt(None, false, replies, [], [])
    else match NextReply(replies)
      case Returns(t) =>
        Attempt(Some(if t != [] then t else text), true, Drop(replies), [stripped], [])
      case Raises =>
        if attempt < retryCount - 1 then
          var o := Attempts(text, stripped, attempt + 1, retryCount, Drop(replies), base, maxDelay);
          o.(calls := [stripped] + o.calls, sleeps := [Backoff(attempt, base, maxDelay)] + o.sleeps)
        else
          Attempt(Some(text), false, Drop(replies), [stripped], [])
  }

  /** A failed attempt that is not the last: the pause and the request come
      first, the rest of the loop after them. */
  lemma AttemptsRaise(text: string, stripped: string, attempt: nat, retryCount: int, replies: seq<Reply>, base: real, maxDelay: real)
    requires attempt < retryCount - 1 && NextReply(replies) == Raises
    ensures var before := Attempts(text, stripped, attempt, retryCount, replies, base, maxDelay);
      var after := Attempts(text, stripped, attempt + 1, retryCount, Drop(replies), base, maxDelay);
      && before.result == after.result && before.answered == after.answered && before.replies == after.replies
      && before.calls == [stripped] + after.calls
      && before.sleeps == [Backoff(attempt, base, maxDelay)] + after.sleeps
  {
  }

  /** `translate_text(text, retry_count)` on the state `s`: the value it
      returns and the state it leaves. `retryCount == None` is the default
      argument, which reads the configured number of retries. */
  function TranslateSpec(text: string, retryCount: Option<int>, s: Service, useCache: bool): (Option<string>, Service)
  {
    if Strip(text) == [] then (Some(text), s)
    else
      var stripped := Strip(text);
      var key := TextHash(stripped);
      if useCache && key in s.cache then (Some(s.cache[key]), s)
      else
        var o := Attempts(text, stripped, 0, retryCount.GetOr(Config.TranslationRetries), s.replies,
                          Config.RetryBaseDelay, Config.MaxRetryDelay);
        (o.result,
         s.(cache := if useCache && o.answered then s.cache[key := o.result.value] else s.cache,
            replies := o.replies,
            calls := s.calls + o.calls,
            sleeps := s.sleeps + o.sleeps))
  }

  /** Empty or blank text comes back as it is, and nothing is read, asked or
      stored. */
  lemma BlankPassesThrough(text: string, retryCount: Option<int>, s: Service, useCache: bool)
    requires AllSpace(text)
    ensures TranslateSpec(text, retryCount, s, useCache) == (Some(text), s)
  {
  }

  /** A cached text is answered from the cache, without asking the service;
      texts that differ only in surrounding whitespace share the entry. */
  lemma CacheHit(text: string, retryCount: Option<int>, s: Service)
    requires !AllSpace(text) && TextHash(text) in s.cache
    ensures TranslateSpec(text, retryCount, s, true) == (Some(s.cache[TextHash(text)]), s)
  {
    TextHashOfStripped(text);
  }

  /** The retry loop sends the stripped text at most once per remaining
      attempt, pauses once between each two requests, with the backoff of
      the attempts that failed, and leaves the unused answers. */
  lemma {:induction false} AttemptsSchedule(text: string, stripped: string, attempt: nat, retryCount: int, replies: seq<Reply>, base: real, maxDelay: real)
    ensures var o := Attempts(text, stripped, attempt, retryCount, replies, base, maxDelay);
      && |o.calls| <= (if attempt < retryCount then retryCount - attempt else 0)
      && (forall i | 0 <= i < |o.calls| :: o.calls[i] == stripped)
      && (o.calls == [] <==> retryCount <= attempt)
      && |o.sleeps| == (if o.calls == [] then 0 else |o.calls| - 1)
      && (forall i | 0 <= i < |o.sleeps| :: o.sleeps[i] == Backoff(attempt + i, base, maxDelay))
      && (forall i | 0 <= i < |o.sleeps| :: NextReply(Dropped(replies, i)) == Raises)
      && o.replies == Dropped(replies, |o.calls|)
    decreases if attempt < retryCount then retryCount - attempt else 0
  {
    var o := Attempts(text, stripped, attempt, retryCount, replies, base, maxDelay);
    if attempt < retryCount && NextReply(replies) == Raises && attempt < retryCount - 1 {
      var o' := Attempts(text, stripped, attempt + 1, retryCount, Drop(replies), base, maxDelay);
      AttemptsSchedule(text, stripped, attempt + 1, retryCount, Drop(replies), base, maxDelay);
      AttemptsRaise(text, stripped, attempt, retryCount, replies, base, maxDelay);
      forall i | 0 <= i < |o.sleeps|
        ensures NextReply(Dropped(replies, i)) == Raises
      {
        if i > 0 { DroppedStep(replies, i - 1); }
      }
      DroppedStep(replies, |o'.calls|);
    } else if attempt < retryCount {
      assert Dropped(replies, 1) == Drop(replies);
    }
  }

  /** The answers left after `n` requests. */
  function Dropped<T>(xs: seq<T>, n: nat): seq<T>
  {
    if n == 0 then xs else Dropped(Drop(xs), n - 1)
  }

  lemma DroppedStep<T>(xs: seq<T>, n: nat)
    ensures Dropped(Drop(xs), n) == Dropped(xs, n + 1)
  {
  }

  /** The pauses of `translate_text` follow the backoff schedule: they never
      decrease and never exceed `max_delay`, and there is one after every
      failed request but the last; every request sends the stripped text,
      and there are no more of them than attempts allowed. */
  lemma PausesFollowBackoff(text: string, retryCount: Option<int>, s: Service, useCache: bool)
    ensures var (_, s') := TranslateSpec(text, retryCount, s, useCache);
      exists requests: seq<string>, pauses: seq<real> ::
        && s'.calls == s.calls + requests
        && s'.sleeps == s.sleeps + pauses
        && Schedule(requests, pauses, Strip(text), retryCount.GetOr(Config.TranslationRetries))
  {
    var s' := TranslateSpec(text, retryCount, s, useCache).1;
    var rc := retryCount.GetOr(Config.TranslationRetries);
    var requests, pauses := [], [];
    if Strip(text) != [] && !(useCache && TextHash(Strip(text)) in s.cache) {
      var o := Attempts(text, Strip(text), 0, rc, s.replies, Config.RetryBaseDelay, Config.MaxRetryDelay);
      AttemptsFollowBackoff(text, Strip(text), rc, s.replies);
      requests, pauses := o.calls, o.sleeps;
    } else {
      assert s'.calls == s.calls + [] && s'.sleeps == s.sleeps + [];
    }
    ScheduleWitness(s, s', requests, pauses, Strip(text), rc);
  }

  lemma ScheduleWitness(s: Service, s': Service, requests: seq<string>, pauses: seq<real>, stripped: string, retries: int)
    requires s'.calls == s.calls + requests && s'.sleeps == s.sleeps + pauses
    requires Schedule(requests, pauses, stripped, retries)
    ensures exists requests: seq<string>, pauses: seq<real> ::
        && s'.calls == s.calls + requests
        && s'.sleeps == s.sleeps + pauses
        && Schedule(requests, pauses, stripped, retries)
  {
  }

  /** Requests and pauses as the retry loop makes them: at most `retries`
      requests of `stripped`, one pause fewer than requests, the pauses
      non-decreasing and capped. */
  predicate Schedule(requests: seq<string>, pauses: seq<real>, stripped: string, retries: int)
  {
    && |requests| <= (if retries > 0 then retries else 0)
    && (forall i | 0 <= i < |requests| :: requests[i] == stripped)
    && |pauses| == (if requests == [] then 0 else |requests| - 1)
    && (forall i, j | 0 <= i <= j < |pauses| :: pauses[i] <= pauses[j] <= Config.MaxRetryDelay)
  }

  lemma AttemptsFollowBackoff(text: string, stripped: string, retries: int, replies: seq<Reply>)
    ensures var o := Attempts(text, stripped, 0, retries, replies, Config.RetryBaseDelay, Config.MaxRetryDelay);
      Schedule(o.calls, o.sleeps, stripped, retries)
  {
    var o := Attempts(text, stripped, 0, retries, replies, Config.RetryBaseDelay, Config.MaxRetryDelay);
    AttemptsSchedule(text, stripped, 0, retries, replies, Config.RetryBaseDelay, Config.MaxRetryDelay);
    forall i, j | 0 <= i <= j < |o.sleeps|
      ensures o.sleeps[i] <= o.sleeps[j] <= Config.MaxRetryDelay
    {
      BackoffMonotone(i, j, Config.RetryBaseDelay, Config.MaxRetryDelay);
    }
  }

  /** The first answer decides: a translation is returned and cached (the
      original, untrimmed text when the service answered with nothing), after
      one request and no pause. */
  lemma FirstAnswerStored(text: string, retryCount: Option<int>, s: Service, useCache: bool, t: string)
    requires !AllSpace(text) && !(useCache && TextHash(text) in s.cache)
    requires retryCount.GetOr(Config.TranslationRetries) >= 1
    requires NextReply(s.replies) == Returns(t)
    ensures var result := if t != [] then t else text;
      TranslateSpec(text, retryCount, s, useCache)
      == (Some(result),
          s.(cache := if useCache then s.cache[TextHash(text) := result] else s.cache,
             replies := Drop(s.replies),
             calls := s.calls + [Strip(text)]))
  {
    TextHashOfStripped(text);
    var rc := retryCount.GetOr(Config.TranslationRetries);
    var result := if t != [] then t else text;
    assert Strip(text) != [];
    assert Attempts(text, Strip(text), 0, rc, s.replies, Config.RetryBaseDelay, Config.MaxRetryDelay)
      == Attempt(Some(result), true, Drop(s.replies), [Strip(text)], []);
    assert s.sleeps + [] == s.sleeps;
  }

  /** When every attempt fails the original text comes back, the cache is
      as it was, every attempt asked the service once, and the translator
      paused between each two attempts. */
  lemma AllAttemptsFail(text: string, retryCount: Option<int>, s: Service, useCache: bool)
    requires !AllSpace(text) && !(useCache && TextHash(text) in s.cache)
    requires retryCount.GetOr(Config.TranslationRetries) >= 1
    requires forall i | 0 <= i < retryCount.GetOr(Config.TranslationRetries) :: NextReply(Dropped(s.replies, i)) == Raises
    ensures var (r, s') := TranslateSpec(text, retryCount, s, useCache);
      && r == Some(text)
      && s'.cache == s.cache
      && |s'.calls| == |s.calls| + retryCount.GetOr(Config.TranslationRetries)
      && |s'.sleeps| == |s.sleeps| + retryCount.GetOr(Config.TranslationRetries) - 1
  {
    var rc := retryCount.GetOr(Config.TranslationRetries);
    TextHashOfStripped(text);
    AllFailFrom(text, Strip(text), 0, rc, s.replies, Config.RetryBaseDelay, Config.MaxRetryDelay);
  }

  lemma {:induction false} AllFailFrom(text: string, stripped: string, attempt: nat, retryCount: int, replies: seq<Reply>, base: real, maxDelay: real)
    requires attempt < retryCount
    requires forall i | 0 <= i < retryCount - attempt :: NextReply(Dropped(replies, i)) == Raises
    ensures var o := Attempts(text, stripped, attempt, retryCount, replies, base, maxDelay);
      && o.result == Some(text) && !o.answered
      && |o.calls| == retryCount - attempt
      && |o.sleeps| == retryCount - attempt - 1
    decreases retryCount - attempt
  {
    assert NextReply(Dropped(replies, 0)) == Raises;
    if attempt < retryCount - 1 {
      forall i | 0 <= i < retryCount - (attempt + 1)
        ensures NextReply(Dropped(Drop(replies), i)) == Raises
      {
        DroppedStep(replies, i);
        assert NextReply(Dropped(replies, i + 1)) == Raises;
      }
      AllFailFrom(text, stripped, attempt + 1, retryCount, Drop(replies), base, maxDelay);
    }
  }

  /** With no attempts allowed the loop never runs and the function falls
      off its end, returning `None`; with at least one it always returns a
      text. (Blank and cached texts return before the loop.) */
  lemma NoneOnlyWithoutAttempts(text: string, retryCount: Option<int>, s: Service, useCache: bool)
    requires !AllSpace(text) && !(useCache && TextHash(text) in s.cache)
    ensures TranslateSpec(text, retryCount, s, useCache).0 == None
        <==> retryCount.GetOr(Config.TranslationRetries) <= 0
  {
    TextHashOfStripped(text);
    var rc := retryCount.GetOr(Config.TranslationRetries);
    if rc >= 1 {
      AttemptsAnswer(text, Strip(text), 0, rc, s.replies, Config.RetryBaseDelay, Config.MaxRetryDelay);
    }
  }

  lemma {:induction false} AttemptsAnswer(text: string, stripped: string, attempt: nat, retryCount: int, replies: seq<Reply>, base: real, maxDelay: real)
    requires attempt < retryCount
    ensures Attempts(text, stripped, attempt, retryCount, replies, base, maxDelay).result.Some?
    decreases retryCount - attempt
  {
    if NextReply(replies) == Raises && attempt < retryCount - 1 {
      AttemptsAnswer(text, stripped, attempt + 1, retryCount, Drop(replies), base, maxDelay);
    }
  }

  /** With the configured retries (the default argument) there is always a
      text to return. */
  lemma DefaultAlwaysAnswers(text: string, s: Service, useCache: bool)
    ensures TranslateSpec(text, None, s, useCache).0.Some?
  {
    if !AllSpace(text) && !(useCache && TextHash(text) in s.cache) {
      NoneOnlyWithoutAttempts(text, None, s, useCache);
    }
  }

  /** Once a text has been answered by the service with the cache on, every
      text with the same stripped form is answered from the cache with that
      same value, and the service is not asked again. */
  lemma SameKeySharesEntry(a: string, b: string, retries: Option<int>, retriesB: Option<int>, s: Service)
    requires !AllSpace(a) && Strip(a) == Strip(b)
    requires var o := Attempts(a, Strip(a), 0, retries.GetOr(Config.TranslationRetries), s.replies, Config.RetryBaseDelay, Config.MaxRetryDelay);
      o.answered
    ensures var (ra, s1) := TranslateSpec(a, retries, s, true);
      TranslateSpec(b, retriesB, s1, true) == (ra, s1)
  {
    TextHashOfStripped(a);
    TextHashOfStripped(b);
    assert !AllSpace(b);
  }

  // ------------------------------------------------------------------
  //  Several texts in a row
  // ------------------------------------------------------------------

  /** `translate_text(t)` with the default retries for each text in turn,
      each call seeing the state the previous one left. */
  function TranslateTexts(texts: seq<string>, s: Service, useCache: bool): (out: (seq<string>, Service))
    ensures |out.0| == |texts|
    decreases |texts|
  {
    if texts == [] then ([], s)
    else
      DefaultAlwaysAnswers(texts[0], s, useCache);
      var (r, s1) := TranslateSpec(texts[0], None, s, useCache);
      var (rs, s2) := TranslateTexts(texts[1..], s1, useCache);
      ([r.value] + rs, s2)
  }

  function TextsOf(segs: seq<Segment>): (ts: seq<string>)
    ensures |ts| == |segs| && forall k | 0 <= k < |segs| :: ts[k] == segs[k].text
  {
    seq(|segs|, k requires 0 <= k < |segs| => segs[k].text)
  }

  /** The copy of each segment `translate_segments` keeps: the input text
      moves to `original_text` and the translation takes its place; times and
      words are those of the input. */
  function Annotate(segs: seq<Segment>, texts: seq<string>): (out: seq<Segment>)
    requires |texts| == |segs|
    ensures |out| == |segs|
    ensures forall k | 0 <= k < |segs| ::
      out[k] == segs[k].(originalText := Some(segs[k].text), text := texts[k])
  {
    seq(|segs|, k requires 0 <= k < |segs| => segs[k].(originalText := Some(segs[k].text), text := texts[k]))
  }

  // ------------------------------------------------------------------
  //  Sorting by start time
  // ------------------------------------------------------------------

  predicate SortedByStart(segs: seq<Segment>)
  {
    forall i, j | 0 <= i < j < |segs| :: segs[i].start <= segs[j].start
  }

  /** `list.sort(key=lambda x: x["start"])`: a stable sort by start time. */
  function SortByStart(segs: seq<Segment>): seq<Segment>
    decreases |segs|
  {
    if segs == [] then [] else InsertByStart(SortByStart(segs[..|segs| - 1]), segs[|segs| - 1])
  }

  /** Places `x` after every element that does not start later than it. */
  function InsertByStart(sorted: seq<Segment>, x: Segment): (r: seq<Segment>)
    ensures multiset(r) == multiset(sorted) + multiset{x}
    ensures |r| == |sorted| + 1
    decreases |sorted|
  {
    if sorted == [] || sorted[|sorted| - 1].start <= x.start then sorted + [x]
    else
      var init := sorted[..|sorted| - 1];
      assert sorted == init + [sorted[|sorted| - 1]];
      InsertByStart(init, x) + [sorted[|sorted| - 1]]
  }

  lemma {:induction false} InsertKeepsSorted(sorted: seq<Segment>, x: Segment)
    requires SortedByStart(sorted)
    ensures SortedByStart(InsertByStart(sorted, x))
    ensures forall k | 0 <= k < |InsertByStart(sorted, x)| ::
      InsertByStart(sorted, x)[k] == x || InsertByStart(sorted, x)[k] in sorted
    decreases |sorted|
  {
    if !(sorted == [] || sorted[|sorted| - 1].start <= x.start) {
      var init := sorted[..|sorted| - 1];
      var last := sorted[|sorted| - 1];
      InsertKeepsSorted(init, x);
      var r := InsertByStart(init, x);
      forall k | 0 <= k < |r|
        ensures r[k].start <= last.start
      {
        if r[k] != x {
          var m :| 0 <= m < |init| && init[m] == r[k];
          assert sorted[m] == r[k];
        }
      }
    }
  }

  /** The sorted list is ordered by start time and holds exactly the
      elements of the input, as many times each. */
  lemma {:induction false} SortByStartCorrect(segs: seq<Segment>)
    ensures SortedByStart(SortByStart(segs))
    ensures multiset(SortByStart(segs)) == multiset(segs)
    ensures |SortByStart(segs)| == |segs|
    decreases |segs|
  {
    if segs != [] {
      var init := segs[..|segs| - 1];
      SortByStartCorrect(init);
      InsertKeepsSorted(SortByStart(init), segs[|segs| - 1]);
      assert segs == init + [segs[|segs| - 1]];
    }
  }

  /** The segments that start at `t`, in their order in `segs`. */
  function WithStart(segs: seq<Segment>, t: real): seq<Segment>
    decreases |segs|
  {
    if segs == [] then []
    else WithStart(segs[..|segs| - 1], t) + (if segs[|segs| - 1].start == t then [segs[|segs| - 1]] else [])
  }

  lemma WithStartSnoc(segs: seq<Segment>, x: Segment, t: real)
    ensures WithStart(segs + [x], t) == WithStart(segs, t) + (if x.start == t then [x] else [])
  {
    assert (segs + [x])[..|segs|] == segs;
  }

  /** Inserting puts `x` after every segment with its start, so among the
      segments of one start time it comes last. */
  lemma {:induction false} InsertIsStable(sorted: seq<Segment>, x: Segment, t: real)
    ensures WithStart(InsertByStart(sorted, x), t) == WithStart(sorted, t) + (if x.start == t then [x] else [])
    decreases |sorted|
  {
    if sorted == [] || sorted[|sorted| - 1].start <= x.start {
      WithStartSnoc(sorted, x, t);
    } else {
      var init, last := sorted[..|sorted| - 1], sorted[|sorted| - 1];
      InsertIsStable(init, x, t);
      WithStartSnoc(InsertByStart(init, x), last, t);
      InitLast(sorted);
      WithStartSnoc(init, last, t);
      // `last` starts after `x`, so at most one of them starts at `t`
      var w, fx, fl := WithStart(init, t), (if x.start == t then [x] else []), (if last.start == t then [last] else []);
      assert fx == [] || fl == [];
      if fx == [] {
        AppendEmpty(w); AppendEmpty(w + fl);
      } else {
        AppendEmpty(w); AppendEmpty(w + fx);
      }
    }
  }

  /** The sort is stable: the segments of each start time keep the order
      they had in the input. */
  lemma {:induction false} SortByStartIsStable(segs: seq<Segment>, t: real)
    ensures WithStart(SortByStart(segs), t) == WithStart(segs, t)
    decreases |segs|
  {
    if segs != [] {
      var init, x := segs[..|segs| - 1], segs[|segs| - 1];
      SortByStartIsStable(init, t);
      InsertIsStable(SortByStart(init), x, t);
      InitLast(segs);
      WithStartSnoc(init, x, t);
    }
  }

  /** `translate_segments` returns one entry per input segment, sorted by
      start time; the entries are the annotated copies, each once, so every
      entry is the copy of some input segment: same times and words, its
      text as `original_text`. */
  lemma TranslatedSegmentsShape(segments: seq<Segment>, texts: seq<string>)
    requires |texts| == |segments|
    ensures var r := SortByStart(Annotate(segments, texts));
      && |r| == |segments|
      && SortedByStart(r)
      && multiset(r) == multiset(Annotate(segments, texts))
      && forall x | x in r :: exists j | 0 <= j < |segments| ::
           x == segments[j].(originalText := Some(segments[j].text), text := texts[j])
  {
    var a := Annotate(segments, texts);
    SortByStartCorrect(a);
    var r := SortByStart(a);
    forall x | x in r
      ensures exists j | 0 <= j < |segments| ::
        x == segments[j].(originalText := Some(segments[j].text), text := texts[j])
    {
      assert x in multiset(r);
      assert x in a;
      var j :| 0 <= j < |a| && a[j] == x;
    }
  }

  // ------------------------------------------------------------------
  //  translate_batch
  // ------------------------------------------------------------------

  /** One pass of the chunk loop: a batch request for the chunk; on failure
      each text of the chunk through `translate_text`; then the half-second
      pause. */
  function BatchChunk(chunk: seq<string>, s: Service, useCache: bool): (seq<string>, Service)
  {
    var asked := s.(batchReplies := Drop(s.batchReplies), batchCalls := s.batchCalls + [chunk]);
    var (out, s1) :=
      match NextBatchReply(s.batchReplies)
      case Some(ts) => (ts, asked)
      case None => TranslateTexts(chunk, asked, useCache);
    (out, s1.(sleeps := s1.sleeps + [0.5]))
  }

  /** The chunks one after another, the output of each extending the list. */
  function BatchChunks(chunks: seq<seq<string>>, s: Service, useCache: bool): (seq<string>, Service)
    decreases |chunks|
  {
    if chunks == [] then ([], s)
    else
      var (out, s1) := BatchChunk(chunks[0], s, useCache);
      var (rest, s2) := BatchChunks(chunks[1..], s1, useCache);
      (out + rest, s2)
  }

  /** `translate_batch(texts, chunk_size)`: `None` when `range` refuses a
      step of zero; no chunks at all for a negative step. */
  function BatchSpec(texts: seq<string>, chunkSize: int, s: Service, useCache: bool): (Option<seq<string>>, Service)
  {
    if chunkSize == 0 then (None, s)
    else if chunkSize < 0 then (Some([]), s)
    else
      var (out, s1) := BatchChunks(Chunks(texts, chunkSize), s, useCache);
      (Some(out), s1)
  }

  /** The batch requests are the consecutive chunks of the input, in input
      order, one pause after each. */
  lemma {:induction false} BatchRequestsInOrder(chunks: seq<seq<string>>, s: Service, useCache: bool)
    ensures var s' := BatchChunks(chunks, s, useCache).1;
      && s'.batchCalls == s.batchCalls + chunks
      && |s'.sleeps| >= |s.sleeps| + |chunks|
    decreases |chunks|
  {
    if chunks != [] {
      var s1 := BatchChunk(chunks[0], s, useCache).1;
      BatchChunkFrame(chunks[0], s, useCache);
      BatchRequestsInOrder(chunks[1..], s1, useCache);
      assert [chunks[0]] + chunks[1..] == chunks;
    }
  }

  /** For a positive step the texts go to the service in ceil(n / k)
      consecutive batches of at most `k`, which together are the input in
      order. */
  lemma BatchOrder(texts: seq<string>, chunkSize: int, s: Service, useCache: bool)
    requires chunkSize >= 1
    ensures var s' := BatchSpec(texts, chunkSize, s, useCache).1;
      && |s'.batchCalls| >= |s.batchCalls|
      && s'.batchCalls[..|s.batchCalls|] == s.batchCalls
      && var batches := s'.batchCalls[|s.batchCalls|..];
         && Flatten(batches) == texts
         && |batches| == (|texts| + chunkSize - 1) / chunkSize
         && (forall j | 0 <= j < |batches| :: 1 <= |batches[j]| <= chunkSize)
  {
    var chunks := Chunks(texts, chunkSize);
    BatchRequestsInOrder(chunks, s, useCache);
    ChunksShape(texts, chunkSize);
    var s' := BatchSpec(texts, chunkSize, s, useCache).1;
    assert s'.batchCalls[|s.batchCalls|..] == chunks;
  }

  lemma BatchChunkFrame(chunk: seq<string>, s: Service, useCache: bool)
    ensures var s1 := BatchChunk(chunk, s, useCache).1;
      && s1.batchCalls == s.batchCalls + [chunk]
      && |s1.sleeps| >= |s.sleeps| + 1
  {
    var asked := s.(batchReplies := Drop(s.batchReplies), batchCalls := s.batchCalls + [chunk]);
    if NextBatchReply(s.batchReplies).None? {
      TranslateTextsFrame(chunk, asked, useCache);
    }
  }

  /** Single-text translations send no batch requests and only add pauses. */
  lemma {:induction false} TranslateTextsFrame(texts: seq<string>, s: Service, useCache: bool)
    ensures var s' := TranslateTexts(texts, s, useCache).1;
      s'.batchCalls == s.batchCalls && s'.batchReplies == s.batchReplies && |s'.sleeps| >= |s.sleeps|
    decreases |texts|
  {
    if texts != [] {
      DefaultAlwaysAnswers(texts[0], s, useCache);
      var s1 := TranslateSpec(texts[0], None, s, useCache).1;
      PausesFollowBackoff(texts[0], None, s, useCache);
      TranslateTextsFrame(texts[1..], s1, useCache);
    }
  }

  /** When every batch answer it gets has as many texts as its chunk, the
      output has one text per input text. */
  lemma {:induction false} BatchKeepsLength(chunks: seq<seq<string>>, s: Service, useCache: bool)
    requires forall j | 0 <= j < |chunks| && j < |s.batchReplies| && s.batchReplies[j].Some? ::
      |s.batchReplies[j].value| == |chunks[j]|
    ensures |BatchChunks(chunks, s, useCache).0| == |Flatten(chunks)|
    decreases |chunks|
  {
    if chunks != [] {
      var s1 := BatchChunk(chunks[0], s, useCache).1;
      BatchChunkReplies(chunks[0], s, useCache);
      forall j | 0 <= j < |chunks[1..]| && j < |s1.batchReplies| && s1.batchReplies[j].Some?
        ensures |s1.batchReplies[j].value| == |chunks[1..][j]|
      {
        assert s1.batchReplies[j] == s.batchReplies[j + 1];
      }
      BatchKeepsLength(chunks[1..], s1, useCache);
    }
  }

  lemma BatchChunkReplies(chunk: seq<string>, s: Service, useCache: bool)
    ensures BatchChunk(chunk, s, useCache).1.batchReplies == Drop(s.batchReplies)
    ensures NextBatchReply(s.batchReplies).Some? ==> BatchChunk(chunk, s, useCache).0 == NextBatchReply(s.batchReplies).value
    ensures NextBatchReply(s.batchReplies).None? ==> |BatchChunk(chunk, s, useCache).0| == |chunk|
  {
    var asked := s.(batchReplies := Drop(s.batchReplies), batchCalls := s.batchCalls + [chunk]);
    if NextBatchReply(s.batchReplies).None? {
      TranslateTextsFrame(chunk, asked, useCache);
    }
  }

  // ------------------------------------------------------------------
  //  The translator object
  // ------------------------------------------------------------------

  /** `Translator`: the languages it translates between, whether it caches,
      its cache, and the oracle's script and record. */
  class Translator {
    const targetLanguage: string
    const sourceLanguage: string
    const useCache: bool
    var cache: map<string, string>
    var replies: seq<Reply>
    var batchReplies: seq<Option<seq<string>>>
    var calls: seq<string>
    var batchCalls: seq<seq<string>>
    var sleeps: seq<real>

    function State(): Service
      reads this
    {
      Service(cache, replies, batchReplies, calls, batchCalls, sleeps)
    }

    /** `Translator(target_language, source_language)` with an empty cache,
        caching as configured, talking to a service that will give the
        answers scripted. */
    constructor(targetLanguage: string, sourceLanguage: string, replies: seq<Reply>, batchReplies: seq<Option<seq<string>>>)
      ensures this.targetLanguage == targetLanguage && this.sourceLanguage == sourceLanguage
      ensures useCache == Config.TranslationCache
      ensures State() == Service(map[], replies, batchReplies, [], [], [])
    {
      this.targetLanguage := targetLanguage;
      this.sourceLanguage := sourceLanguage;
      useCache := Config.TranslationCache;
      cache := map[];
      this.replies := replies;
      this.batchReplies := batchReplies;
      calls := [];
      batchCalls := [];
      sleeps := [];
    }

    /** One request to the service: it takes the next scripted answer. */
    method Request(text: string) returns (reply: Reply)
      modifies this
      ensures reply == NextReply(old(replies))
      ensures State() == old(State()).(replies := Drop(old(replies)), calls := old(calls) + [text])
    {
      reply := NextReply(replies);
      replies := Drop(replies);
      calls := calls + [text];
    }

    /** One batch request to the service. */
    method RequestBatch(texts: seq<string>) returns (reply: Option<seq<string>>)
      modifies this
      ensures reply == NextBatchReply(old(batchReplies))
      ensures State() == old(State()).(batchReplies := Drop(old(batchReplies)), batchCalls := old(batchCalls) + [texts])
    {
      reply := NextBatchReply(batchReplies);
      batchReplies := Drop(batchReplies);
      batchCalls := batchCalls + [texts];
    }

    method Sleep(seconds: real)
      modifies this
      ensures State() == old(State()).(sleeps := old(sleeps) + [seconds])
    {
      sleeps := sleeps + [seconds];
    }

    /** `translate_text(text, retry_count)`. */
    method TranslateText(text: string, retryCount: Option<int>) returns (r: Option<string>)
      modifies this
      ensures (r, State()) == TranslateSpec(text, retryCount, old(State()), useCache)
    {
      if Strip(text) == [] {
        return Some(text);
      }
      var stripped := Strip(text);
      var key := TextHash(stripped);
      if useCache && key in cache {
        return Some(cache[key]);
      }
      r := RetryLoop(text, stripped, key, retryCount.GetOr(Config.TranslationRetries));
    }

    /** The retry loop of `translate_text`, which returns from inside. */
    method RetryLoop(text: string, stripped: string, key: string, retries: int) returns (r: Option<string>)
      modifies this
      ensures var o := Attempts(text, stripped, 0, retries, old(replies), Config.RetryBaseDelay, Config.MaxRetryDelay);
        && r == o.result
        && cache == (if useCache && o.answered then old(cache)[key := o.result.value] else old(cache))
        && replies == o.replies && calls == old(calls) + o.calls && sleeps == old(sleeps) + o.sleeps
        && batchReplies == old(batchReplies) && batchCalls == old(batchCalls)
    {
      var base := Config.RetryBaseDelay;
      var maxDelay := Config.MaxRetryDelay;
      ghost var whole := Attempts(text, stripped, 0, retries, replies, base, maxDelay);
      ghost var wholeCalls, wholeSleeps := old(calls) + whole.calls, old(sleeps) + whole.sleeps;
      var attempt: nat := 0;
      assert calls + whole.calls == wholeCalls && sleeps + whole.sleeps == wholeSleeps;
      while attempt < retries
        invariant cache == old(cache) && batchReplies == old(batchReplies) && batchCalls == old(batchCalls)
        invariant var o := Attempts(text, stripped, attempt, retries, replies, base, maxDelay);
          && o.result == whole.result && o.answered == whole.answered && o.replies == whole.replies
          && calls + o.calls == wholeCalls
          && sleeps + o.sleeps == wholeSleeps
        decreases retries - attempt
      {
        ghost var before := Attempts(text, stripped, attempt, retries, replies, base, maxDelay);
        ghost var calls0, sleeps0, replies0 := calls, sleeps, replies;
        var reply := Request(stripped);
        match reply {
          case Returns(translated) =>
            var result := if translated != [] then translated else text;
            assert before.calls == [stripped] && before.sleeps == [];
            if useCache {
              cache := cache[key := result];
            }
            AppendStep(calls0, [stripped], before.calls, [], wholeCalls);
            AppendStep(sleeps0, [], before.sleeps, [], wholeSleeps);
            return Some(result);
          case Raises =>
            var delay := Min(base * Pow2(attempt), maxDelay);
            if attempt < retries - 1 {
              Sleep(delay);
              ghost var after := Attempts(text, stripped, attempt + 1, retries, replies, base, maxDelay);
              AttemptsRaise(text, stripped, attempt, retries, replies0, base, maxDelay);
              AppendStep(calls0, [stripped], before.calls, after.calls, wholeCalls);
              AppendStep(sleeps0, [delay], before.sleeps, after.sleeps, wholeSleeps);
            } else {
              assert before.calls == [stripped] && before.sleeps == [];
              AppendStep(calls0, [stripped], before.calls, [], wholeCalls);
              AppendStep(sleeps0, [], before.sleeps, [], wholeSleeps);
              return Some(text);
            }
        }
        attempt := attempt + 1;
      }
      assert whole.calls == [] + whole.calls;
      return None;
    }

    /** `translate_segments(segments)`, one segment after another: a copy of
        every segment with its translation and its original text, sorted by
        start time. */
    method TranslateSegments(segments: seq<Segment>) returns (result: seq<Segment>)
      modifies this
      ensures var (texts, s) := TranslateTexts(TextsOf(segments), old(State()), useCache);
        State() == s && result == SortByStart(Annotate(segments, texts))
    {
      var translated := TranslateInOrder(segments);
      result := SortByStart(translated);
    }

    /** The tasks of `translate_segments`, run one after another in input
        order: every segment's text through `translate_text`, then a copy of
        every segment with its result. */
    method TranslateInOrder(segments: seq<Segment>) returns (translated: seq<Segment>)
      modifies this
      ensures State() == TranslateTexts(TextsOf(segments), old(State()), useCache).1
      ensures translated == Annotate(segments, TranslateTexts(TextsOf(segments), old(State()), useCache).0)
    {
      var texts := TranslateEach(TextsOf(segments));
      translated := Collect(segments, texts);
    }

    /** The collecting loop: each segment copied, its text moved to
        `original_text` and its translation put in its place. */
    static method Collect(segments: seq<Segment>, texts: seq<string>) returns (translated: seq<Segment>)
      requires |texts| == |segments|
      ensures translated == Annotate(segments, texts)
    {
      translated := [];
      var k := 0;
      while k < |segments|
        invariant 0 <= k <= |segments|
        invariant translated == Annotate(segments[..k], texts[..k])
      {
        var seg := segments[k];
        var copy := seg.(originalText := Some(seg.text), text := texts[k]);
        translated := translated + [copy];
        k := k + 1;
      }
      assert segments[..k] == segments && texts[..k] == texts;
    }

    /** `translate_batch(texts, chunk_size)`. */
    method TranslateBatch(texts: seq<string>, chunkSize: int) returns (result: Option<seq<string>>)
      modifies this
      ensures (result, State()) == BatchSpec(texts, chunkSize, old(State()), useCache)
    {
      if chunkSize == 0 {
        return None;
      }
      if chunkSize < 0 {
        return Some([]);
      }
      var translated: seq<string> := [];
      var i := 0;
      ghost var full := BatchChunks(Chunks(texts, chunkSize), State(), useCache);
      ghost var rest := full;
      assert texts[i..] == texts;
      while i < |texts|
        invariant 0 <= i <= |texts|
        invariant rest == BatchChunks(Chunks(texts[i..], chunkSize), State(), useCache)
        invariant rest.1 == full.1
        invariant translated + rest.0 == full.0
        decreases |texts| - i
      {
        var end := if i + chunkSize < |texts| then i + chunkSize else |texts|;
        var chunk := texts[i..end];
        ghost var r0 := rest.0;
        BatchChunksFront(texts, i, end, chunkSize, State(), useCache);
        var out := TranslateChunk(chunk);
        ghost var after := BatchChunks(Chunks(texts[end..], chunkSize), State(), useCache);
        AppendStep(translated, out, r0, after.0, full.0);
        rest := after;
        translated := translated + out;
        i := end;
      }
      assert texts[i..] == [];
      assert translated + [] == translated;
      return Some(translated);
    }

    /** The body of the chunk loop. */
    method TranslateChunk(chunk: seq<string>) returns (out: seq<string>)
      modifies this
      ensures (out, State()) == BatchChunk(chunk, old(State()), useCache)
    {
      var reply := RequestBatch(chunk);
      match reply {
        case Some(ts) =>
          out := ts;
        case None =>
          out := TranslateEach(chunk);
      }
      Sleep(0.5);
    }

    /** The text at `k` through `translate_text`, which always answers when
        given the default retry count. */
    method TranslateAt(texts: seq<string>, k: nat) returns (t: string)
      requires k < |texts|
      modifies this
      ensures TranslateTexts(texts[k..], old(State()), useCache).0 == [t] + TranslateTexts(texts[k + 1..], State(), useCache).0
      ensures TranslateTexts(texts[k..], old(State()), useCache).1 == TranslateTexts(texts[k + 1..], State(), useCache).1
    {
      ghost var s0 := State();
      var r := TranslateText(texts[k], None);
      TranslateTextsStep(texts, k, s0, r, State(), useCache);
      t := r.value;
    }

    /** The fallback: each text of a failed chunk through `translate_text`. */
    method TranslateEach(texts: seq<string>) returns (out: seq<string>)
      modifies this
      ensures (out, State()) == TranslateTexts(texts, old(State()), useCache)
    {
      out := [];
      var k := 0;
      ghost var full := TranslateTexts(texts, State(), useCache);
      ghost var rest := full;
      assert texts[k..] == texts;
      while k < |texts|
        invariant 0 <= k <= |texts|
        invariant rest == TranslateTexts(texts[k..], State(), useCache)
        invariant rest.1 == full.1
        invariant out + rest.0 == full.0
        decreases |texts| - k
      {
        ghost var r0 := rest.0;
        var t := TranslateAt(texts, k);
        ghost var after := TranslateTexts(texts[k + 1..], State(), useCache);
        ghost var a0 := after.0;
        AppendStep(out, [t], r0, a0, full.0);
        rest := after;
        out := out + [t];
        k := k + 1;
      }
      assert texts[k..] == [];
      assert out + [] == out;
    }
  }

  /** Translating from position `k` on: the text at `k` first, then the rest
      from the state it leaves. */
  lemma TranslateTextsFront(texts: seq<string>, k: nat, s: Service, useCache: bool)
    requires k < |texts|
    ensures TranslateSpec(texts[k], None, s, useCache).0.Some?
    ensures var step := TranslateSpec(texts[k], None, s, useCache);
      var rest := TranslateTexts(texts[k + 1..], step.1, useCache);
      TranslateTexts(texts[k..], s, useCache) == ([step.0.value] + rest.0, rest.1)
  {
    DefaultAlwaysAnswers(texts[k], s, useCache);
    assert texts[k..][1..] == texts[k + 1..];
  }

  /** One step of the fallback loop, stated for the answer and state the step
      produced. */
  lemma TranslateTextsStep(texts: seq<string>, k: nat, s0: Service, t: Option<string>, s1: Service, useCache: bool)
    requires k < |texts| && (t, s1) == TranslateSpec(texts[k], None, s0, useCache)
    ensures t.Some?
    ensures TranslateTexts(texts[k..], s0, useCache).0 == [t.value] + TranslateTexts(texts[k + 1..], s1, useCache).0
    ensures TranslateTexts(texts[k..], s0, useCache).1 == TranslateTexts(texts[k + 1..], s1, useCache).1
  {
    TranslateTextsFront(texts, k, s0, useCache);
  }

  /** The chunk loop from the chunk at `i` on: that chunk first, then the
      rest from the state it leaves. */
  lemma BatchChunksFront(texts: seq<string>, i: nat, end: nat, k: nat, s: Service, useCache: bool)
    requires k >= 1 && i < |texts| && end == (if i + k < |texts| then i + k else |texts|)
    ensures var step := BatchChunk(texts[i..end], s, useCache);
      var rest := BatchChunks(Chunks(texts[end..], k), step.1, useCache);
      BatchChunks(Chunks(texts[i..], k), s, useCache) == (step.0 + rest.0, rest.1)
  {
    var xs := texts[i..];
    var m := if |xs| < k then |xs| else k;
    assert xs[..m] == texts[i..end];
    assert xs[m..] == texts[end..];
    assert Chunks(xs, k) == [texts[i..end]] + Chunks(texts[end..], k);
  }
}
