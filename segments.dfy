/** The defaults the pipeline reads from its configuration module when a
    caller passes no value (config.py). */
module Config {
  const SegmentMinDuration: real := 0.8
  const SegmentMaxDuration: real := 7.0
  const MaxCharsPerCaption: int := 42
  const TranslationRetries: int := 3
  const RetryBaseDelay: real := 1.0
  const MaxRetryDelay: real := 16.0
  const TranslationCache: bool := true
  const LowConfidenceThreshold: real := 0.5
}

/** The segment record every stage of the pipeline reads and produces. The
    original keeps segments as dictionaries; the optional keys
    `original_text` and `words` are `Option` fields here, `None` meaning that
    the key is absent. */
module Segments {
  import opened Maybe

  /** One recognised word; `probability` is absent when the recogniser gave none. */
  datatype Word = Word(word: string, start: real, end: real, probability: Option<real>)

  datatype Segment = Segment(
    start: real,
    end: real,
    text: string,
    originalText: Option<string>,
    words: Option<seq<Word>>)

  /** `seg["end"] - seg["start"]` */
  function Duration(seg: Segment): real
  {
    seg.end - seg.start
  }
}
