/** The persisted shapes the app's components share: timed words, transcript
    segments, audio sessions and saved vocabulary words. Times of the
    transcript are seconds (`real`); timestamps of the vocabulary are
    milliseconds since the epoch (`int`). */
module Entities {
  import opened Common

  /** One timed word of a segment; the slicer leaves `speaker` out. */
  datatype WordTiming = WordTiming(word: string, start: real, end: real, speaker: Option<int>)

  /** A transcript segment. `speaker` is `None` when the stored value is not
      a number (segments produced by the language model are not checked);
      `words` is `None` when the segment carries no word timings. */
  datatype Segment = Segment(
    id: string,
    startTime: real,
    endTime: real,
    text: string,
    speaker: Option<int>,
    words: Option<seq<WordTiming>>)

  datatype AudioSession = AudioSession(
    id: string,
    title: string,
    subtitle: string,
    coverUrl: string,
    segments: seq<Segment>,
    duration: real,
    lastPlayed: string,
    status: string)

  /** A word in the user's vocabulary with its spaced-repetition state. */
  datatype SavedWord = SavedWord(
    word: string,
    sessionId: string,
    addedAt: int,
    nextReview: int,
    stage: nat,
    definition: Option<string>,
    translation: Option<string>,
    phonetic: Option<string>)

  /** `word.toLowerCase()`: the key under which saved words are compared. */
  function Key(w: SavedWord): string
  {
    Lower(w.word)
  }

  /** Milliseconds in a day, `24 * 60 * 60 * 1000`. */
  const DayMs: int := 86_400_000
}
