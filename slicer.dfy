/** The import path of the audio-session screen: the single pass that cuts the
    speech recogniser's word list into transcript segments under one of three
    policies, and the small expressions that build the new session around the
    segments (title, duration, choice of provider). */
module Slicer {
  import opened Common
  import opened Entities

  /** A word as the speech recogniser returns it. */
  datatype AsrWord = AsrWord(
    word: string,
    punctuatedWord: Option<string>,
    start: real,
    end: real,
    speaker: Option<int>)

  datatype SlicingMethod = Duration | Turns | Paragraph

  const NoDataError: string := "No transcription data returned from server."

  /** The pause threshold, in seconds, of the paragraph policy. */
  const ParagraphSeconds: real := 5.0

  // ---------------------------------------------------------------------
  // Specification of the slicer

  /** `w.punctuated_word || w.word`: an empty punctuated form falls back too. */
  function Token(w: AsrWord): string
  {
    if w.punctuatedWord.Some? && w.punctuatedWord.value != "" then w.punctuatedWord.value else w.word
  }

  function Timing(w: AsrWord): WordTiming
  {
    WordTiming(Token(w), w.start, w.end, None)
  }

  function Tokens(ws: seq<AsrWord>): (r: seq<string>)
    ensures |r| == |ws|
  {
    if ws == [] then [] else [Token(ws[0])] + Tokens(ws[1..])
  }

  function Timings(ws: seq<AsrWord>): (r: seq<WordTiming>)
    ensures |r| == |ws|
  {
    if ws == [] then [] else [Timing(ws[0])] + Timings(ws[1..])
  }

  /** Where a segment opening at word `lo` starts: the first word's start,
      else the end of the word that closed the previous segment. */
  function OpenStart(words: seq<AsrWord>, lo: nat): real
    requires 0 < |words| && lo <= |words|
  {
    if lo == 0 then words[0].start else words[lo - 1].end
  }

  /** The reference speaker of a segment opening at word `lo`: the first
      word's speaker, else the speaker of the word that closed the previous one. */
  function Reference(words: seq<AsrWord>, lo: nat): Option<int>
    requires 0 < |words| && lo <= |words|
  {
    if lo == 0 then words[0].speaker else words[lo - 1].speaker
  }

  /** `(lastSpeaker || 0) + 1`. */
  function SpeakerLabel(ref: Option<int>): int
  {
    (if ref.Some? then ref.value else 0) + 1
  }

  /** The number of words in `words[lo..hi]` whose speaker differs from `ref`. */
  function TurnCount(words: seq<AsrWord>, ref: Option<int>, lo: nat, hi: nat): nat
    requires lo <= hi <= |words|
    decreases hi
  {
    if hi == lo then 0
    else TurnCount(words, ref, lo, hi - 1) + (if words[hi - 1].speaker != ref then 1 else 0)
  }

  /** Whether the policy closes the segment opened at `lo` on word `k`. */
  predicate SplitsAt(words: seq<AsrWord>, m: SlicingMethod, ruleValue: int, lo: nat, k: nat)
    requires lo <= k < |words|
  {
    match m
    case Duration => words[k].end - OpenStart(words, lo) >= (ruleValue * 60) as real
    case Turns => TurnCount(words, Reference(words, lo), lo, k + 1) >= ruleValue
    case Paragraph =>
      words[k].speaker != Reference(words, lo) && words[k].end - OpenStart(words, lo) > ParagraphSeconds
  }

  /** The policy's test on the current word, from the running state of the
      pass: minutes elapsed since the segment opened, speaker changes counted
      so far, or a speaker change after a long stretch. */
  function ShouldSplit(m: SlicingMethod, ruleValue: int, w: AsrWord, currentStart: real,
                       turnCount: nat, speakerChanged: bool): bool
  {
    match m
    case Duration => w.end - currentStart >= (ruleValue * 60) as real
    case Turns => turnCount >= ruleValue
    case Paragraph => speakerChanged && w.end - currentStart > ParagraphSeconds
  }

  /** Fed the running state of the pass, the policy's test decides what
      `SplitsAt` specifies. */
  lemma SplitTestMeans(words: seq<AsrWord>, m: SlicingMethod, ruleValue: int, lo: nat, i: nat,
                       currentStart: real, turnCount: nat, speakerChanged: bool)
    requires lo <= i < |words|
    requires currentStart == OpenStart(words, lo)
    requires turnCount == TurnCount(words, Reference(words, lo), lo, i + 1)
    requires speakerChanged == (words[i].speaker != Reference(words, lo))
    ensures ShouldSplit(m, ruleValue, words[i], currentStart, turnCount, speakerChanged) == SplitsAt(words, m, ruleValue, lo, i)
  {
  }

  /** `words[lo..hi]` is one segment: no word before its last one splits, and
      the last one splits or is the last word of the input. */
  predicate CutAt(words: seq<AsrWord>, m: SlicingMethod, ruleValue: int, lo: nat, hi: nat)
    requires lo < hi <= |words|
  {
    && (forall k :: lo <= k < hi - 1 ==> !SplitsAt(words, m, ruleValue, lo, k))
    && (hi == |words| || SplitsAt(words, m, ruleValue, lo, hi - 1))
  }

  /** The `j`-th emitted segment when it holds `words[lo..hi]`. */
  function SegmentOf(words: seq<AsrWord>, j: nat, lo: nat, hi: nat): Segment
    requires lo < hi <= |words|
  {
    Segment(
      "seg-" + NatToString(j),
      OpenStart(words, lo),
      words[hi - 1].end,
      Join(Tokens(words[lo..hi])),
      Some(SpeakerLabel(Reference(words, lo))),
      Some(Timings(words[lo..hi])))
  }

  /** Segment `j` of `segs` holds `words[cuts[j]..cuts[j + 1]]`: the run from
      its opening word up to the policy's first split point. */
  ghost predicate SegmentAt(words: seq<AsrWord>, m: SlicingMethod, ruleValue: int,
                            segs: seq<Segment>, cuts: seq<nat>, j: nat)
    requires j < |segs| && |cuts| == |segs| + 1
  {
    && cuts[j] < cuts[j + 1] <= |words|
    && CutAt(words, m, ruleValue, cuts[j], cuts[j + 1])
    && segs[j] == SegmentOf(words, j, cuts[j], cuts[j + 1])
  }

  /** `segs` is what the slicer has emitted after consuming `words[..cuts[|segs|]]`;
      `cuts` holds the index of each segment's first word, then the index
      after the last emitted word. */
  ghost predicate SlicedPrefix(words: seq<AsrWord>, m: SlicingMethod, ruleValue: int,
                               segs: seq<Segment>, cuts: seq<nat>)
  {
    && 0 < |words|
    && |cuts| == |segs| + 1
    && cuts[0] == 0
    && cuts[|segs|] <= |words|
    && forall j :: 0 <= j < |segs| ==> SegmentAt(words, m, ruleValue, segs, cuts, j)
  }

  /** The whole output of the slicer for a non-empty word list, with its cut points. */
  ghost predicate SlicingWith(words: seq<AsrWord>, m: SlicingMethod, ruleValue: int,
                              segs: seq<Segment>, cuts: seq<nat>)
  {
    && SlicedPrefix(words, m, ruleValue, segs, cuts)
    && cuts[|segs|] == |words|
    && forall i, k :: 0 <= i < k < |cuts| ==> cuts[i] < cuts[k]
  }

  /** The cut points of an emitted prefix ascend. */
  lemma CutsAscend(words: seq<AsrWord>, m: SlicingMethod, ruleValue: int, segs: seq<Segment>, cuts: seq<nat>)
    requires SlicedPrefix(words, m, ruleValue, segs, cuts)
    ensures forall i, k :: 0 <= i < k < |cuts| ==> cuts[i] < cuts[k]
  {
    forall i, k | 0 <= i < k < |cuts|
      ensures cuts[i] < cuts[k]
    {
      var t := i + 1;
      assert SegmentAt(words, m, ruleValue, segs, cuts, i);
      while t < k
        invariant i < t <= k
        invariant cuts[i] < cuts[t]
      {
        assert SegmentAt(words, m, ruleValue, segs, cuts, t);
        t := t + 1;
      }
    }
  }

  ghost predicate IsSlicing(words: seq<AsrWord>, m: SlicingMethod, ruleValue: int, segs: seq<Segment>)
  {
    exists cuts :: SlicingWith(words, m, ruleValue, segs, cuts)
  }

  // ---------------------------------------------------------------------
  // The slicer

  /** The Deepgram branch of the import: an empty word list is an error,
      otherwise one pass emits the segments. */
  method Slice(words: seq<AsrWord>, m: SlicingMethod, ruleValue: int) returns (r: Result<seq<Segment>>)
    ensures words == [] <==> r.Err?
    ensures r.Err? ==> r.message == NoDataError
    ensures r.Ok? ==> IsSlicing(words, m, ruleValue, r.value)
  {
    if |words| == 0 {
      return Err(NoDataError);
    }
    var segments: seq<Segment> := [];
    var currentTokens: seq<string> := [];
    var currentWords: seq<WordTiming> := [];
    var currentStart := words[0].start;
    var lastSpeaker := words[0].speaker;
    var turnCount: nat := 0;
    ghost var lo: nat := 0;
    ghost var cuts: seq<nat> := [0];
    for i := 0 to |words|
      invariant lo <= i
      invariant i == |words| ==> lo == i
      invariant PassInvariant(words, m, ruleValue, segments, cuts, lo, i)
      invariant OpenRun(words, lo, i, currentTokens, currentWords, currentStart, lastSpeaker, turnCount)
    {
      RunExtend(words, lo, i, currentTokens, currentWords, currentStart, lastSpeaker, turnCount);
      var w := words[i];
      var token := Token(w);
      currentTokens := currentTokens + [token];
      currentWords := currentWords + [WordTiming(token, w.start, w.end, None)];

      var isLast := i == |words| - 1;
      var speakerChanged := w.speaker != lastSpeaker;
      turnCount := turnCount + if speakerChanged then 1 else 0;
      var shouldSplit := ShouldSplit(m, ruleValue, w, currentStart, turnCount, speakerChanged);
      SplitTestMeans(words, m, ruleValue, lo, i, currentStart, turnCount, speakerChanged);

      if shouldSplit || isLast {
        var seg := Segment(
          "seg-" + NatToString(|segments|), currentStart, w.end, Join(currentTokens),
          Some(SpeakerLabel(lastSpeaker)), Some(currentWords));
        assert seg == SegmentOf(words, |segments|, lo, i + 1);
        PassEmit(words, m, ruleValue, segments, cuts, lo, i, seg);
        segments := segments + [seg];
        cuts := cuts + [i + 1];
        currentTokens := [];
        currentWords := [];
        currentStart := w.end;
        lastSpeaker := w.speaker;
        turnCount := 0;
        lo := i + 1;
        RunOpen(words, i);
      } else {
        PassKeep(words, m, ruleValue, segments, cuts, lo, i);
      }
    }
    CutsAscend(words, m, ruleValue, segments, cuts);
    assert SlicingWith(words, m, ruleValue, segments, cuts);
    return Ok(segments);
  }

  /** The running state of the open segment `words[lo..i]`: its tokens and
      word timings, where it starts, its reference speaker and how many of
      its words differ from that speaker. */
  ghost predicate OpenRun(words: seq<AsrWord>, lo: nat, i: nat, tokens: seq<string>, timings: seq<WordTiming>,
                          start: real, speaker: Option<int>, turns: nat)
  {
    && 0 < |words| && lo <= i <= |words|
    && tokens == Tokens(words[lo..i])
    && timings == Timings(words[lo..i])
    && start == OpenStart(words, lo)
    && speaker == Reference(words, lo)
    && turns == TurnCount(words, speaker, lo, i)
  }

  /** Word `i` joins the open segment. */
  lemma RunExtend(words: seq<AsrWord>, lo: nat, i: nat, tokens: seq<string>, timings: seq<WordTiming>,
                  start: real, speaker: Option<int>, turns: nat)
    requires OpenRun(words, lo, i, tokens, timings, start, speaker, turns) && i < |words|
    ensures OpenRun(words, lo, i + 1, tokens + [Token(words[i])], timings + [Timing(words[i])], start, speaker,
                    turns + if words[i].speaker != speaker then 1 else 0)
  {
    TokensSnoc(words, lo, i);
  }

  /** A segment opens after word `i`. */
  lemma RunOpen(words: seq<AsrWord>, i: nat)
    requires i < |words|
    ensures OpenRun(words, i + 1, i + 1, [], [], words[i].end, words[i].speaker, 0)
  {
  }

  /** What the pass knows after word `i - 1`: the segments emitted so far
      hold `words[..lo]`, and no word of the open segment has split it. */
  ghost predicate PassInvariant(words: seq<AsrWord>, m: SlicingMethod, ruleValue: int,
                                segs: seq<Segment>, cuts: seq<nat>, lo: nat, i: nat)
  {
    && lo <= i <= |words|
    && SlicedPrefix(words, m, ruleValue, segs, cuts)
    && cuts[|segs|] == lo
    && forall k :: lo <= k < i ==> !SplitsAt(words, m, ruleValue, lo, k)
  }

  /** Closing the open segment on word `i` when the policy splits there or
      the input ends. */
  lemma PassEmit(words: seq<AsrWord>, m: SlicingMethod, ruleValue: int,
                 segs: seq<Segment>, cuts: seq<nat>, lo: nat, i: nat, seg: Segment)
    requires PassInvariant(words, m, ruleValue, segs, cuts, lo, i) && i < |words|
    requires SplitsAt(words, m, ruleValue, lo, i) || i == |words| - 1
    requires seg == SegmentOf(words, |segs|, lo, i + 1)
    ensures PassInvariant(words, m, ruleValue, segs + [seg], cuts + [i + 1], i + 1, i + 1)
  {
    EmitPreservesPrefix(words, m, ruleValue, segs, cuts, seg, i + 1);
  }

  /** Word `i` joins the open segment when the policy does not split there. */
  lemma PassKeep(words: seq<AsrWord>, m: SlicingMethod, ruleValue: int,
                 segs: seq<Segment>, cuts: seq<nat>, lo: nat, i: nat)
    requires PassInvariant(words, m, ruleValue, segs, cuts, lo, i) && i < |words|
    requires !SplitsAt(words, m, ruleValue, lo, i)
    ensures PassInvariant(words, m, ruleValue, segs, cuts, lo, i + 1)
  {
  }

  lemma TokensSnoc(words: seq<AsrWord>, lo: nat, i: nat)
    requires lo <= i < |words|
    ensures Tokens(words[lo..i + 1]) == Tokens(words[lo..i]) + [Token(words[i])]
    ensures Timings(words[lo..i + 1]) == Timings(words[lo..i]) + [Timing(words[i])]
  {
    assert words[lo..i + 1] == words[lo..i] + [words[i]];
    TokensAppend(words[lo..i], [words[i]]);
  }

  lemma {:induction false} TokensAppend(a: seq<AsrWord>, b: seq<AsrWord>)
    ensures Tokens(a + b) == Tokens(a) + Tokens(b)
    ensures Timings(a + b) == Timings(a) + Timings(b)
  {
    if a != [] {
      TokensAppend(a[1..], b);
      assert (a + b)[1..] == a[1..] + b;
    } else {
      assert a + b == b;
    }
  }

  lemma EmitPreservesPrefix(words: seq<AsrWord>, m: SlicingMethod, ruleValue: int,
                            segs: seq<Segment>, cuts: seq<nat>, seg: Segment, hi: nat)
    requires SlicedPrefix(words, m, ruleValue, segs, cuts)
    requires cuts[|segs|] < hi <= |words|
    requires CutAt(words, m, ruleValue, cuts[|segs|], hi)
    requires seg == SegmentOf(words, |segs|, cuts[|segs|], hi)
    ensures SlicedPrefix(words, m, ruleValue, segs + [seg], cuts + [hi])
  {
    var segs', cuts' := segs + [seg], cuts + [hi];
    forall j | 0 <= j < |segs'| ensures SegmentAt(words, m, ruleValue, segs', cuts', j) {
      if j < |segs| {
        assert SegmentAt(words, m, ruleValue, segs, cuts, j);
        assert segs'[j] == segs[j] && cuts'[j] == cuts[j] && cuts'[j + 1] == cuts[j + 1];
      }
    }
  }

  // ---------------------------------------------------------------------
  // What the slicing guarantees

  function WordsOf(s: Segment): seq<WordTiming>
  {
    if s.words.Some? then s.words.value else []
  }

  /** The word timings of all segments, in order. */
  function AllWords(segs: seq<Segment>): seq<WordTiming>
  {
    if segs == [] then [] else AllWords(segs[..|segs| - 1]) + WordsOf(segs[|segs| - 1])
  }

  function TimingTexts(ts: seq<WordTiming>): (r: seq<string>)
    ensures |r| == |ts|
  {
    if ts == [] then [] else [ts[0].word] + TimingTexts(ts[1..])
  }

  /** No word is lost, duplicated or reordered: the segments' word lists,
      concatenated, are the input words. */
  lemma {:induction false} SliceCoversWords(words: seq<AsrWord>, m: SlicingMethod, ruleValue: int,
                                            segs: seq<Segment>, cuts: seq<nat>)
    requires SlicingWith(words, m, ruleValue, segs, cuts)
    ensures AllWords(segs) == Timings(words)
  {
    for j := 0 to |segs|
      invariant AllWords(segs[..j]) == Timings(words[..cuts[j]])
    {
      assert SegmentAt(words, m, ruleValue, segs, cuts, j);
      assert segs[..j + 1][..j] == segs[..j];
      assert words[..cuts[j + 1]] == words[..cuts[j]] + words[cuts[j]..cuts[j + 1]];
      TokensAppend(words[..cuts[j]], words[cuts[j]..cuts[j + 1]]);
    }
    assert segs[..|segs|] == segs;
    assert words[..cuts[|segs|]] == words;
  }

  /** A non-empty input yields at least one segment and never more segments than words. */
  lemma {:induction false} SliceSegmentCount(words: seq<AsrWord>, m: SlicingMethod, ruleValue: int,
                                             segs: seq<Segment>, cuts: seq<nat>)
    requires SlicingWith(words, m, ruleValue, segs, cuts)
    ensures 1 <= |segs| <= |words|
  {
    for j := 0 to |segs|
      invariant j <= cuts[j]
    {
      assert SegmentAt(words, m, ruleValue, segs, cuts, j);
    }
  }

  /** Each segment is non-empty, carries the id `seg-<j>`, and its text is the
      single-space join of its own words' tokens. */
  lemma SliceSegmentShape(words: seq<AsrWord>, m: SlicingMethod, ruleValue: int,
                          segs: seq<Segment>, cuts: seq<nat>, j: nat)
    requires SlicingWith(words, m, ruleValue, segs, cuts) && j < |segs|
    ensures segs[j].words.Some? && |segs[j].words.value| > 0
    ensures segs[j].id == "seg-" + NatToString(j)
    ensures segs[j].text == Join(TimingTexts(segs[j].words.value))
  {
    assert SegmentAt(words, m, ruleValue, segs, cuts, j);
    TimingTextsOfTimings(words[cuts[j]..cuts[j + 1]]);
  }

  lemma {:induction false} TimingTextsOfTimings(ws: seq<AsrWord>)
    ensures TimingTexts(Timings(ws)) == Tokens(ws)
  {
    if ws != [] {
      TimingTextsOfTimings(ws[1..]);
    }
  }

  /** Segment times are contiguous, and each segment is labelled with its
      reference speaker: the first word's for the first segment, else the
      speaker of the previous segment's last word. */
  lemma SliceTimesAndSpeakers(words: seq<AsrWord>, m: SlicingMethod, ruleValue: int,
                              segs: seq<Segment>, cuts: seq<nat>)
    requires SlicingWith(words, m, ruleValue, segs, cuts)
    ensures segs[0].startTime == words[0].start
    ensures segs[0].speaker == Some(SpeakerLabel(words[0].speaker))
    ensures forall j :: 0 <= j < |segs| ==> segs[j].endTime == words[cuts[j + 1] - 1].end
    ensures forall j :: 0 < j < |segs| ==> segs[j].startTime == segs[j - 1].endTime
    ensures forall j :: 0 < j < |segs| ==>
              segs[j].speaker == Some(SpeakerLabel(words[cuts[j] - 1].speaker))
    ensures segs[|segs| - 1].endTime == words[|words| - 1].end
  {
    SliceSegmentCount(words, m, ruleValue, segs, cuts);
    SegmentFields(words, m, ruleValue, segs, cuts, 0);
    SegmentFields(words, m, ruleValue, segs, cuts, |segs| - 1);
    forall j | 0 < j < |segs|
      ensures segs[j].startTime == segs[j - 1].endTime
      ensures segs[j].speaker == Some(SpeakerLabel(words[cuts[j] - 1].speaker))
    {
      SegmentFields(words, m, ruleValue, segs, cuts, j);
      SegmentFields(words, m, ruleValue, segs, cuts, j - 1);
    }
    forall j | 0 <= j < |segs| ensures segs[j].endTime == words[cuts[j + 1] - 1].end {
      SegmentFields(words, m, ruleValue, segs, cuts, j);
    }
  }

  /** The times and the speaker label of segment `j`, read off its cut points. */
  lemma SegmentFields(words: seq<AsrWord>, m: SlicingMethod, ruleValue: int,
                      segs: seq<Segment>, cuts: seq<nat>, j: nat)
    requires SlicedPrefix(words, m, ruleValue, segs, cuts) && j < |segs|
    ensures 0 < cuts[j + 1] <= |words|
    ensures j > 0 ==> 0 < cuts[j] <= |words|
    ensures segs[j].startTime == (if j == 0 then words[0].start else words[cuts[j] - 1].end)
    ensures segs[j].endTime == words[cuts[j + 1] - 1].end
    ensures segs[j].speaker == Some(SpeakerLabel(if j == 0 then words[0].speaker else words[cuts[j] - 1].speaker))
  {
    assert SegmentAt(words, m, ruleValue, segs, cuts, j);
    if j > 0 {
      assert SegmentAt(words, m, ruleValue, segs, cuts, j - 1);
    }
  }

  lemma {:induction false} TurnCountAtMostOneMore(words: seq<AsrWord>, ref: Option<int>, lo: nat, hi: nat)
    requires lo <= hi < |words|
    ensures TurnCount(words, ref, lo, hi) <= TurnCount(words, ref, lo, hi + 1) <= TurnCount(words, ref, lo, hi) + 1
  {
  }

  /** Under TURNS with `ruleValue >= 1`, every segment but the last holds
      exactly `ruleValue` words whose speaker differs from its reference
      speaker, and the last holds at most `ruleValue`; there is no duration guard. */
  lemma TurnsSegmentTurns(words: seq<AsrWord>, ruleValue: int, segs: seq<Segment>, cuts: seq<nat>, j: nat)
    requires SlicingWith(words, Turns, ruleValue, segs, cuts) && ruleValue >= 1 && j < |segs|
    ensures j < |segs| - 1 ==> TurnCount(words, Reference(words, cuts[j]), cuts[j], cuts[j + 1]) == ruleValue
    ensures TurnCount(words, Reference(words, cuts[j]), cuts[j], cuts[j + 1]) <= ruleValue
  {
    assert SegmentAt(words, Turns, ruleValue, segs, cuts, j);
    var lo, hi := cuts[j], cuts[j + 1];
    var ref := Reference(words, lo);
    TurnCountAtMostOneMore(words, ref, lo, hi - 1);
    if hi - 1 > lo {
      assert !SplitsAt(words, Turns, ruleValue, lo, hi - 2);
    }
    if j < |segs| - 1 {
      assert SegmentAt(words, Turns, ruleValue, segs, cuts, j + 1);
      assert SplitsAt(words, Turns, ruleValue, lo, hi - 1);
    }
  }

  /** Under DURATION every segment but the last lasts at least `ruleValue`
      minutes, and it ends on the first of its words that reaches that bound. */
  lemma DurationSegmentLength(words: seq<AsrWord>, ruleValue: int, segs: seq<Segment>, cuts: seq<nat>, j: nat)
    requires SlicingWith(words, Duration, ruleValue, segs, cuts) && j < |segs| - 1
    ensures segs[j].endTime - segs[j].startTime >= (ruleValue * 60) as real
    ensures forall k :: cuts[j] <= k < cuts[j + 1] - 1 ==> words[k].end - segs[j].startTime < (ruleValue * 60) as real
  {
    assert SegmentAt(words, Duration, ruleValue, segs, cuts, j);
    assert SegmentAt(words, Duration, ruleValue, segs, cuts, j + 1);
    forall k | cuts[j] <= k < cuts[j + 1] - 1
      ensures words[k].end - segs[j].startTime < (ruleValue * 60) as real
    {
      assert !SplitsAt(words, Duration, ruleValue, cuts[j], k);
    }
  }

  /** Under PARAGRAPH a segment is closed only by a word of a speaker other
      than its reference speaker, after more than five seconds. */
  lemma ParagraphSegmentCut(words: seq<AsrWord>, ruleValue: int, segs: seq<Segment>, cuts: seq<nat>, j: nat)
    requires SlicingWith(words, Paragraph, ruleValue, segs, cuts) && j < |segs| - 1
    ensures words[cuts[j + 1] - 1].speaker != Reference(words, cuts[j])
    ensures segs[j].endTime - segs[j].startTime > ParagraphSeconds
    ensures forall k :: cuts[j] <= k < cuts[j + 1] - 1 ==>
              words[k].speaker == Reference(words, cuts[j]) || words[k].end - segs[j].startTime <= ParagraphSeconds
  {
    assert SegmentAt(words, Paragraph, ruleValue, segs, cuts, j);
    assert SegmentAt(words, Paragraph, ruleValue, segs, cuts, j + 1);
    forall k | cuts[j] <= k < cuts[j + 1] - 1
      ensures words[k].speaker == Reference(words, cuts[j]) || words[k].end - segs[j].startTime <= ParagraphSeconds
    {
      assert !SplitsAt(words, Paragraph, ruleValue, cuts[j], k);
    }
  }

  /** The first split point after `lo` is unique. */
  lemma CutIsUnique(words: seq<AsrWord>, m: SlicingMethod, ruleValue: int, lo: nat, h1: nat, h2: nat)
    requires lo < h1 <= |words| && lo < h2 <= |words|
    requires CutAt(words, m, ruleValue, lo, h1) && CutAt(words, m, ruleValue, lo, h2)
    ensures h1 == h2
  {
  }

  /** The slicing of a word list under a policy is unique: the specification
      determines the segments, so the slicer computes a function of its inputs. */
  lemma {:induction false} SlicingIsUnique(words: seq<AsrWord>, m: SlicingMethod, ruleValue: int,
                                           a: seq<Segment>, ca: seq<nat>, b: seq<Segment>, cb: seq<nat>)
    requires SlicingWith(words, m, ruleValue, a, ca) && SlicingWith(words, m, ruleValue, b, cb)
    ensures a == b
  {
    var n := if |a| < |b| then |a| else |b|;
    for j := 0 to n
      invariant ca[j] == cb[j]
      invariant forall i :: 0 <= i < j ==> a[i] == b[i]
    {
      assert SegmentAt(words, m, ruleValue, a, ca, j);
      assert SegmentAt(words, m, ruleValue, b, cb, j);
      CutIsUnique(words, m, ruleValue, ca[j], ca[j + 1], cb[j + 1]);
    }
  }

  /** Four words, two per speaker, one second each. */
  function TwoSpeakerWords(): seq<AsrWord>
  {
    [ AsrWord("the", None, 0.0, 1.0, Some(1)), AsrWord("cat", None, 1.0, 2.0, Some(1)),
      AsrWord("sat", None, 2.0, 3.0, Some(2)), AsrWord("down", None, 3.0, 4.0, Some(2)) ]
  }

  /** TURNS with `ruleValue` 1 on `TwoSpeakerWords()`: the first word of the
      second speaker closes the first segment although only three seconds
      have passed, so that word is labelled with the first speaker. */
  lemma TurnsSplitsOnFirstForeignWord(segs: seq<Segment>, cuts: seq<nat>)
    requires SlicingWith(TwoSpeakerWords(), Turns, 1, segs, cuts)
    ensures |segs| == 2
    ensures segs[0].text == "the cat sat" && segs[0].speaker == Some(2)
    ensures segs[1].text == "down" && segs[1].speaker == Some(3)
  {
    var words := TwoSpeakerWords();
    assert SegmentAt(words, Turns, 1, segs, cuts, 0);
    assert TurnCount(words, Some(1), 0, 1) == 0;
    assert TurnCount(words, Some(1), 0, 2) == 0;
    assert TurnCount(words, Some(1), 0, 3) == 1;
    assert !SplitsAt(words, Turns, 1, 0, 0) && !SplitsAt(words, Turns, 1, 0, 1);
    assert SplitsAt(words, Turns, 1, 0, 2);
    assert cuts[1] == 3;
    assert |segs| > 1;
    assert SegmentAt(words, Turns, 1, segs, cuts, 1);
    assert cuts[2] == 4;
    assert words[0..3] == words[..3];
    assert Tokens(words[..3]) == ["the", "cat", "sat"];
    assert Tokens(words[3..4]) == ["down"];
  }

  // ---------------------------------------------------------------------
  // Building the new session around the segments

  /** The provider check: Deepgram is used only when selected and given a key
      that is non-empty and longer than five characters once trimmed. */
  predicate UseDeepgram(provider: string, deepgramKey: string)
  {
    provider == "deepgram" && deepgramKey != "" && |Trim(deepgramKey)| > 5
  }

  /** Deepgram is chosen exactly when it is the selected provider and the key
      holds at least six characters between its first and last non-blank one;
      blanks around the key never matter. */
  lemma UseDeepgramIgnoresPadding(provider: string, key: string, pad: string)
    requires SpaceBetween(pad, 0, |pad|)
    ensures UseDeepgram(provider, pad + key + pad) == (provider == "deepgram" && |Trim(key)| > 5)
    ensures UseDeepgram(provider, key) ==> |key| > 5
  {
    TrimIgnoresPadding(key, pad);
  }

  /** Blanks added around a key are trimmed away again. */
  lemma TrimIgnoresPadding(key: string, pad: string)
    requires SpaceBetween(pad, 0, |pad|)
    ensures Trim(pad + key + pad) == Trim(key)
  {
    TrimIgnoresLeading(pad, key);
    TrimIgnoresTrailing(pad + key, pad);
  }

  lemma TrimIgnoresLeading(pad: string, key: string)
    requires SpaceBetween(pad, 0, |pad|)
    ensures Trim(pad + key) == Trim(key)
  {
    SkipSpaceAfterPad(pad, key);
    SkipSpaceBackAfterPad(pad, key);
    var a := SkipSpace(key, 0);
    var b := SkipSpaceBack(key, |key|);
    var b' := if b == 0 then 0 else |pad| + b;
    TrimSpan(key, a, b);
    TrimSpan(pad + key, |pad| + a, b');
    if a < b {
      SliceAfterPrefix(pad, key, a, b);
    }
  }

  lemma SliceAfterPrefix(p: string, s: string, a: nat, b: nat)
    requires a <= b <= |s|
    ensures (p + s)[|p| + a..|p| + b] == s[a..b]
  {
  }

  /** White space in front of `key` moves its first non-blank character right. */
  lemma SkipSpaceAfterPad(pad: string, key: string)
    requires SpaceBetween(pad, 0, |pad|)
    ensures SkipSpace(pad + key, 0) == |pad| + SkipSpace(key, 0)
  {
    PaddedIndex(pad, key);
    var a := SkipSpace(key, 0);
    if a < |key| {
      assert (pad + key)[|pad| + a] == key[a];
    }
  }

  /** ... and its last non-blank character too, when it has one. */
  lemma SkipSpaceBackAfterPad(pad: string, key: string)
    requires SpaceBetween(pad, 0, |pad|)
    ensures var b := SkipSpaceBack(key, |key|);
            SkipSpaceBack(pad + key, |pad| + |key|) == if b == 0 then 0 else |pad| + b
  {
    PaddedIndex(pad, key);
    var b := SkipSpaceBack(key, |key|);
    if b > 0 {
      assert (pad + key)[|pad| + b - 1] == key[b - 1];
    }
  }

  lemma PaddedIndex(pad: string, key: string)
    ensures forall k :: 0 <= k < |pad| ==> (pad + key)[k] == pad[k]
    ensures forall k :: |pad| <= k < |pad| + |key| ==> (pad + key)[k] == key[k - |pad|]
  {
  }

  lemma TrimIgnoresTrailing(key: string, pad: string)
    requires SpaceBetween(pad, 0, |pad|)
    ensures Trim(key + pad) == Trim(key)
  {
    SkipSpaceBeforePad(key, pad);
    SkipSpaceBackBeforePad(key, pad);
    var a := SkipSpace(key, 0);
    var b := SkipSpaceBack(key, |key|);
    var a' := if a == |key| then |key| + |pad| else a;
    TrimSpan(key, a, b);
    TrimSpan(key + pad, a', b);
    if a < b {
      SliceBeforeSuffix(key, pad, a, b);
    }
  }

  lemma SliceBeforeSuffix(s: string, q: string, a: nat, b: nat)
    requires a <= b <= |s|
    ensures (s + q)[a..b] == s[a..b]
  {
  }

  /** White space after `key` does not move its first non-blank character,
      when it has one. */
  lemma SkipSpaceBeforePad(key: string, pad: string)
    requires SpaceBetween(pad, 0, |pad|)
    ensures var a := SkipSpace(key, 0);
            SkipSpace(key + pad, 0) == if a == |key| then |key| + |pad| else a
  {
    PaddedIndex(key, pad);
  }

  /** ... nor its last one. */
  lemma SkipSpaceBackBeforePad(key: string, pad: string)
    requires SpaceBetween(pad, 0, |pad|)
    ensures SkipSpaceBack(key + pad, |key| + |pad|) == SkipSpaceBack(key, |key|)
  {
    PaddedIndex(key, pad);
  }

  /** Position `p` of `name` starts the extension `/\.[^/.]+$/` matches: a dot
      followed by one or more characters, none of them a slash or a dot. */
  ghost predicate IsExtensionAt(name: string, p: nat)
  {
    p + 1 < |name| && name[p] == '.' && forall j :: p < j < |name| ==> name[j] != '/' && name[j] != '.'
  }

  /** Scans `name[..i]` from the right for the dot of the extension. */
  function ExtensionDot(name: string, i: nat): (r: Option<nat>)
    requires i <= |name|
    requires forall j :: i <= j < |name| ==> name[j] != '/' && name[j] != '.'
    ensures r.Some? ==> IsExtensionAt(name, r.value)
    ensures r.None? ==> forall p: nat :: !IsExtensionAt(name, p)
    decreases i
  {
    if i == 0 then None
    else if name[i - 1] == '.' then (if i < |name| then Some(i - 1) else None)
    else if name[i - 1] == '/' then None
    else ExtensionDot(name, i - 1)
  }

  /** `name.replace(/\.[^/.]+$/, "")`: the title of an imported file. */
  function StripExtension(name: string): (title: string)
    ensures title <= name
    ensures forall p: nat :: IsExtensionAt(name, p) ==> title == name[..p]
    ensures (forall p: nat :: !IsExtensionAt(name, p)) ==> title == name
  {
    match ExtensionDot(name, |name|)
    case Some(p) => name[..p]
    case None => name
  }

  /** `audioDuration || (segments.length > 0 ? last.endTime : 0)`. */
  function SessionDuration(audioDuration: real, segs: seq<Segment>): real
  {
    if audioDuration != 0.0 then audioDuration
    else if |segs| > 0 then segs[|segs| - 1].endTime
    else 0.0
  }

  /** When the audio element reports no duration, an imported session lasts
      until the end of the last recognised word. */
  lemma SlicedSessionDuration(words: seq<AsrWord>, m: SlicingMethod, ruleValue: int,
                              segs: seq<Segment>, cuts: seq<nat>, audioDuration: real)
    requires SlicingWith(words, m, ruleValue, segs, cuts)
    ensures SessionDuration(audioDuration, segs) ==
              if audioDuration != 0.0 then audioDuration else words[|words| - 1].end
  {
    SliceTimesAndSpeakers(words, m, ruleValue, segs, cuts);
  }

  /** The session handed to the library once the segments exist. */
  function NewSession(sessionId: string, fileName: string, segs: seq<Segment>,
                      audioDuration: real, usedDeepgram: bool): (s: AudioSession)
    ensures s.id == sessionId && s.segments == segs
    ensures s.title == StripExtension(fileName) && s.title <= fileName
    ensures s.subtitle == NatToString(|segs|) + " segments \U{2022} " + (if usedDeepgram then "Deepgram" else "Gemini")
    ensures s.duration == SessionDuration(audioDuration, segs)
  {
    AudioSession(
      sessionId,
      StripExtension(fileName),
      NatToString(|segs|) + " segments \U{2022} " + (if usedDeepgram then "Deepgram" else "Gemini"),
      "https://picsum.photos/seed/" + sessionId + "/400/400",
      segs,
      SessionDuration(audioDuration, segs),
      "Just now",
      "ready")
  }
}
