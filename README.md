# EchoListen core logic in Dafny

EchoListen is a browser app for listening practice. The user imports an
audio file. A speech recogniser transcribes it, and the app cuts the word list
into transcript segments. It then plays the audio segment by segment, with the
active segment and a per-word highlight in sync with playback. A tap on a word
saves it to a vocabulary list, which is reviewed on a spaced-repetition
schedule.

This project models the logic behind those screens and proves its properties:

- `Slicer` (`slicer.dfy`): the slicing pass of the import screen and the
  expressions that build the new session.
  - Three policies: duration in minutes, speaker turns, and paragraphs
    (a speaker change more than 5 s after the segment opened).
  - Also modelled: the empty-input error, the session title without its file
    extension, the duration fallback, and the choice of provider.
  - The pass is a `method` with a loop. It is proved against a declarative
    description of the output: each segment runs from its opening word to the
    policy's first split point. Lemmas cover the rest: the segments cover the
    words exactly, times and speaker labels, per-policy cut facts, and the
    uniqueness of the slicing.
- `Player` (`player.dfy`): the player screen's logic.
  - Grouping of segments into speaker blocks (a loop, proved against a
    partition predicate).
  - The active-segment lookup with latency compensation.
  - The three playback modes, the handler of the audio element's `ended`
    event (fired once, when playback reaches the end of the file), and one
    frame of the sync loop: the single-loop seek followed by the
    active-segment lookup.
  - The speed cycle.
  - Splitting a segment's text on whitespace, and per-token time spans: the
    word timings, or proportional spans computed in a loop.
  - Word cleaning for highlighting and for lookup, and the one-segment text
    edit.
- `AppState` (`app_state.dfy`): the application-wide updaters for the session
  library and the saved-word list. These are add, update and delete, toggling
  a word in or out, and patching a word.
- `Vocabulary` (`vocabulary.dfy`): the vocabulary screen.
  - The review-interval table and a review answer's update.
  - The due-word filter.
  - The review pass as a `class` whose methods update its three state fields.
  - Grouping of saved words into one folder per session. This is a loop over
    a dictionary, proved against a filter.
- `Home` (`home.dfy`): the case-insensitive library search.
- `Icons` (`icons.dfy`): the byte layout that the icon script writes.
  - The header is a fixed 49 bytes.
  - Width and height are written big-endian.
  - Each number is stored as its low eight bits.
  - The header's fixed bytes are modelled as the script writes them. For
    example, byte 37 is the sRGB rendering intent, bytes 38-41 are the data
    chunk's length field, and bytes 42-45 spell `IDTA`.
- `Common` and `Entities` hold the shared pieces. `Common` has `Option`/`Result`,
  ASCII lower-casing, JavaScript whitespace and `trim`, `join`, substring
  search and decimal rendering. `Entities` has the app's records.

`Date.now()` and `Math.random()` become parameters (`now`, `random`). Times of
the transcript are `real` seconds. Vocabulary timestamps are `int`
milliseconds.

Several points follow the code where the app's design description says
otherwise:

- The turns policy has no minimum duration.
- The paragraph threshold is 5 seconds.
- The turn count counts the segment's words whose speaker differs from the
  segment's reference speaker. The reference is the speaker of the word that
  closed the previous segment. The count is not of consecutive speaker
  changes.
- An empty word list is an error, "No transcription data returned from
  server.", not an empty transcript.
- The two-speaker example `the cat sat | down` with one turn per segment
  splits after "sat". The first foreign-speaker word closes the segment it
  belongs to (`Slicer.TurnsSplitsOnFirstForeignWord`).
- The review pass does not reset `showAnswer` when it ends after the last
  word. Only a pass that moves on to the next word clears it.

## Model

| member | source | states |
|---|---|---|
| Slicer.Slice | views/AddSessionView.tsx:106-149 | the error case happens exactly when the word list is empty, and it carries the server message; otherwise the segments are the slicing of the words under the chosen policy, each one running from its opening word up to the policy's first split point or the last word |
| Slicer.SlicingIsUnique | views/AddSessionView.tsx:113-146 | two slicings of the same words under the same policy and rule value are equal, so the description above determines the output |
| Slicer.SliceCoversWords | views/AddSessionView.tsx:114-116 | the segments' word timings, concatenated, are the input words in order, each carrying its punctuated token (or its plain word when that is missing or empty) and its start and end |
| Slicer.SliceSegmentCount | views/AddSessionView.tsx:131-146 | a non-empty word list gives at least one segment and no more segments than words |
| Slicer.SliceSegmentShape | views/AddSessionView.tsx:131-139 | every segment holds at least one timed word, segment j has id `seg-j`, and its text is its tokens joined by single spaces |
| Slicer.SliceTimesAndSpeakers | views/AddSessionView.tsx:107-144 | the first segment starts at the first word, each segment ends at its last word's end, each later segment starts where the previous one ended, and its speaker is one plus the reference speaker (0 when absent) |
| Slicer.TurnsSegmentTurns | views/AddSessionView.tsx:118-126 | under the turns policy with a rule value of at least 1, every segment but the last holds exactly rule-value foreign-speaker words and the last at most that many |
| Slicer.DurationSegmentLength | views/AddSessionView.tsx:122-124 | under the duration policy every segment but the last lasts at least rule-value minutes, and none of its earlier words reached that length |
| Slicer.ParagraphSegmentCut | views/AddSessionView.tsx:127-128 | under the paragraph policy every segment but the last ends on a foreign-speaker word more than 5 s after the segment opened, and no earlier word met both conditions |
| Slicer.TurnsSplitsOnFirstForeignWord | views/AddSessionView.tsx:113-146 | the two-speaker example under one turn per segment gives `the cat sat` (speaker 2) then `down` (speaker 3) |
| Slicer.UseDeepgramIgnoresPadding | views/AddSessionView.tsx:73 | the recogniser is used exactly when the provider is `deepgram` and the key is longer than 5 characters once trimmed, so whitespace padding never changes the choice |
| Slicer.StripExtension | views/AddSessionView.tsx:199 | the title is a prefix of the file name; it cuts the name at a final `.ext` (a dot followed by one or more characters that are neither `/` nor `.`, up to the end), and keeps the name whole when there is none |
| Slicer.SlicedSessionDuration | views/AddSessionView.tsx:203 | a session's duration is the audio duration, or, when that is 0, the end of the last word |
| Slicer.NewSession | views/AddSessionView.tsx:197-206 | the new session keeps the id and segments, its title is a prefix of the file name, its subtitle counts the segments and names the provider, and its duration is the fallback above |
| Player.GroupDialogue | views/PlayerView.tsx:82-91 | the blocks partition the segments in order: none is empty, each starts at the index of its first segment, and every segment in a block has the block's speaker (1 when the speaker is not a number); adjacent blocks have different speakers |
| Player.BlockIndexing | views/PlayerView.tsx:373 | segment `s` of block `b` is the transcript's segment `startIdx + s` |
| Player.ExactlyOneBlockActive | views/PlayerView.tsx:366 | an active index inside the transcript marks exactly one block active, and an index outside it marks none |
| Player.FindActive | views/PlayerView.tsx:161 | the result is -1 exactly when no segment covers the time; otherwise it is the first segment whose half-open interval covers the time |
| Player.SyncActive | views/PlayerView.tsx:160-163 | the active index moves to the first segment covering the time (plus 0.05 s while playing), and stays the same when none does |
| Player.SyncActiveDisjoint | views/PlayerView.tsx:160-163 | when segments do not overlap, the segment covering the adjusted time becomes the active one |
| Player.NextMode | views/PlayerView.tsx:231-235 | the mode button always changes the mode |
| Player.ModeCycle | views/PlayerView.tsx:231-235 | three presses return to the starting mode, after visiting all three modes |
| Player.JumpTo | views/PlayerView.tsx:222-229 | jumping to a segment makes it active, starts playback, and seeks to its start, which lies inside the segment when the segment is not empty |
| Player.ShuffleIndex | views/PlayerView.tsx:103 | the shuffled index lies in the range of the transcript |
| Player.OnAudioEnded | views/PlayerView.tsx:97-109 | the handler throws exactly when it reads a missing segment: single loop with the active index out of range, shuffle on an empty transcript, list loop with a negative next index; otherwise single loop replays the active segment from its start, shuffle jumps to some segment, and list loop jumps to the next segment or pauses on the last one |
| Player.ListLoopWalksToEnd | views/PlayerView.tsx:105-107 | in list-loop mode n endings from segment i reach segment i + n without throwing, and playback stops on the last segment |
| Player.SingleLoopSeek | views/PlayerView.tsx:155-158 | in single-loop mode the check throws exactly when the active index is out of range; otherwise a time at or after the active segment's end seeks back to its start, and any other time, or any time in another mode, is left alone |
| Player.SingleLoopStaysInSegment | views/PlayerView.tsx:155-158 | in single-loop mode the playback time after the check on its own lies inside the active segment, or at its start |
| Player.SyncFrame | views/PlayerView.tsx:150-163 | a frame throws exactly when the single-loop check reads a missing segment; otherwise the new active index is the lookup on the time read before the seek |
| Player.SingleLoopFrameAdvances | views/PlayerView.tsx:155-163 | with segments [0, 2) and [2, 4), segment 0 active and playing, a frame at 1.97 s makes segment 1 active without seeking, so single loop leaves its segment |
| Player.SingleLoopFrameAdvancesEarly | views/PlayerView.tsx:155-163 | in a transcript of back-to-back segments, any frame in the last 0.05 s of segment i, while playing, makes segment i + 1 active and does not seek |
| Player.SyncFrameLooping | views/PlayerView.tsx:150-163 | the corrected frame throws in the same cases; in single loop it keeps the active index and the time stays inside the active segment or at its start; other modes are as written |
| Player.SingleLoopKeepsSegment | views/PlayerView.tsx:150-163 | under the corrected frame, single loop keeps the same active segment after any number of frames |
| Player.NextSpeed | views/PlayerView.tsx:332 | from any speed of at least 0.25 the next speed lies between 0.5 and 2.25 |
| Player.NextSpeedOnGrid | views/PlayerView.tsx:332 | on the grid 0.5, 0.75, ..., 2 each press goes up a quarter and 2 wraps to 0.5 |
| Player.SpeedCycle | views/PlayerView.tsx:332 | seven presses bring every grid speed back to itself |
| Player.SplitWs | views/PlayerView.tsx:239 | splitting on runs of whitespace gives at least one piece, no piece contains whitespace, and only the first and last pieces can be empty |
| Player.Separators | views/PlayerView.tsx:239 | the separators the split removes are non-empty runs of whitespace |
| Player.SplitWsRejoins | views/PlayerView.tsx:239 | there is one separator fewer than pieces, and putting the separators back between the pieces gives the text back, so the pieces are the text cut at every maximal whitespace run |
| Player.SplitJoin | views/PlayerView.tsx:239 | splitting non-empty whitespace-free tokens joined by single spaces gives the tokens back |
| Player.TokenBoundaries | views/PlayerView.tsx:239-258 | there is one span per token; with one word timing per token the spans are the timings, otherwise each span is the proportional span of its token |
| Player.ProportionalBounds | views/PlayerView.tsx:247-257 | the loop over the tokens yields one span per token, span i being the proportional span of token i |
| Player.ProportionalSpansContiguous | views/PlayerView.tsx:248-257 | the proportional spans start at the segment's start, each ends where the next begins, and each has positive length |
| Player.StripPunct | views/PlayerView.tsx:265 | the result has no listed punctuation character, is no longer than the input, and a word without punctuation is kept |
| Player.StripPunctAppend | views/PlayerView.tsx:265 | stripping distributes over concatenation, so it works character by character and keeps the order of what it keeps |
| Player.StripPunctCounts | views/PlayerView.tsx:265 | every listed punctuation character is dropped and every other character is kept as often as it occurs |
| Player.HighlightForm | views/PlayerView.tsx:265 | the form used to mark saved tokens is the punctuation-stripped token with each character lower-cased, so it has no punctuation and no upper-case letter |
| Player.HighlightFormCommutes | views/PlayerView.tsx:265 | lower-casing before stripping gives the same form, as the source's order does |
| Player.HighlightFormIdempotent | views/PlayerView.tsx:265 | cleaning a cleaned token changes nothing |
| Player.LookupWord | views/PlayerView.tsx:178-179 | there is no lookup exactly when the stripped and trimmed word is empty; otherwise the looked-up word is that trimmed word lower-cased character by character, with no punctuation, no upper-case letter and no whitespace at either end |
| Player.LookupIsTrimmedHighlight | views/PlayerView.tsx:178-179 | the looked-up word is the trimmed highlight form, and there is none when that is empty |
| Player.LowerTrim | views/PlayerView.tsx:178 | lower-casing and trimming can be applied in either order |
| Player.LookupMatchesHighlight | views/PlayerView.tsx:178-179 | for a token of the split text (no whitespace), the word a tap looks up is the token's highlight form, and an empty highlight form gives no lookup |
| Player.ToggleFlipsHighlight | views/PlayerView.tsx:265-266 | toggling a word whose lower-cased form is a token's highlight form flips whether that token is shown as saved |
| Player.SavingLookupHighlights | views/PlayerView.tsx:265-266 | saving the word a tap on a whitespace-free token looks up makes that token show as saved |
| Player.EditText | views/PlayerView.tsx:376 | the edit replaces the text of segment `absIdx` and leaves every other segment as it was |
| Player.EditKeepsTimeline | views/PlayerView.tsx:376 | an edit keeps every segment's id, times, speaker and word timings, so the active segment for any time is unchanged |
| Player.EditTwice | views/PlayerView.tsx:376 | two edits of the same segment amount to the second one |
| AppState.MergeSession | App.tsx:153 | for each of the session's fields, a value the patch sets overrides it and a field the patch leaves out is kept |
| AppState.AddSession | App.tsx:150 | the new session comes first, followed by the previous library unchanged |
| AppState.UpdateSession | App.tsx:152-154 | every session with the id is merged with the patch and every other one is kept, in place |
| AppState.UpdateSessionKeepsIds | App.tsx:152-154 | a patch without an id keeps every id, an empty patch changes nothing, and an unknown id changes nothing |
| AppState.DeleteSession | App.tsx:156-158 | the result holds exactly the sessions with other ids, in their order, and an unknown id changes nothing |
| AppState.DeleteSessionCounts | App.tsx:157 | each session with another id is kept as many times as it occurs, and none with the id remains |
| AppState.AddThenDelete | App.tsx:150-158 | adding a session with a fresh id and then deleting that id restores the library |
| AppState.RemoveKey | App.tsx:164 | the result holds exactly the words with another lower-cased key, in their order, and is shorter exactly when the key was present |
| AppState.RemoveKeyCounts | App.tsx:164 | each word with another lower-cased key is kept as many times as it occurs, and none with the key remains |
| AppState.RemoveKeyAppend | App.tsx:164 | removing a key distributes over concatenation |
| AppState.RemoveKeyKeepsUnique | App.tsx:164 | removing a key keeps keys unique |
| AppState.ToggleWord | App.tsx:160-178 | a saved word, in any letter case, is removed with every entry sharing its key, which is exactly `RemoveKey` of the lower-cased word (so every other entry keeps its count); an unsaved word is appended after the unchanged list |
| AppState.ToggleWordAppends | App.tsx:166-176 | the appended word has stage 0, is due one day after `now`, and carries the definition fields when a definition is given |
| AppState.ToggleWordKeepsKeysUnique | App.tsx:160-178 | toggling keeps lower-cased keys unique |
| AppState.ToggleWordTwice | App.tsx:160-178 | toggling an unsaved word on and then off, in any letter case, restores the list |
| AppState.MergeWord | App.tsx:181 | for each of the saved word's fields, a value the patch sets overrides it and a field the patch leaves out is kept |
| AppState.UpdateWord | App.tsx:180-182 | every word whose lower-cased form matches is merged with the patch and every other one is kept, in place |
| AppState.UpdateWordKeepsKeys | App.tsx:180-182 | a patch without a word keeps every key and keeps keys unique, and words with another key are unchanged |
| Vocabulary.NewStage | views/VocabularyView.tsx:36 | a known answer promotes the stage by one below 7 and gives exactly 7 from 7 on; a forgotten one resets it to 0 |
| Vocabulary.ReviewPatch | views/VocabularyView.tsx:34-42 | the update sets the new stage and a next review of `now` plus that stage's interval in days, and nothing else |
| Vocabulary.ReviewSchedule | views/VocabularyView.tsx:36-41 | a forgotten word is due at once with stage 0; a known word is due at least one day later, and no earlier than its current stage's interval; word, session and definition are kept |
| Vocabulary.IntervalsGrow | views/VocabularyView.tsx:12 | the review intervals never shrink as the stage grows |
| Vocabulary.ReviewWorkedExample | views/VocabularyView.tsx:12-41 | five known answers from stage 0 reach stage 5, due 15 days after the last answer; a forgotten answer then resets the word to stage 0, due at once |
| Vocabulary.ReviewUpdateTouchesOnlySchedule | views/VocabularyView.tsx:39-42 | applying an answer to the saved-word list changes only the stage and next review of the words sharing the answered word's key |
| Vocabulary.DueWords | views/VocabularyView.tsx:20 | the due list holds exactly the saved words whose next review is not after `now`, in their order |
| Vocabulary.DueWordsCounts | views/VocabularyView.tsx:20 | each due word is kept as many times as it occurs, and no word that is not due remains |
| Vocabulary.DueWordsGrowWithTime | views/VocabularyView.tsx:20 | a word due now is still due later |
| Vocabulary.AfterAnswer | views/VocabularyView.tsx:44-50 | after an answer the pass moves to the next word and hides the answer, or, after the last word, leaves test mode at index 0 |
| Vocabulary.PassVisitsEveryWord | views/VocabularyView.tsx:44-50 | with a fixed due list, k answers from the start show word k, and answering every word ends the pass |
| Vocabulary.ReviewPass.constructor | views/VocabularyView.tsx:16-18 | a pass starts outside test mode at index 0 with the answer hidden |
| Vocabulary.ReviewPass.Start | views/VocabularyView.tsx:151 | starting enters test mode only when some word is due |
| Vocabulary.ReviewPass.Reveal | views/VocabularyView.tsx:78 | revealing shows the answer and changes nothing else |
| Vocabulary.ReviewPass.Close | views/VocabularyView.tsx:58 | closing leaves test mode and changes nothing else |
| Vocabulary.ReviewPass.Answer | views/VocabularyView.tsx:34-51 | answering returns the current due word and the review update for it, and moves the pass as the step above says |
| Vocabulary.WordsIn | views/VocabularyView.tsx:24-27 | every word in a session's group belongs to that session |
| Vocabulary.WordsInMembers | views/VocabularyView.tsx:24-27 | a session's group holds exactly the saved words of that session |
| Vocabulary.WordsInCounts | views/VocabularyView.tsx:24-27 | a session's group holds each of that session's words as many times as it was saved, and no other word |
| Vocabulary.WordsInIsSubseq | views/VocabularyView.tsx:24-27 | a session's group keeps the saved words' order |
| Vocabulary.FindSession | views/VocabularyView.tsx:29 | the lookup finds no session exactly when none has the id; otherwise it finds the first session with that id |
| Vocabulary.FillGroups | views/VocabularyView.tsx:23-27 | the pass over the saved words leaves the dictionary and the order in which its keys were created equal to `Groups` and `KeyOrder` of the saved words |
| Vocabulary.GroupsInvariant | views/VocabularyView.tsx:23-27 | after any prefix of the saved words, the keys are exactly the listed session ids, every word's session is a key, each bucket holds that session's words so far and is non-empty, and keys are listed in the order of their sessions' first words |
| Vocabulary.Folders | views/VocabularyView.tsx:22-32 | there is one non-empty folder per session id that occurs, holding that session's words in order together with the session looked up by id; folders come in order of each session's first saved word |
| Vocabulary.EachWordInOneFolder | views/VocabularyView.tsx:22-32 | a saved word lies in exactly the folder of its own session |
| Home.FilterSessions | views/HomeView.tsx:21-24 | the list holds exactly the sessions whose lower-cased title or subtitle contains the lower-cased query, in library order |
| Home.FilterSessionsCounts | views/HomeView.tsx:21-24 | each matching session is listed as many times as it occurs in the library, and no other session |
| Home.EmptyQueryKeepsAll | views/HomeView.tsx:21-24 | an empty query lists the whole library |
| Home.QueryCaseIgnored | views/HomeView.tsx:21-24 | the query's letter case does not change the list |
| Home.LongerQueryNarrows | views/HomeView.tsx:21-24 | typing more characters can only remove sessions from the list |
| Icons.Header | scripts/generate-icons.cjs:7-23 | the header is 49 bytes and starts with the PNG signature |
| Icons.HeaderFields | scripts/generate-icons.cjs:11-19 | bytes 16-19 and 20-23 read back big-endian as the width and height modulo 2^32; bit depth is 8, colour type 2, and byte 41 is the claimed data length modulo 256 |
| Icons.Icon72LengthByte | scripts/generate-icons.cjs:19 | for the 72-pixel icon, byte 41 is 198, the low byte of 15558 |
| Icons.PixelsAt | scripts/generate-icons.cjs:25-28 | byte k of the pixel data is colour component k mod 3 |
| Icons.CreateSimplePng | scripts/generate-icons.cjs:5-35 | the output is the header, then one colour triple per pixel (a missing component is 0), then the 12-byte trailer, with the length that adds up to |
| Common.NatToString | views/AddSessionView.tsx:200 | a number renders as one or more decimal digits, with no leading zero unless it is 0 |
| Common.NatToStringValue | views/AddSessionView.tsx:133 | the digits read back as the number |
| Common.NatToStringInjective | views/AddSessionView.tsx:133 | different numbers render differently, so the segment ids `seg-j` are distinct |
| Common.Lower | App.tsx:161 | lower-casing keeps the length and maps each character to its lower-case form |
| Common.Trim | views/PlayerView.tsx:178 | trimming gives the slice of the input that starts after its leading whitespace, and that neither starts nor ends with whitespace |
| Common.TrimCutsOnlySpace | views/PlayerView.tsx:178 | everything trimming removes, before and after the result, is whitespace |
| Common.TrimFindsSlice | views/PlayerView.tsx:178 | a slice with only whitespace around it and no whitespace at its ends is the trimmed string |
| Common.TrimCharacterised | views/PlayerView.tsx:178 | a slice is the trimmed string exactly when only whitespace lies around it and it neither starts nor ends with whitespace |
| Slicer.TrimIgnoresPadding | views/AddSessionView.tsx:73 | trimming a key padded with whitespace on both sides gives the trimmed key |

## Left out

- Network calls are not modelled: the speech recogniser's request, the Gemini transcription branch of the import, word definitions and text-to-speech. For the Gemini branch, its segments are taken as given by the session updaters.
- Audio plumbing is not modelled: `getAudioDuration`, the audio element and `requestAnimationFrame`. The audio duration and the playback time are parameters.
- Persistence is not modelled: IndexedDB for audio and `localStorage` for settings, sessions and words.
- Player.JumpTo: the guard that the audio source is ready is not modelled; the audio is taken as ready.
- Player.OnAudioEnded: is modelled as if the handler saw the current mode, transcript and active index. In the app the listener is registered by an effect keyed only on the session id, so it keeps the values of the first render; `Player.ListLoopWalksToEnd` likewise describes the handler as if it saw the current state.
- Player.SingleLoopSeek: the thrown `TypeError` is an error value; that it also stops the animation-frame loop for good is not modelled further.
- Player.TokenBoundaries: counts characters, while `text.length` and `t.length` count UTF-16 code units, so a token with a character outside the Basic Multilingual Plane, such as an emoji, gets a different proportional span in the app.
- Player.LookupMatchesHighlight: states that the tapped token's lookup key is its highlight form; the save button stores the `word` of the dictionary reply instead, which the model does not see, so `Player.SavingLookupHighlights` states the highlight only for a save of the looked-up word itself.
- AppState.ToggleWordAppends: one `now` stands for both `Date.now()` calls, so the model has the new entry due exactly one day after it was added; in the app the two calls can differ by a millisecond or more.
- Player.SyncActive: scrolling the active segment into view is not modelled.
- Rendering details are not modelled: the highlight fill percentage, colours and layout.
- Settings screen is not part of this model.
- Session id generation and the `lastPlayed`/`status` strings are constants or parameters.
- Floating-point rounding and NaN are not modelled. Times are exact reals. Millisecond timestamps are unbounded integers, so precision beyond 2^53 is not modelled.
- Common.Lower: lower-cases ASCII letters only; JavaScript's `toLowerCase` also folds non-ASCII letters.
- AppState.MergeSession: a patch cannot carry an explicit `undefined`, which in JavaScript would clear a field; patches only set fields or leave them.
- AppState.MergeWord: as for sessions, a patch cannot clear a field with an explicit `undefined`.
- Vocabulary.Folders: orders folders by each session's first saved word; JavaScript's `Object.entries` puts integer-like keys first, in ascending order, and those ids are not modelled.
- Vocabulary.PassVisitsEveryWord: takes the due list as fixed during a pass. In the app the list is recomputed after each answer, and `ReviewPass.Answer` takes the current list at each call. A known answer drops the word from the recomputed list while the index still advances, so the following word is skipped, and with two due words the screen then reads past the end of a one-word list; the model does not show this.
- Player.NextSpeed: the range bound is stated only for speeds of at least 0.25; the speed starts at 1 and only this button changes it.
- Icons.CreateSimplePng: writes no chunk checksums, the data chunk is not a valid zlib stream, and the file is not written to disk; only the byte layout is modelled.

## Findings

| source | as written | input that shows it | evidently intended | confidence | as-written member | corrected member |
|---|---|---|---|---|---|---|
| views/PlayerView.tsx:155-163 | in one frame the single-loop check seeks only at or after the active segment's end, and the active-segment lookup then runs on the time read before the seek, 0.05 s ahead while playing | segments [0, 2) and [2, 4), segment 0 active, playing, time 1.97 s: no seek, and segment 1 becomes active | single loop keeps replaying its segment | medium, not executed | Player.SingleLoopFrameAdvances | Player.SingleLoopKeepsSegment |
