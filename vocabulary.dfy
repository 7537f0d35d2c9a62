/** The vocabulary screen: the spaced-repetition schedule (a fixed table of
    review intervals, promotion on a known answer, reset on a forgotten one),
    the words due for review, the review pass's state machine, and the
    grouping of saved words into one folder per session. `Date.now()` is the
    parameter `now`. */
module Vocabulary {
  import opened Common
  import opened Entities
  import opened AppState

  // ---------------------------------------------------------------------
  // The schedule

  /** `REVIEW_INTERVALS`, in days, indexed by stage. */
  const ReviewIntervals: seq<nat> := [0, 1, 2, 4, 7, 15, 30, 90]

  /** `REVIEW_INTERVALS.length - 1`, the highest stage. */
  const MaxStage: nat := 7

  /** `known ? Math.min(stage + 1, 7) : 0`. */
  function NewStage(stage: nat, known: bool): (r: nat)
    ensures r <= MaxStage && r < |ReviewIntervals|
    ensures known ==> r >= 1 && (stage < MaxStage ==> r == stage + 1)
    ensures !known ==> r == 0
    ensures known && stage >= MaxStage ==> r == MaxStage
  {
    if !known then 0 else if stage + 1 < MaxStage then stage + 1 else MaxStage
  }

  /** The update `handleReviewAction` sends for one answer: the new stage and
      a due date that many days' interval after now; nothing else. */
  function ReviewPatch(w: SavedWord, known: bool, now: int): (p: WordPatch)
    ensures p.stage == Some(NewStage(w.stage, known))
    ensures p.nextReview.Some? && p.nextReview.value == now + ReviewIntervals[NewStage(w.stage, known)] * DayMs
    ensures p.word.None? && p.sessionId.None? && p.addedAt.None?
    ensures p.definition.None? && p.translation.None? && p.phonetic.None?
  {
    var stage := NewStage(w.stage, known);
    WordPatch(None, None, None, Some(now + ReviewIntervals[stage] * DayMs), Some(stage), None, None, None)
  }

  /** One review answer applied to the word itself. */
  function Review(w: SavedWord, known: bool, now: int): SavedWord
  {
    MergeWord(w, ReviewPatch(w, known, now))
  }

  /** The intervals grow with the stage, so a known answer never brings the
      next review closer and a forgotten one makes the word due at once. */
  lemma ReviewSchedule(w: SavedWord, now: int)
    ensures Review(w, false, now).stage == 0 && Review(w, false, now).nextReview == now
    ensures Review(w, true, now).nextReview >= now + DayMs
    ensures w.stage <= MaxStage ==> Review(w, true, now).nextReview >= now + ReviewIntervals[w.stage] * DayMs
    ensures Review(w, true, now).stage <= MaxStage
    ensures Review(w, true, now).word == w.word && Review(w, true, now).sessionId == w.sessionId
    ensures Review(w, true, now).definition == w.definition && Review(w, true, now).addedAt == w.addedAt
  {
    IntervalsGrow();
  }

  lemma IntervalsGrow()
    ensures forall i, j :: 0 <= i <= j < |ReviewIntervals| ==> ReviewIntervals[i] <= ReviewIntervals[j]
  {
  }

  /** From a fresh word, five known answers reach stage 5, due fifteen days
      later; forgetting it then sends it back to stage 0, due at once. */
  lemma ReviewWorkedExample(w: SavedWord, t1: int, t2: int, t3: int, t4: int, t5: int, t6: int)
    requires w.stage == 0
    ensures var w5 := Review(Review(Review(Review(Review(w, true, t1), true, t2), true, t3), true, t4), true, t5);
            w5.stage == 5 && w5.nextReview == t5 + 15 * 86_400_000
            && Review(w5, false, t6).stage == 0 && Review(w5, false, t6).nextReview == t6
  {
  }

  /** Sending a review's patch through `updateWord` changes only the stage and
      the due date of the entries spelled like the reviewed word, and leaves
      every other entry alone. */
  lemma ReviewUpdateTouchesOnlySchedule(ws: seq<SavedWord>, w: SavedWord, known: bool, now: int)
    ensures var r := UpdateWord(ws, w.word, ReviewPatch(w, known, now));
            |r| == |ws|
            && (forall i :: 0 <= i < |ws| && Key(ws[i]) == Key(w) ==>
                  r[i] == ws[i].(stage := NewStage(w.stage, known),
                                 nextReview := now + ReviewIntervals[NewStage(w.stage, known)] * DayMs))
            && (forall i :: 0 <= i < |ws| && Key(ws[i]) != Key(w) ==> r[i] == ws[i])
  {
  }

  // ---------------------------------------------------------------------
  // Due words

  /** `savedWords.filter(w => w.nextReview <= now)`. */
  function DueWords(ws: seq<SavedWord>, now: int): (r: seq<SavedWord>)
    ensures forall w :: w in r <==> w in ws && w.nextReview <= now
    ensures Subseq(r, ws)
    ensures |r| <= |ws|
  {
    if ws == [] then []
    else if ws[0].nextReview <= now then [ws[0]] + DueWords(ws[1..], now)
    else DueWords(ws[1..], now)
  }

  /** Every copy of a due word is kept, and none of a word not yet due. */
  lemma {:induction false} DueWordsCounts(ws: seq<SavedWord>, now: int)
    ensures forall w :: multiset(DueWords(ws, now))[w] == if w.nextReview <= now then multiset(ws)[w] else 0
  {
    if ws != [] {
      DueWordsCounts(ws[1..], now);
      assert ws == [ws[0]] + ws[1..];
    }
  }

  /** A word that is due stays due as time goes on. */
  lemma DueWordsGrowWithTime(ws: seq<SavedWord>, now: int, later: int, w: SavedWord)
    requires now <= later
    ensures w in DueWords(ws, now) ==> w in DueWords(ws, later)
  {
  }

  // ---------------------------------------------------------------------
  // The review pass

  /** The three pieces of component state the pass uses. */
  datatype PassState = PassState(testMode: bool, testIdx: nat, showAnswer: bool)

  /** The index and mode change of one answer against a due list of `dueCount`
      words: move to the next word and hide its answer, or on the last word
      leave test mode and rewind. */
  function AfterAnswer(st: PassState, dueCount: nat): (r: PassState)
    ensures st.testIdx + 1 < dueCount ==> r == PassState(st.testMode, st.testIdx + 1, false)
    ensures st.testIdx + 1 >= dueCount ==> r == PassState(false, 0, st.showAnswer)
  {
    if st.testIdx < dueCount - 1 then st.(testIdx := st.testIdx + 1, showAnswer := false)
    else st.(testMode := false, testIdx := 0)
  }

  /** The state after `n` answers. */
  function AfterAnswers(st: PassState, dueCount: nat, n: nat): PassState
  {
    if n == 0 then st else AfterAnswer(AfterAnswers(st, dueCount, n - 1), dueCount)
  }

  /** A pass started on `dueCount` words shows them in order: after `k`
      answers it is on word `k`, and the answer to the last word ends it
      with the index back at 0. */
  lemma {:induction false} PassVisitsEveryWord(dueCount: nat, showAnswer: bool, k: nat)
    requires 0 < dueCount && k <= dueCount
    ensures var st := AfterAnswers(PassState(true, 0, showAnswer), dueCount, k);
            (0 < k < dueCount ==> st == PassState(true, k, false))
            && (k == dueCount ==> !st.testMode && st.testIdx == 0)
  {
    if k > 0 {
      PassVisitsEveryWord(dueCount, showAnswer, k - 1);
    }
  }

  /** The pass as the component holds it. */
  class ReviewPass {
    var testMode: bool
    var testIdx: nat
    var showAnswer: bool

    function State(): PassState
      reads this
    {
      PassState(testMode, testIdx, showAnswer)
    }

    constructor ()
      ensures State() == PassState(false, 0, false)
    {
      testMode := false;
      testIdx := 0;
      showAnswer := false;
    }

    /** The start button: enters test mode only when some word is due. */
    method Start(dueCount: nat)
      modifies this
      ensures dueCount > 0 ==> State() == old(State()).(testMode := true)
      ensures dueCount == 0 ==> State() == old(State())
    {
      if dueCount > 0 {
        testMode := true;
      }
    }

    /** The reveal button. */
    method Reveal()
      modifies this
      ensures State() == old(State()).(showAnswer := true)
    {
      showAnswer := true;
    }

    /** The close button: leaves test mode where it stands. */
    method Close()
      modifies this
      ensures State() == old(State()).(testMode := false)
    {
      testMode := false;
    }

    /** `handleReviewAction`: the reviewed word and the update sent for it,
        and the pass moved on by one answer. */
    method Answer(due: seq<SavedWord>, known: bool, now: int) returns (word: string, patch: WordPatch)
      requires testIdx < |due|
      modifies this
      ensures word == due[old(testIdx)].word
      ensures patch == ReviewPatch(due[old(testIdx)], known, now)
      ensures State() == AfterAnswer(old(State()), |due|)
    {
      var w := due[testIdx];
      var newStage := if known then (if w.stage + 1 < |ReviewIntervals| - 1 then w.stage + 1 else |ReviewIntervals| - 1) else 0;
      var nextInterval := ReviewIntervals[newStage] * 24 * 60 * 60 * 1000;
      word := w.word;
      patch := WordPatch(None, None, None, Some(now + nextInterval), Some(newStage), None, None, None);
      if testIdx < |due| - 1 {
        testIdx := testIdx + 1;
        showAnswer := false;
      } else {
        testMode := false;
        testIdx := 0;
      }
    }
  }

  // ---------------------------------------------------------------------
  // Folders

  /** The saved words of one session, in their saved order. */
  function WordsIn(ws: seq<SavedWord>, sessionId: string): (r: seq<SavedWord>)
    ensures forall k :: 0 <= k < |r| ==> r[k].sessionId == sessionId
  {
    if ws == [] then []
    else WordsIn(ws[..|ws| - 1], sessionId) + (if ws[|ws| - 1].sessionId == sessionId then [ws[|ws| - 1]] else [])
  }

  /** A folder holds every copy of each of its session's saved words. */
  lemma {:induction false} WordsInCounts(ws: seq<SavedWord>, sessionId: string)
    ensures forall w :: multiset(WordsIn(ws, sessionId))[w] == if w.sessionId == sessionId then multiset(ws)[w] else 0
  {
    if ws != [] {
      WordsInCounts(ws[..|ws| - 1], sessionId);
      assert ws == ws[..|ws| - 1] + [ws[|ws| - 1]];
    }
  }

  /** A folder holds exactly the saved words of its session. */
  lemma {:induction false} WordsInMembers(ws: seq<SavedWord>, sessionId: string)
    ensures forall w :: w in WordsIn(ws, sessionId) <==> w in ws && w.sessionId == sessionId
  {
    if ws != [] {
      var n := |ws| - 1;
      WordsInMembers(ws[..n], sessionId);
      assert ws == ws[..n] + [ws[n]];
    }
  }

  /** The words of a folder keep their relative order: they are a
      subsequence of the saved list. */
  lemma {:induction false} WordsInIsSubseq(ws: seq<SavedWord>, sessionId: string)
    ensures Subseq(WordsIn(ws, sessionId), ws)
  {
    if ws != [] {
      var n := |ws| - 1;
      WordsInIsSubseq(ws[..n], sessionId);
      SubseqSnoc(WordsIn(ws[..n], sessionId), ws[..n], ws[n], ws[n].sessionId == sessionId);
      assert ws[..n] + [ws[n]] == ws;
    }
  }

  lemma {:induction false} SubseqSnoc<T>(a: seq<T>, b: seq<T>, x: T, keep: bool)
    requires Subseq(a, b)
    ensures Subseq(a + (if keep then [x] else []), b + [x])
    decreases |b|
  {
    if a == [] {
      if keep {
        assert (b + [x])[|b|..] == [x];
        SubseqOfTail([x], b + [x], |b|);
        assert a + [x] == [x];
      } else {
        assert a + [] == [];
      }
    } else if b == [] {
      assert false;
    } else if a[0] == b[0] && Subseq(a[1..], b[1..]) {
      SubseqSnoc(a[1..], b[1..], x, keep);
      assert (a + (if keep then [x] else []))[1..] == a[1..] + (if keep then [x] else []);
      assert (b + [x])[1..] == b[1..] + [x];
    } else {
      SubseqSnoc(a, b[1..], x, keep);
      assert (b + [x])[1..] == b[1..] + [x];
    }
  }

  lemma {:induction false} SubseqOfTail<T>(a: seq<T>, b: seq<T>, k: nat)
    requires k <= |b| && a == b[k..]
    ensures Subseq(a, b)
    decreases k
  {
    if k == 0 {
      SubseqRefl(b);
    } else {
      SubseqOfTail(a, b[1..], k - 1);
    }
  }

  lemma {:induction false} SubseqRefl<T>(b: seq<T>)
    ensures Subseq(b, b)
  {
    if b != [] {
      SubseqRefl(b[1..]);
    }
  }

  /** The index of the first saved word of a session, `|ws|` when it has
      none. */
  function FirstIndex(ws: seq<SavedWord>, sessionId: string): (r: nat)
    ensures r <= |ws|
  {
    if ws == [] then 0
    else if ws[0].sessionId == sessionId then 0
    else FirstIndex(ws[1..], sessionId) + 1
  }

  /** `FirstIndex` finds the first word of the session: it belongs to the
      session, and none comes before it. */
  lemma {:induction false} FirstIndexIsFirst(ws: seq<SavedWord>, sessionId: string)
    ensures FirstIndex(ws, sessionId) < |ws| ==> ws[FirstIndex(ws, sessionId)].sessionId == sessionId
    ensures forall k :: 0 <= k < FirstIndex(ws, sessionId) ==> ws[k].sessionId != sessionId
  {
    if ws != [] && ws[0].sessionId != sessionId {
      FirstIndexIsFirst(ws[1..], sessionId);
    }
  }

  lemma FirstIndexAt(ws: seq<SavedWord>, sessionId: string, i: nat)
    requires i < |ws| && ws[i].sessionId == sessionId
    requires forall k :: 0 <= k < i ==> ws[k].sessionId != sessionId
    ensures FirstIndex(ws, sessionId) == i
  {
    FirstIndexIsFirst(ws, sessionId);
  }

  /** `sessions.find(s => s.id === id)`. */
  function FindSession(sessions: seq<AudioSession>, id: string): (r: Option<AudioSession>)
    ensures r.None? <==> forall k :: 0 <= k < |sessions| ==> sessions[k].id != id
    ensures r.Some? ==> r.value in sessions && r.value.id == id
    ensures r.Some? ==> exists k :: 0 <= k < |sessions| && sessions[k] == r.value
                                    && forall j :: 0 <= j < k ==> sessions[j].id != id
  {
    if sessions == [] then None
    else if sessions[0].id == id then Some(sessions[0])
    else
      var r := FindSession(sessions[1..], id);
      assert r.Some? ==> exists k :: 0 <= k < |sessions| && sessions[k] == r.value
                                     && forall j :: 0 <= j < k ==> sessions[j].id != id by {
        if r.Some? {
          var k :| 0 <= k < |sessions[1..]| && sessions[1..][k] == r.value
                   && forall j :: 0 <= j < k ==> sessions[1..][j].id != id;
          assert sessions[k + 1] == r.value;
          forall j | 0 <= j < k + 1 ensures sessions[j].id != id {
            if j > 0 {
              assert sessions[j] == sessions[1..][j - 1];
            }
          }
        }
      }
      r
  }

  /** One folder of the vocabulary screen: the session id it is keyed by,
      the session if the library still has it, and its words. */
  datatype Folder = Folder(id: string, session: Option<AudioSession>, words: seq<SavedWord>)

  /** The dictionary's keys are the listed session ids. */
  ghost predicate KeysListed(order: seq<string>, groups: map<string, seq<SavedWord>>)
  {
    forall id :: id in groups <==> id in order
  }

  /** The listed sessions all have a word among the first `i`, and are listed
      in the order of their first words. */
  ghost predicate ListedByFirstWord(ws: seq<SavedWord>, i: nat, order: seq<string>)
  {
    (forall a :: 0 <= a < |order| ==> FirstIndex(ws, order[a]) < i)
    && (forall a, b :: 0 <= a < b < |order| ==> FirstIndex(ws, order[a]) < FirstIndex(ws, order[b]))
  }

  /** The dictionary holds, for every session among the first `i` saved
      words, that session's words so far, and nothing else. */
  ghost predicate GroupsSoFar(ws: seq<SavedWord>, i: nat, groups: map<string, seq<SavedWord>>)
    requires i <= |ws|
  {
    (forall k :: 0 <= k < i ==> ws[k].sessionId in groups)
    && (forall id :: id in groups ==> groups[id] == WordsIn(ws[..i], id) && groups[id] != [])
  }

  /** The dictionary the `folders` memo fills from `ws`: each word is pushed
      onto its session's bucket, which is created empty when missing. */
  function Groups(ws: seq<SavedWord>): map<string, seq<SavedWord>>
  {
    if ws == [] then map[]
    else
      var g := Groups(ws[..|ws| - 1]);
      var w := ws[|ws| - 1];
      g[w.sessionId := (if w.sessionId in g then g[w.sessionId] else []) + [w]]
  }

  /** The dictionary's key order: a session id is listed when its bucket is
      created. */
  function KeyOrder(ws: seq<SavedWord>): seq<string>
  {
    if ws == [] then []
    else
      var w := ws[|ws| - 1];
      KeyOrder(ws[..|ws| - 1]) + (if w.sessionId in Groups(ws[..|ws| - 1]) then [] else [w.sessionId])
  }

  /** After any prefix of the saved words, the dictionary and its key order
      hold the invariants above. */
  lemma {:induction false} GroupsInvariant(ws: seq<SavedWord>, i: nat)
    requires i <= |ws|
    ensures KeysListed(KeyOrder(ws[..i]), Groups(ws[..i]))
    ensures ListedByFirstWord(ws, i, KeyOrder(ws[..i]))
    ensures GroupsSoFar(ws, i, Groups(ws[..i]))
  {
    if i > 0 {
      GroupsInvariant(ws, i - 1);
      GroupsInvariantStep(ws, i - 1);
    }
  }

  /** One more saved word keeps the invariants. */
  lemma GroupsInvariantStep(ws: seq<SavedWord>, i: nat)
    requires i < |ws|
    requires KeysListed(KeyOrder(ws[..i]), Groups(ws[..i]))
    requires ListedByFirstWord(ws, i, KeyOrder(ws[..i]))
    requires GroupsSoFar(ws, i, Groups(ws[..i]))
    ensures KeysListed(KeyOrder(ws[..i + 1]), Groups(ws[..i + 1]))
    ensures ListedByFirstWord(ws, i + 1, KeyOrder(ws[..i + 1]))
    ensures GroupsSoFar(ws, i + 1, Groups(ws[..i + 1]))
  {
    var order := KeyOrder(ws[..i]);
    var groups := Groups(ws[..i]);
    var w := ws[i];
    assert ws[..i + 1][..i] == ws[..i] && ws[..i + 1][i] == w;
    if w.sessionId in groups {
      var bucket := groups[w.sessionId] + [w];
      assert Groups(ws[..i + 1]) == groups[w.sessionId := bucket];
      assert KeyOrder(ws[..i + 1]) == order by {
        assert order + [] == order;
      }
      GroupsStep(ws, i, groups, groups[w.sessionId]);
      ListedStepSeen(ws, i, order, groups, bucket);
    } else {
      assert Groups(ws[..i + 1]) == groups[w.sessionId := [] + [w]];
      assert KeyOrder(ws[..i + 1]) == order + [w.sessionId];
      GroupsStep(ws, i, groups, []);
      ListedStepNew(ws, i, order, groups, [] + [w]);
    }
  }

  /** The first half of the `folders` memo: one pass over the saved words
      fills a dictionary keyed by session id, remembering the order in which
      the keys were created. */
  method FillGroups(ws: seq<SavedWord>) returns (order: seq<string>, groups: map<string, seq<SavedWord>>)
    ensures order == KeyOrder(ws) && groups == Groups(ws)
  {
    order := [];
    groups := map[];
    for i := 0 to |ws|
      invariant order == KeyOrder(ws[..i]) && groups == Groups(ws[..i])
    {
      var w := ws[i];
      assert ws[..i + 1][..i] == ws[..i];
      var isNew := w.sessionId !in groups;
      var bucket := if isNew then [] else groups[w.sessionId];
      if isNew {
        order := order + [w.sessionId];
      } else {
        assert order + [] == order;
      }
      groups := groups[w.sessionId := bucket + [w]];
    }
    assert ws[..|ws|] == ws;
  }

  /** The `folders` memo: fill the dictionary, then list its entries in the
      order the keys were created, each with its session looked up by id. */
  method Folders(ws: seq<SavedWord>, sessions: seq<AudioSession>) returns (folders: seq<Folder>)
    ensures forall f :: 0 <= f < |folders| ==>
              folders[f].words == WordsIn(ws, folders[f].id) && folders[f].words != []
              && folders[f].session == FindSession(sessions, folders[f].id)
    ensures forall k :: 0 <= k < |ws| ==> exists f :: 0 <= f < |folders| && folders[f].id == ws[k].sessionId
    ensures forall a, b :: 0 <= a < b < |folders| ==> FirstIndex(ws, folders[a].id) < FirstIndex(ws, folders[b].id)
  {
    var order, groups := FillGroups(ws);
    GroupsInvariant(ws, |ws|);
    assert ws[..|ws|] == ws;
    folders := seq(|order|, f requires 0 <= f < |order| && order[f] in groups =>
                 Folder(order[f], FindSession(sessions, order[f]), groups[order[f]]));
    FoldersDone(ws, order, groups, sessions, folders);
  }

  /** Pushing a word onto its session's bucket, created empty when missing,
      keeps the dictionary up to date. */
  lemma GroupsStep(ws: seq<SavedWord>, i: nat, groups: map<string, seq<SavedWord>>, bucket: seq<SavedWord>)
    requires i < |ws| && GroupsSoFar(ws, i, groups)
    requires bucket == if ws[i].sessionId in groups then groups[ws[i].sessionId] else []
    ensures GroupsSoFar(ws, i + 1, groups[ws[i].sessionId := bucket + [ws[i]]])
  {
    var id := ws[i].sessionId;
    var groups' := groups[id := bucket + [ws[i]]];
    assert ws[..i + 1] == ws[..i] + [ws[i]];
    forall id2 | id2 in groups'
      ensures groups'[id2] == WordsIn(ws[..i + 1], id2)
    {
      WordsInSnoc(ws[..i], ws[i], id2);
      if id2 == id && id !in groups {
        NoneIn(ws[..i], id);
        assert bucket + [ws[i]] == [ws[i]];
      }
    }
  }

  /** A word of a session already listed changes neither the keys nor the list. */
  lemma ListedStepSeen(ws: seq<SavedWord>, i: nat, order: seq<string>, groups: map<string, seq<SavedWord>>,
                       bucket: seq<SavedWord>)
    requires i < |ws| && KeysListed(order, groups) && ListedByFirstWord(ws, i, order)
    requires ws[i].sessionId in groups
    ensures KeysListed(order, groups[ws[i].sessionId := bucket])
    ensures ListedByFirstWord(ws, i + 1, order)
  {
  }

  /** The first word of a new session lists it after all the others. */
  lemma ListedStepNew(ws: seq<SavedWord>, i: nat, order: seq<string>, groups: map<string, seq<SavedWord>>,
                      bucket: seq<SavedWord>)
    requires i < |ws| && KeysListed(order, groups) && ListedByFirstWord(ws, i, order) && GroupsSoFar(ws, i, groups)
    requires ws[i].sessionId !in groups
    ensures KeysListed(order + [ws[i].sessionId], groups[ws[i].sessionId := bucket])
    ensures ListedByFirstWord(ws, i + 1, order + [ws[i].sessionId])
  {
    var id := ws[i].sessionId;
    assert forall k :: 0 <= k < i ==> ws[k].sessionId != id;
    FirstIndexAt(ws, id, i);
  }

  lemma WordsInSnoc(ws: seq<SavedWord>, w: SavedWord, sessionId: string)
    ensures WordsIn(ws + [w], sessionId) == WordsIn(ws, sessionId) + (if w.sessionId == sessionId then [w] else [])
  {
    assert (ws + [w])[..|ws|] == ws;
  }

  /** A session none of whose words are among `ws` has no words in them. */
  lemma NoneIn(ws: seq<SavedWord>, sessionId: string)
    requires forall k :: 0 <= k < |ws| ==> ws[k].sessionId != sessionId
    ensures WordsIn(ws, sessionId) == []
  {
    WordsInMembers(ws, sessionId);
  }

  lemma FoldersDone(ws: seq<SavedWord>, order: seq<string>, groups: map<string, seq<SavedWord>>,
                    sessions: seq<AudioSession>, folders: seq<Folder>)
    requires KeysListed(order, groups) && ListedByFirstWord(ws, |ws|, order) && GroupsSoFar(ws, |ws|, groups)
    requires |folders| == |order|
    requires forall f :: 0 <= f < |order| ==>
               order[f] in groups && folders[f] == Folder(order[f], FindSession(sessions, order[f]), groups[order[f]])
    ensures forall f :: 0 <= f < |folders| ==>
              folders[f].words == WordsIn(ws, folders[f].id) && folders[f].words != []
              && folders[f].session == FindSession(sessions, folders[f].id)
    ensures forall k :: 0 <= k < |ws| ==> exists f :: 0 <= f < |folders| && folders[f].id == ws[k].sessionId
    ensures forall a, b :: 0 <= a < b < |folders| ==> FirstIndex(ws, folders[a].id) < FirstIndex(ws, folders[b].id)
  {
    assert ws[..|ws|] == ws;
    forall f | 0 <= f < |folders|
      ensures folders[f].words == WordsIn(ws, folders[f].id) && folders[f].words != []
    {
      assert folders[f].id == order[f];
    }
    forall k | 0 <= k < |ws|
      ensures exists f :: 0 <= f < |folders| && folders[f].id == ws[k].sessionId
    {
      var id := ws[k].sessionId;
      assert id in order;
      var f :| 0 <= f < |order| && order[f] == id;
      assert folders[f].id == id;
    }
    forall a, b | 0 <= a < b < |folders|
      ensures FirstIndex(ws, folders[a].id) < FirstIndex(ws, folders[b].id)
    {
      assert folders[a].id == order[a] && folders[b].id == order[b];
    }
  }

  /** Every saved word is in the folder of its session and in no other. */
  lemma EachWordInOneFolder(ws: seq<SavedWord>, folders: seq<Folder>, k: nat)
    requires forall f :: 0 <= f < |folders| ==> folders[f].words == WordsIn(ws, folders[f].id)
    requires k < |ws|
    ensures forall f :: 0 <= f < |folders| ==> (ws[k] in folders[f].words <==> folders[f].id == ws[k].sessionId)
  {
    forall f | 0 <= f < |folders|
      ensures ws[k] in folders[f].words <==> folders[f].id == ws[k].sessionId
    {
      WordsInMembers(ws, folders[f].id);
    }
  }
}
