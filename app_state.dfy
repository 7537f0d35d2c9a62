/** The application-wide state updaters: the session library (add, update,
    delete) and the saved-word list (toggle a word in or out, update one).
    Each updater maps the previous list to a new one without mutating it;
    `Date.now()` is the parameter `now`. */
module AppState {
  import opened Common
  import opened Entities

  // ---------------------------------------------------------------------
  // Sessions

  /** `Partial<AudioSession>`: a field that is `Some` overrides the session's. */
  datatype SessionPatch = SessionPatch(
    id: Option<string>,
    title: Option<string>,
    subtitle: Option<string>,
    coverUrl: Option<string>,
    segments: Option<seq<Segment>>,
    duration: Option<real>,
    lastPlayed: Option<string>,
    status: Option<string>)

  function Pick<T>(o: Option<T>, otherwise: T): T
  {
    if o.Some? then o.value else otherwise
  }

  /** `{ ...s, ...updates }`. */
  function MergeSession(s: AudioSession, p: SessionPatch): (r: AudioSession)
    ensures p.id.Some? ==> r.id == p.id.value
    ensures p.id.None? ==> r.id == s.id
    ensures p.title.Some? ==> r.title == p.title.value
    ensures p.title.None? ==> r.title == s.title
    ensures p.subtitle.Some? ==> r.subtitle == p.subtitle.value
    ensures p.subtitle.None? ==> r.subtitle == s.subtitle
    ensures p.coverUrl.Some? ==> r.coverUrl == p.coverUrl.value
    ensures p.coverUrl.None? ==> r.coverUrl == s.coverUrl
    ensures p.segments.Some? ==> r.segments == p.segments.value
    ensures p.segments.None? ==> r.segments == s.segments
    ensures p.duration.Some? ==> r.duration == p.duration.value
    ensures p.duration.None? ==> r.duration == s.duration
    ensures p.lastPlayed.Some? ==> r.lastPlayed == p.lastPlayed.value
    ensures p.lastPlayed.None? ==> r.lastPlayed == s.lastPlayed
    ensures p.status.Some? ==> r.status == p.status.value
    ensures p.status.None? ==> r.status == s.status
  {
    AudioSession(Pick(p.id, s.id), Pick(p.title, s.title), Pick(p.subtitle, s.subtitle),
                 Pick(p.coverUrl, s.coverUrl), Pick(p.segments, s.segments), Pick(p.duration, s.duration),
                 Pick(p.lastPlayed, s.lastPlayed), Pick(p.status, s.status))
  }

  /** The empty patch. */
  const NoSessionChange := SessionPatch(None, None, None, None, None, None, None, None)

  /** `addSession`: the new session goes first. */
  function AddSession(prev: seq<AudioSession>, s: AudioSession): (r: seq<AudioSession>)
    ensures |r| == |prev| + 1 && r[0] == s && r[1..] == prev
  {
    [s] + prev
  }

  /** `updateSession`: every session with the id gets the patch merged in. */
  function UpdateSession(prev: seq<AudioSession>, id: string, p: SessionPatch): (r: seq<AudioSession>)
    ensures |r| == |prev|
    ensures forall i :: 0 <= i < |prev| ==> r[i] == (if prev[i].id == id then MergeSession(prev[i], p) else prev[i])
  {
    seq(|prev|, i requires 0 <= i < |prev| => if prev[i].id == id then MergeSession(prev[i], p) else prev[i])
  }

  /** `deleteSession`: `prev.filter(s => s.id !== id)`. */
  function DeleteSession(prev: seq<AudioSession>, id: string): (r: seq<AudioSession>)
    ensures |r| <= |prev|
    ensures forall i :: 0 <= i < |r| ==> r[i].id != id
    ensures forall s :: s in r <==> s in prev && s.id != id
    ensures Subseq(r, prev)
    ensures (forall i :: 0 <= i < |prev| ==> prev[i].id != id) ==> r == prev
  {
    if prev == [] then []
    else if prev[0].id == id then DeleteSession(prev[1..], id)
    else [prev[0]] + DeleteSession(prev[1..], id)
  }

  /** The filter keeps every copy of a session without the id, as many
      times as the library holds it, and no copy of one with the id. */
  lemma {:induction false} DeleteSessionCounts(prev: seq<AudioSession>, id: string)
    ensures forall s :: multiset(DeleteSession(prev, id))[s] == if s.id != id then multiset(prev)[s] else 0
  {
    if prev != [] {
      DeleteSessionCounts(prev[1..], id);
      assert prev == [prev[0]] + prev[1..];
    }
  }

  /** Deleting a session just added, whose id nothing else in the library
      had, gives the library back. */
  lemma AddThenDelete(prev: seq<AudioSession>, s: AudioSession)
    requires forall i :: 0 <= i < |prev| ==> prev[i].id != s.id
    ensures DeleteSession(AddSession(prev, s), s.id) == prev
  {
    assert AddSession(prev, s)[1..] == prev;
  }

  /** Merging a patch that leaves the id alone keeps the ids of the library,
      so the session stays reachable under its id; an empty patch changes
      nothing; an id nobody has changes nothing. */
  lemma UpdateSessionKeepsIds(prev: seq<AudioSession>, id: string, p: SessionPatch)
    ensures p.id.None? ==> forall i :: 0 <= i < |prev| ==> UpdateSession(prev, id, p)[i].id == prev[i].id
    ensures UpdateSession(prev, id, NoSessionChange) == prev
    ensures (forall i :: 0 <= i < |prev| ==> prev[i].id != id) ==> UpdateSession(prev, id, p) == prev
  {
    var r := UpdateSession(prev, id, NoSessionChange);
    assert forall i :: 0 <= i < |prev| ==> r[i] == prev[i];
  }

  // ---------------------------------------------------------------------
  // Saved words

  /** The fields a dictionary lookup supplies to a newly saved word (`def`);
      `None` when no lookup result is passed. */
  datatype Definition = Definition(definition: Option<string>, translation: Option<string>, phonetic: Option<string>)

  /** `prev.some(w => w.word.toLowerCase() === lower)`. */
  predicate HasKey(ws: seq<SavedWord>, lower: string)
  {
    exists i :: 0 <= i < |ws| && Key(ws[i]) == lower
  }

  /** No two saved words share a lower-cased form. */
  predicate KeysUnique(ws: seq<SavedWord>)
  {
    forall i, j :: 0 <= i < j < |ws| ==> Key(ws[i]) != Key(ws[j])
  }

  /** `prev.filter(w => w.word.toLowerCase() !== lower)`. */
  function RemoveKey(ws: seq<SavedWord>, lower: string): (r: seq<SavedWord>)
    ensures |r| <= |ws|
    ensures forall i :: 0 <= i < |r| ==> Key(r[i]) != lower
    ensures forall w :: w in r <==> w in ws && Key(w) != lower
    ensures Subseq(r, ws)
    ensures !HasKey(ws, lower) ==> r == ws
    ensures HasKey(ws, lower) ==> |r| < |ws|
  {
    if ws == [] then []
    else if Key(ws[0]) == lower then RemoveKey(ws[1..], lower)
    else
      assert !HasKey(ws, lower) ==> !HasKey(ws[1..], lower) by {
        if HasKey(ws[1..], lower) {
          var i :| 0 <= i < |ws[1..]| && Key(ws[1..][i]) == lower;
          assert Key(ws[i + 1]) == lower;
        }
      }
      assert HasKey(ws, lower) ==> HasKey(ws[1..], lower) by {
        if HasKey(ws, lower) {
          var i :| 0 <= i < |ws| && Key(ws[i]) == lower;
          assert ws[1..][i - 1] == ws[i];
        }
      }
      [ws[0]] + RemoveKey(ws[1..], lower)
  }

  /** Every copy of an entry with another key is kept, and none with the key. */
  lemma {:induction false} RemoveKeyCounts(ws: seq<SavedWord>, lower: string)
    ensures forall w :: multiset(RemoveKey(ws, lower))[w] == if Key(w) != lower then multiset(ws)[w] else 0
  {
    if ws != [] {
      RemoveKeyCounts(ws[1..], lower);
      assert ws == [ws[0]] + ws[1..];
    }
  }

  lemma {:induction false} RemoveKeyAppend(a: seq<SavedWord>, b: seq<SavedWord>, lower: string)
    ensures RemoveKey(a + b, lower) == RemoveKey(a, lower) + RemoveKey(b, lower)
  {
    if a != [] {
      assert (a + b)[1..] == a[1..] + b;
      RemoveKeyAppend(a[1..], b, lower);
    } else {
      assert a + b == b;
    }
  }

  lemma {:induction false} RemoveKeyKeepsUnique(ws: seq<SavedWord>, lower: string)
    requires KeysUnique(ws)
    ensures KeysUnique(RemoveKey(ws, lower))
  {
    if ws != [] {
      RemoveKeyKeepsUnique(ws[1..], lower);
      var rest := RemoveKey(ws[1..], lower);
      if Key(ws[0]) == lower {
        assert RemoveKey(ws, lower) == rest;
      } else {
        var r := [ws[0]] + rest;
        assert RemoveKey(ws, lower) == r;
        forall i, j | 0 <= i < j < |r|
          ensures Key(r[i]) != Key(r[j])
        {
          assert r[j] == rest[j - 1];
          if i == 0 {
            assert rest[j - 1] in ws[1..];
            var k :| 0 <= k < |ws[1..]| && ws[1..][k] == rest[j - 1];
            assert ws[k + 1] == rest[j - 1];
          } else {
            assert r[i] == rest[i - 1];
          }
        }
      }
    }
  }

  /** The entry a toggle appends. */
  function NewWord(word: string, sessionId: string, def: Option<Definition>, now: int): SavedWord
  {
    SavedWord(word, sessionId, now, now + DayMs, 0,
              if def.Some? then def.value.definition else None,
              if def.Some? then def.value.translation else None,
              if def.Some? then def.value.phonetic else None)
  }

  /** `toggleWord`: remove every entry with the word's lower-cased form if
      there is one, otherwise append a fresh entry due tomorrow. */
  function ToggleWord(prev: seq<SavedWord>, word: string, sessionId: string, def: Option<Definition>, now: int)
    : (r: seq<SavedWord>)
    ensures HasKey(prev, Lower(word)) ==> r == RemoveKey(prev, Lower(word))
    ensures HasKey(prev, Lower(word)) ==> !HasKey(r, Lower(word)) && Subseq(r, prev) && |r| < |prev|
    ensures HasKey(prev, Lower(word)) ==> forall w :: w in r <==> w in prev && Key(w) != Lower(word)
    ensures !HasKey(prev, Lower(word)) ==> |r| == |prev| + 1 && r[..|prev|] == prev && HasKey(r, Lower(word))
  {
    var lower := Lower(word);
    if HasKey(prev, lower) then RemoveKey(prev, lower)
    else
      var r := prev + [NewWord(word, sessionId, def, now)];
      assert Key(r[|prev|]) == lower;
      r
  }

  /** The entry a toggle appends keeps the word as typed, belongs to the
      given session, is due one day after it was added, starts at stage 0
      and carries the lookup's fields. */
  lemma ToggleWordAppends(prev: seq<SavedWord>, word: string, sessionId: string, def: Option<Definition>, now: int)
    requires !HasKey(prev, Lower(word))
    ensures var w := ToggleWord(prev, word, sessionId, def, now)[|prev|];
            w.word == word && w.sessionId == sessionId && w.addedAt == now
            && w.nextReview == now + 86_400_000 && w.stage == 0
            && (def.Some? ==> w.definition == def.value.definition && w.translation == def.value.translation
                              && w.phonetic == def.value.phonetic)
            && (def.None? ==> w.definition.None? && w.translation.None? && w.phonetic.None?)
  {
  }

  /** A toggle never creates two entries with the same lower-cased word. */
  lemma ToggleWordKeepsKeysUnique(prev: seq<SavedWord>, word: string, sessionId: string, def: Option<Definition>, now: int)
    requires KeysUnique(prev)
    ensures KeysUnique(ToggleWord(prev, word, sessionId, def, now))
  {
    if HasKey(prev, Lower(word)) {
      RemoveKeyKeepsUnique(prev, Lower(word));
    }
  }

  /** Saving a word and then toggling any spelling of it that lower-cases the
      same removes it again and restores the list. */
  lemma ToggleWordTwice(prev: seq<SavedWord>, word: string, word': string, sessionId: string, sessionId': string,
                        def: Option<Definition>, def': Option<Definition>, now: int, now': int)
    requires !HasKey(prev, Lower(word))
    requires Lower(word') == Lower(word)
    ensures ToggleWord(ToggleWord(prev, word, sessionId, def, now), word', sessionId', def', now') == prev
  {
    var nw := NewWord(word, sessionId, def, now);
    var once := ToggleWord(prev, word, sessionId, def, now);
    assert once == prev + [nw];
    assert Key(nw) == Lower(word);
    assert HasKey(once, Lower(word')) by {
      assert Key(once[|prev|]) == Lower(word');
    }
    RemoveKeyAppend(prev, [nw], Lower(word));
    assert RemoveKey([nw], Lower(word)) == [];
    assert prev + [] == prev;
  }

  /** `Partial<SavedWord>`: a field that is `Some` overrides the word's. */
  datatype WordPatch = WordPatch(
    word: Option<string>,
    sessionId: Option<string>,
    addedAt: Option<int>,
    nextReview: Option<int>,
    stage: Option<nat>,
    definition: Option<string>,
    translation: Option<string>,
    phonetic: Option<string>)

  /** `{ ...w, ...updates }`. */
  function MergeWord(w: SavedWord, p: WordPatch): (r: SavedWord)
    ensures p.word.Some? ==> r.word == p.word.value
    ensures p.word.None? ==> r.word == w.word
    ensures p.sessionId.Some? ==> r.sessionId == p.sessionId.value
    ensures p.sessionId.None? ==> r.sessionId == w.sessionId
    ensures p.addedAt.Some? ==> r.addedAt == p.addedAt.value
    ensures p.addedAt.None? ==> r.addedAt == w.addedAt
    ensures p.nextReview.Some? ==> r.nextReview == p.nextReview.value
    ensures p.nextReview.None? ==> r.nextReview == w.nextReview
    ensures p.stage.Some? ==> r.stage == p.stage.value
    ensures p.stage.None? ==> r.stage == w.stage
    ensures p.definition.Some? ==> r.definition == p.definition
    ensures p.definition.None? ==> r.definition == w.definition
    ensures p.translation.Some? ==> r.translation == p.translation
    ensures p.translation.None? ==> r.translation == w.translation
    ensures p.phonetic.Some? ==> r.phonetic == p.phonetic
    ensures p.phonetic.None? ==> r.phonetic == w.phonetic
  {
    SavedWord(Pick(p.word, w.word), Pick(p.sessionId, w.sessionId), Pick(p.addedAt, w.addedAt),
              Pick(p.nextReview, w.nextReview), Pick(p.stage, w.stage),
              if p.definition.Some? then p.definition else w.definition,
              if p.translation.Some? then p.translation else w.translation,
              if p.phonetic.Some? then p.phonetic else w.phonetic)
  }

  /** `updateWord`: every entry whose lower-cased word matches gets the patch. */
  function UpdateWord(prev: seq<SavedWord>, word: string, p: WordPatch): (r: seq<SavedWord>)
    ensures |r| == |prev|
    ensures forall i :: 0 <= i < |prev| ==> r[i] == (if Key(prev[i]) == Lower(word) then MergeWord(prev[i], p) else prev[i])
  {
    seq(|prev|, i requires 0 <= i < |prev| => if Key(prev[i]) == Lower(word) then MergeWord(prev[i], p) else prev[i])
  }

  /** A patch that leaves the word alone keeps every entry's key, so the
      entry can still be found and the keys stay unique; entries that do not
      match are untouched. */
  lemma UpdateWordKeepsKeys(prev: seq<SavedWord>, word: string, p: WordPatch)
    requires p.word.None?
    ensures forall i :: 0 <= i < |prev| ==> Key(UpdateWord(prev, word, p)[i]) == Key(prev[i])
    ensures KeysUnique(prev) ==> KeysUnique(UpdateWord(prev, word, p))
    ensures forall i :: 0 <= i < |prev| && Key(prev[i]) != Lower(word) ==> UpdateWord(prev, word, p)[i] == prev[i]
  {
  }
}
