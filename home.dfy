/** The library search on the home screen: a session is listed when its
    title or subtitle contains the query, ignoring letter case. */
module Home {
  import opened Common
  import opened Entities

  /** The filter's test for one session. */
  predicate Matches(s: AudioSession, query: string)
  {
    Contains(Lower(s.title), Lower(query)) || Contains(Lower(s.subtitle), Lower(query))
  }

  /** `filteredSessions`. */
  function FilterSessions(sessions: seq<AudioSession>, query: string): (r: seq<AudioSession>)
    ensures forall s :: s in r <==> s in sessions && Matches(s, query)
    ensures Subseq(r, sessions)
    ensures |r| <= |sessions|
  {
    if sessions == [] then []
    else if Matches(sessions[0], query) then [sessions[0]] + FilterSessions(sessions[1..], query)
    else FilterSessions(sessions[1..], query)
  }

  /** Every copy of a matching session is listed, and none of another. */
  lemma {:induction false} FilterSessionsCounts(sessions: seq<AudioSession>, query: string)
    ensures forall s :: multiset(FilterSessions(sessions, query))[s] == if Matches(s, query) then multiset(sessions)[s] else 0
  {
    if sessions != [] {
      FilterSessionsCounts(sessions[1..], query);
      assert sessions == [sessions[0]] + sessions[1..];
    }
  }

  /** The empty string is contained in every string. */
  lemma ContainsEmpty(hay: string)
    ensures Contains(hay, "")
  {
  }

  /** An empty search box lists the whole library, in order. */
  lemma {:induction false} EmptyQueryKeepsAll(sessions: seq<AudioSession>)
    ensures FilterSessions(sessions, "") == sessions
  {
    if sessions != [] {
      ContainsEmpty(Lower(sessions[0].title));
      EmptyQueryKeepsAll(sessions[1..]);
    }
  }

  /** The letter case of the query does not matter. */
  lemma QueryCaseIgnored(sessions: seq<AudioSession>, query: string)
    ensures FilterSessions(sessions, Lower(query)) == FilterSessions(sessions, query)
  {
    LowerIdempotent(query);
  }

  /** Every string that contains `a + b` contains `a`. */
  lemma {:induction false} ContainsPrefix(hay: string, a: string, b: string)
    requires Contains(hay, a + b)
    ensures Contains(hay, a)
    decreases |hay|
  {
    if a + b <= hay {
      assert a <= hay by {
        assert forall k :: 0 <= k < |a| ==> a[k] == (a + b)[k];
      }
    } else {
      ContainsPrefix(hay[1..], a, b);
    }
  }

  lemma {:induction false} LowerAppend(a: string, b: string)
    ensures Lower(a + b) == Lower(a) + Lower(b)
  {
  }

  /** Typing more characters into the search box can only narrow the list. */
  lemma LongerQueryNarrows(sessions: seq<AudioSession>, query: string, more: string)
    ensures forall s :: s in FilterSessions(sessions, query + more) ==> s in FilterSessions(sessions, query)
  {
    LowerAppend(query, more);
    forall s | s in FilterSessions(sessions, query + more)
      ensures s in FilterSessions(sessions, query)
    {
      if Contains(Lower(s.title), Lower(query + more)) {
        ContainsPrefix(Lower(s.title), Lower(query), Lower(more));
      } else {
        ContainsPrefix(Lower(s.subtitle), Lower(query), Lower(more));
      }
    }
  }
}
