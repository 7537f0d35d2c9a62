/** The navigation logic of the player screen: dialogue blocks, the active
    segment for a playback time, the handler of the audio element's `ended`
    event and the single-loop seek, the playback-mode and speed cycles, the per-token time spans used for
    karaoke highlighting, word cleaning, and the one-segment text edit. */
module Player {
  import opened Common
  import opened Entities
  import opened AppState

  /** The seconds added to the playback time while playing before looking up
      the active segment. */
  const LatencyCompensation: real := 0.05

  // ---------------------------------------------------------------------
  // Dialogue blocks

  /** A run of consecutive segments by one speaker; `startIdx` is the index of
      its first segment in the whole transcript. */
  datatype Block = Block(speaker: int, segments: seq<Segment>, startIdx: nat)

  /** `typeof seg.speaker === 'number' ? seg.speaker : 1`. */
  function SpeakerId(seg: Segment): int
  {
    if seg.speaker.Some? then seg.speaker.value else 1
  }

  /** The blocks' segments, one block after another. */
  function Flatten(blocks: seq<Block>): seq<Segment>
  {
    if blocks == [] then [] else Flatten(blocks[..|blocks| - 1]) + blocks[|blocks| - 1].segments
  }

  lemma {:induction false} FlattenAppend(xs: seq<Block>, ys: seq<Block>)
    ensures Flatten(xs + ys) == Flatten(xs) + Flatten(ys)
    decreases |ys|
  {
    if ys == [] {
      assert xs + ys == xs;
    } else {
      var n := |ys| - 1;
      assert (xs + ys)[..|xs + ys| - 1] == xs + ys[..n];
      FlattenAppend(xs, ys[..n]);
    }
  }

  /** The index one past the last segment of the last block, 0 when there
      are no blocks. */
  function EndIdx(blocks: seq<Block>): nat
  {
    if blocks == [] then 0 else blocks[|blocks| - 1].startIdx + |blocks[|blocks| - 1].segments|
  }

  /** A block holds at least one segment, and all of its segments have the
      block's speaker. */
  predicate UniformBlock(block: Block)
  {
    block.segments != []
    && forall s :: 0 <= s < |block.segments| ==> SpeakerId(block.segments[s]) == block.speaker
  }

  /** The first block starts at index 0 and each next one where the previous
      one ends. */
  predicate Contiguous(blocks: seq<Block>)
  {
    (blocks != [] ==> blocks[0].startIdx == 0)
    && forall b :: 0 < b < |blocks| ==> blocks[b].startIdx == blocks[b - 1].startIdx + |blocks[b - 1].segments|
  }

  /** `blocks` groups `segs` the way the player shows them: read in order the
      blocks give back `segs`; every block is uniform; the blocks are
      contiguous; neighbouring blocks have different speakers. */
  ghost predicate Grouped(segs: seq<Segment>, blocks: seq<Block>)
  {
    Flatten(blocks) == segs
    && EndIdx(blocks) == |segs|
    && (forall b :: 0 <= b < |blocks| ==> UniformBlock(blocks[b]))
    && Contiguous(blocks)
    && (forall b :: 0 < b < |blocks| ==> blocks[b - 1].speaker != blocks[b].speaker)
  }

  /** The `dialogueBlocks` memo: one pass over the segments, growing the last
      block in place while the speaker stays the same. */
  method GroupDialogue(segs: seq<Segment>) returns (blocks: seq<Block>)
    ensures Grouped(segs, blocks)
  {
    blocks := [];
    for idx := 0 to |segs|
      invariant Grouped(segs[..idx], blocks)
    {
      var seg := segs[idx];
      var speakerId := SpeakerId(seg);
      assert segs[..idx + 1] == segs[..idx] + [seg];
      if blocks != [] && blocks[|blocks| - 1].speaker == speakerId {
        GroupedGrow(segs[..idx], blocks, seg);
        var last := blocks[|blocks| - 1];
        blocks := blocks[..|blocks| - 1] + [last.(segments := last.segments + [seg])];
      } else {
        GroupedOpen(segs[..idx], blocks, seg);
        blocks := blocks + [Block(speakerId, [seg], idx)];
      }
    }
    assert segs[..|segs|] == segs;
  }

  /** Appending a segment of the last block's speaker to that block keeps the
      grouping. */
  lemma GroupedGrow(prefix: seq<Segment>, blocks: seq<Block>, seg: Segment)
    requires Grouped(prefix, blocks)
    requires blocks != [] && blocks[|blocks| - 1].speaker == SpeakerId(seg)
    ensures var last := blocks[|blocks| - 1];
            Grouped(prefix + [seg], blocks[..|blocks| - 1] + [last.(segments := last.segments + [seg])])
  {
    var n := |blocks| - 1;
    var last := blocks[n];
    var grown := last.(segments := last.segments + [seg]);
    var blocks' := blocks[..n] + [grown];
    assert blocks'[..n] == blocks[..n];
    assert forall b :: 0 <= b < n ==> blocks'[b] == blocks[b];
  }

  /** Opening a new block for a segment whose speaker differs from the last
      block's keeps the grouping. */
  lemma GroupedOpen(prefix: seq<Segment>, blocks: seq<Block>, seg: Segment)
    requires Grouped(prefix, blocks)
    requires blocks == [] || blocks[|blocks| - 1].speaker != SpeakerId(seg)
    ensures Grouped(prefix + [seg], blocks + [Block(SpeakerId(seg), [seg], |prefix|)])
  {
    var n := |blocks|;
    var started := Block(SpeakerId(seg), [seg], |prefix|);
    var blocks' := blocks + [started];
    FlattenSnoc(blocks, started);
    ContiguousSnoc(blocks, started);
    assert forall b :: 0 <= b < n ==> blocks'[b] == blocks[b];
    assert UniformBlock(started);
  }

  lemma FlattenSnoc(blocks: seq<Block>, next: Block)
    ensures Flatten(blocks + [next]) == Flatten(blocks) + next.segments
  {
    assert (blocks + [next])[..|blocks|] == blocks;
  }

  /** A block that starts where the last one ends keeps the blocks contiguous. */
  lemma ContiguousSnoc(blocks: seq<Block>, next: Block)
    requires Contiguous(blocks) && next.startIdx == EndIdx(blocks)
    ensures Contiguous(blocks + [next])
  {
    assert forall b :: 0 <= b < |blocks| ==> (blocks + [next])[b] == blocks[b];
  }

  /** The segments of the first `b` blocks are the first `startIdx` segments
      of the transcript. */
  lemma {:induction false} FlattenPrefix(segs: seq<Segment>, blocks: seq<Block>, b: nat)
    requires Grouped(segs, blocks)
    requires b < |blocks|
    ensures |Flatten(blocks[..b])| == blocks[b].startIdx
    ensures |Flatten(blocks[..b + 1])| == blocks[b].startIdx + |blocks[b].segments|
  {
    assert blocks[..b + 1][..b] == blocks[..b];
    if b == 0 {
      assert blocks[..0] == [];
    } else {
      FlattenPrefix(segs, blocks, b - 1);
    }
  }

  /** Segment `s` of block `b` is segment `startIdx + s` of the transcript,
      which is what the edit box and the click handler rely on. */
  lemma {:induction false} BlockIndexing(segs: seq<Segment>, blocks: seq<Block>, b: nat, s: nat)
    requires Grouped(segs, blocks)
    requires b < |blocks| && s < |blocks[b].segments|
    ensures blocks[b].startIdx + s < |segs|
    ensures segs[blocks[b].startIdx + s] == blocks[b].segments[s]
  {
    assert blocks == blocks[..b + 1] + blocks[b + 1..];
    FlattenAppend(blocks[..b + 1], blocks[b + 1..]);
    assert blocks[..b + 1][..b] == blocks[..b];
    FlattenPrefix(segs, blocks, b);
  }

  /** `isBlockActive`: the active index falls inside the block. */
  predicate BlockActive(block: Block, activeIdx: int)
  {
    block.startIdx <= activeIdx < block.startIdx + |block.segments|
  }

  /** For every active index inside the transcript exactly one block is
      highlighted; outside it none is. */
  lemma {:induction false} ExactlyOneBlockActive(segs: seq<Segment>, blocks: seq<Block>, activeIdx: int)
    requires Grouped(segs, blocks)
    ensures 0 <= activeIdx < |segs| ==> exists b :: 0 <= b < |blocks| && BlockActive(blocks[b], activeIdx)
    ensures forall b1, b2 :: (0 <= b1 < |blocks| && 0 <= b2 < |blocks| &&
              BlockActive(blocks[b1], activeIdx) && BlockActive(blocks[b2], activeIdx)) ==> b1 == b2
    ensures !(0 <= activeIdx < |segs|) ==> forall b :: 0 <= b < |blocks| ==> !BlockActive(blocks[b], activeIdx)
  {
    StartsIncrease(blocks);
    if 0 <= activeIdx < |segs| {
      var b := 0;
      while b < |blocks| - 1 && blocks[b + 1].startIdx <= activeIdx
        invariant 0 <= b < |blocks|
        invariant blocks[b].startIdx <= activeIdx
        decreases |blocks| - b
      {
        b := b + 1;
      }
      assert BlockActive(blocks[b], activeIdx);
    }
  }

  /** With contiguous blocks, a later block starts no earlier than an earlier
      one ends. */
  lemma StartsIncrease(blocks: seq<Block>)
    requires forall b :: 0 <= b < |blocks| - 1 ==>
               blocks[b + 1].startIdx == blocks[b].startIdx + |blocks[b].segments|
    ensures forall b1, b2 :: 0 <= b1 < b2 < |blocks| ==>
              blocks[b1].startIdx + |blocks[b1].segments| <= blocks[b2].startIdx
  {
    forall b1, b2 | 0 <= b1 < b2 < |blocks|
      ensures blocks[b1].startIdx + |blocks[b1].segments| <= blocks[b2].startIdx
    {
      var k := b1 + 1;
      while k < b2
        invariant b1 + 1 <= k <= b2
        invariant blocks[b1].startIdx + |blocks[b1].segments| <= blocks[k].startIdx
      {
        k := k + 1;
      }
    }
  }

  // ---------------------------------------------------------------------
  // The active segment

  /** Segment `seg` plays at time `t`. */
  predicate Covers(seg: Segment, t: real)
  {
    seg.startTime <= t < seg.endTime
  }

  /** `findIndex(s => t >= s.startTime && t < s.endTime)` from position `i`. */
  function FindActiveFrom(segs: seq<Segment>, t: real, i: nat): (r: int)
    requires i <= |segs|
    ensures r == -1 || i <= r < |segs|
    ensures r == -1 <==> forall k :: i <= k < |segs| ==> !Covers(segs[k], t)
    ensures r != -1 ==> Covers(segs[r], t) && forall k :: i <= k < r ==> !Covers(segs[k], t)
    decreases |segs| - i
  {
    if i == |segs| then -1
    else if Covers(segs[i], t) then i
    else FindActiveFrom(segs, t, i + 1)
  }

  /** The index of the first segment playing at `t`, or -1 when none is. */
  function FindActive(segs: seq<Segment>, t: real): (r: int)
    ensures r == -1 <==> forall k :: 0 <= k < |segs| ==> !Covers(segs[k], t)
    ensures r != -1 ==> 0 <= r < |segs| && Covers(segs[r], t) && forall k :: 0 <= k < r ==> !Covers(segs[k], t)
  {
    FindActiveFrom(segs, t, 0)
  }

  /** One frame of the sync loop: the new active index for playback time
      `time`. While playing the lookup is done slightly ahead. */
  function SyncActive(segs: seq<Segment>, activeIdx: int, time: real, playing: bool): (r: int)
    ensures var t := time + (if playing then LatencyCompensation else 0.0);
            (exists k :: 0 <= k < |segs| && Covers(segs[k], t)) ==>
              0 <= r < |segs| && Covers(segs[r], t) && forall k :: 0 <= k < r ==> !Covers(segs[k], t)
    ensures var t := time + (if playing then LatencyCompensation else 0.0);
            (forall k :: 0 <= k < |segs| ==> !Covers(segs[k], t)) ==> r == activeIdx
  {
    var idx := FindActive(segs, time + (if playing then LatencyCompensation else 0.0));
    if idx != -1 && idx != activeIdx then idx else activeIdx
  }

  /** In a transcript of segments that do not overlap, the active index is the
      one segment that plays at the adjusted time. */
  lemma SyncActiveDisjoint(segs: seq<Segment>, activeIdx: int, time: real, playing: bool, k: nat)
    requires forall i, j :: 0 <= i < j < |segs| ==> segs[i].endTime <= segs[j].startTime
    requires k < |segs| && Covers(segs[k], time + (if playing then LatencyCompensation else 0.0))
    ensures SyncActive(segs, activeIdx, time, playing) == k
  {
  }

  // ---------------------------------------------------------------------
  // Playback modes and what the end of a segment does

  datatype PlaybackMode = ListLoop | SingleLoop | Shuffle

  /** `togglePlaybackMode`. */
  function NextMode(m: PlaybackMode): (r: PlaybackMode)
    ensures r != m
  {
    match m
    case ListLoop => SingleLoop
    case SingleLoop => Shuffle
    case Shuffle => ListLoop
  }

  /** Pressing the mode button three times comes back to where it started,
      passing through every mode once. */
  lemma ModeCycle(m: PlaybackMode)
    ensures NextMode(NextMode(NextMode(m))) == m
    ensures {m, NextMode(m), NextMode(NextMode(m))} == {ListLoop, SingleLoop, Shuffle}
  {
  }

  /** The transport state the end-of-audio handler and the sync loop touch. */
  datatype Transport = Transport(time: real, activeIdx: int, playing: bool)

  /** `jumpToSegment(idx)` once the audio is ready: seek to the segment's
      start, make it active and play. */
  function JumpTo(segs: seq<Segment>, idx: nat): (r: Transport)
    requires idx < |segs|
    ensures r.activeIdx == idx && r.playing && r.time == segs[idx].startTime
    ensures Covers(segs[idx], r.time) == (segs[idx].startTime < segs[idx].endTime)
  {
    Transport(segs[idx].startTime, idx, true)
  }

  /** `Math.floor(random * n)` for a random number in [0, 1). */
  function ShuffleIndex(n: nat, random: real): (r: int)
    requires 0.0 <= random < 1.0
    ensures n > 0 ==> 0 <= r < n
  {
    ShuffleBound(n, random);
    (random * n as real).Floor
  }

  lemma ShuffleBound(n: nat, random: real)
    requires 0.0 <= random < 1.0
    ensures 0.0 <= random * n as real
    ensures n > 0 ==> random * n as real < n as real
  {
  }

  /** `handleAudioEnded`: what the player does when the audio element fires
      its `ended` event, once playback reaches the end of the file. `random`
      stands for `Math.random()`. `None` is the `TypeError` the handler
      throws when it reads a segment that is not there: the active one in
      single loop, segment 0 of an empty transcript in shuffle, or a
      negative next index in list loop. */
  function OnAudioEnded(mode: PlaybackMode, segs: seq<Segment>, st: Transport, random: real): (r: Option<Transport>)
    requires 0.0 <= random < 1.0
    ensures r.None? <==> (mode == SingleLoop && !(0 <= st.activeIdx < |segs|))
                         || (mode == Shuffle && |segs| == 0)
                         || (mode == ListLoop && st.activeIdx + 1 < 0)
    ensures mode == SingleLoop && 0 <= st.activeIdx < |segs| ==>
              r == Some(Transport(segs[st.activeIdx].startTime, st.activeIdx, true))
    ensures mode == Shuffle && |segs| > 0 ==>
              r.Some? && 0 <= r.value.activeIdx < |segs| && r.value == JumpTo(segs, r.value.activeIdx)
    ensures mode == ListLoop && 0 <= st.activeIdx + 1 < |segs| ==> r == Some(JumpTo(segs, st.activeIdx + 1))
    ensures mode == ListLoop && st.activeIdx + 1 >= |segs| ==> r == Some(st.(playing := false))
  {
    match mode
    case SingleLoop =>
      if 0 <= st.activeIdx < |segs| then Some(st.(time := segs[st.activeIdx].startTime, playing := true))
      else None
    case Shuffle =>
      if |segs| == 0 then None else Some(JumpTo(segs, ShuffleIndex(|segs|, random)))
    case ListLoop =>
      if st.activeIdx < |segs| - 1 then
        (if 0 <= st.activeIdx + 1 then Some(JumpTo(segs, st.activeIdx + 1)) else None)
      else Some(st.(playing := false))
  }

  /** The state after `n` end-of-audio events in list-loop mode; `None` once
      one of them has thrown. */
  function ListLoopAfter(segs: seq<Segment>, st: Transport, n: nat): Option<Transport>
  {
    if n == 0 then Some(st)
    else match ListLoopAfter(segs, st, n - 1)
      case None => None
      case Some(s) => OnAudioEnded(ListLoop, segs, s, 0.0)
  }

  /** In list-loop mode playback walks forward one segment per ended event
      from the active one to the last, and the next event stops it there. */
  lemma {:induction false} ListLoopWalksToEnd(segs: seq<Segment>, st: Transport, n: nat)
    requires 0 <= st.activeIdx < |segs|
    ensures st.activeIdx + n < |segs| ==> n > 0 ==> ListLoopAfter(segs, st, n) == Some(JumpTo(segs, st.activeIdx + n))
    ensures st.activeIdx + n == |segs| ==>
              ListLoopAfter(segs, st, n).Some? && ListLoopAfter(segs, st, n).value.activeIdx == |segs| - 1
              && !ListLoopAfter(segs, st, n).value.playing
  {
    if n > 0 {
      ListLoopWalksToEnd(segs, st, n - 1);
    }
  }

  /** The single-loop check of the sync loop: once playback passes the end of
      the active segment, seek back to its start. `None` is the `TypeError`
      of reading the end of an active segment that is not there, which also
      ends the animation-frame loop. */
  function SingleLoopSeek(mode: PlaybackMode, segs: seq<Segment>, activeIdx: int, time: real): (r: Option<real>)
    ensures r.None? <==> mode == SingleLoop && !(0 <= activeIdx < |segs|)
    ensures mode == SingleLoop && 0 <= activeIdx < |segs| && time >= segs[activeIdx].endTime ==>
              r == Some(segs[activeIdx].startTime)
    ensures mode == SingleLoop && 0 <= activeIdx < |segs| && time < segs[activeIdx].endTime ==> r == Some(time)
    ensures mode != SingleLoop ==> r == Some(time)
  {
    if mode != SingleLoop then Some(time)
    else if !(0 <= activeIdx < |segs|) then None
    else if time >= segs[activeIdx].endTime then Some(segs[activeIdx].startTime)
    else Some(time)
  }

  /** The single-loop check on its own keeps the playback time inside the
      active segment: a time at or beyond its end is sent back to the start.
      The lookup that follows in the same frame can still change the active
      segment (see `SyncFrame`). */
  lemma SingleLoopStaysInSegment(segs: seq<Segment>, activeIdx: int, time: real)
    requires 0 <= activeIdx < |segs|
    requires segs[activeIdx].startTime <= time
    ensures var t := SingleLoopSeek(SingleLoop, segs, activeIdx, time);
            t.Some? && segs[activeIdx].startTime <= t.value
            && (t.value < segs[activeIdx].endTime || t.value == segs[activeIdx].startTime)
  {
  }

  /** What one animation frame of the sync loop leaves behind: the playback
      time after the single-loop check, and the active index. */
  datatype Frame = Frame(time: real, activeIdx: int)

  /** One frame of the sync loop as written: the single-loop check may seek
      back, but the active-segment lookup that follows uses the time read
      before the seek. `None` is the `TypeError` of the check. */
  function SyncFrame(mode: PlaybackMode, segs: seq<Segment>, activeIdx: int, time: real, playing: bool)
    : (r: Option<Frame>)
    ensures r.None? <==> mode == SingleLoop && !(0 <= activeIdx < |segs|)
    ensures r.Some? ==> r.value.activeIdx == SyncActive(segs, activeIdx, time, playing)
  {
    match SingleLoopSeek(mode, segs, activeIdx, time)
    case None => None
    case Some(t) => Some(Frame(t, SyncActive(segs, activeIdx, time, playing)))
  }

  /** Single loop leaves its segment: with back-to-back segments [0, 2) and
      [2, 4), a frame at 1.97 s while playing is short of segment 0's end, so
      the check does not seek, but the lookup 0.05 s ahead finds segment 1. */
  lemma SingleLoopFrameAdvances()
    ensures var segs := [Segment("seg-0", 0.0, 2.0, "a", None, None), Segment("seg-1", 2.0, 4.0, "b", None, None)];
            SyncFrame(SingleLoop, segs, 0, 1.97, true) == Some(Frame(1.97, 1))
  {
    var segs := [Segment("seg-0", 0.0, 2.0, "a", None, None), Segment("seg-1", 2.0, 4.0, "b", None, None)];
    assert !Covers(segs[0], 1.97 + LatencyCompensation) && Covers(segs[1], 1.97 + LatencyCompensation);
  }

  /** The same happens in every transcript whose segments follow one another
      without gaps, as a sliced session's do: in the last 0.05 s of a
      segment, single loop moves on to the next one. */
  lemma SingleLoopFrameAdvancesEarly(segs: seq<Segment>, i: nat, time: real)
    requires forall a, b :: 0 <= a < b < |segs| ==> segs[a].endTime <= segs[b].startTime
    requires i + 1 < |segs| && segs[i + 1].startTime == segs[i].endTime
    requires segs[i].endTime + LatencyCompensation <= segs[i + 1].endTime
    requires segs[i].startTime <= time < segs[i].endTime <= time + LatencyCompensation
    ensures SyncFrame(SingleLoop, segs, i, time, true) == Some(Frame(time, i + 1))
  {
    SyncActiveDisjoint(segs, i, time, true, i + 1);
  }

  /** One frame as single loop evidently intends: the check's seek applies
      and the active segment is kept; the other modes are as written. */
  function SyncFrameLooping(mode: PlaybackMode, segs: seq<Segment>, activeIdx: int, time: real, playing: bool)
    : (r: Option<Frame>)
    ensures r.None? <==> mode == SingleLoop && !(0 <= activeIdx < |segs|)
    ensures mode == SingleLoop && r.Some? ==> r.value.activeIdx == activeIdx
    ensures mode == SingleLoop && r.Some? && segs[activeIdx].startTime <= time ==>
              segs[activeIdx].startTime <= r.value.time
              && (r.value.time < segs[activeIdx].endTime || r.value.time == segs[activeIdx].startTime)
    ensures mode != SingleLoop ==> r == SyncFrame(mode, segs, activeIdx, time, playing)
  {
    if mode == SingleLoop then
      match SingleLoopSeek(mode, segs, activeIdx, time)
      case None => None
      case Some(t) => Some(Frame(t, activeIdx))
    else SyncFrame(mode, segs, activeIdx, time, playing)
  }

  /** The active index after frames at the playback times `times` under the
      corrected frame; `None` once a frame throws. */
  function LoopingRun(mode: PlaybackMode, segs: seq<Segment>, activeIdx: int, times: seq<real>, playing: bool)
    : Option<int>
    decreases |times|
  {
    if times == [] then Some(activeIdx)
    else match SyncFrameLooping(mode, segs, activeIdx, times[0], playing)
      case None => None
      case Some(f) => LoopingRun(mode, segs, f.activeIdx, times[1..], playing)
  }

  /** With the corrected frame, single loop stays on its segment however
      many frames pass. */
  lemma {:induction false} SingleLoopKeepsSegment(segs: seq<Segment>, i: nat, times: seq<real>, playing: bool)
    requires i < |segs|
    ensures LoopingRun(SingleLoop, segs, i, times, playing) == Some(i)
    decreases |times|
  {
    if times != [] {
      SingleLoopKeepsSegment(segs, i, times[1..], playing);
    }
  }

  // ---------------------------------------------------------------------
  // Playback speed

  /** `s >= 2 ? 0.5 : s + 0.25`. */
  function NextSpeed(s: real): (r: real)
    ensures 0.25 <= s ==> 0.5 <= r < 2.25
  {
    if s >= 2.0 then 0.5 else s + 0.25
  }

  /** The speed as a count of quarters: 1.0x is 4, the grid is 2..8. */
  function Quarters(q: int): real
  {
    q as real / 4.0
  }

  /** On the quarter grid the speed button steps to the next quarter and wraps
      from 2.0x to 0.5x; it never leaves the grid. */
  lemma NextSpeedOnGrid(q: int)
    requires 2 <= q <= 8
    ensures NextSpeed(Quarters(q)) == Quarters(if q == 8 then 2 else q + 1)
  {
  }

  /** Seven presses of the speed button come back to the starting speed. */
  lemma {:induction false} SpeedCycle(q: int)
    requires 2 <= q <= 8
    ensures NextSpeed(NextSpeed(NextSpeed(NextSpeed(NextSpeed(NextSpeed(NextSpeed(Quarters(q)))))))) == Quarters(q)
  {
    NextSpeedOnGrid(q);
    NextSpeedOnGrid(if q == 8 then 2 else q + 1);
    var q1 := if q == 8 then 2 else q + 1;
    var q2 := if q1 == 8 then 2 else q1 + 1;
    NextSpeedOnGrid(q2);
    var q3 := if q2 == 8 then 2 else q2 + 1;
    NextSpeedOnGrid(q3);
    var q4 := if q3 == 8 then 2 else q3 + 1;
    NextSpeedOnGrid(q4);
    var q5 := if q4 == 8 then 2 else q4 + 1;
    NextSpeedOnGrid(q5);
    var q6 := if q5 == 8 then 2 else q5 + 1;
    NextSpeedOnGrid(q6);
  }

  // ---------------------------------------------------------------------
  // Splitting the segment text into tokens

  /** The index of the first white-space character of `s` at or after `i`,
      or `|s|`. */
  function SpaceFrom(s: string, i: nat): (r: nat)
    requires i <= |s|
    ensures i <= r <= |s|
    ensures forall k :: i <= k < r ==> !IsSpace(s[k])
    ensures r < |s| ==> IsSpace(s[r])
    decreases |s| - i
  {
    if i == |s| || IsSpace(s[i]) then i else SpaceFrom(s, i + 1)
  }

  /** A token holds no white space. */
  predicate NoSpace(t: string)
  {
    forall k :: 0 <= k < |t| ==> !IsSpace(t[k])
  }

  /** `s.split(/\\s+/)`: the pieces between runs of white space, including an
      empty first (last) piece when `s` starts (ends) with white space. */
  function SplitWs(s: string): (r: seq<string>)
    ensures |r| >= 1
    ensures forall k :: 0 <= k < |r| ==> NoSpace(r[k])
    ensures forall k :: 0 < k < |r| - 1 ==> r[k] != []
    decreases |s|
  {
    var i := SpaceFrom(s, 0);
    if i == |s| then [s]
    else
      var j := SkipSpace(s, i);
      [s[..i]] + SplitWs(s[j..])
  }

  /** The runs of white space `SplitWs` cuts `s` at, in order. */
  function Separators(s: string): (r: seq<string>)
    ensures forall k :: 0 <= k < |r| ==> r[k] != [] && SpaceBetween(r[k], 0, |r[k]|)
    decreases |s|
  {
    var i := SpaceFrom(s, 0);
    if i == |s| then []
    else
      var j := SkipSpace(s, i);
      [s[i..j]] + Separators(s[j..])
  }

  /** `pieces[0] + seps[0] + pieces[1] + ... + pieces[|seps|]`. */
  function Interleave(pieces: seq<string>, seps: seq<string>): string
    requires |pieces| == |seps| + 1
  {
    if seps == [] then pieces[0] else pieces[0] + seps[0] + Interleave(pieces[1..], seps[1..])
  }

  /** The split loses nothing but the white space it cuts at: putting every
      run of white space back between the pieces gives `s` again. With the
      pieces free of white space and every run non-empty, this pins the
      pieces down as the maximal white-space-free stretches of `s`. */
  lemma {:induction false} SplitWsRejoins(s: string)
    ensures |Separators(s)| + 1 == |SplitWs(s)|
    ensures Interleave(SplitWs(s), Separators(s)) == s
    decreases |s|
  {
    var i := SpaceFrom(s, 0);
    if i < |s| {
      var j := SkipSpace(s, i);
      var rest := s[j..];
      SplitWsRejoins(rest);
      InterleaveCons(s[..i], s[i..j], SplitWs(rest), Separators(rest));
      CutThree(s, i, j);
    }
  }

  lemma InterleaveCons(piece: string, sep: string, pieces: seq<string>, seps: seq<string>)
    requires |pieces| == |seps| + 1
    ensures Interleave([piece] + pieces, [sep] + seps) == piece + sep + Interleave(pieces, seps)
  {
    assert ([piece] + pieces)[1..] == pieces;
    assert ([sep] + seps)[1..] == seps;
  }

  lemma CutThree(s: string, i: nat, j: nat)
    requires i <= j <= |s|
    ensures s == s[..i] + s[i..j] + s[j..]
  {
  }

  /** Splitting the space-joined text of non-empty, space-free tokens gives
      the tokens back; so the word timings of a segment the slicer built line
      up with the tokens the player splits its text into. */
  lemma {:induction false} SplitJoin(tokens: seq<string>)
    requires |tokens| >= 1
    requires forall k :: 0 <= k < |tokens| ==> tokens[k] != [] && NoSpace(tokens[k])
    ensures SplitWs(Join(tokens)) == tokens
    decreases |tokens|
  {
    var t := tokens[0];
    if |tokens| == 1 {
      SpaceFreeIsWhole(t);
    } else {
      var rest := Join(tokens[1..]);
      var s := t + " " + rest;
      assert Join(tokens) == s;
      SpaceAfterToken(t, rest);
      assert SpaceFrom(s, 0) == |t|;
      JoinStartsWithToken(tokens[1..]);
      WordAfterSpace(t, rest);
      assert SkipSpace(s, |t|) == |t| + 1;
      assert s[..|t|] == t;
      assert s[|t| + 1..] == rest;
      SplitJoin(tokens[1..]);
    }
  }

  lemma SpaceFreeIsWhole(t: string)
    requires NoSpace(t)
    ensures SplitWs(t) == [t]
  {
    SpaceFreeScan(t, 0);
  }

  lemma {:induction false} SpaceFreeScan(t: string, i: nat)
    requires NoSpace(t) && i <= |t|
    ensures SpaceFrom(t, i) == |t|
    decreases |t| - i
  {
    if i < |t| {
      SpaceFreeScan(t, i + 1);
    }
  }

  lemma {:induction false} SpaceAfterToken(t: string, rest: string)
    requires NoSpace(t)
    ensures SpaceFrom(t + " " + rest, 0) == |t|
  {
    var s := t + " " + rest;
    var i := 0;
    while i < |t|
      invariant 0 <= i <= |t|
      invariant SpaceFrom(s, i) == SpaceFrom(s, 0)
    {
      assert s[i] == t[i];
      i := i + 1;
    }
    assert s[|t|] == ' ';
  }

  lemma JoinStartsWithToken(tokens: seq<string>)
    requires |tokens| >= 1 && tokens[0] != [] && NoSpace(tokens[0])
    ensures Join(tokens) != [] && !IsSpace(Join(tokens)[0])
  {
    if |tokens| > 1 {
      assert Join(tokens) == tokens[0] + " " + Join(tokens[1..]);
      assert Join(tokens)[0] == tokens[0][0];
    }
  }

  lemma WordAfterSpace(t: string, rest: string)
    requires rest != [] && !IsSpace(rest[0])
    ensures SkipSpace(t + " " + rest, |t|) == |t| + 1
  {
    var s := t + " " + rest;
    assert s[|t|] == ' ';
    assert s[|t| + 1] == rest[0];
  }

  // ---------------------------------------------------------------------
  // Token time spans

  datatype Span = Span(start: real, end: real)

  /** The characters the proportional spans charge before token `i`: each
      token's length plus one for the space after it. */
  function CharsBefore(tokens: seq<string>, i: nat): (r: nat)
    requires i <= |tokens|
    ensures r >= i
  {
    if i == 0 then 0 else CharsBefore(tokens, i - 1) + |tokens[i - 1]| + 1
  }

  /** `startTime + (chars / totalChars) * totalDuration`. */
  function TimeAt(startTime: real, chars: nat, totalChars: nat, totalDuration: real): real
    requires totalChars > 0
  {
    startTime + (chars as real / totalChars as real) * totalDuration
  }

  /** `Math.max(0.1, endTime - startTime)`. */
  function TotalDuration(seg: Segment): (d: real)
    ensures d >= 0.1 && d >= seg.endTime - seg.startTime
  {
    if 0.1 >= seg.endTime - seg.startTime then 0.1 else seg.endTime - seg.startTime
  }

  /** `text.length || 1`. */
  function TotalChars(seg: Segment): (n: nat)
    ensures n > 0
  {
    if |seg.text| == 0 then 1 else |seg.text|
  }

  /** `hasWordTimings`: the segment has exactly one timing per token. */
  predicate HasWordTimings(seg: Segment, tokens: seq<string>)
  {
    seg.words.Some? && |seg.words.value| == |tokens|
  }

  /** The proportional span of token `i`: from the characters before it to
      the characters up to and including the space after it. */
  function ProportionalSpan(seg: Segment, tokens: seq<string>, i: nat): Span
    requires i < |tokens|
  {
    Span(TimeAt(seg.startTime, CharsBefore(tokens, i), TotalChars(seg), TotalDuration(seg)),
         TimeAt(seg.startTime, CharsBefore(tokens, i + 1), TotalChars(seg), TotalDuration(seg)))
  }

  /** The time span of every token of a segment, as the karaoke highlight
      uses them: the recorded word timings when they match the tokens one to
      one, otherwise spans proportional to the tokens' lengths laid over the
      segment's duration. */
  method TokenBoundaries(seg: Segment) returns (tokens: seq<string>, bounds: seq<Span>)
    ensures tokens == SplitWs(seg.text) && |bounds| == |tokens|
    ensures HasWordTimings(seg, tokens) ==>
              forall i :: 0 <= i < |bounds| ==> bounds[i] == Span(seg.words.value[i].start, seg.words.value[i].end)
    ensures !HasWordTimings(seg, tokens) ==>
              forall i :: 0 <= i < |bounds| ==> bounds[i] == ProportionalSpan(seg, tokens, i)
  {
    tokens := SplitWs(seg.text);
    if HasWordTimings(seg, tokens) {
      var ws := seg.words.value;
      bounds := seq(|ws|, i requires 0 <= i < |ws| => Span(ws[i].start, ws[i].end));
    } else {
      bounds := ProportionalBounds(seg, tokens);
    }
  }

  /** The fallback loop of the boundaries: each token's span runs from the
      characters before it to the characters up to its trailing space. */
  method ProportionalBounds(seg: Segment, tokens: seq<string>) returns (bounds: seq<Span>)
    ensures |bounds| == |tokens|
    ensures forall i :: 0 <= i < |bounds| ==> bounds[i] == ProportionalSpan(seg, tokens, i)
  {
    var totalChars := TotalChars(seg);
    var totalDuration := TotalDuration(seg);
    var runningChars := 0;
    bounds := [];
    for i := 0 to |tokens|
      invariant |bounds| == i
      invariant runningChars == CharsBefore(tokens, i)
      invariant forall k :: 0 <= k < i ==> bounds[k] == ProportionalSpan(seg, tokens, k)
    {
      var tLen := |tokens[i]| + 1;
      var start := seg.startTime + (runningChars as real / totalChars as real) * totalDuration;
      assert start == TimeAt(seg.startTime, CharsBefore(tokens, i), totalChars, totalDuration);
      runningChars := runningChars + tLen;
      var end := seg.startTime + (runningChars as real / totalChars as real) * totalDuration;
      assert end == TimeAt(seg.startTime, CharsBefore(tokens, i + 1), totalChars, totalDuration);
      bounds := bounds + [Span(start, end)];
    }
  }

  /** Proportional spans start at the segment's start, follow one another
      without gaps, and each lasts a positive time. */
  lemma ProportionalSpansContiguous(seg: Segment, tokens: seq<string>, bounds: seq<Span>)
    requires |bounds| == |tokens|
    requires forall i :: 0 <= i < |bounds| ==> bounds[i] == ProportionalSpan(seg, tokens, i)
    ensures bounds != [] ==> bounds[0].start == seg.startTime
    ensures forall i :: 0 <= i < |bounds| - 1 ==> bounds[i].end == bounds[i + 1].start
    ensures forall i :: 0 <= i < |bounds| ==> bounds[i].start < bounds[i].end
  {
    if bounds != [] {
      assert bounds[0] == ProportionalSpan(seg, tokens, 0);
      assert (0 as real / TotalChars(seg) as real) == 0.0;
    }
    forall i | 0 <= i < |bounds| - 1
      ensures bounds[i].end == bounds[i + 1].start
    {
      assert bounds[i] == ProportionalSpan(seg, tokens, i);
      assert bounds[i + 1] == ProportionalSpan(seg, tokens, i + 1);
    }
    forall i | 0 <= i < |bounds|
      ensures bounds[i].start < bounds[i].end
    {
      assert bounds[i] == ProportionalSpan(seg, tokens, i);
      SpanGrows(seg.startTime, CharsBefore(tokens, i), CharsBefore(tokens, i + 1), TotalChars(seg), TotalDuration(seg));
    }
  }

  lemma SpanGrows(startTime: real, a: nat, b: nat, total: nat, duration: real)
    requires a < b && total > 0 && duration > 0.0
    ensures TimeAt(startTime, a, total, duration) < TimeAt(startTime, b, total, duration)
  {
    var fa := a as real / total as real;
    var fb := b as real / total as real;
    assert fa < fb;
    MulMono(fa, fb, duration);
  }

  lemma MulMono(x: real, y: real, d: real)
    requires x < y && d > 0.0
    ensures x * d < y * d
  {
  }

  // ---------------------------------------------------------------------
  // Cleaning a clicked or displayed word

  /** The characters of `/[.,\\/#!$%\\^&\\*;:{}=\\-_`~()]/`. */
  predicate IsPunct(c: char)
  {
    c == '.' || c == ',' || c == '/' || c == '#' || c == '!' || c == '$' || c == '%' || c == '^'
    || c == '&' || c == '*' || c == ';' || c == ':' || c == '{' || c == '}' || c == '='
    || c == '-' || c == '_' || c == '`' || c == '~' || c == '(' || c == ')'
  }

  /** `w.replace(/[...]/g, "")`. */
  function StripPunct(w: string): (r: string)
    ensures |r| <= |w|
    ensures forall k :: 0 <= k < |r| ==> !IsPunct(r[k])
    ensures (forall k :: 0 <= k < |w| ==> !IsPunct(w[k])) ==> r == w
  {
    if w == [] then []
    else (if IsPunct(w[0]) then [] else [w[0]]) + StripPunct(w[1..])
  }

  /** Stripping works character by character: it distributes over
      concatenation, so it keeps the other characters in their order. */
  lemma {:induction false} StripPunctAppend(x: string, y: string)
    ensures StripPunct(x + y) == StripPunct(x) + StripPunct(y)
  {
    if x == [] {
      assert x + y == y;
    } else {
      var head := if IsPunct(x[0]) then [] else [x[0]];
      assert (x + y)[0] == x[0] && (x + y)[1..] == x[1..] + y;
      assert StripPunct(x + y) == head + StripPunct(x[1..] + y);
      StripPunctAppend(x[1..], y);
    }
  }

  /** Every character that is not punctuation is kept, as often as it
      occurs; every punctuation character is dropped. */
  lemma {:induction false} StripPunctCounts(w: string)
    ensures forall c :: multiset(StripPunct(w))[c] == if IsPunct(c) then 0 else multiset(w)[c]
  {
    if w != [] {
      StripPunctCounts(w[1..]);
      assert w == [w[0]] + w[1..];
    }
  }

  /** The form a token takes for the saved-word highlight (line 265): no
      punctuation, lower case. */
  function HighlightForm(w: string): (r: string)
    ensures |r| == |StripPunct(w)|
    ensures forall k :: 0 <= k < |r| ==> r[k] == LowerChar(StripPunct(w)[k])
    ensures forall k :: 0 <= k < |r| ==> !IsPunct(r[k]) && !('A' <= r[k] <= 'Z')
  {
    LowerKeepsPunct(StripPunct(w));
    Lower(StripPunct(w))
  }

  /** Lower-casing first and stripping afterwards gives the same form:
      lower-casing neither makes nor removes punctuation. */
  lemma {:induction false} HighlightFormCommutes(w: string)
    ensures HighlightForm(w) == StripPunct(Lower(w))
  {
    if w != [] {
      var c := w[0];
      var head := if IsPunct(c) then [] else [c];
      HighlightFormCommutes(w[1..]);
      assert Lower(w) == [LowerChar(c)] + Lower(w[1..]);
      StripPunctAppend([LowerChar(c)], Lower(w[1..]));
      LowerAppend(head, StripPunct(w[1..]));
      assert StripPunct([LowerChar(c)]) == Lower(head);
    }
  }

  lemma LowerAppend(x: string, y: string)
    ensures Lower(x + y) == Lower(x) + Lower(y)
  {
  }

  /** The word looked up on a click (lines 178-179): punctuation removed,
      trimmed, lower-cased; `None` when nothing is left, which aborts the
      lookup. */
  function LookupWord(w: string): (r: Option<string>)
    ensures r.None? <==> Trim(StripPunct(w)) == []
    ensures r.Some? ==> |r.value| == |Trim(StripPunct(w))|
    ensures r.Some? ==> forall k :: 0 <= k < |r.value| ==> r.value[k] == LowerChar(Trim(StripPunct(w))[k])
    ensures r.Some? ==> forall k :: 0 <= k < |r.value| ==> !IsPunct(r.value[k]) && !('A' <= r.value[k] <= 'Z')
    ensures r.Some? ==> !IsSpace(r.value[0]) && !IsSpace(r.value[|r.value| - 1])
  {
    var t := Trim(StripPunct(w));
    LowerKeepsPunct(t);
    LowerKeepsSpace(t);
    var c := Lower(t);
    if c == [] then None else Some(c)
  }

  lemma LowerKeepsPunct(s: string)
    ensures forall k :: 0 <= k < |s| ==> (IsPunct(Lower(s)[k]) <==> IsPunct(s[k]))
  {
  }

  lemma LowerKeepsSpace(s: string)
    ensures forall k :: 0 <= k < |s| ==> (IsSpace(Lower(s)[k]) <==> IsSpace(s[k]))
  {
  }

  /** Cleaning a cleaned word changes nothing. */
  lemma HighlightFormIdempotent(w: string)
    ensures HighlightForm(HighlightForm(w)) == HighlightForm(w)
  {
    var h := HighlightForm(w);
    assert StripPunct(h) == h;
    LowerNoUpper(h);
  }

  lemma LowerNoUpper(s: string)
    requires forall k :: 0 <= k < |s| ==> !('A' <= s[k] <= 'Z')
    ensures Lower(s) == s
  {
  }

  /** Trimming and lower-casing can go in either order: the clicked word is
      the trimmed highlight form of the token. */
  lemma LookupIsTrimmedHighlight(w: string)
    ensures Trim(HighlightForm(w)) == [] ==> LookupWord(w) == None
    ensures Trim(HighlightForm(w)) != [] ==> LookupWord(w) == Some(Trim(HighlightForm(w)))
  {
    var t := StripPunct(w);
    LowerTrim(t);
  }

  /** Lower-casing commutes with trimming. */
  lemma LowerTrim(t: string)
    ensures Lower(Trim(t)) == Trim(Lower(t))
  {
    var a := SkipSpace(t, 0);
    var b := SkipSpaceBack(t, |t|);
    LowerSameEnds(t);
    TrimSpan(t, a, b);
    TrimSpan(Lower(t), a, b);
    if a < b {
      LowerSlice(t, a, b);
    }
  }

  /** Lower-casing leaves the white space where it was. */
  lemma LowerSameEnds(t: string)
    ensures SkipSpace(Lower(t), 0) == SkipSpace(t, 0)
    ensures SkipSpaceBack(Lower(t), |t|) == SkipSpaceBack(t, |t|)
  {
    LowerKeepsSpace(t);
    SameSpacesSameEnds(t, Lower(t));
  }

  /** Where white space sits is all `trim` looks at. */
  lemma SameSpacesSameEnds(s: string, u: string)
    requires |s| == |u|
    requires forall k :: 0 <= k < |s| ==> (IsSpace(u[k]) <==> IsSpace(s[k]))
    ensures SkipSpace(u, 0) == SkipSpace(s, 0) && SkipSpaceBack(u, |u|) == SkipSpaceBack(s, |s|)
  {
  }

  lemma LowerSlice(t: string, a: nat, b: nat)
    requires a <= b <= |t|
    ensures Lower(t[a..b]) == Lower(t)[a..b]
  {
  }

  /** For a token the split produced (no white space), the word a click looks
      up is exactly the token's highlight form, so a click on a token that is
      shown highlighted looks up that same saved form. */
  lemma LookupMatchesHighlight(w: string)
    requires NoSpace(w)
    ensures HighlightForm(w) == [] ==> LookupWord(w) == None
    ensures HighlightForm(w) != [] ==> LookupWord(w) == Some(HighlightForm(w))
  {
    var s := StripPunct(w);
    StripKeepsNoSpace(w);
    NoSpaceTrim(s);
  }

  lemma {:induction false} StripKeepsNoSpace(w: string)
    requires NoSpace(w)
    ensures NoSpace(StripPunct(w))
  {
    if w != [] {
      StripKeepsNoSpace(w[1..]);
    }
  }

  lemma NoSpaceTrim(s: string)
    requires NoSpace(s)
    ensures Trim(s) == s
  {
    TrimFindsSlice(s, 0, |s|);
    assert s[0..|s|] == s;
  }

  /** `isSaved`: the token's highlight form is one of the saved words,
      lower-cased. */
  predicate IsSaved(saved: seq<SavedWord>, token: string)
  {
    exists i :: 0 <= i < |saved| && Key(saved[i]) == HighlightForm(token)
  }

  /** Toggling a word whose lower-cased form is the token's highlight form
      flips whether the token is shown as saved. */
  lemma ToggleFlipsHighlight(prev: seq<SavedWord>, word: string, sessionId: string, def: Option<Definition>,
                             now: int, token: string)
    requires Lower(word) == HighlightForm(token)
    ensures IsSaved(ToggleWord(prev, word, sessionId, def, now), token) <==> !IsSaved(prev, token)
  {
    assert IsSaved(prev, token) <==> HasKey(prev, Lower(word));
    assert IsSaved(ToggleWord(prev, word, sessionId, def, now), token)
       <==> HasKey(ToggleWord(prev, word, sessionId, def, now), Lower(word));
  }

  /** Saving the word a tap on a token looks up makes that token show as
      saved, when it was not. */
  lemma SavingLookupHighlights(prev: seq<SavedWord>, token: string, word: string, sessionId: string,
                               def: Option<Definition>, now: int)
    requires NoSpace(token) && LookupWord(token) == Some(word)
    requires !IsSaved(prev, token)
    ensures IsSaved(ToggleWord(prev, word, sessionId, def, now), token)
  {
    LookupMatchesHighlight(token);
    LowerNoUpper(word);
    ToggleFlipsHighlight(prev, word, sessionId, def, now, token);
  }

  // ---------------------------------------------------------------------
  // Editing a segment's text

  /** The edit box: a copy of the transcript in which only segment `absIdx`
      gets the new text. */
  function EditText(segs: seq<Segment>, absIdx: nat, text: string): (r: seq<Segment>)
    requires absIdx < |segs|
    ensures |r| == |segs|
    ensures r[absIdx].text == text
    ensures forall k :: 0 <= k < |segs| ==> r[k] == (if k == absIdx then segs[k].(text := text) else segs[k])
  {
    segs[absIdx := segs[absIdx].(text := text)]
  }

  /** An edit keeps every segment's id, times, speaker and word timings, so
      the blocks and the active segment are the same before and after. */
  lemma EditKeepsTimeline(segs: seq<Segment>, absIdx: nat, text: string, t: real)
    requires absIdx < |segs|
    ensures var r := EditText(segs, absIdx, text);
            forall k :: 0 <= k < |segs| ==>
              r[k].id == segs[k].id && r[k].startTime == segs[k].startTime && r[k].endTime == segs[k].endTime
              && r[k].speaker == segs[k].speaker && r[k].words == segs[k].words
    ensures FindActive(EditText(segs, absIdx, text), t) == FindActive(segs, t)
  {
    var r := EditText(segs, absIdx, text);
    assert forall k :: 0 <= k < |segs| ==> (Covers(r[k], t) <==> Covers(segs[k], t));
  }

  /** Two edits of the same segment leave only the second. */
  lemma EditTwice(segs: seq<Segment>, absIdx: nat, a: string, b: string)
    requires absIdx < |segs|
    ensures EditText(EditText(segs, absIdx, a), absIdx, b) == EditText(segs, absIdx, b)
  {
  }
}
