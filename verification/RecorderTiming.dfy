/** What every run of a recorder thread keeps: time stamps, I-frame gating, recorded time. */
module RecorderTiming {
  import opened CText
  import opened RecorderThread

  // ----- time stamps strictly increase -----

  /** A track that has not started is at zero, and the last stamp is remembered. */
  ghost predicate Clocked(t: Track) {
    t.pre == t.pts >= 0 && (!t.started ==> t.pts == 0)
  }

  /** `u` is `t` after some turns. */
  ghost predicate Later(t: Track, u: Track) {
    Clocked(u) && t.pts <= u.pts && (t.started ==> u.started) && t.size <= u.size
  }

  lemma StampedLater(t: Track, tick: int, len: nat)
    requires Clocked(t)
    ensures var u := Stamped(t, tick, len); Later(t, u) && u.started && (t.started ==> t.pts < u.pts)
  {
  }

  /** What a turn from `s` with outcome `o` keeps: both tracks move on, bytes only grow, and a written stamp
      is the new one of its track. */
  ghost predicate MovesOn(s: State, o: Outcome) {
    && Later(s.video, o.state.video) && Later(s.audio, o.state.audio)
    && (o.write.Some? ==>
          var before := if o.write.value.audio then s.audio else s.video;
          var after := if o.write.value.audio then o.state.audio else o.state.video;
          o.write.value.pts == after.pts && after.started && (before.started ==> before.pts < after.pts))
    && (o.report.Some? ==> o.report.value.totalSize == o.state.video.size + o.state.audio.size)
  }

  lemma AudioMovesOn(s: State, f: Frame, len: nat)
    requires Clocked(s.video) && Clocked(s.audio)
    ensures MovesOn(s, WriteAudio(s, f, len))
  {
    StampedLater(s.audio, f.tick, len);
  }

  lemma VideoMovesOn(s: State, f: Frame, len: nat)
    requires Clocked(s.video) && Clocked(s.audio)
    ensures MovesOn(s, WriteVideo(s, f, len))
  {
    StampedLater(s.video, f.tick, len);
  }

  /** An opening I-frame changes no stamp and no size before it is written. */
  lemma OpeningMovesOn(s: State, f: Frame, len: nat)
    requires Clocked(s.video) && Clocked(s.audio)
    ensures MovesOn(s, WriteVideo(Opened(s, f), f, len))
  {
    VideoMovesOn(Opened(s, f), f, len);
  }

  lemma ReferenceMovesOn(s: State, f: Frame)
    requires Clocked(s.video) && Clocked(s.audio)
    ensures MovesOn(s, Outcome(Reference(s, f), None, None))
  {
  }

  lemma FrameMovesOn(s: State, f: Frame, len: nat)
    requires Clocked(s.video) && Clocked(s.audio)
    ensures MovesOn(s, OnFrame(s, f, len))
  {
    if s.firstI {
      AudioMovesOn(s, f, len);
      VideoMovesOn(s, f, len);
    } else if !f.audio && f.iframe {
      OpeningMovesOn(s, f, len);
    } else {
      ReferenceMovesOn(s, f);
    }
  }

  lemma StepMovesOn(s: State, e: Event)
    requires Clocked(s.video) && Clocked(s.audio)
    ensures MovesOn(s, Step(s, e))
  {
    if !s.done && e.Data? && e.status != Pause {
      var r := Restarted(s, e.frame);
      assert Later(s.video, r.video) && Later(s.audio, r.audio);
      assert Later(r.video, s.video) && Later(r.audio, s.audio);
      FrameMovesOn(r, e.frame, if e.muxed then e.frame.len else 0);
    }
  }

  lemma {:induction false} RunLater(es: seq<Event>, i: nat, j: nat)
    requires i <= j <= |es|
    ensures Clocked(At(es, i).video) && Clocked(At(es, i).audio)
    ensures Later(At(es, i).video, At(es, j).video) && Later(At(es, i).audio, At(es, j).audio)
    decreases j
  {
    if j > 0 {
      if i < j {
        RunLater(es, i, j - 1);
      } else {
        RunLater(es, j - 1, j - 1);
      }
      StepMovesOn(At(es, j - 1), es[j - 1]);
    }
  }

  /** In every run, whatever the source clock does, the stamps of each track strictly increase. */
  lemma StampsIncrease(es: seq<Event>, i: nat, j: nat)
    requires i < j < |es|
    requires WriteAt(es, i).Some? && WriteAt(es, j).Some?
    requires WriteAt(es, i).value.audio == WriteAt(es, j).value.audio
    ensures WriteAt(es, i).value.pts < WriteAt(es, j).value.pts
  {
    RunLater(es, i, i);
    StepMovesOn(At(es, i), es[i]);
    RunLater(es, i + 1, j);
    StepMovesOn(At(es, j), es[j]);
  }

  // ----- no frame before an I-frame -----

  predicate Pauses(e: Event) {
    e.status == Pause
  }

  predicate Opens(e: Event) {
    e.Data? && e.status != Pause && !e.frame.audio && e.frame.iframe
  }

  predicate Ends(e: Event) {
    e.NoData? && e.status == Close
  }

  /** Turn `j` met an I-frame, and between it and turn `k` there was no pause. */
  ghost predicate OpenSince(es: seq<Event>, j: nat, k: nat)
    requires j < k <= |es|
  {
    Opens(es[j]) && forall m :: j < m < k ==> !Pauses(es[m])
  }

  /** The thread is still running at turn `k`. */
  ghost predicate Running(es: seq<Event>, k: nat)
    requires k <= |es|
  {
    forall m :: 0 <= m < k ==> !Ends(es[m])
  }

  lemma {:induction false} RunningIsNotDone(es: seq<Event>, k: nat)
    requires k <= |es|
    ensures Running(es, k) <==> !At(es, k).done
  {
    if k > 0 {
      RunningIsNotDone(es, k - 1);
      assert Running(es, k) <==> Running(es, k - 1) && !Ends(es[k - 1]);
    }
  }

  /** An I-frame has been met before turn `k`, and no pause since. */
  ghost predicate GateOpen(es: seq<Event>, k: nat)
    requires k <= |es|
  {
    exists j: nat :: j < k && OpenSince(es, j, k)
  }

  lemma GateStep(es: seq<Event>, k: nat)
    requires k < |es|
    ensures GateOpen(es, k + 1) <==> Opens(es[k]) || (GateOpen(es, k) && !Pauses(es[k]))
  {
    if Opens(es[k]) {
      assert OpenSince(es, k, k + 1);
    } else {
      if GateOpen(es, k) && !Pauses(es[k]) {
        var j: nat :| j < k && OpenSince(es, j, k);
        assert OpenSince(es, j, k + 1);
      }
      if GateOpen(es, k + 1) {
        var j: nat :| j < k + 1 && OpenSince(es, j, k + 1);
        assert OpenSince(es, j, k);
      }
    }
  }

  lemma {:induction false} GateIsFlags(es: seq<Event>, k: nat)
    requires k <= |es| && Running(es, k)
    ensures GateOpen(es, k) <==> At(es, k).firstI && !At(es, k).recordFlag
  {
    if k > 0 {
      assert Running(es, k - 1);
      RunningIsNotDone(es, k - 1);
      GateIsFlags(es, k - 1);
      GateStep(es, k - 1);
    }
  }

  /** In every run a frame is written exactly when it is, or comes after, an I-frame met since the last pause:
      nothing gets through before that I-frame, and nothing is held back after it. */
  lemma WrittenIffOpen(es: seq<Event>, k: nat)
    requires k < |es| && es[k].Data? && Running(es, k)
    ensures WriteAt(es, k).Some? <==> GateOpen(es, k + 1)
  {
    GateIsFlags(es, k);
    RunningIsNotDone(es, k);
    GateStep(es, k);
  }

  /** The first video frame written after the start or after a pause at turn `p` is an I-frame. */
  lemma FirstVideoIsIFrame(es: seq<Event>, p: int, k: nat)
    requires -1 <= p < k < |es| && Running(es, k)
    requires p >= 0 ==> Pauses(es[p])
    requires WriteAt(es, k).Some? && !WriteAt(es, k).value.audio
    requires forall m: nat :: p < m < k ==> !(WriteAt(es, m).Some? && !WriteAt(es, m).value.audio)
    ensures WriteAt(es, k).value.iframe
  {
    VideoWriteKind(es, k);
    WrittenIffOpen(es, k);
    var j: nat :| j < k + 1 && OpenSince(es, j, k + 1);
    if j < k {
      assert OpenSince(es, j, j + 1);
      WrittenIffOpen(es, j);
      VideoWriteKind(es, j);
      assert false;
    }
  }

  lemma VideoWriteKind(es: seq<Event>, k: nat)
    requires k < |es| && WriteAt(es, k).Some?
    ensures es[k].Data? && WriteAt(es, k).value.audio == es[k].frame.audio
    ensures !es[k].frame.audio ==> WriteAt(es, k).value.iframe == es[k].frame.iframe
  {
  }

  // ----- recorded time -----

  predicate IsVideo(e: Event) {
    e.Data? && !e.frame.audio
  }

  /** The tick of the last video frame met before turn `k`, or -1. */
  function LastTick(es: seq<Event>, k: nat): int
    requires k <= |es|
  {
    if k == 0 then -1 else if IsVideo(es[k - 1]) then es[k - 1].frame.tick else LastTick(es, k - 1)
  }

  /** Video ticks strictly increase and fit the 32-bit reference variables. */
  ghost predicate Rising(es: seq<Event>) {
    forall k :: 0 <= k < |es| && IsVideo(es[k]) ==> LastTick(es, k) < es[k].frame.tick < 0x1_0000_0000
  }

  /** The account of a run: time of the closed stretches, the stretch under way (from its opening I-frame to its
      last frame), the number of stretches opened and of pauses observed. */
  datatype Tally = Tally(total: int, open: bool, start: int, last: int, stretches: nat, pauses: nat, paused: bool)

  function Tallied(t: Tally, e: Event): Tally {
    if Pauses(e) then
      Tally(Active(t), false, t.start, t.last, t.stretches, if t.paused then t.pauses else t.pauses + 1, true)
    else if IsVideo(e) && t.open then t.(last := e.frame.tick, paused := false)
    else if IsVideo(e) && e.frame.iframe then
      Tally(t.total, true, e.frame.tick, e.frame.tick, t.stretches + 1, t.pauses, false)
    else t.(paused := false)
  }

  /** The active time so far. */
  function Active(t: Tally): int {
    t.total + if t.open then t.last - t.start else 0
  }

  function TallyAt(es: seq<Event>, k: nat): Tally
    requires k <= |es|
  {
    if k == 0 then Tally(0, false, 0, 0, 0, 0, false) else Tallied(TallyAt(es, k - 1), es[k - 1])
  }

  ghost predicate Bounded(s: State, t: Tally) {
    && Clocked(s.video)
    && (t.open <==> s.firstI && !s.recordFlag)
    && t.stretches <= t.pauses + (if t.open then 1 else 0) && (t.open ==> !t.paused)
    && (s.firstStart <==> t.stretches == 0) && (s.video.started <==> t.stretches > 0)
    && (if t.open then OpenBounds(s.video, t)
        else
          && t.total <= s.video.pts <= t.total + Extra(t.stretches)
          && (!s.recordFlag ==> s.video.pause == s.video.pts))
  }

  function Extra(stretches: nat): nat {
    if stretches == 0 then 0 else stretches - 1
  }

  ghost predicate OpenBounds(v: Track, t: Tally) {
    && t.stretches > 0 && v.ref == t.start <= t.last
    && t.total <= v.pause <= t.total + Extra(t.stretches - 1)
    && (t.stretches == 1 ==> v.pause == 0)
    && v.pause + (t.last - t.start) <= v.pts <= v.pause + (t.last - t.start) + (if t.stretches == 1 then 0 else 1)
  }

  /** A video frame of an open stretch is stamped with its true time, or one more. */
  lemma StampWithin(v: Track, t: Tally, tick: int, len: nat)
    requires Clocked(v) && v.started && OpenBounds(v, t) && t.last < tick
    ensures OpenBounds(Stamped(v, tick, len), t.(last := tick))
  {
  }

  /** The opening I-frame of a later stretch is stamped one past the stamp the pause left. */
  lemma StampOpening(v: Track, t: Tally, tick: int, len: nat)
    requires Clocked(v) && v.started && t.stretches > 0 && v.pause == v.pts && v.ref == tick
    requires t.total <= v.pts <= t.total + Extra(t.stretches)
    ensures OpenBounds(Stamped(v, tick, len), Tally(t.total, true, tick, tick, t.stretches + 1, t.pauses, false))
  {
  }

  lemma FrameBounded(s: State, t: Tally, f: Frame, len: nat)
    requires !s.recordFlag && Bounded(s, t)
    requires !f.audio ==> 0 <= f.tick < 0x1_0000_0000 && (t.open ==> t.last < f.tick)
    ensures Bounded(OnFrame(s, f, len).state, Tallied(t, Data(Resume, f, true, true)))
  {
    if !f.audio && s.firstI {
      StampWithin(s.video, t, f.tick, len);
    } else if !f.audio && f.iframe && !s.firstStart {
      StampOpening(Opened(s, f).video, t, f.tick, len);
    }
  }

  lemma StepBounded(s: State, t: Tally, e: Event)
    requires !s.done && Bounded(s, t)
    requires IsVideo(e) ==> 0 <= e.frame.tick < 0x1_0000_0000 && (t.open ==> t.last < e.frame.tick)
    ensures Bounded(Step(s, e).state, Tallied(t, e))
  {
    if e.Data? && e.status != Pause {
      assert Bounded(Restarted(s, e.frame), t);
      FrameBounded(Restarted(s, e.frame), t, e.frame, if e.muxed then e.frame.len else 0);
      assert Tallied(t, e) == Tallied(t, Data(Resume, e.frame, true, true));
    }
  }

  lemma {:induction false} RunBounded(es: seq<Event>, k: nat)
    requires k <= |es| && Rising(es) && Running(es, k)
    ensures Bounded(At(es, k), TallyAt(es, k)) && -1 <= LastTick(es, k)
    ensures TallyAt(es, k).open ==> TallyAt(es, k).last <= LastTick(es, k)
  {
    if k > 0 {
      assert Running(es, k - 1);
      RunBounded(es, k - 1);
      RunningIsNotDone(es, k - 1);
      StepBounded(At(es, k - 1), TallyAt(es, k - 1), es[k - 1]);
    }
  }

  /** In every run with rising video ticks, a video stamp lies between the total active time (from each opening
      I-frame to the last frame of its stretch) and that total plus the number of pauses observed. */
  lemma StampMeasuresActiveTime(es: seq<Event>, k: nat)
    requires k < |es| && Rising(es) && Running(es, k)
    requires WriteAt(es, k).Some? && !WriteAt(es, k).value.audio
    ensures var t := TallyAt(es, k + 1);
            Active(t) <= WriteAt(es, k).value.pts <= Active(t) + (t.stretches - 1) <= Active(t) + t.pauses
  {
    RunBounded(es, k);
    RunningIsNotDone(es, k);
    VideoWriteKind(es, k);
    StepBounded(At(es, k), TallyAt(es, k), es[k]);
    RunLater(es, k, k);
    StepMovesOn(At(es, k), es[k]);
    assert At(es, k + 1).firstI;
  }
}
