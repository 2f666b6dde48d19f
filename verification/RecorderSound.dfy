/** What audio stamps measure, and when they drift away from it. */
module RecorderSound {
  import opened CText
  import opened RecorderThread
  import opened RecorderTiming

  predicate IsAudio(e: Event) {
    e.Data? && e.frame.audio
  }

  /** The tick of the last audio frame met before turn `k`, or -1. */
  function LastAudio(es: seq<Event>, k: nat): int
    requires k <= |es|
  {
    if k == 0 then -1 else if IsAudio(es[k - 1]) then es[k - 1].frame.tick else LastAudio(es, k - 1)
  }

  /** Audio ticks strictly increase and fit the 32-bit reference variables. */
  ghost predicate RisingAudio(es: seq<Event>) {
    forall k :: 0 <= k < |es| && IsAudio(es[k]) ==> LastAudio(es, k) < es[k].frame.tick < 0x1_0000_0000
  }

  /** The account of the sound in a run. A stretch lasts from an opening I-frame to the next pause; its sound
      counts from the last audio frame met between the stretches, if one was met, and otherwise from its own first
      one. `total` is the sound of the closed stretches; `running` says that the open one has sound, from `base` to
      `last`. `met` and `metAt` are the audio frame met since the last stretch. A stretch is stale when sound was
      recorded before it and no such frame was met: `stale` counts those, and `excess` adds up how far `ref`, the tick
      the stamps went on counting from, lay behind. */
  datatype Sound = Sound(total: int, open: bool, running: bool, base: int, last: int, met: bool, metAt: int,
                         started: bool, ref: int, stale: nat, excess: int)

  const SILENCE := Sound(0, false, false, 0, 0, false, 0, false, 0, 0, 0)

  /** The sound recorded so far. */
  function SoundTime(t: Sound): int {
    t.total + if t.running then t.last - t.base else 0
  }

  function Paused(t: Sound, e: Event): Sound {
    var kept := t.(total := SoundTime(t), open := false, running := false, met := !t.open && t.met,
                   ref := if t.open && !t.running && t.met then t.metAt else t.ref);
    if IsAudio(e) then kept.(met := true, metAt := e.frame.tick) else kept
  }

  /** The first audio frame of a stretch. */
  function Begun(t: Sound, tick: int): Sound {
    var u := t.(running := true, last := tick, started := true);
    if !t.started then u.(base := tick, ref := tick)
    else if t.met then u.(base := t.metAt, ref := t.metAt)
    else u.(base := tick, stale := t.stale + 1, excess := t.excess + (tick - t.ref))
  }

  function Heard(t: Sound, e: Event): Sound {
    if Pauses(e) then Paused(t, e)
    else if IsAudio(e) then
      if !t.open then t.(met := true, metAt := e.frame.tick)
      else if t.running then t.(last := e.frame.tick)
      else Begun(t, e.frame.tick)
    else if IsVideo(e) && e.frame.iframe then t.(open := true)
    else t
  }

  function SoundAt(es: seq<Event>, k: nat): Sound
    requires k <= |es|
  {
    if k == 0 then SILENCE else Heard(SoundAt(es, k - 1), es[k - 1])
  }

  // ----- the invariant -----

  /** The audio track against the account, with no sound in the open stretch yet. */
  ghost predicate Waiting(a: Track, t: Sound, settled: bool) {
    && a.pts == t.total + t.excess
    && (t.started ==> a.ref == if t.met then t.metAt else t.ref)
    && (settled ==> a.pause == a.pts)
  }

  ghost predicate Sounding(a: Track, t: Sound) {
    a.ref == t.ref && a.pts == t.last - t.ref + a.pause == t.total + (t.last - t.base) + t.excess
  }

  ghost predicate Kept(s: State, t: Sound) {
    && Clocked(s.audio)
    && (t.open <==> s.firstI && !s.recordFlag)
    && (t.started <==> s.audio.started) && (s.firstStart ==> !t.started && !s.firstI)
    && (t.running ==> t.open && t.started)
    && 0 <= t.excess && (t.excess == 0 <==> t.stale == 0)
    && (if t.running then Sounding(s.audio, t) else Waiting(s.audio, t, !s.recordFlag))
  }

  /** Every tick the account remembers lies before `tick`. */
  ghost predicate Before(t: Sound, tick: int) {
    (t.met ==> t.metAt < tick) && (t.running ==> t.last < tick) && (t.started ==> t.ref < tick)
  }

  lemma PauseKept(s: State, t: Sound, e: Event)
    requires !s.done && Kept(s, t) && Pauses(e)
    requires IsAudio(e) ==> 0 <= e.frame.tick < 0x1_0000_0000
    ensures Kept(Step(s, e).state, Heard(t, e))
  {
  }

  /** An audio frame stamped as the first of its stretch. */
  lemma BeginningKept(a: Track, t: Sound, tick: int, len: nat)
    requires Clocked(a) && t.open && !t.running && (t.started <==> a.started) && Waiting(a, t, true)
    requires 0 <= tick < 0x1_0000_0000 && Before(t, tick) && 0 <= t.excess && (t.excess == 0 <==> t.stale == 0)
    ensures var u := Begun(t, tick);
            && Clocked(Stamped(a, tick, len)) && Stamped(a, tick, len).started && Sounding(Stamped(a, tick, len), u)
            && 0 <= u.excess && (u.excess == 0 <==> u.stale == 0)
  {
  }

  lemma SoundingKept(a: Track, t: Sound, tick: int, len: nat)
    requires Clocked(a) && a.started && t.running && Sounding(a, t) && t.last < tick
    ensures Clocked(Stamped(a, tick, len)) && Stamped(a, tick, len).started
    ensures Sounding(Stamped(a, tick, len), t.(last := tick))
  {
  }

  /** A frame met once the bookkeeping after a pause is done. */
  lemma FrameKept(s: State, t: Sound, f: Frame, len: nat)
    requires !s.recordFlag && Kept(s, t)
    requires f.audio ==> 0 <= f.tick < 0x1_0000_0000 && Before(t, f.tick)
    ensures Kept(OnFrame(s, f, len).state, Heard(t, Data(Resume, f, true, true)))
  {
    if f.audio && t.running {
      SoundingKept(s.audio, t, f.tick, len);
    } else if f.audio && t.open {
      BeginningKept(s.audio, t, f.tick, len);
    }
  }

  /** The bookkeeping itself: an audio frame that ends a pause becomes the reference. */
  lemma RestartKept(s: State, t: Sound, f: Frame)
    requires Kept(s, t) && (f.audio ==> 0 <= f.tick < 0x1_0000_0000)
    ensures var u := if s.recordFlag && f.audio then t.(met := true, metAt := f.tick) else t;
            Kept(Restarted(s, f), u)
  {
  }

  lemma ReheardAlike(t: Sound, f: Frame)
    requires f.audio && !t.open
    ensures var e := Data(Resume, f, true, true); Heard(t.(met := true, metAt := f.tick), e) == Heard(t, e)
  {
  }

  lemma StepKept(s: State, t: Sound, e: Event)
    requires !s.done && Kept(s, t)
    requires IsAudio(e) ==> 0 <= e.frame.tick < 0x1_0000_0000 && Before(t, e.frame.tick)
    ensures Kept(Step(s, e).state, Heard(t, e))
  {
    if Pauses(e) {
      PauseKept(s, t, e);
    } else if e.Data? {
      var f, len := e.frame, if e.muxed then e.frame.len else 0;
      RestartKept(s, t, f);
      assert Heard(t, e) == Heard(t, Data(Resume, f, true, true));
      if s.recordFlag && f.audio {
        ClosedFrame(Restarted(s, f), t.(met := true, metAt := f.tick), f, len);
        ReheardAlike(t, f);
      } else {
        FrameKept(Restarted(s, f), t, f, len);
      }
    }
  }

  /** An audio frame met while the gate is closed. */
  lemma ClosedFrame(s: State, t: Sound, f: Frame, len: nat)
    requires !s.recordFlag && Kept(s, t) && !t.open && f.audio && 0 <= f.tick < 0x1_0000_0000
    ensures Kept(OnFrame(s, f, len).state, Heard(t, Data(Resume, f, true, true)))
  {
  }

  lemma HeardBefore(t: Sound, e: Event, last: int)
    requires Before(t, last + 1) && (IsAudio(e) ==> last < e.frame.tick)
    ensures IsAudio(e) ==> Before(t, e.frame.tick)
    ensures Before(Heard(t, e), (if IsAudio(e) then e.frame.tick else last) + 1)
  {
  }

  lemma {:induction false} RunKept(es: seq<Event>, k: nat)
    requires k <= |es| && RisingAudio(es) && Running(es, k)
    ensures Kept(At(es, k), SoundAt(es, k)) && Before(SoundAt(es, k), LastAudio(es, k) + 1) && -1 <= LastAudio(es, k)
  {
    if k > 0 {
      assert Running(es, k - 1);
      RunKept(es, k - 1);
      RunningIsNotDone(es, k - 1);
      HeardBefore(SoundAt(es, k - 1), es[k - 1], LastAudio(es, k - 1));
      StepKept(At(es, k - 1), SoundAt(es, k - 1), es[k - 1]);
    }
  }

  // ----- what audio stamps measure -----

  /** In every run with rising audio ticks an audio stamp is the sound recorded so far and the excess of the stale
      stretches; so it is exactly the sound recorded when, and only when, no stretch so far was stale. */
  lemma AudioStampExactIff(es: seq<Event>, k: nat)
    requires k < |es| && RisingAudio(es) && Running(es, k) && WriteAt(es, k).Some? && WriteAt(es, k).value.audio
    ensures var t := SoundAt(es, k + 1);
            && WriteAt(es, k).value.pts == SoundTime(t) + t.excess && 0 <= t.excess
            && (WriteAt(es, k).value.pts == SoundTime(t) <==> t.stale == 0)
  {
    RunKept(es, k);
    RunningIsNotDone(es, k);
    VideoWriteKind(es, k);
    StepKept(At(es, k), SoundAt(es, k), es[k]);
    RunLater(es, k, k);
    StepMovesOn(At(es, k), es[k]);
    WrittenIffOpen(es, k);
    GateIsFlags(es, k);
    GateStep(es, k);
  }

  function Video(tick: int): Event {
    Data(Resume, Frame(false, true, tick, 1, false), true, true)
  }

  function Audio(tick: int): Event {
    Data(Resume, Frame(true, false, tick, 1, false), true, true)
  }

  /** A second of sound, a pause in which no frame is met, and ten more milliseconds: the sound is stamped 6000
      while the picture beside it is stamped 1. */
  lemma StaleSoundDrifts()
    ensures var es := [Video(0), Audio(10), Audio(1010), NoData(Pause), Video(5000), Audio(5010)];
            && WriteAt(es, 4) == Some(Write(false, 1, true))
            && WriteAt(es, 5) == Some(Write(true, 6000, true))
            && SoundTime(SoundAt(es, 6)) == 1000
  {
    var es := [Video(0), Audio(10), Audio(1010), NoData(Pause), Video(5000), Audio(5010)];
    assert At(es, 1) == State(Track(0, 0, 0, 0, true, 1), Track(0, 0, 0, 0, false, 0), true, false, false, false);
    assert At(es, 2).audio == Track(10, 0, 0, 0, true, 1);
    assert At(es, 3).audio == Track(10, 1000, 1000, 0, true, 2);
    assert At(es, 4) == At(es, 3).(recordFlag := true);
    assert At(es, 5).audio == Track(10, 1000, 1000, 1000, true, 2);
    assert SoundAt(es, 2) == Heard(Heard(SILENCE, es[0]), es[1]);
    assert SoundAt(es, 4) == Heard(Heard(SoundAt(es, 2), es[2]), es[3]);
  }
}
