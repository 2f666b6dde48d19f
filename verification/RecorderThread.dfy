/** mp4_record_process: one recorder thread, its time stamps and its reports. */
module RecorderThread {
  import opened CText

  datatype Status = Resume | Pause | Close

  /** One media buffer; `audio` is false for video. */
  datatype Frame = Frame(audio: bool, iframe: bool, tick: int, len: nat, blue: bool)

  /** What one turn of the loop meets: the recorder status it sees, a frame or none, and whether the muxer
      and the message queue accept what the turn gives them. */
  datatype Event = NoData(status: Status) | Data(status: Status, frame: Frame, muxed: bool, sent: bool)

  datatype Write = Write(audio: bool, pts: int, iframe: bool)

  datatype Report = Report(totalTime: int, totalSize: nat, blue: bool)

  /** The locals kept for each of the two tracks: reference tick, stamp, previous stamp, stamp at the last
      pause, started flag, bytes. */
  datatype Track = Track(ref: int, pts: int, pre: int, pause: int, started: bool, size: nat)

  /** The locals of the loop that outlive a turn, logging flags aside. */
  datatype State = State(video: Track, audio: Track, firstI: bool, firstStart: bool, recordFlag: bool, done: bool)

  const NO_TRACK := Track(0, 0, 0, 0, false, 0)
  const INIT := State(NO_TRACK, NO_TRACK, false, true, true, false)

  /** Storing a tick in a 32-bit reference variable. */
  function Ref(tick: int): (r: int)
    ensures 0 <= tick < 0x1_0000_0000 ==> r == tick
  {
    tick % 0x1_0000_0000
  }

  /** The seconds of a stamp; stamps are never negative, so truncation is the floor. */
  function Seconds(pts: int): int {
    pts / 1000
  }

  /** A track after a frame has been stamped and `len` bytes written. */
  function Stamped(t: Track, tick: int, len: nat): Track {
    var next := if tick - t.ref + t.pause - t.pre <= 0 then t.pre + 1 else tick - t.ref + t.pause;
    var u := if t.started then t.(pts := next, pre := next) else t;
    var v := if u.pts == 0 then u.(ref := Ref(tick), started := true) else u;
    v.(size := v.size + len)
  }

  datatype Outcome = Outcome(state: State, write: Option<Write>, report: Option<Report>)

  function Reference(s: State, f: Frame): State {
    if f.audio then s.(audio := s.audio.(ref := Ref(f.tick))) else s.(video := s.video.(ref := Ref(f.tick)))
  }

  /** The bookkeeping of the first frame after the start or a pause. */
  function Restarted(s: State, f: Frame): State {
    if !s.recordFlag then s
    else
      var r := Reference(s, f);
      State(r.video.(pause := r.video.pts), r.audio.(pause := r.audio.pts), false, s.firstStart, false, s.done)
  }

  /** The bookkeeping of an opening I-frame. */
  function Opened(s: State, f: Frame): State {
    if s.firstStart then
      State(s.video.(ref := 0), s.audio.(ref := 0), true, false, s.recordFlag, s.done)
    else State(s.video.(ref := Ref(f.tick)), s.audio, true, false, s.recordFlag, s.done)
  }

  function WriteAudio(s: State, f: Frame, len: nat): Outcome {
    var a := Stamped(s.audio, f.tick, len);
    Outcome(s.(audio := a), Some(Write(true, a.pts, true)), None)
  }

  function WriteVideo(s: State, f: Frame, len: nat): Outcome {
    var v := Stamped(s.video, f.tick, len);
    Outcome(s.(video := v), Some(Write(false, v.pts, f.iframe)),
            Some(Report(if len == 0 then 0 else Seconds(v.pts), v.size + s.audio.size, f.blue)))
  }

  /** A frame met while not paused. */
  function OnFrame(s: State, f: Frame, len: nat): Outcome {
    if f.audio then
      if s.firstI then WriteAudio(s, f, len) else Outcome(Reference(s, f), None, None)
    else if s.firstI then WriteVideo(s, f, len)
    else if f.iframe then WriteVideo(Opened(s, f), f, len)
    else Outcome(Reference(s, f), None, None)
  }

  /** One turn of the loop. */
  function Step(s: State, e: Event): Outcome {
    if s.done then Outcome(s, None, None)
    else match e
      case NoData(status) =>
        Outcome(s.(recordFlag := s.recordFlag || status == Pause, done := status == Close), None, None)
      case Data(status, f, muxed, _) =>
        if status == Pause then
          Outcome(Reference(s, f).(firstI := false, recordFlag := true), None, None)
        else OnFrame(Restarted(s, f), f, if muxed then f.len else 0)
  }

  /** The state before turn `i`. */
  function At(es: seq<Event>, i: nat): State
    requires i <= |es|
  {
    if i == 0 then INIT else Step(At(es, i - 1), es[i - 1]).state
  }

  function WriteAt(es: seq<Event>, i: nat): Option<Write>
    requires i < |es|
  {
    Step(At(es, i), es[i]).write
  }

  function ReportAt(es: seq<Event>, i: nat): Option<Report>
    requires i < |es|
  {
    Step(At(es, i), es[i]).report
  }

  function Optional<T>(o: Option<T>): seq<T> {
    match o
    case None => []
    case Some(x) => [x]
  }

  /** The values that are there, of the first `n` turns. */
  function Flat<T>(os: seq<Option<T>>, n: nat): seq<T>
    requires n <= |os|
  {
    if n == 0 then [] else Flat(os, n - 1) + Optional(os[n - 1])
  }

  /** The frame each turn writes. */
  function WriteTurns(es: seq<Event>): (os: seq<Option<Write>>)
    ensures |os| == |es|
  {
    seq(|es|, i requires 0 <= i < |es| => WriteAt(es, i))
  }

  function Accepted(r: Option<Report>, e: Event): Option<Report> {
    if e.Data? && e.sent then r else None
  }

  /** The report of each turn, where the queue takes it. */
  function SentTurns(es: seq<Event>): (os: seq<Option<Report>>)
    ensures |os| == |es|
  {
    seq(|es|, i requires 0 <= i < |es| => Accepted(ReportAt(es, i), es[i]))
  }

  // ----- the loop -----

  /** The locals of the thread function. */
  class Recorder {
    var video: Track
    var audio: Track
    var firstI: bool
    var firstStart: bool
    var recordFlag: bool
    var done: bool

    ghost function Now(): State
      reads this
    {
      State(video, audio, firstI, firstStart, recordFlag, done)
    }

    constructor ()
      ensures Now() == INIT
    {
      video, audio := NO_TRACK, NO_TRACK;
      firstI, firstStart, recordFlag, done := false, true, true, false;
    }

    static method Stamp(t: Track, tick: int, len: nat) returns (u: Track)
      ensures u == Stamped(t, tick, len)
    {
      u := t;
      if u.started {
        u := u.(pts := tick - u.ref + u.pause);
        if u.pts - u.pre <= 0 { u := u.(pts := u.pre + 1); }
        u := u.(pre := u.pts);
      }
      if u.pts == 0 { u := u.(ref := Ref(tick), started := true); }
      u := u.(size := u.size + len);
    }

    method NoteReference(f: Frame)
      modifies this`video, this`audio
      ensures Now() == Reference(old(Now()), f)
    {
      if f.audio { audio := audio.(ref := Ref(f.tick)); } else { video := video.(ref := Ref(f.tick)); }
    }

    /** The part of a turn that follows the pause checks. */
    method Take(f: Frame, len: nat) returns (w: Option<Write>, r: Option<Report>)
      modifies this
      ensures Outcome(Now(), w, r) == OnFrame(old(Now()), f, len)
    {
      w, r := None, None;
      if !firstI && !f.audio {
        video := video.(ref := Ref(f.tick));
        if !f.iframe {
          return;
        }
        if firstStart {
          video, audio, firstStart := video.(ref := 0), audio.(ref := 0), false;
        }
        firstI := true;
      }
      if f.audio {
        if firstI {
          audio := Stamp(audio, f.tick, len);
          w := Some(Write(true, audio.pts, true));
        } else {
          audio := audio.(ref := Ref(f.tick));
        }
      } else {
        video := Stamp(video, f.tick, len);
        w := Some(Write(false, video.pts, f.iframe));
        r := Some(Report(if len == 0 then 0 else Seconds(video.pts), video.size + audio.size, f.blue));
      }
    }

    /** One turn of the loop in mp4_record_process. */
    method Turn(e: Event) returns (w: Option<Write>, r: Option<Report>)
      requires !done
      modifies this
      ensures Outcome(Now(), w, r) == Step(old(Now()), e)
    {
      w, r := None, None;
      if e.NoData? {
        if e.status == Pause { recordFlag := true; }
        if e.status == Close { done := true; }
        return;
      }
      var f := e.frame;
      if e.status == Pause {
        NoteReference(f);
        firstI, recordFlag := false, true;
        return;
      }
      if recordFlag {
        NoteReference(f);
        firstI := false;
        video, audio := video.(pause := video.pts), audio.(pause := audio.pts);
        recordFlag := false;
      }
      w, r := Take(f, if e.muxed then f.len else 0);
    }
  }

  /** Where the thread is before turn `i`: its state, and what it has written and sent. */
  ghost predicate Progress(es: seq<Event>, i: nat, s: State, written: seq<Write>, sent: seq<Report>) {
    && i <= |es| && s == At(es, i)
    && written == Flat(WriteTurns(es), i) && sent == Flat(SentTurns(es), i)
  }

  lemma ProgressStep(es: seq<Event>, i: nat, s: State, written: seq<Write>, sent: seq<Report>, o: Outcome)
    requires i < |es| && Progress(es, i, s, written, sent) && o == Step(s, es[i])
    ensures Progress(es, i + 1, o.state, written + Optional(o.write), sent + Optional(Accepted(o.report, es[i])))
  {
    FlatStep(WriteTurns(es), i, o.write);
    FlatStep(SentTurns(es), i, Accepted(o.report, es[i]));
  }

  lemma FlatStep<T>(os: seq<Option<T>>, i: nat, o: Option<T>)
    requires i < |os| && os[i] == o
    ensures Flat(os, i + 1) == Flat(os, i) + Optional(o)
  {
  }

  /** A turn of the loop, if the close status has not been seen. */
  method OneTurn(m: Recorder, es: seq<Event>, i: nat, written: seq<Write>, sent: seq<Report>)
    returns (written': seq<Write>, sent': seq<Report>)
    requires i < |es| && Progress(es, i, m.Now(), written, sent)
    modifies m
    ensures Progress(es, i + 1, m.Now(), written', sent')
  {
    ghost var s := m.Now();
    var w: Option<Write>, r: Option<Report> := None, None;
    if !m.done {
      w, r := m.Turn(es[i]);
    }
    ProgressStep(es, i, s, written, sent, Outcome(m.Now(), w, r));
    written', sent' := written + Optional(w), sent + Optional(Accepted(r, es[i]));
  }

  /** mp4_record_process over the events it meets until it sees the close status. */
  method RecordProcess(es: seq<Event>) returns (written: seq<Write>, sent: seq<Report>)
    ensures written == Flat(WriteTurns(es), |es|) && sent == Flat(SentTurns(es), |es|)
  {
    written, sent := [], [];
    var m := new Recorder();
    var i := 0;
    while i < |es|
      invariant fresh(m) && Progress(es, i, m.Now(), written, sent)
    {
      written, sent := OneTurn(m, es, i, written, sent);
      i := i + 1;
    }
  }
}
