/** Recorder threads, their report queue and the controller that splits files (course_record_process). */
module SplitProtocol {
  import opened CText
  import opened RecorderThread
  import opened RecorderTiming
  import RecorderReports

  /** MAX_SPLIT_LEN. */
  const LIMIT: nat := 700_000_000

  /** A report in the queue. `segment` is the split index in its file name; the controller does not look at it. */
  datatype Message = Message(sindex: nat, segment: nat, size: nat, jpeg: bool)

  /** The controller's variables: the handshake, and the latest report of each stream since the last split, None where
      the memory is still zero. */
  datatype Control = Control(splitFlag: bool, splitSindex: int, latest: seq<Option<Message>>)

  function Nobody(n: nat): (l: seq<Option<Message>>)
    ensures |l| == n && forall i :: 0 <= i < n ==> l[i] == None
  {
    seq(n, _ => None)
  }

  /** The latest reports once `m` is stored; that happens before its size is looked at. At a split this is what is
      listed. */
  function Stored(c: Control, m: Message): (l: seq<Option<Message>>)
    ensures |l| == |c.latest|
  {
    if m.jpeg || m.sindex >= |c.latest| then c.latest else c.latest[m.sindex := Some(m)]
  }

  predicate Splits(c: Control, m: Message) {
    !m.jpeg && m.size >= LIMIT && c.splitFlag
  }

  /** What the controller makes of one report; a split clears the latest reports. */
  function Heard(c: Control, m: Message): Control {
    if Splits(c, m) then Control(true, m.sindex, Nobody(|c.latest|))
    else c.(latest := Stored(c, m), splitFlag := c.splitFlag ||
      (!m.jpeg && m.size < LIMIT && m.sindex == c.splitSindex))
  }

  class Controller {
    var splitFlag: bool
    var splitSindex: int
    var latest: seq<Option<Message>>

    ghost function Now(): Control
      reads this
    {
      Control(splitFlag, splitSindex, latest)
    }

    constructor (n: nat)
      ensures Now() == Control(true, -1, Nobody(n))
    {
      splitFlag, splitSindex, latest := true, -1, Nobody(n);
    }

    /** The part of the receive loop that stores a report and makes the two size tests; on a split the caller lists
        `listed`, closes and restarts the threads and then calls Restarted. */
    method OnReport(m: Message) returns (split: bool, listed: seq<Option<Message>>)
      modifies this
      ensures Now() == Heard(old(Now()), m) && split == Splits(old(Now()), m)
      ensures split ==> listed == Stored(old(Now()), m)
    {
      split, listed := false, [];
      if m.jpeg { return; }
      if m.sindex < |latest| {
        latest := latest[m.sindex := Some(m)];
      }
      if LIMIT > m.size && m.sindex == splitSindex {
        splitFlag := true;
      }
      if LIMIT <= m.size && splitFlag {
        splitSindex := m.sindex;
        listed := latest;
        latest := Nobody(|latest|);
        split := true;
      }
    }

    method Restarted()
      modifies this`splitFlag
      ensures Now() == old(Now()).(splitFlag := false)
    {
      splitFlag := false;
    }
  }

  // ----- the whole system -----

  /** `closing` counts the threads joined while a split is under way. */
  datatype System = System(control: Control, segment: nat, threads: seq<State>, queue: seq<Message>,
      closing: Option<nat>)

  datatype Action =
    | Record(i: nat, e: Event)   // thread i takes a turn
    | Jpeg(size: nat)            // the picture thread reports
    | Receive                    // the controller takes the oldest report
    | Join                       // the closing controller joins the next thread
    | Restart                    // all joined: new segment, new threads

  function Start(n: nat): System {
    System(Control(true, -1, Nobody(n)), 1, seq(n, _ => INIT), [], None)
  }

  ghost predicate Enabled(s: System, a: Action) {
    match a
    case Record(i, _) => i < |s.threads| && (s.closing.Some? ==> s.closing.value <= i)
    case Jpeg(_) => true
    case Receive => s.closing == None && s.queue != []
    case Join => s.closing.Some? && s.closing.value < |s.threads|
    case Restart => s.closing == Some(|s.threads|)
  }

  function Sent(s: System, i: nat, e: Event, o: Outcome): seq<Message> {
    if o.report.Some? && e.Data? && e.sent then [Message(i, s.segment, o.report.value.totalSize, false)] else []
  }

  ghost function Do(s: System, a: Action): System
    requires Enabled(s, a)
  {
    match a
    case Record(i, e) =>
      var o := Step(s.threads[i], e);
      s.(threads := s.threads[i := o.state], queue := s.queue + Sent(s, i, e, o))
    case Jpeg(size) => s.(queue := s.queue + [Message(|s.threads|, s.segment, size, true)])
    case Receive =>
      s.(control := Heard(s.control, s.queue[0]), queue := s.queue[1..],
         closing := if Splits(s.control, s.queue[0]) then Some(0) else None)
    case Join => s.(closing := Some(s.closing.value + 1))
    case Restart => System(s.control.(splitFlag := false), s.segment + 1, seq(|s.threads|, _ => INIT), s.queue, None)
  }

  /** A turn of a thread puts a report into the queue exactly when it writes video and the send succeeds; the report
      stands for its stream, the segment being recorded and the bytes of the thread so far. */
  lemma RecordSends(s: System, i: nat, e: Event)
    requires Enabled(s, Record(i, e))
    ensures var o := Step(s.threads[i], e);
            var after := Do(s, Record(i, e)).queue;
            if e.Data? && e.sent && o.write.Some? && !o.write.value.audio
            then after == s.queue + [Message(i, s.segment, o.state.video.size + o.state.audio.size, false)]
            else after == s.queue
  {
    RecorderReports.StepAccounts(s.threads[i], e);
  }

  ghost predicate Goes(s: System, a: Action, s': System) {
    Enabled(s, a) && s' == Do(s, a)
  }

  /** The states a run passes through. */
  ghost predicate IsRun(ss: seq<System>, acts: seq<Action>, n: nat) {
    && |ss| == |acts| + 1 && ss[0] == Start(n)
    && forall k :: 0 <= k < |acts| ==> Goes(ss[k], acts[k], ss[k + 1])
  }

  // ----- the invariant -----

  function Bytes(t: State): nat {
    t.video.size + t.audio.size
  }

  /** A report of the segment before the current one: if it comes from the stream that made the controller split,
      it is over the limit. */
  ghost predicate Leftover(s: System, m: Message) {
    m.segment + 1 == s.segment && (m.sindex == s.control.splitSindex ==> m.size >= LIMIT)
  }

  ghost predicate Placed(s: System, m: Message) {
    m.jpeg || (m.sindex < |s.threads| &&
               if m.segment == s.segment then m.size <= Bytes(s.threads[m.sindex])
               else !s.control.splitFlag && s.closing == None && Leftover(s, m))
  }

  /** Reports of one thread keep their order and grow; reports of an older segment come first. */
  ghost predicate Ordered(a: Message, b: Message) {
    a.jpeg || b.jpeg ||
    (a.segment <= b.segment && (a.segment == b.segment && a.sindex == b.sindex ==> a.size <= b.size))
  }

  /** While threads are being closed, the one that caused it is over the limit, and so is what it still has queued. */
  ghost predicate Overdue(s: System) {
    s.closing.Some? ==>
      && s.control.splitFlag && 0 <= s.control.splitSindex < |s.threads|
      && Bytes(s.threads[s.control.splitSindex]) >= LIMIT
      && forall i :: 0 <= i < |s.queue| ==>
           !s.queue[i].jpeg && s.queue[i].sindex == s.control.splitSindex ==> s.queue[i].size >= LIMIT
  }

  ghost predicate Inv(s: System) {
    && (forall i :: 0 <= i < |s.threads| ==> Clocked(s.threads[i].video) && Clocked(s.threads[i].audio))
    && (forall i :: 0 <= i < |s.queue| ==> Placed(s, s.queue[i]))
    && (forall i, j :: 0 <= i < j < |s.queue| ==> Ordered(s.queue[i], s.queue[j]))
    && Overdue(s)
  }

  lemma RecordKeeps(s: System, i: nat, e: Event)
    requires Inv(s) && Enabled(s, Record(i, e))
    ensures Inv(Do(s, Record(i, e)))
  {
    var s' := Do(s, Record(i, e));
    var o := Step(s.threads[i], e);
    StepMovesOn(s.threads[i], e);
    var added := Sent(s, i, e, o);
    forall k | 0 <= k < |s'.queue| ensures Placed(s', s'.queue[k]) {
      if k < |s.queue| {
        assert Placed(s, s.queue[k]);
      }
    }
    forall k, l | 0 <= k < l < |s'.queue| ensures Ordered(s'.queue[k], s'.queue[l]) {
      assert Placed(s, s.queue[k]);
      if l < |s.queue| {
        assert Ordered(s.queue[k], s.queue[l]);
      }
    }
  }

  lemma JpegKeeps(s: System, size: nat)
    requires Inv(s)
    ensures Inv(Do(s, Jpeg(size)))
  {
    var s' := Do(s, Jpeg(size));
    forall k | 0 <= k < |s'.queue| ensures Placed(s', s'.queue[k]) {
      if k < |s.queue| {
        assert Placed(s, s.queue[k]);
      }
    }
  }

  /** A split is only ever started by a report of the current segment. */
  lemma TriggerIsCurrent(s: System)
    requires Inv(s) && Enabled(s, Receive) && Splits(s.control, s.queue[0])
    ensures s.queue[0].segment == s.segment
  {
    assert Placed(s, s.queue[0]);
  }

  lemma ReceiveKeeps(s: System)
    requires Inv(s) && Enabled(s, Receive)
    ensures Inv(Do(s, Receive))
  {
    var s' := Do(s, Receive);
    var m := s.queue[0];
    assert Placed(s, m);
    forall k | 0 <= k < |s'.queue|
      ensures Placed(s', s'.queue[k])
      ensures Splits(s.control, m) && !s'.queue[k].jpeg && s'.queue[k].sindex == m.sindex ==> s'.queue[k].size >= LIMIT
    {
      assert s'.queue[k] == s.queue[k + 1];
      assert Placed(s, s.queue[k + 1]) && Ordered(m, s.queue[k + 1]);
    }
    forall k, l | 0 <= k < l < |s'.queue| ensures Ordered(s'.queue[k], s'.queue[l]) {
      assert Ordered(s.queue[k + 1], s.queue[l + 1]);
    }
  }

  lemma RestartKeeps(s: System)
    requires Inv(s) && Enabled(s, Restart)
    ensures Inv(Do(s, Restart))
  {
    var s' := Do(s, Restart);
    forall k | 0 <= k < |s'.queue| ensures Placed(s', s'.queue[k]) {
      assert Placed(s, s.queue[k]);
    }
  }

  lemma ActionKeeps(s: System, a: Action)
    requires Inv(s) && Enabled(s, a)
    ensures Inv(Do(s, a))
  {
    match a
    case Record(i, e) => RecordKeeps(s, i, e);
    case Jpeg(size) => JpegKeeps(s, size);
    case Receive => ReceiveKeeps(s);
    case Join =>
      assert forall m :: Placed(s, m) ==> Placed(Do(s, Join), m);
    case Restart => RestartKeeps(s);
  }

  lemma {:induction false} RunKeeps(ss: seq<System>, acts: seq<Action>, n: nat, k: nat)
    requires IsRun(ss, acts, n) && k < |ss|
    ensures Inv(ss[k])
  {
    if k > 0 {
      var h := k - 1;
      RunKeeps(ss, acts, n, h);
      assert Goes(ss[h], acts[h], ss[h + 1]);
      ActionKeeps(ss[h], acts[h]);
    }
  }

  /** In every run of recorder threads and controller, with any losses in the queue, every file split is started
      by a report of the segment being recorded, never by a leftover over-limit report of a closed one. */
  lemma SplitsAreCurrent(ss: seq<System>, acts: seq<Action>, n: nat, k: nat)
    requires IsRun(ss, acts, n) && k < |acts|
    requires acts[k] == Receive && ss[k + 1].closing.Some?
    ensures ss[k].queue[0].segment == ss[k].segment && ss[k].queue[0].size >= LIMIT && !ss[k].queue[0].jpeg
  {
    RunKeeps(ss, acts, n, k);
    assert Goes(ss[k], acts[k], ss[k + 1]);
    TriggerIsCurrent(ss[k]);
  }

  // ----- when the controller is armed -----

  /** A report that re-arms: under the limit, from the stream that made the controller split. */
  ghost predicate Rearms(s: System) {
    s.queue != [] && !s.queue[0].jpeg && s.queue[0].size < LIMIT && s.queue[0].sindex == s.control.splitSindex
  }

  /** Since the restart at action `j`, no re-arming report has been received before action `k`. */
  ghost predicate SilentSince(ss: seq<System>, acts: seq<Action>, j: nat, k: nat)
    requires j < k <= |acts| < |ss|
  {
    acts[j] == Restart && forall m :: j < m < k ==> !(acts[m] == Receive && Rearms(ss[m]))
  }

  /** In every run the controller refuses to split exactly while, since the last restart, no under-limit report of
      the stream that caused it has been received. */
  lemma {:induction false} ArmedIff(ss: seq<System>, acts: seq<Action>, n: nat, k: nat)
    requires IsRun(ss, acts, n) && k < |ss|
    ensures !ss[k].control.splitFlag <==> exists j: nat :: j < k && SilentSince(ss, acts, j, k)
  {
    if k > 0 {
      ArmedIff(ss, acts, n, k - 1);
      RunKeeps(ss, acts, n, k - 1);
      var h := k - 1;
      assert Goes(ss[h], acts[h], ss[h + 1]);
      if acts[h] == Restart {
        assert SilentSince(ss, acts, h, k);
      } else {
        forall j: nat | j < h && SilentSince(ss, acts, j, h) && !(acts[h] == Receive && Rearms(ss[h]))
          ensures SilentSince(ss, acts, j, k) {
        }
        forall j: nat | j < k && SilentSince(ss, acts, j, k) ensures j < h && SilentSince(ss, acts, j, h) {
        }
      }
    }
  }
}
