/** What a split lists: the latest report of every stream, which may be a leftover of a closed segment. */
module SplitListing {
  import opened CText
  import opened RecorderThread
  import opened RecorderTiming
  import opened SplitProtocol

  /** The latest reports against the threads and the queue: each is of its stream and no newer than what is queued, and
      there are none while threads are being closed. */
  ghost predicate LatestFits(s: System) {
    && |s.control.latest| == |s.threads|
    && (s.closing.Some? ==> s.control.latest == Nobody(|s.threads|))
    && forall i :: 0 <= i < |s.threads| && s.control.latest[i].Some? ==> LatestOf(s, i, s.control.latest[i].value)
  }

  ghost predicate LatestOf(s: System, i: nat, m: Message) {
    && !m.jpeg && m.sindex == i && m.segment <= s.segment
    && forall j :: 0 <= j < |s.queue| && !s.queue[j].jpeg ==> m.segment <= s.queue[j].segment
  }

  lemma LatestKept(s: System, a: Action)
    requires Inv(s) && Enabled(s, a) && LatestFits(s)
    ensures LatestFits(Do(s, a))
  {
    var s' := Do(s, a);
    match a
    case Receive => LatestReceived(s);
    case Record(k, e) =>
      forall i | 0 <= i < |s.threads| && s'.control.latest[i].Some?
        ensures LatestOf(s', i, s'.control.latest[i].value) {
        assert LatestOf(s, i, s.control.latest[i].value);
      }
    case Jpeg(_) =>
      forall i | 0 <= i < |s.threads| && s'.control.latest[i].Some?
        ensures LatestOf(s', i, s'.control.latest[i].value) {
        assert LatestOf(s, i, s.control.latest[i].value);
      }
    case Join =>
    case Restart =>
  }

  lemma LatestReceived(s: System)
    requires Inv(s) && Enabled(s, Receive) && LatestFits(s)
    ensures LatestFits(Do(s, Receive))
  {
    var s', m := Do(s, Receive), s.queue[0];
    if !Splits(s.control, m) {
      forall i | 0 <= i < |s.threads| && s'.control.latest[i].Some?
        ensures LatestOf(s', i, s'.control.latest[i].value) {
        if !m.jpeg && m.sindex == i {
          NewestFirst(s);
        } else {
          assert LatestOf(s, i, s.control.latest[i].value);
        }
      }
    }
  }

  /** What is received is of the current segment or an earlier one, and no newer than what stays queued. */
  lemma NewestFirst(s: System)
    requires Inv(s) && s.queue != [] && !s.queue[0].jpeg
    ensures s.queue[0].segment <= s.segment
    ensures forall j :: 1 <= j < |s.queue| && !s.queue[j].jpeg ==> s.queue[0].segment <= s.queue[j].segment
  {
    assert Placed(s, s.queue[0]);
    forall j | 1 <= j < |s.queue| && !s.queue[j].jpeg ensures s.queue[0].segment <= s.queue[j].segment {
      assert Ordered(s.queue[0], s.queue[j]);
    }
  }

  lemma {:induction false} RunLatest(ss: seq<System>, acts: seq<Action>, n: nat, k: nat)
    requires IsRun(ss, acts, n) && k < |ss|
    ensures LatestFits(ss[k]) && |ss[k].threads| == n
  {
    if k > 0 {
      var h := k - 1;
      RunLatest(ss, acts, n, h);
      RunKeeps(ss, acts, n, h);
      assert Goes(ss[h], acts[h], ss[h + 1]);
      LatestKept(ss[h], acts[h]);
    }
  }

  lemma {:induction false} SegmentsRise(ss: seq<System>, acts: seq<Action>, n: nat, j: nat, k: nat)
    requires IsRun(ss, acts, n) && j <= k < |ss|
    ensures ss[j].segment <= ss[k].segment
  {
    if j < k {
      var h := k - 1;
      SegmentsRise(ss, acts, n, j, h);
      assert Goes(ss[h], acts[h], ss[h + 1]);
    }
  }

  /** Action `j` receives a report of stream `i` from the segment being recorded. */
  ghost predicate ReceivesCurrent(ss: seq<System>, acts: seq<Action>, j: nat, i: nat)
    requires j < |acts| < |ss|
  {
    acts[j] == Receive && ss[j].queue != [] && Current(ss[j], Some(ss[j].queue[0]), i)
  }

  /** A report of stream `i` from the segment being recorded. */
  ghost predicate Current(s: System, r: Option<Message>, i: nat) {
    r.Some? && !r.value.jpeg && r.value.sindex == i && r.value.segment == s.segment
  }

  /** Before action `k`, a report of stream `i` has been received from the segment being recorded then. */
  ghost predicate ReceivedBefore(ss: seq<System>, acts: seq<Action>, k: nat, i: nat)
    requires k <= |acts| < |ss|
  {
    exists j: nat :: j < k && ReceivesCurrent(ss, acts, j, i) && ss[j].segment == ss[k].segment
  }

  lemma ReceivedStep(ss: seq<System>, acts: seq<Action>, n: nat, k: nat, i: nat)
    requires IsRun(ss, acts, n) && k < |acts|
    ensures ss[k + 1].segment == ss[k].segment ==>
              (ReceivedBefore(ss, acts, k + 1, i) <==>
               ReceivedBefore(ss, acts, k, i) || ReceivesCurrent(ss, acts, k, i))
    ensures ss[k + 1].segment != ss[k].segment ==> !ReceivedBefore(ss, acts, k + 1, i)
  {
    var h := k + 1;
    if ss[h].segment == ss[k].segment {
      if ReceivedBefore(ss, acts, k, i) {
        var j: nat :| j < k && ReceivesCurrent(ss, acts, j, i) && ss[j].segment == ss[k].segment;
        assert j < h && ReceivesCurrent(ss, acts, j, i) && ss[j].segment == ss[h].segment;
      }
      if ReceivesCurrent(ss, acts, k, i) {
        assert k < h && ss[k].segment == ss[h].segment;
      }
    } else {
      SegmentsRise(ss, acts, n, k, h);
      forall j: nat | j < h ensures ss[j].segment != ss[h].segment {
        SegmentsRise(ss, acts, n, j, k);
      }
    }
  }

  /** While no threads are being closed, a stream's latest report is of the current segment exactly when one of that
      segment has been received. */
  lemma {:induction false} LatestIff(ss: seq<System>, acts: seq<Action>, n: nat, k: nat, i: nat)
    requires IsRun(ss, acts, n) && k < |ss| && i < n && ss[k].closing == None
    ensures |ss[k].control.latest| == n
    ensures Current(ss[k], ss[k].control.latest[i], i) <==> ReceivedBefore(ss, acts, k, i)
  {
    RunLatest(ss, acts, n, k);
    if k > 0 {
      var h := k - 1;
      assert Goes(ss[h], acts[h], ss[h + 1]);
      RunLatest(ss, acts, n, h);
      RunKeeps(ss, acts, n, h);
      ReceivedStep(ss, acts, n, h, i);
      if acts[h] != Restart {
        LatestIff(ss, acts, n, h, i);
        LatestStep(ss[h], acts[h], i);
      }
    }
  }

  /** One action other than a restart, with no threads being closed before or after it. */
  lemma LatestStep(s: System, a: Action, i: nat)
    requires Inv(s) && LatestFits(s) && Enabled(s, a) && a != Restart && s.closing == None && i < |s.threads|
    requires Do(s, a).closing == None
    ensures var s' := Do(s, a);
            && s'.segment == s.segment && |s'.control.latest| == |s.threads|
            && (Current(s', s'.control.latest[i], i) <==>
                Current(s, s.control.latest[i], i) || (a == Receive && Current(s, Some(s.queue[0]), i)))
  {
    if a == Receive && !s.queue[0].jpeg && s.queue[0].sindex == i && Current(s, s.control.latest[i], i) {
      assert LatestOf(s, i, s.control.latest[i].value);
      NewestFirst(s);
    }
  }

  /** In every run, a split lists for a stream the file being recorded exactly when a report of the current
      segment has been received from it; otherwise it lists nothing, or a leftover of a segment already listed. */
  lemma ListedCurrentIff(ss: seq<System>, acts: seq<Action>, n: nat, k: nat, i: nat)
    requires IsRun(ss, acts, n) && k < |acts| && i < n && acts[k] == Receive && ss[k + 1].closing.Some?
    ensures var listed := Stored(ss[k].control, ss[k].queue[0]);
            && |listed| == n
            && (Current(ss[k], listed[i], i) <==> ReceivedBefore(ss, acts, k, i) || ReceivesCurrent(ss, acts, k, i))
            && (listed[i].Some? && !Current(ss[k], listed[i], i) ==> listed[i].value.segment < ss[k].segment)
  {
    assert Goes(ss[k], acts[k], ss[k + 1]);
    RunLatest(ss, acts, n, k);
    RunKeeps(ss, acts, n, k);
    LatestIff(ss, acts, n, k, i);
    var m := ss[k].queue[0];
    TriggerIsCurrent(ss[k]);
    if ss[k].control.latest[i].Some? {
      assert LatestOf(ss[k], i, ss[k].control.latest[i].value);
    }
  }

  /** An I-frame of `len` bytes that is muxed and reported. */
  function Picture(len: nat): Event {
    Data(Resume, Frame(false, true, 0, len, false), true, true)
  }

  /** A recorder's turn with such a frame: its report goes to the queue. */
  lemma PictureRecorded(s: System, i: nat, len: nat)
    requires Enabled(s, Record(i, Picture(len))) && !s.threads[i].done
    ensures var s' := Do(s, Record(i, Picture(len)));
            && s'.queue == s.queue + [Message(i, s.segment, Bytes(s.threads[i]) + len, false)]
            && Bytes(s'.threads[i]) == Bytes(s.threads[i]) + len && !s'.threads[i].done
            && (forall k :: 0 <= k < |s.threads| && k != i ==> s'.threads[k] == s.threads[k])
            && |s'.threads| == |s.threads| && s'.control == s.control && s'.segment == s.segment && s'.closing ==
              s.closing
  {
  }

  /** One more action. */
  lemma Extended(ss: seq<System>, acts: seq<Action>, n: nat, a: Action, s: System)
    requires IsRun(ss, acts, n) && Goes(ss[|acts|], a, s)
    ensures IsRun(ss + [s], acts + [a], n)
  {
    var tt, all := ss + [s], acts + [a];
    forall k | 0 <= k < |all| ensures Goes(tt[k], all[k], tt[k + 1]) {
      if k < |acts| {
        assert Goes(ss[k], acts[k], ss[k + 1]);
      }
    }
  }

  const FIRST_REPORT := Message(1, 1, 1, false)
  const SECOND_REPORT := Message(1, 1, 2, false)

  /** A state in which only thread 0 and thread 1 exist and have written `b0` and `b1` bytes. */
  ghost predicate Two(s: System, b0: nat, b1: nat) {
    && |s.threads| == 2 && Bytes(s.threads[0]) == b0 && Bytes(s.threads[1]) == b1
    && !s.threads[0].done && !s.threads[1].done
  }

  lemma Recorded(s: System, i: nat, len: nat, b0: nat, b1: nat) returns (s': System)
    requires Two(s, b0, b1) && i < 2 && s.closing == None
    ensures Goes(s, Record(i, Picture(len)), s')
    ensures Two(s', if i == 0 then b0 + len else b0, if i == 1 then b1 + len else b1)
    ensures s'.queue == s.queue + [Message(i, s.segment, (if i == 0 then b0 else b1) + len, false)]
    ensures s'.control == s.control && s'.segment == s.segment && s'.closing == None
  {
    PictureRecorded(s, i, len);
    s' := Do(s, Record(i, Picture(len)));
  }

  lemma Received(s: System, m: Message, rest: seq<Message>) returns (s': System)
    requires s.closing == None && s.queue == [m] + rest
    ensures Goes(s, Receive, s') && s'.threads == s.threads && s'.segment == s.segment && s'.queue == rest
    ensures s'.control == Heard(s.control, m) && s'.closing == if Splits(s.control, m) then Some(0) else None
  {
    s' := Do(s, Receive);
  }

  /** Stream 1 reports twice and stream 0 goes over the limit in between: at the split the second report is queued. */
  lemma FirstSplit() returns (ss: seq<System>, acts: seq<Action>)
    ensures IsRun(ss, acts, 2) && |acts| == 5 && acts[4] == Receive
    ensures ss[4].segment == 1 && ss[4].queue != []
    ensures Stored(ss[4].control, ss[4].queue[0]) == [Some(Message(0, 1, LIMIT, false)), Some(FIRST_REPORT)]
    ensures ss[5].control == Control(true, 0, Nobody(2)) && ss[5].segment == 1 && |ss[5].threads| == 2
    ensures ss[5].queue == [SECOND_REPORT] && ss[5].closing == Some(0)
  {
    var s0 := Start(2);
    ss, acts := [s0], [];
    var s1 := Recorded(s0, 1, 1, 0, 0);
    Extended(ss, acts, 2, Record(1, Picture(1)), s1);
    ss, acts := ss + [s1], acts + [Record(1, Picture(1))];
    var s2 := Received(s1, FIRST_REPORT, []);
    Extended(ss, acts, 2, Receive, s2);
    ss, acts := ss + [s2], acts + [Receive];
    var s3 := Recorded(s2, 0, LIMIT, 0, 1);
    Extended(ss, acts, 2, Record(0, Picture(LIMIT)), s3);
    ss, acts := ss + [s3], acts + [Record(0, Picture(LIMIT))];
    var s4 := Recorded(s3, 1, 1, LIMIT, 1);
    Extended(ss, acts, 2, Record(1, Picture(1)), s4);
    ss, acts := ss + [s4], acts + [Record(1, Picture(1))];
    var s5 := Received(s4, Message(0, 1, LIMIT, false), [SECOND_REPORT]);
    Extended(ss, acts, 2, Receive, s5);
    ss, acts := ss + [s5], acts + [Receive];
  }

  /** The threads are joined and started again. */
  lemma Restarting(before: seq<System>, done: seq<Action>) returns (ss: seq<System>, acts: seq<Action>)
    requires IsRun(before, done, 2) && before[|done|].closing == Some(0) && |before[|done|].threads| == 2
    ensures before <= ss && done <= acts && IsRun(ss, acts, 2) && |acts| == |done| + 3
    ensures var s, s' := before[|done|], ss[|acts|];
            && s'.control == s.control.(splitFlag := false) && s'.segment == s.segment + 1 && s'.queue == s.queue
            && s'.closing == None && Two(s', 0, 0)
  {
    var s := before[|done|];
    var s1 := Do(s, Join);
    Extended(before, done, 2, Join, s1);
    ss, acts := before + [s1], done + [Join];
    var s2 := Do(s1, Join);
    Extended(ss, acts, 2, Join, s2);
    ss, acts := ss + [s2], acts + [Join];
    var s3 := Do(s2, Restart);
    Extended(ss, acts, 2, Restart, s3);
    ss, acts := ss + [s3], acts + [Restart];
  }

  /** The leftover is received, then stream 0 reports under the limit and over it. */
  lemma SecondSplit(before: seq<System>, done: seq<Action>) returns (ss: seq<System>, acts: seq<Action>)
    requires IsRun(before, done, 2)
    requires var s := before[|done|];
             && s.control == Control(false, 0, Nobody(2)) && s.segment == 2 && s.queue == [SECOND_REPORT]
             && s.closing == None && Two(s, 0, 0)
    ensures before <= ss && done <= acts && IsRun(ss, acts, 2) && |acts| == |done| + 5 && acts[|done| + 4] == Receive
    ensures var s := ss[|done| + 4];
            && s.segment == 2 && s.queue != [] && ss[|done| + 5].closing.Some?
            && Stored(s.control, s.queue[0]) == [Some(Message(0, 2, LIMIT + 1, false)), Some(SECOND_REPORT)]
  {
    var s := before[|done|];
    var s1 := Received(s, SECOND_REPORT, []);
    Extended(before, done, 2, Receive, s1);
    ss, acts := before + [s1], done + [Receive];
    var s2 := Recorded(s1, 0, 1, 0, 0);
    Extended(ss, acts, 2, Record(0, Picture(1)), s2);
    ss, acts := ss + [s2], acts + [Record(0, Picture(1))];
    var s3 := Received(s2, Message(0, 2, 1, false), []);
    Extended(ss, acts, 2, Receive, s3);
    ss, acts := ss + [s3], acts + [Receive];
    var s4 := Recorded(s3, 0, LIMIT, 1, 0);
    Extended(ss, acts, 2, Record(0, Picture(LIMIT)), s4);
    ss, acts := ss + [s4], acts + [Record(0, Picture(LIMIT))];
    var s5 := Received(s4, Message(0, 2, LIMIT + 1, false), []);
    Extended(ss, acts, 2, Receive, s5);
    ss, acts := ss + [s5], acts + [Receive];
  }

  /** A run in which stream 1's file of segment 1 is listed at both splits: its second report is still queued when
      stream 0 causes the first one, and it has none of segment 2 before the second. */
  lemma LeftoverListedAgain() returns (ss: seq<System>, acts: seq<Action>)
    ensures IsRun(ss, acts, 2) && |acts| == 13 && acts[4] == acts[12] == Receive
    ensures ss[4].segment == 1 && ss[4].queue != [] && ss[5].closing.Some?
    ensures Stored(ss[4].control, ss[4].queue[0]) == [Some(Message(0, 1, LIMIT, false)), Some(FIRST_REPORT)]
    ensures ss[12].segment == 2 && ss[12].queue != [] && ss[13].closing.Some?
    ensures Stored(ss[12].control, ss[12].queue[0]) == [Some(Message(0, 2, LIMIT + 1, false)), Some(SECOND_REPORT)]
  {
    var first, done := FirstSplit();
    var again, more := Restarting(first, done);
    assert first[5] == again[5] && first[4] == again[4] && more[4] == Receive;
    ss, acts := SecondSplit(again, more);
    assert ss[4] == again[4] && ss[5] == again[5] && acts[4] == more[4];
  }
}
