/** What the reports of a recorder thread say, counted from the events it met. */
module RecorderReports {
  import opened CText
  import opened RecorderThread
  import opened RecorderTiming

  /** The bytes of a frame that reach the file: none when the muxer fails. */
  function Taken(e: Event): nat {
    if e.Data? && e.muxed then e.frame.len else 0
  }

  /** The bytes of all frames of both tracks written in the first `k` turns. */
  function BytesWritten(es: seq<Event>, k: nat): nat
    requires k <= |es|
  {
    if k == 0 then 0 else BytesWritten(es, k - 1) + (if WriteAt(es, k - 1).Some? then Taken(es[k - 1]) else 0)
  }

  /** A turn's own account: what it writes is added to the sizes, and it reports exactly when it writes video. */
  ghost predicate Accounts(s: State, e: Event, o: Outcome) {
    && o.state.video.size + o.state.audio.size
         == s.video.size + s.audio.size + (if o.write.Some? then Taken(e) else 0)
    && (o.report.Some? <==> o.write.Some? && !o.write.value.audio)
    && (o.write.Some? ==> e.Data? && o.write.value.audio == e.frame.audio
                          && o.write.value.iframe == (e.frame.audio || e.frame.iframe))
    && (o.report.Some? ==> Truthful(o, e))
  }

  /** Time in whole seconds of the stamp just written, or zero when no byte was; the bytes so far; the frame's flag. */
  ghost predicate Truthful(o: Outcome, e: Event) {
    o.report.Some? && o.write.Some? && e.Data? &&
    var r := o.report.value;
    && (Taken(e) == 0 ==> r.totalTime == 0)
    && (Taken(e) > 0 ==> 1000 * r.totalTime <= o.write.value.pts < 1000 * (r.totalTime + 1))
    && r.totalSize == o.state.video.size + o.state.audio.size && r.blue == e.frame.blue
  }

  lemma FrameAccounts(s: State, f: Frame, e: Event)
    requires e.Data? && f == e.frame
    ensures Accounts(s, e, OnFrame(s, f, Taken(e)))
  {
  }

  lemma StepAccounts(s: State, e: Event)
    ensures Accounts(s, e, Step(s, e))
  {
    if !s.done && e.Data? && e.status != Pause {
      FrameAccounts(Restarted(s, e.frame), e.frame, e);
    }
  }

  lemma {:induction false} SizesAreBytes(es: seq<Event>, k: nat)
    requires k <= |es|
    ensures At(es, k).video.size + At(es, k).audio.size == BytesWritten(es, k)
  {
    if k > 0 {
      SizesAreBytes(es, k - 1);
      StepAccounts(At(es, k - 1), es[k - 1]);
    }
  }

  /** In every run a turn reports exactly when it writes a video frame. The report gives the frame's stamp in whole
      seconds, or zero when the muxer took none of it, the bytes of all frames written so far, and the frame's flag. */
  lemma ReportSays(es: seq<Event>, k: nat)
    requires k < |es|
    ensures ReportAt(es, k).Some? <==> WriteAt(es, k).Some? && !WriteAt(es, k).value.audio
    ensures ReportAt(es, k).Some? ==>
              var r, pts := ReportAt(es, k).value, WriteAt(es, k).value.pts;
              && es[k].Data? && r.blue == es[k].frame.blue && r.totalSize == BytesWritten(es, k + 1)
              && (if Taken(es[k]) > 0 then 1000 * r.totalTime <= pts < 1000 * (r.totalTime + 1) else r.totalTime == 0)
  {
    StepAccounts(At(es, k), es[k]);
    SizesAreBytes(es, k + 1);
  }

  /** In every run a frame is written to its own track, and only audio and I-frames are marked as such. */
  lemma WriteSays(es: seq<Event>, k: nat)
    requires k < |es| && WriteAt(es, k).Some?
    ensures es[k].Data? && WriteAt(es, k).value.audio == es[k].frame.audio
    ensures WriteAt(es, k).value.iframe == (es[k].frame.audio || es[k].frame.iframe)
  {
    StepAccounts(At(es, k), es[k]);
  }

  // ----- what reaches the queue and the file -----

  /** How many of the first `n` turns have a value. */
  function Before<T>(os: seq<Option<T>>, n: nat): nat
    requires n <= |os|
  {
    if n == 0 then 0 else Before(os, n - 1) + (if os[n - 1].Some? then 1 else 0)
  }

  lemma {:induction false} FlatCounted<T>(os: seq<Option<T>>, n: nat)
    requires n <= |os|
    ensures |Flat(os, n)| == Before(os, n)
  {
    if n > 0 {
      FlatCounted(os, n - 1);
    }
  }

  /** Each value stands behind those of the turns before: none is lost, repeated or put before another. */
  lemma {:induction false} FlatListed<T>(os: seq<Option<T>>, n: nat, k: nat)
    requires k < n <= |os| && os[k].Some?
    ensures |Flat(os, n)| == Before(os, n) > Before(os, k) && Flat(os, n)[Before(os, k)] == os[k].value
  {
    FlatCounted(os, n);
    FlatCounted(os, n - 1);
    if k < n - 1 {
      FlatListed(os, n - 1, k);
    }
  }

  /** A turn's report reaches the queue exactly when it has one and the send succeeds, and then it stands behind the
      reports of the turns before. */
  lemma ReportsListed(es: seq<Event>, k: nat, os: seq<Option<Report>>)
    requires k < |es| && os == SentTurns(es)
    ensures os[k].Some? <==> ReportAt(es, k).Some? && es[k].Data? && es[k].sent
    ensures os[k].Some? ==>
              |Flat(os, |es|)| > Before(os, k) && Some(Flat(os, |es|)[Before(os, k)]) == ReportAt(es, k)
  {
    if os[k].Some? {
      FlatListed(os, |es|, k);
    }
  }

  /** Likewise the frames in the file. */
  lemma WritesListed(es: seq<Event>, k: nat, os: seq<Option<Write>>)
    requires k < |es| && os == WriteTurns(es) && WriteAt(es, k).Some?
    ensures |Flat(os, |es|)| > Before(os, k) && Some(Flat(os, |es|)[Before(os, k)]) == WriteAt(es, k)
  {
    FlatListed(os, |es|, k);
  }
}
