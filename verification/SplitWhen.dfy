/** When the controller splits, in terms of the reports it has received. */
module SplitWhen {
  import opened CText
  import opened RecorderThread
  import opened RecorderTiming
  import opened SplitProtocol

  /** Action `k` is a receive that starts a split. */
  ghost predicate IsSplit(ss: seq<System>, acts: seq<Action>, k: nat)
    requires |ss| == |acts| + 1
  {
    k < |acts| && acts[k] == Receive && ss[k].queue != [] && ss[k + 1].closing.Some?
  }

  /** Action `c` is the last split before action `k`. */
  ghost predicate LastSplit(ss: seq<System>, acts: seq<Action>, c: nat, k: nat)
    requires |ss| == |acts| + 1
  {
    c < k && IsSplit(ss, acts, c) && forall m: nat :: c < m < k ==> !IsSplit(ss, acts, m)
  }

  /** The controller remembers the stream whose report started the last split, or none. */
  lemma {:induction false} SplitterRemembered(ss: seq<System>, acts: seq<Action>, n: nat, k: nat)
    requires IsRun(ss, acts, n) && k < |ss|
    ensures ss[k].control.splitSindex == -1 ==> forall c: nat :: c < k ==> !IsSplit(ss, acts, c)
    ensures ss[k].control.splitSindex != -1 ==>
              exists c: nat :: LastSplit(ss, acts, c, k) && ss[c].queue[0].sindex == ss[k].control.splitSindex
  {
    if k > 0 {
      var h := k - 1;
      SplitterRemembered(ss, acts, n, h);
      assert Goes(ss[h], acts[h], ss[k]);
      if IsSplit(ss, acts, h) {
        assert LastSplit(ss, acts, h, k);
      } else if ss[k].control.splitSindex != -1 {
        assert ss[k].control.splitSindex == ss[h].control.splitSindex;
        var c: nat :| LastSplit(ss, acts, c, h) && ss[c].queue[0].sindex == ss[h].control.splitSindex;
        assert LastSplit(ss, acts, c, k);
      }
    }
  }

  /** That stream, seen from any later state: there is only one last split. */
  lemma SplitterIs(ss: seq<System>, acts: seq<Action>, n: nat, c: nat, k: nat)
    requires IsRun(ss, acts, n) && k < |ss| && LastSplit(ss, acts, c, k)
    ensures ss[k].control.splitSindex == ss[c].queue[0].sindex
  {
    SplitterRemembered(ss, acts, n, k);
    assert IsSplit(ss, acts, c);
    var d: nat :| LastSplit(ss, acts, d, k) && ss[d].queue[0].sindex == ss[k].control.splitSindex;
    assert IsSplit(ss, acts, d);
  }

  /** The controller takes an under-limit report of a recorder's file from stream `i` at action `m`. */
  ghost predicate TakesSmall(ss: seq<System>, acts: seq<Action>, m: nat, i: nat)
    requires |ss| == |acts| + 1
  {
    && m < |acts| && acts[m] == Receive && ss[m].queue != []
    && var r := ss[m].queue[0]; !r.jpeg && r.sindex == i && r.size < LIMIT
  }

  /** Since the restart that followed the last split, no under-limit report has come from the stream that started it. */
  ghost predicate Held(ss: seq<System>, acts: seq<Action>, c: nat, j: nat, k: nat)
    requires |ss| == |acts| + 1
  {
    && LastSplit(ss, acts, c, k) && c < j < k <= |acts| && acts[j] == Restart
    && forall m: nat :: j < m < k ==> !TakesSmall(ss, acts, m, ss[c].queue[0].sindex)
  }

  /** While the handshake is silent nothing splits, so the stream it waits for stays the same. */
  lemma SilentIsHeld(ss: seq<System>, acts: seq<Action>, n: nat, j: nat, k: nat) returns (c: nat)
    requires IsRun(ss, acts, n) && j < k <= |acts| && SilentSince(ss, acts, j, k)
    ensures Held(ss, acts, c, j, k)
  {
    RunKeeps(ss, acts, n, j);
    assert Goes(ss[j], acts[j], ss[j + 1]);
    SplitterRemembered(ss, acts, n, j);
    c :| LastSplit(ss, acts, c, j) && ss[c].queue[0].sindex == ss[j].control.splitSindex;
    forall m: nat | c < m < k ensures !IsSplit(ss, acts, m) {
      if j < m {
        SilentNoSplit(ss, acts, n, j, k, m);
      }
    }
    assert LastSplit(ss, acts, c, k);
    forall m: nat | j < m < k ensures !TakesSmall(ss, acts, m, ss[c].queue[0].sindex) {
      assert LastSplit(ss, acts, c, m);
      SplitterIs(ss, acts, n, c, m);
    }
  }

  lemma SilentNoSplit(ss: seq<System>, acts: seq<Action>, n: nat, j: nat, k: nat, m: nat)
    requires IsRun(ss, acts, n) && j < m < k <= |acts| && SilentSince(ss, acts, j, k)
    ensures !IsSplit(ss, acts, m)
  {
    assert SilentSince(ss, acts, j, m);
    ArmedIff(ss, acts, n, m);
    assert Goes(ss[m], acts[m], ss[m + 1]);
  }

  lemma HeldIsSilent(ss: seq<System>, acts: seq<Action>, n: nat, c: nat, j: nat, k: nat)
    requires IsRun(ss, acts, n) && Held(ss, acts, c, j, k)
    ensures SilentSince(ss, acts, j, k)
  {
    forall m | j < m < k ensures !(acts[m] == Receive && Rearms(ss[m])) {
      assert LastSplit(ss, acts, c, m);
      SplitterIs(ss, acts, n, c, m);
      assert !TakesSmall(ss, acts, m, ss[c].queue[0].sindex);
    }
  }

  /** In every run, with any losses, a report that is received starts a split exactly when it is a report of at least
      the limit on a recorder's file, from any stream, and the controller is not held: there has been no split yet, or
      an under-limit report has come from the stream that started the last one since the restart after it. */
  lemma SplitsIff(ss: seq<System>, acts: seq<Action>, n: nat, k: nat)
    requires IsRun(ss, acts, n) && k < |acts| && acts[k] == Receive
    ensures ss[k].queue != []
    ensures var m := ss[k].queue[0];
            ss[k + 1].closing.Some?
            <==> !m.jpeg && m.size >= 700_000_000 && !exists c: nat, j: nat :: Held(ss, acts, c, j, k)
  {
    assert Goes(ss[k], acts[k], ss[k + 1]);
    ArmedIff(ss, acts, n, k);
    if !ss[k].control.splitFlag {
      var j: nat :| j < k && SilentSince(ss, acts, j, k);
      var c := SilentIsHeld(ss, acts, n, j, k);
    } else {
      forall c: nat, j: nat ensures !Held(ss, acts, c, j, k) {
        if Held(ss, acts, c, j, k) {
          HeldIsSilent(ss, acts, n, c, j, k);
        }
      }
    }
  }
}
