/** check_mp4_split_totaltime: the streams of a finished segment are given one common length. */
module SplitTimes {

  /** A time of zero marks a stream that reported nothing in the segment. */
  predicate Active(ts: seq<int>, i: nat) {
    i < |ts| && ts[i] != 0
  }

  /** `m` is the shortest time of an active stream, if there is one. */
  ghost predicate IsShortest(ts: seq<int>, m: int) {
    && (forall i: nat :: Active(ts, i) ==> m <= ts[i])
    && ((exists i: nat :: Active(ts, i)) ==> exists i: nat :: Active(ts, i) && ts[i] == m)
  }

  /** The value the source's loop computes: it starts from the first stream, active or not. */
  function Common(ts: seq<int>): int
    requires ts != []
  {
    if |ts| == 1 then ts[0]
    else
      var m := Common(ts[..|ts| - 1]);
      var t := ts[|ts| - 1];
      if m >= t && t != 0 then t else m
  }

  function Levelled(ts: seq<int>): seq<int>
    requires ts != []
  {
    seq(|ts|, i requires 0 <= i < |ts| => if ts[i] != 0 then Common(ts) else 0)
  }

  /** check_mp4_split_totaltime on the times of the first `n` streams. */
  method CheckSplitTotalTime(ts: array<int>, n: nat)
    requires 0 < n <= ts.Length
    modifies ts
    ensures ts[..n] == Levelled(old(ts[..n])) && ts[n..] == old(ts[n..])
  {
    ghost var was := ts[..];
    var min := ts[0];
    assert was[..1] == [was[0]];
    var i := 1;
    while i < n
      invariant 1 <= i <= n && ts[..] == was
      invariant min == Common(was[..i])
    {
      assert was[..i + 1][..i] == was[..i];
      if min >= ts[i] && 0 != ts[i] {
        min := ts[i];
      }
      i := i + 1;
    }
    i := 0;
    while i < n
      invariant i <= n
      invariant forall j :: 0 <= j < i ==> ts[j] == if was[j] != 0 then min else 0
      invariant forall j :: i <= j < ts.Length ==> ts[j] == was[j]
    {
      if 0 != ts[i] {
        ts[i] := min;
      }
      i := i + 1;
    }
    assert was[..n] == old(ts[..n]);
  }

  lemma {:induction false} CommonOf(ts: seq<int>)
    requires ts != [] && forall i :: 0 <= i < |ts| ==> ts[i] >= 0
    ensures ts[0] == 0 ==> Common(ts) == 0
    ensures ts[0] != 0 ==> (forall i: nat :: Active(ts, i) ==> Common(ts) <= ts[i]) &&
                           exists i: nat :: Active(ts, i) && ts[i] == Common(ts)
  {
    if |ts| == 1 {
      assert ts[0] != 0 ==> Active(ts, 0);
    } else {
      var us := ts[..|ts| - 1];
      CommonOf(us);
      if ts[0] != 0 {
        var k: nat :| Active(us, k) && us[k] == Common(us);
        assert Active(ts, k) && ts[k] == Common(us);
        assert Common(ts) == Common(us) || (Active(ts, |ts| - 1) && Common(ts) == ts[|ts| - 1]);
        forall i: nat | Active(ts, i) ensures Common(ts) <= ts[i] {
          assert i < |us| ==> Active(us, i);
        }
      }
    }
  }

  /** The streams are levelled to the shortest active one exactly when the first stream is active or none is:
      an idle first stream makes the loop start from zero, which wipes out every other time. */
  lemma LevelsToShortestIff(ts: seq<int>)
    requires ts != [] && forall i :: 0 <= i < |ts| ==> ts[i] >= 0
    ensures IsShortest(ts, Common(ts)) <==> Active(ts, 0) || forall i: nat :: !Active(ts, i)
    ensures !IsShortest(ts, Common(ts)) ==> forall i :: 0 <= i < |ts| ==> Levelled(ts)[i] == 0
  {
    CommonOf(ts);
  }

  /** With an active first stream every active stream gets the shortest active time, and an idle one stays idle. */
  lemma LevelledIs(ts: seq<int>, m: int)
    requires Active(ts, 0) && (forall i :: 0 <= i < |ts| ==> ts[i] >= 0) && IsShortest(ts, m)
    ensures |Levelled(ts)| == |ts|
    ensures forall i :: 0 <= i < |ts| ==> Levelled(ts)[i] == if ts[i] == 0 then 0 else m
  {
    CommonOf(ts);
    var i: nat :| Active(ts, i) && ts[i] == Common(ts);
    var j: nat :| Active(ts, j) && ts[j] == m;
  }

  /** An idle first stream wipes out the other's five seconds. */
  lemma IdleFirstWipes()
    ensures Levelled([0, 5]) == [0, 0]
  {
    assert [0, 5][..1] == [0];
    assert Common([0]) == 0 && Common([0, 5]) == 0;
  }
}
