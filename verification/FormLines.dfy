/** What normalising line ends means, in terms of lines and bursts. */
module FormLines {
  import opened CText
  import opened FormString

  /** Text made of CR and LF only. */
  predicate AllBreaks(b: string) {
    forall c | c in b :: IsBreak(c)
  }

  predicate Unbroken(t: string) {
    forall c | c in t :: !IsBreak(c)
  }

  lemma {:induction false} CountIsMultiplicity(v: string, c: char)
    ensures Count(v, c) == multiset(v)[c]
  {
    if v != [] {
      CountIsMultiplicity(v[1..], c);
      assert v == [v[0]] + v[1..];
    }
  }

  lemma {:induction false} BurstIs(b: string, rest: string)
    requires AllBreaks(b) && (rest == [] || !IsBreak(rest[0]))
    ensures Burst(b + rest) == |b|
  {
    if b == [] {
      assert b + rest == rest;
    } else {
      assert b[0] in b && (b + rest)[1..] == b[1..] + rest;
      assert forall c | c in b[1..] :: c in b;
      BurstIs(b[1..], rest);
    }
  }

  /** A burst becomes `n` line feeds: none when newlines are dropped, otherwise as many as it has carriage returns or
      line feeds, whichever are more. What follows is normalised for itself. */
  lemma BurstNormal(b: string, rest: string, newlines: bool) returns (n: nat)
    requires AllBreaks(b) && (rest == [] || !IsBreak(rest[0]))
    ensures Normal(b + rest, newlines) == seq(n, _ => LF) + Normal(rest, newlines)
    ensures !newlines ==> n == 0
    ensures newlines ==> multiset(b)[CR] <= n && multiset(b)[LF] <= n && (n == multiset(b)[CR] || n == multiset(b)[LF])
  {
    BurstIs(b, rest);
    NormalSplit(b + rest, newlines);
    assert (b + rest)[..|b|] == b && (b + rest)[|b|..] == rest;
    CountIsMultiplicity(b, CR);
    CountIsMultiplicity(b, LF);
    n := BurstWorth(b + rest, 0, 0, newlines);
    assert Feeds(n) == seq(n, _ => LF);
  }

  /** Text without line ends is kept as it is, in front of whatever follows. */
  lemma {:induction false} TextNormal(t: string, rest: string, newlines: bool)
    requires Unbroken(t)
    ensures Normal(t + rest, newlines) == t + Normal(rest, newlines)
  {
    if t == [] {
      assert t + rest == rest;
    } else {
      assert t[0] in t && (t + rest)[1..] == t[1..] + rest;
      assert forall c | c in t[1..] :: c in t;
      TextNormal(t[1..], rest, newlines);
    }
  }

  // ----- whole texts -----

  /** The lines of a text, each but the last followed by `end`. */
  function Joined(lines: seq<string>, end: string): string {
    if lines == [] then []
    else if |lines| == 1 then lines[0]
    else lines[0] + (end + Joined(lines[1..], end))
  }

  /** `k` line ends. */
  function Ends(end: string, k: nat): string {
    if k == 0 then [] else end + Ends(end, k - 1)
  }

  lemma {:induction false} EndsBreak(end: string, k: nat)
    requires LineEnd(end)
    ensures AllBreaks(Ends(end, k))
  {
    if k > 0 {
      EndsBreak(end, k - 1);
      var more := Ends(end, k - 1);
      forall c | c in end + more ensures IsBreak(c) {
        assert c in end || c in more;
      }
    }
  }

  /** A character that stands once in every line end. */
  lemma {:induction false} EndsCount(end: string, k: nat, c: char)
    requires LineEnd(end)
    ensures multiset(Ends(end, k))[c] == if c in end then k else 0
  {
    if k > 0 {
      EndsCount(end, k - 1, c);
      BothCount(end, Ends(end, k - 1), c);
      EndCount(end, c);
    }
  }

  lemma BothCount(a: string, b: string, c: char)
    ensures multiset(a + b)[c] == multiset(a)[c] + multiset(b)[c]
  {
  }

  lemma EndCount(end: string, c: char)
    requires LineEnd(end)
    ensures multiset(end)[c] == if c in end then 1 else 0
  {
  }

  /** Any number of line ends of one kind become as many line feeds. */
  lemma EndsNormal(end: string, k: nat, rest: string)
    requires LineEnd(end) && (rest == [] || !IsBreak(rest[0]))
    ensures Normal(Ends(end, k) + rest, true) == Ends([LF], k) + Normal(rest, true)
  {
    EndsBreak(end, k);
    EndsCount(end, k, CR);
    EndsCount(end, k, LF);
    var n := BurstNormal(Ends(end, k), rest, true);
    assert n == k;
    FeedsAreEnds(k);
  }

  lemma {:induction false} FeedsAreEnds(k: nat)
    ensures Ends([LF], k) == seq(k, _ => LF)
  {
    if k > 0 {
      FeedsAreEnds(k - 1);
    }
  }

  lemma EndsMore(end: string, k: nat)
    ensures Ends(end, k) + end == Ends(end, k + 1)
    decreases k
  {
    if k > 0 {
      EndsMore(end, k - 1);
      assert Ends(end, k) + end == end + (Ends(end, k - 1) + end);
    } else {
      assert Ends(end, 0) + end == end + Ends(end, 0);
    }
  }

  /** An empty first line is one more line end. */
  lemma EmptyLine(lines: seq<string>, end: string, k: nat)
    requires |lines| > 1 && lines[0] == []
    ensures Ends(end, k) + Joined(lines, end) == Ends(end, k + 1) + Joined(lines[1..], end)
  {
    EndsMore(end, k);
    var more := Joined(lines[1..], end);
    assert Joined(lines, end) == end + more;
    assert Ends(end, k) + (end + more) == (Ends(end, k) + end) + more;
  }

  /** A line with text, and one line end behind it. */
  lemma FullLine(t: string, end: string, k: nat, more: string, more': string)
    requires LineEnd(end) && Unbroken(t) && t != []
    requires Normal(Ends(end, 1) + more, true) == Ends([LF], 1) + more'
    ensures Normal(Ends(end, k) + (t + (end + more)), true) == Ends([LF], k) + (t + ([LF] + more'))
  {
    assert t[0] in t && (t + (end + more))[0] == t[0];
    EndsNormal(end, k, t + (end + more));
    TextNormal(t, end + more, true);
    assert Ends(end, 1) == end + Ends(end, 0) == end && Ends([LF], 1) == [LF] + Ends([LF], 0) == [LF];
  }

  lemma LastText(t: string, end: string, k: nat)
    requires LineEnd(end) && Unbroken(t)
    ensures Normal(Ends(end, k) + t, true) == Ends([LF], k) + t
  {
    assert t == [] || t[0] in t;
    EndsNormal(end, k, t);
    TextNormal(t, [], true);
    assert t + [] == t;
  }

  /** Lines behind `k` line ends. */
  lemma {:induction false} LinesNormalFrom(lines: seq<string>, end: string, k: nat)
    requires LineEnd(end) && forall i :: 0 <= i < |lines| ==> Unbroken(lines[i])
    ensures Normal(Ends(end, k) + Joined(lines, end), true) == Ends([LF], k) + Joined(lines, [LF])
    decreases |lines|
  {
    if lines == [] {
      LastText([], end, k);
    } else if |lines| == 1 {
      LastText(lines[0], end, k);
    } else if lines[0] == [] {
      EmptyLine(lines, end, k);
      EmptyLine(lines, [LF], k);
      LinesNormalFrom(lines[1..], end, k + 1);
    } else {
      LinesNormalFrom(lines[1..], end, 1);
      FullLine(lines[0], end, k, Joined(lines[1..], end), Joined(lines[1..], [LF]));
    }
  }

  /** Whatever kind of line end a text was submitted with, its lines come back joined by line feeds, empty ones
      included. */
  lemma LinesNormal(lines: seq<string>, end: string)
    requires LineEnd(end) && forall i :: 0 <= i < |lines| ==> Unbroken(lines[i])
    ensures Normal(Joined(lines, end), true) == Joined(lines, [LF])
  {
    LinesNormalFrom(lines, end, 0);
    assert Ends(end, 0) + Joined(lines, end) == Joined(lines, end);
    assert Ends([LF], 0) + Joined(lines, [LF]) == Joined(lines, [LF]);
  }

  /** The text without its line ends. */
  function Unfolded(v: string): string {
    if v == [] then [] else (if IsBreak(v[0]) then [] else [v[0]]) + Unfolded(v[1..])
  }

  lemma {:induction false} UnfoldedBurst(v: string)
    ensures Unfolded(v) == Unfolded(v[Burst(v)..])
  {
    if v != [] && IsBreak(v[0]) {
      UnfoldedBurst(v[1..]);
      BurstStep(v, 0, 0, true);
    } else {
      NoBurst(v, 0, 0, true);
    }
  }

  /** Without newlines every line end goes and everything else stays. */
  lemma {:induction false} DroppedNormal(v: string)
    ensures Normal(v, false) == Unfolded(v)
  {
    if v != [] {
      if IsBreak(v[0]) {
        UnfoldedBurst(v);
        DroppedNormal(v[Burst(v)..]);
      } else {
        DroppedNormal(v[1..]);
      }
    }
  }

  /** A carriage return and a line feed are one line end. */
  lemma OneLineEnd()
    ensures Normal("a\r\nb", true) == "a\nb"
  {
    LinesNormal(["a", "b"], "\r\n");
    assert ["a", "b"][1..] == ["b"];
    assert Joined(["a", "b"], "\r\n") == "a" + ("\r\n" + "b");
  }
}
