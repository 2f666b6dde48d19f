/** The search for the opening delimiter, which starts with dashes and so may match inside itself. */
module OpeningSearch {
  import opened CText
  import opened BoundarySearch

  /** How many dashes a text starts with. */
  function Dashes(d: string): (r: nat)
    ensures r <= |d| && forall i :: 0 <= i < r ==> d[i] == '-'
    ensures r < |d| ==> d[r] != '-'
  {
    if d == [] || d[0] != '-' then 0 else 1 + Dashes(d[1..])
  }

  /** The leading dashes of a delimiter and the byte after them. */
  function Lead(d: string): (e: string)
    ensures e <= d
  {
    if Dashes(d) < |d| then d[..Dashes(d) + 1] else d
  }

  /** The leftmost place in `t` that looks like the delimiter up to the byte after its dashes turns out, before the
      text ends, not to be the delimiter. */
  predicate FalseStart(d: string, t: string) {
    match Find(Lead(d), t)
    case None => false
    case Some(i) => !OccursAt(d, t, i) && !(t[i..] <= d)
  }

  lemma FalseStartShift(d: string, t: string, b: nat)
    requires b < |Lead(d)| && b < |t| && t[b] != d[b]
    ensures FalseStart(d, t) == FalseStart(d, t[1..])
  {
    var e := Lead(d);
    assert |e| <= |t| ==> t[0..|e|][b] == t[b];
    assert !OccursAt(e, t, 0);
    var f := Find(e, t[1..]);
    if f.Some? {
      var i := f.value;
      assert Find(e, t) == Some(i + 1);
      assert t[1..][i..] == t[i + 1..];
      OccursShift(d, t);
    }
  }

  lemma FalseStartHere(d: string, t: string)
    requires Lead(d) <= t && d != []
    ensures FalseStart(d, t) == (!OccursAt(d, t, 0) && !(t <= d))
  {
    var e := Lead(d);
    assert t[0..|e|] == e;
    assert Find(e, t) == Some(0);
    assert t[0..] == t;
  }

  /** Reading back a false match behind whose dashes more than one byte is queued: the byte after the dashes fails
      while the rest is still in the ring. */
  lemma {:induction false} QueueReorders(d: string, q: string, s: string, b: nat)
    requires 2 <= Dashes(d) && b < Dashes(d)
    requires |q| > Dashes(d) - b && q[Dashes(d) - 1 - b] != '-'
    requires forall i :: 0 <= i < Dashes(d) - 1 - b ==> q[i] == '-'
    ensures Reorders(d, q, s, b)
    decreases Dashes(d) - b
  {
    ReordersStep(d, q, s, b, q[0], q[1..], s);
    if b + 1 < Dashes(d) {
      QueueReorders(d, q[1..], s, b + 1);
    }
  }

  /** A match that has passed the dashes and the byte after them. */
  lemma {:induction false} PastLead(d: string, s: string, b: nat, t: string)
    requires 2 <= Dashes(d) < b < |d| && t == d[..b] + s
    ensures Reorders(d, [], s, b) == (!OccursAt(d, t, 0) && !(t <= d))
    decreases |d| - b
  {
    if s == [] {
      assert t <= d;
    } else {
      var c, r := s[0], Dashes(d);
      ReordersStep(d, [], s, b, c, [], s[1..]);
      assert t[b] == c;
      if c != d[b] {
        var p := [] + d[1..b] + [c];
        assert p == d[1..b] + [c];
        forall i | 0 <= i < r ensures p[i] == d[i + 1] {
          assert p[i] == d[1..b][i];
        }
        QueueReorders(d, p, s[1..], 0);
        assert |d| <= |t| ==> t[0..|d|][b] == c;
      } else {
        assert d[..b + 1] == d[..b] + [c];
        assert t == d[..b + 1] + s[1..];
        if b + 1 == |d| {
          assert t[0..|d|] == d;
        } else {
          PastLead(d, s[1..], b + 1, t);
        }
      }
    }
  }

  /** The state of a search that has not passed the delimiter's dashes: whatever is queued is dashes, no more than
      the match has room for, and one byte behind them. */
  ghost predicate AtDashes(d: string, q: string, b: nat) {
    && 2 <= Dashes(d) && b <= Dashes(d) && b < |d|
    && (q != [] ==> b + |q| <= Dashes(d))
    && forall i :: 0 <= i < |q| - 1 ==> q[i] == '-'
  }

  lemma {:induction false} DashesReorder(d: string, q: string, s: string, b: nat, t: string)
    requires AtDashes(d, q, b) && t == d[..b] + (q + s)
    ensures Reorders(d, q, s, b) == FalseStart(d, t)
    decreases |q| + |s| + b, |d| - b, 1
  {
    if q == [] && s == [] {
      assert Find(Lead(d), t).None? by { FindIsLeftmost(Lead(d), t); }
    } else {
      var c := if q != [] then q[0] else s[0];
      var q' := if q != [] then q[1..] else [];
      var s' := if q != [] then s else s[1..];
      ReordersStep(d, q, s, b, c, q', s');
      assert q + s == [c] + (q' + s');
      if c != d[b] {
        DashesMismatch(d, q', s', b, c, t);
      } else {
        assert d[..b] + [c] == d[..b + 1];
        assert t == d[..b + 1] + (q' + s');
        if b < Dashes(d) && b + 1 < |d| {
          DashesReorder(d, q', s', b + 1, t);
        } else {
          LeadMatched(d, s', b, t);
        }
      }
    }
  }

  /** The byte after the dashes has been matched. */
  lemma LeadMatched(d: string, s: string, b: nat, t: string)
    requires 2 <= Dashes(d) && b < |d| && b + 1 == |Lead(d)| && t == d[..b + 1] + s
    ensures b + 1 == |d| ==> !FalseStart(d, t)
    ensures b + 1 < |d| ==> Reorders(d, [], s, b + 1) == FalseStart(d, t)
  {
    FalseStartHere(d, t);
    if b + 1 < |d| {
      PastLead(d, s, b + 1, t);
    } else {
      assert t[0..|d|] == d;
    }
  }

  lemma PutBackDashes(d: string, b: nat, c: char, p: string)
    requires 2 <= Dashes(d) && 0 < b <= Dashes(d) && b < |d| && p == d[1..b] + [c]
    ensures AtDashes(d, p, 0)
  {
    forall i | 0 <= i < |p| - 1 ensures p[i] == '-' {
      assert p[i] == d[1..b][i] == d[i + 1];
    }
  }

  lemma {:induction false} DashesMismatch(d: string, q: string, s: string, b: nat, c: char, t: string)
    requires 2 <= Dashes(d) && b <= Dashes(d) && b < |d| && c != d[b] && t == d[..b] + ([c] + (q + s))
    requires q != [] ==> AtDashes(d, q, b) && b == 0
    ensures b > 0 ==> q == [] && Reorders(d, q + d[1..b] + [c], s, 0) == FalseStart(d, t)
    ensures b == 0 ==> Reorders(d, q, s, 0) == FalseStart(d, t)
    decreases |q| + |s| + b + 1, |d| - b, 0
  {
    MismatchShifts(d, b, c, q + s, t);
    if b > 0 {
      var p := d[1..b] + [c];
      assert q + d[1..b] + [c] == p;
      PutBackDashes(d, b, c, p);
      assert t[1..] == d[..0] + (p + s);
      DashesReorder(d, p, s, 0, t[1..]);
    } else {
      assert t[1..] == d[..0] + (q + s);
      DashesReorder(d, q, s, 0, t[1..]);
    }
  }

  lemma MismatchShifts(d: string, b: nat, c: char, more: string, t: string)
    requires b <= Dashes(d) && b < |d| && c != d[b] && t == d[..b] + ([c] + more)
    ensures t[1..] == if b > 0 then d[1..b] + ([c] + more) else more
    ensures FalseStart(d, t) == FalseStart(d, t[1..])
  {
    assert t[b] == c;
    FalseStartShift(d, t, b);
  }

  /** The opening search puts bytes back behind others exactly when the input has a false start. */
  lemma OpeningReordersIff(boundary: string, s: string)
    ensures Reorders("--" + boundary, [], s, 0) <==> FalseStart("--" + boundary, s)
  {
    var d := "--" + boundary;
    assert d[1..] == "-" + boundary;
    assert d[..0] + ([] + s) == s;
    DashesReorder(d, [], s, 0, s);
  }

  /** Without a false start the opening search comes to the leftmost delimiter, if there is one. */
  lemma OpeningIsLeftmost(boundary: string, s: string)
    requires !FalseStart("--" + boundary, s)
    ensures Search("--" + boundary, [], s, 0) == Split("--" + boundary, s)
  {
    OpeningReordersIff(boundary, s);
    FaithfulIsSplit("--" + boundary, [], s, 0, s);
  }

  /** Nothing in the preamble, not even together with the start of the delimiter, looks like the delimiter up to the
      byte after its dashes. */
  predicate Harmless(preamble: string, boundary: string) {
    var e := Lead("--" + boundary);
    Find(e, preamble + e) == Some(|preamble|)
  }

  lemma FoundAt(d: string, t: string, n: nat)
    requires OccursAt(d, t, n) && forall j: nat :: j < n ==> !OccursAt(d, t, j)
    ensures Find(d, t) == Some(n)
  {
    FindIsLeftmost(d, t);
  }

  /** A prefix of the delimiter that is first seen at `n` puts the delimiter there first. */
  lemma LongerFoundAt(d: string, e: string, t: string, n: nat)
    requires e <= d && Find(e, t) == Some(n) && OccursAt(d, t, n)
    ensures Find(d, t) == Some(n)
  {
    FindIsLeftmost(e, t);
    forall j: nat | j < n ensures !OccursAt(d, t, j) {
      if OccursAt(d, t, j) {
        assert t[j..j + |e|] == t[j..j + |d|][..|e|];
        assert OccursAt(e, t, j);
      }
    }
    FoundAt(d, t, n);
  }

  lemma ExtendedFoundAt(e: string, p: string, t: string)
    requires Find(e, p + e) == Some(|p|) && p + e <= t
    ensures Find(e, t) == Some(|p|)
  {
    var u := p + e;
    FindIsLeftmost(e, u);
    assert t[|p|..|p| + |e|] == u[|p|..|p| + |e|];
    forall j: nat | j < |p| ensures !OccursAt(e, t, j) {
      assert t[j..j + |e|] == u[j..j + |e|];
      assert !OccursAt(e, u, j);
    }
    FoundAt(e, t, |p|);
  }

  /** The opening delimiter is found behind every harmless preamble. */
  lemma OpeningDelimiter(boundary: string, preamble: string, rest: string, t: string)
    requires Harmless(preamble, boundary) && t == preamble + ("--" + boundary) + rest
    ensures Search("--" + boundary, [], t, 0) == Found(preamble, [], rest)
  {
    var d := "--" + boundary;
    var n := |preamble|;
    assert t[n..n + |d|] == d;
    ExtendedFoundAt(Lead(d), preamble, t);
    LongerFoundAt(d, Lead(d), t, n);
    assert t[..n] == preamble && t[n + |d|..] == rest;
    OpeningIsLeftmost(boundary, t);
  }

  /** No preamble, and every preamble without a dash, is harmless. */
  lemma DashFreeHarmless(preamble: string, boundary: string)
    requires '-' !in preamble
    ensures Harmless(preamble, boundary)
  {
    var e := Lead("--" + boundary);
    var t := preamble + e;
    assert e != [] && e[0] == '-';
    assert t[|preamble|..|preamble| + |e|] == e;
    forall j: nat | j < |preamble| ensures !OccursAt(e, t, j) {
      assert t[j] in preamble;
      assert j + |e| <= |t| ==> t[j..j + |e|][0] == t[j];
    }
    FoundAt(e, t, |preamble|);
  }

  /** Without the leading CR the first byte recurs, and the opening search can miss a delimiter that is
      there: bytes put back behind others come out in another order. */
  lemma OpeningSearchCanMiss()
    ensures FalseStart("--ab", "--a--ab") && Find("--ab", "--a--ab") == Some(3)
    ensures Search("--ab", [], "--a--ab", 0).Missing?
  {
    FalseStartFirst();
    DelimiterThird();
    MissedSearch();
  }

  lemma DelimiterThird()
    ensures Find("--ab", "--a--ab") == Some(3)
  {
    var d, s := "--ab", "--a--ab";
    assert s[3..7] == d;
    assert s[0..4][3] != d[3] && s[1..5][1] != d[1] && s[2..6][0] != d[0];
    FoundAt(d, s, 3);
  }

  lemma FalseStartFirst()
    ensures FalseStart("--ab", "--a--ab")
  {
    var d, s := "--ab", "--a--ab";
    assert d[1..] == "-ab" && d[1..][1..] == "ab" && Dashes("ab") == 0 && Dashes("-ab") == 1;
    assert Lead(d) == d[..3] == "--a" == s[..3];
    FalseStartHere(d, s);
    assert s[0..4][3] != d[3];
  }

  lemma MissedSearch()
    ensures Search("--ab", [], "--a--ab", 0).Missing?
  {
    var d, s := "--ab", "--a--ab";
    MissAfterReordering();
    assert s[1..] == "-a--ab" && s[1..][1..] == "a--ab" && "a--ab"[1..] == "--ab" && "--ab"[1..] == "-ab";
    assert [] + d[1..3] + ['-'] == "-a-";
    assert Search(d, [], "--ab", 3).Missing?;
    assert Search(d, [], "a--ab", 2).Missing?;
    assert Search(d, [], "-a--ab", 1).Missing?;
  }

  lemma MissAfterReordering()
    ensures Search("--ab", "-a-", "-ab", 0).Missing?
  {
    var d, s := "--ab", "-ab";
    assert s[1..] == "ab" && "ab"[1..] == "b" && "b"[1..] == "";
    assert [] + d[1..1] + ['a'] == "a" && "a"[1..] == "";
    assert Search(d, [], "b", 0).Missing?;
    assert Search(d, "a", "b", 0).Missing?;
    assert Search(d, [], "ab", 1).Missing?;
    assert Search(d, [], s, 0).Missing?;
    assert Search(d, "a", s, 0).Missing?;
    assert Search(d, "a", s, 1).Missing?;
    assert "-a"[1..] == "a";
    assert Search(d, "-a", s, 0).Missing?;
    assert "a-"[1..] + d[1..1] + ['a'] == "-a";
    assert Search(d, "a-", s, 1).Missing?;
    assert "-a-"[1..] == "a-";
  }
}
