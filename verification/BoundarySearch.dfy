/** afterNextBoundary: collecting a body up to the next multipart delimiter. */
module BoundarySearch {
  import opened CText
  import opened MultipartStream

  datatype ParseStatus = ParseSuccess | ParseIO

  /** CR LF -- boundary, the delimiter that ends a body. */
  function Delimiter(boundary: string): string {
    "\r\n--" + boundary
  }

  /** What a call looks for: the opening delimiter has no line end before it. */
  function Sought(boundary: string, first: bool): (d: string)
    ensures 2 <= |d| <= |boundary| + 4
  {
    if first then "--" + boundary else Delimiter(boundary)
  }

  // ----- the reference: the leftmost occurrence -----

  predicate OccursAt(d: string, t: string, i: nat) {
    i + |d| <= |t| && t[i..i + |d|] == d
  }

  lemma OccursShift(d: string, t: string)
    requires t != []
    ensures forall j: nat :: 0 < j && OccursAt(d, t, j) ==> OccursAt(d, t[1..], j - 1)
    ensures forall j: nat :: OccursAt(d, t[1..], j) ==> OccursAt(d, t, j + 1)
  {
    forall j: nat | OccursAt(d, t[1..], j) ensures OccursAt(d, t, j + 1) {
      assert t[1..][j..j + |d|] == t[j + 1..j + 1 + |d|];
    }
    forall j: nat | 0 < j && OccursAt(d, t, j) ensures OccursAt(d, t[1..], j - 1) {
      assert t[j..j + |d|] == t[1..][j - 1..j - 1 + |d|];
    }
  }

  /** The position of the leftmost occurrence of `d` in `t`. */
  function Find(d: string, t: string): (r: Option<nat>)
    ensures r.Some? ==> r.value + |d| <= |t|
  {
    if OccursAt(d, t, 0) then Some(0)
    else if t == [] then None
    else
      match Find(d, t[1..])
      case None => None
      case Some(i) => Some(i + 1)
  }

  lemma {:induction false} FindIsLeftmost(d: string, t: string)
    ensures Find(d, t).Some? ==>
              OccursAt(d, t, Find(d, t).value) && forall j: nat :: j < Find(d, t).value ==> !OccursAt(d, t, j)
    ensures Find(d, t).None? ==> forall j: nat :: !OccursAt(d, t, j)
  {
    if !OccursAt(d, t, 0) && t != [] {
      OccursShift(d, t);
      FindIsLeftmost(d, t[1..]);
    }
  }

  // ----- the source's search, byte by byte, over ring and input -----

  /** `queue` and `rest` are what the ring and cgiIn still hold after the delimiter. */
  datatype SearchResult = Missing | Found(body: string, queue: string, rest: string)

  function Prepend(p: string, r: SearchResult): SearchResult {
    match r
    case Missing => Missing
    case Found(body, q, s) => Found(p + body, q, s)
  }

  lemma PrependTwice(p: string, p': string, r: SearchResult)
    ensures Prepend(p, Prepend(p', r)) == Prepend(p + p', r)
  {
    if r.Found? {
      assert p + (p' + r.body) == (p + p') + r.body;
    }
  }

  /** One search for `d` with `b` bytes of it already matched, the ring holding `q` and cgiIn `s`.
      After a false match everything but its first byte goes to the back of the ring. */
  function Search(d: string, q: string, s: string, b: nat): SearchResult
    requires b < |d|
    decreases |q| + |s| + b, |d| - b
  {
    if q == [] && s == [] then Missing
    else
      var c := if q != [] then q[0] else s[0];
      var q' := if q != [] then q[1..] else [];
      var s' := if q != [] then s else s[1..];
      if c == d[b] then
        if b + 1 == |d| then Found([], q', s') else Search(d, q', s', b + 1)
      else if b > 0 then
        Prepend([d[0]], Search(d, q' + d[1..b] + [c], s', 0))
      else
        Prepend([c], Search(d, q', s', 0))
  }

  /** The search by the byte `c` it meets first; `q'` and `s'` are left. */
  lemma SearchStep(d: string, q: string, s: string, b: nat, c: char, q': string, s': string)
    requires b < |d|
    requires q != [] ==> c == q[0] && q' == q[1..] && s' == s
    requires q == [] ==> s != [] && c == s[0] && q' == [] && s' == s[1..]
    ensures c == d[b] && b + 1 == |d| ==> Search(d, q, s, b) == Found([], q', s')
    ensures c == d[b] && b + 1 < |d| ==> Search(d, q, s, b) == Search(d, q', s', b + 1)
    ensures c != d[b] && b > 0 ==> Search(d, q, s, b) == Prepend([d[0]], Search(d, q' + d[1..b] + [c], s', 0))
    ensures c != d[b] && b == 0 ==> Search(d, q, s, b) == Prepend([c], Search(d, q', s', 0))
  {
  }

  /** The outcome of a search that neither loses, repeats nor reorders a byte of `t`. */
  function Split(d: string, t: string): SearchResult {
    match Find(d, t)
    case None => Missing
    case Some(i) => Found(t[..i], [], t[i + |d|..])
  }

  lemma SplitShift(d: string, t: string)
    requires t != [] && !OccursAt(d, t, 0)
    ensures Split(d, t) == Prepend([t[0]], Split(d, t[1..]))
  {
    var f := Find(d, t[1..]);
    if f.Some? {
      assert t[..f.value + 1] == [t[0]] + t[1..][..f.value];
      assert t[f.value + 1 + |d|..] == t[1..][f.value + |d|..];
    }
  }

  /** A byte that differs from the delimiter rules out an occurrence at the front. */
  lemma Mismatch(d: string, t: string, b: nat)
    requires b < |d| && b < |t| && t[b] != d[b]
    ensures Split(d, t) == Prepend([t[0]], Split(d, t[1..]))
  {
    assert |d| <= |t| ==> t[0..|d|][b] == t[b];
    SplitShift(d, t);
  }

  /** The last byte of the delimiter completes an occurrence at the front. */
  lemma Complete(d: string, s: string)
    requires d != []
    ensures Split(d, d + s) == Found([], [], s)
  {
    assert OccursAt(d, d + s, 0);
    assert (d + s)[..0] == [] && (d + s)[|d|..] == s;
  }

  /** Somewhere in the search bytes are put back behind others that are still queued. */
  predicate Reorders(d: string, q: string, s: string, b: nat)
    requires b < |d|
    decreases |q| + |s| + b, |d| - b
  {
    if q == [] && s == [] then false
    else
      var c := if q != [] then q[0] else s[0];
      var q' := if q != [] then q[1..] else [];
      var s' := if q != [] then s else s[1..];
      if c == d[b] then b + 1 < |d| && Reorders(d, q', s', b + 1)
      else if b > 0 then q' != [] || Reorders(d, q' + d[1..b] + [c], s', 0)
      else Reorders(d, q', s', 0)
  }

  lemma ReordersStep(d: string, q: string, s: string, b: nat, c: char, q': string, s': string)
    requires b < |d|
    requires q != [] ==> c == q[0] && q' == q[1..] && s' == s
    requires q == [] ==> s != [] && c == s[0] && q' == [] && s' == s[1..]
    ensures c == d[b] && b + 1 == |d| ==> !Reorders(d, q, s, b)
    ensures c == d[b] && b + 1 < |d| ==> Reorders(d, q, s, b) == Reorders(d, q', s', b + 1)
    ensures c != d[b] && b > 0 ==> Reorders(d, q, s, b) == (q' != [] || Reorders(d, q' + d[1..b] + [c], s', 0))
    ensures c != d[b] && b == 0 ==> Reorders(d, q, s, b) == Reorders(d, q', s', 0)
  {
  }

  /** A search that reorders nothing comes to the leftmost occurrence in the text ahead of it: what it has
      matched, the ring, and what cgiIn still holds. */
  lemma {:induction false} FaithfulIsSplit(d: string, q: string, s: string, b: nat, t: string)
    requires b < |d| && !Reorders(d, q, s, b) && t == d[..b] + (q + s)
    requires q != [] ==> |q| + b < |d|
    ensures Search(d, q, s, b) == Split(d, t)
    decreases |q| + |s| + b, |d| - b, 1
  {
    if q == [] && s == [] {
      FindIsLeftmost(d, t);
    } else {
      var c := if q != [] then q[0] else s[0];
      var q' := if q != [] then q[1..] else [];
      var s' := if q != [] then s else s[1..];
      SearchStep(d, q, s, b, c, q', s');
      ReordersStep(d, q, s, b, c, q', s');
      assert q + s == [c] + (q' + s');
      if c != d[b] {
        FaithfulMismatch(d, q', s', b, c, t);
      } else {
        assert d[..b] + [c] == d[..b + 1];
        assert t == d[..b + 1] + (q' + s');
        if b + 1 == |d| {
          Complete(d, s');
        } else {
          FaithfulIsSplit(d, q', s', b + 1, t);
        }
      }
    }
  }

  lemma {:induction false} FaithfulMismatch(d: string, q: string, s: string, b: nat, c: char, t: string)
    requires b < |d| && c != d[b] && t == d[..b] + ([c] + (q + s)) && (q != [] ==> |q| + 1 + b < |d|)
    requires b > 0 ==> q == [] && !Reorders(d, q + d[1..b] + [c], s, 0)
    requires b == 0 ==> !Reorders(d, q, s, 0)
    ensures b > 0 ==> Prepend([d[0]], Search(d, q + d[1..b] + [c], s, 0)) == Split(d, t)
    ensures b == 0 ==> Prepend([c], Search(d, q, s, 0)) == Split(d, t)
    decreases |q| + |s| + b + 1, |d| - b, 0
  {
    assert t[b] == c;
    Mismatch(d, t, b);
    if b > 0 {
      var p := q + d[1..b] + [c];
      assert t[1..] == d[..0] + (p + s);
      FaithfulIsSplit(d, p, s, 0, t[1..]);
    } else {
      assert t[1..] == d[..0] + (q + s);
      FaithfulIsSplit(d, q, s, 0, t[1..]);
    }
  }

  /** When the delimiter's first byte does not recur in it and the ring holds that byte at its end only, the ring
      is empty whenever a match is under way, and putting back is un-reading. */
  lemma {:induction false} NeverReorders(d: string, q: string, s: string, b: nat)
    requires b < |d| && d[0] !in d[1..]
    requires b > 0 ==> q == []
    requires q != [] ==> d[0] !in q[..|q| - 1]
    ensures !Reorders(d, q, s, b)
    decreases |q| + |s| + b, |d| - b
  {
    if q != [] || s != [] {
      var c := if q != [] then q[0] else s[0];
      var q' := if q != [] then q[1..] else [];
      var s' := if q != [] then s else s[1..];
      ReordersStep(d, q, s, b, c, q', s');
      if c == d[b] {
        if q != [] { assert |q| == 1; }
        if b + 1 < |d| {
          NeverReorders(d, [], s', b + 1);
        }
      } else if b > 0 {
        var p := q' + d[1..b] + [c];
        assert p[..|p| - 1] == d[1..][..b - 1];
        NeverReorders(d, p, s', 0);
      } else {
        if q' != [] { assert q'[..|q'| - 1] == q[..|q| - 1][1..]; }
        NeverReorders(d, q', s', 0);
      }
    }
  }

  /** For every CR-free boundary and every ring of at most one byte, the search for the next delimiter
      returns exactly the bytes before the leftmost CR LF -- boundary. */
  lemma NextDelimiterIsLeftmost(boundary: string, q: string, s: string)
    requires CR !in boundary && |q| <= 1
    ensures Search(Delimiter(boundary), q, s, 0) == Split(Delimiter(boundary), q + s)
  {
    var d := Delimiter(boundary);
    assert d[1..] == "\n--" + boundary;
    NeverReorders(d, q, s, 0);
    FaithfulIsSplit(d, q, s, 0, q + s);
  }

  // ----- what follows the delimiter -----

  /** The stream after a delimiter: a line end is consumed, `-` is left for the caller together with the
      byte after it, and two bytes of anything else are dropped. */
  function PastDelimiter(rest: string): Option<string> {
    if |rest| < 2 then None
    else if rest[0] == CR && rest[1] == LF then Some(rest[2..])
    else if rest[0] == '-' then Some(rest)
    else Some(rest[2..])
  }

  /** A body and the stream behind the delimiter that ends it. */
  datatype Stop = Stop(body: string, rest: string)

  /** What a search comes to; None is an input error. */
  function Reached(r: SearchResult): Option<Stop> {
    if r.Missing? || PastDelimiter(r.rest).None? then None else Some(Stop(r.body, PastDelimiter(r.rest).value))
  }

  /** A byte that starts no delimiter moves to the body; `q` and `s` are what the search goes on with. */
  lemma FalseMatch(goal: SearchResult, all: string, d: string, c: string, q: string, s: string)
    requires d != [] && goal == Prepend(all, Prepend(c, Search(d, q, s, 0)))
    ensures goal == Prepend(all + c, Search(d, q, s, 0))
  {
    PrependTwice(all, c, Search(d, q, s, 0));
  }

  /** The two calls of mpPutBack after a false match of `boffset` bytes; the search starts over. */
  method PutBackMatch(mp: MpStream, d: string, boffset: nat, c: char, ghost goal: SearchResult, ghost all: string)
    requires mp.Valid() && 0 < boffset < |d| && |mp.Queued()| + boffset < mp.putback.Length
    requires goal == Prepend(all, Prepend([d[0]], Search(d, mp.Queued() + d[1..boffset] + [c], mp.Pending(), 0)))
    modifies mp, mp.putback
    ensures mp.Valid() && |mp.Queued()| == |old(mp.Queued())| + boffset && |mp.Pending()| == |old(mp.Pending())|
    ensures mp.peak == Max(old(mp.peak), |mp.Queued()|)
    ensures goal == Prepend(all + [d[0]], Search(d, mp.Queued(), mp.Pending(), 0))
  {
    FalseMatch(goal, all, d, [d[0]], mp.Queued() + d[1..boffset] + [c], mp.Pending());
    mp.PutBack(d[1..boffset]);
    mp.PutBack([c]);
  }

  /** The read at the head of the search loop, and what it makes of the search. */
  method NextByte(mp: MpStream, d: string, ghost boffset: nat) returns (ok: bool, c: char)
    requires mp.Valid() && boffset < |d|
    modifies mp
    ensures mp.Valid() && mp.peak == old(mp.peak)
    ensures |mp.Queued()| == if |old(mp.Queued())| > 0 then |old(mp.Queued())| - 1 else 0
    ensures ok ==> |mp.Queued()| + |mp.Pending()| + 1 == |old(mp.Queued())| + |old(mp.Pending())|
    ensures !ok ==> mp.Queued() == []
    ensures var was := Search(d, old(mp.Queued()), old(mp.Pending()), boffset);
            if !ok then was == Missing
            else if c == d[boffset] then
              if boffset + 1 == |d| then was == Found([], mp.Queued(), mp.Pending())
              else was == Search(d, mp.Queued(), mp.Pending(), boffset + 1)
            else if boffset > 0 then
              was == Prepend([d[0]], Search(d, mp.Queued() + d[1..boffset] + [c], mp.Pending(), 0))
            else was == Prepend([c], Search(d, mp.Queued(), mp.Pending(), 0))
  {
    ghost var q, s := mp.Queued(), mp.Pending();
    ok, c := mp.ReadByte();
    if ok {
      SearchStep(d, q, s, boffset, c, mp.Queued(), mp.Pending());
    }
  }

  /** A byte `c` that ends a match of `boffset` bytes, or none: one byte goes to the body, the search starts over. */
  method Mismatched(mp: MpStream, d: string, boffset: nat, c: char, keep: bool, body: string,
      ghost goal: SearchResult, ghost all: string)
    returns (body': string, ghost all': string)
    requires mp.Valid() && boffset < |d| && (boffset > 0 ==> |mp.Queued()| + boffset < mp.putback.Length)
    requires boffset > 0 ==>
               goal == Prepend(all, Prepend([d[0]], Search(d, mp.Queued() + d[1..boffset] + [c], mp.Pending(), 0)))
    requires boffset == 0 ==> goal == Prepend(all, Prepend([c], Search(d, mp.Queued(), mp.Pending(), 0)))
    requires keep ==> body == all
    modifies mp, mp.putback
    ensures mp.Valid() && |mp.Queued()| == |old(mp.Queued())| + boffset && |mp.Pending()| == |old(mp.Pending())|
    ensures mp.peak == if boffset > 0 then Max(old(mp.peak), |mp.Queued()|) else old(mp.peak)
    ensures goal == Prepend(all', Search(d, mp.Queued(), mp.Pending(), 0)) && (keep ==> body' == all')
  {
    body' := body;
    if boffset > 0 {
      if keep { body' := body + [d[0]]; }
      PutBackMatch(mp, d, boffset, c, goal, all);
      all' := all + [d[0]];
    } else {
      if keep { body' := body + [c]; }
      FalseMatch(goal, all, d, [c], mp.Queued(), mp.Pending());
      all' := all + [c];
    }
  }

  /** The search loop of afterNextBoundary. `keep` says whether the caller gave the body a place to go
      (a file or memory). */
  method SkipToDelimiter(mp: MpStream, d: string, keep: bool) returns (found: bool, body: string)
    requires mp.Valid()
    requires |mp.Queued()| < |d| <= mp.putback.Length
    modifies mp, mp.putback
    ensures mp.Valid() && mp.peak <= Max(old(mp.peak), |d| - 1)
    ensures match Search(d, old(mp.Queued()), old(mp.Pending()), 0)
            case Missing => !found && mp.Queued() == []
            case Found(b, q, rest) => found && q == mp.Queued() == [] && mp.Pending() == rest && (keep ==> body == b)
  {
    ghost var goal := Search(d, mp.Queued(), mp.Pending(), 0);
    ghost var all := "";
    assert goal == Prepend(all, goal);
    body := [];
    var boffset := 0;
    while true
      invariant mp.Valid() && boffset < |d|
      invariant mp.Queued() != [] ==> |mp.Queued()| + boffset < |d|
      invariant mp.peak <= Max(old(mp.peak), |d| - 1)
      invariant goal == Prepend(all, Search(d, mp.Queued(), mp.Pending(), boffset))
      invariant keep ==> body == all
      decreases |mp.Queued()| + |mp.Pending()| + boffset, |d| - boffset
    {
      var ok, c := NextByte(mp, d, boffset);
      if !ok {
        return false, [];
      }
      if c == d[boffset] {
        boffset := boffset + 1;
        if boffset == |d| {
          break;
        }
      } else {
        body, all := Mismatched(mp, d, boffset, c, keep, body, goal, all);
        boffset := 0;
      }
    }
    found := true;
  }

  /** afterNextBoundary. */
  method AfterNextBoundary(mp: MpStream, boundary: string, first: bool, keep: bool)
    returns (status: ParseStatus, body: string)
    requires mp.Valid()
    requires |boundary| + 4 <= mp.putback.Length
    requires |mp.Queued()| <= 1
    modifies mp, mp.putback
    ensures mp.Valid() && |mp.Queued()| <= 2
    ensures mp.peak <= Max(old(mp.peak), Max(2, |boundary| + 3))
    ensures match Reached(Search(Sought(boundary, first), old(mp.Queued()), old(mp.Pending()), 0))
            case None => status == ParseIO && body == []
            case Some(stop) => status == ParseSuccess && mp.Remaining() == stop.rest && (keep ==> body == stop.body)
  {
    var found;
    found, body := SkipToDelimiter(mp, Sought(boundary, first), keep);
    if !found {
      return ParseIO, [];
    }
    status := PassLineEnd(mp);
    if status == ParseIO {
      body := [];
    }
  }

  /** Asking for two bytes, with at most two in the ring. */
  method ReadTwo(mp: MpStream) returns (ok: bool, e: string)
    requires mp.Valid() && |mp.Queued()| <= 2
    modifies mp
    ensures mp.Valid() && mp.Queued() == [] && mp.peak == old(mp.peak)
    ensures ok == (|old(mp.Remaining())| >= 2)
    ensures ok ==> |e| == 2 && old(mp.Remaining()) == e + mp.Pending()
    ensures mp.Remaining() == mp.Pending()
  {
    ghost var q, p := mp.Queued(), mp.Pending();
    var got;
    got, e := mp.Read(2);
    ok := got == 2;
    TwoRead(q, p, e, mp.Queued(), mp.Pending());
  }

  lemma TwoRead(q: string, p: string, e: string, q': string, p': string)
    requires |q| <= 2 && e == (q + p)[..Min(2, |q + p|)] && q' == q[|q|..] && p' == p[|e| - |q|..]
    ensures q' == [] && q' + p' == p'
    ensures |q + p| >= 2 ==> |e| == 2 && q + p == e + p'
  {
    if |q + p| >= 2 {
      assert (q + p)[..2] + p[2 - |q|..] == q + p;
    }
  }

  /** The two bytes after a delimiter. */
  method PassLineEnd(mp: MpStream) returns (status: ParseStatus)
    requires mp.Valid() && mp.Queued() == [] && 2 < mp.putback.Length
    modifies mp, mp.putback
    ensures mp.Valid() && |mp.Queued()| <= 2 && mp.peak <= Max(old(mp.peak), 2)
    ensures match PastDelimiter(old(mp.Pending()))
            case None => status == ParseIO
            case Some(r) => status == ParseSuccess && mp.Remaining() == r
  {
    var ok, e := ReadTwo(mp);
    if !ok {
      return ParseIO;
    }
    assert (e + mp.Pending())[2..] == mp.Pending();
    if e[0] == CR && e[1] == LF {
    } else if e[0] == '-' {
      mp.PutBack(e);
      assert mp.Queued() == e;
    }
    status := ParseSuccess;
  }
}
