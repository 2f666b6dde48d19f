/** Reading a blue file back, with the scan directives of the picture index. */
module BlueReading {
  import opened CText
  import opened Decimal
  import opened IndexFile
  import opened BlueScreen

  /** %d between two literals. */
  function ScanBetween(before: string, after: string, r: string): (s: Step<int>)
    ensures |s.Unread()| <= |r|
  {
    match Expect(before, r)
    case Failed(left) => Failed(left)
    case Passed(_, t) =>
      match ScanInt(t)
      case Failed(left) => Failed(left)
      case Passed(v, u) =>
        match Expect(after, u)
        case Failed(left) => Failed(left)
        case Passed(_, rest) => Passed(v, rest)
  }

  function ScanBlue(r: string): (s: Step<Interval>)
    ensures |s.Unread()| <= |r|
  {
    match ScanBetween("<bluetime  start=\"", "\"", r)
    case Failed(left) => Failed(left)
    case Passed(start, t) =>
      match ScanBetween(" end=\"", "\"/>\n", t)
      case Failed(left) => Failed(left)
      case Passed(end, rest) => Passed(Interval(start, end), rest)
  }

  lemma BetweenRead(before: string, n: int, after: string, rest: string, r: string)
    requires after != [] && !IndexFile.IsDigit(after[0]) && r == before + (Dec(n) + (after + rest))
    ensures ScanBetween(before, after, r) == Passed(n, rest)
  {
    ExpectRead(before, Dec(n) + (after + rest));
    IntRead(n, after + rest);
    ExpectRead(after, rest);
  }

  /** The same text, put together from the front. */
  lemma NodeLaidOut(i: Interval, rest: string, second: string)
    requires second == " end=\"" + (Dec(i.end) + ("\"/>\n" + rest))
    ensures BlueScreen.Node(i) + rest == "<bluetime  start=\"" + (Dec(i.start) + ("\"" + second))
  {
    assert "\" end=\"" == "\"" + " end=\"";
    FromFront("<bluetime  start=\"", Dec(i.start), "\"", " end=\"", Dec(i.end), "\"/>\n", rest);
  }

  lemma FromFront(a: string, b: string, c: string, d: string, e: string, f: string, rest: string)
    ensures (a + b + (c + d) + e + f) + rest == a + (b + (c + (d + (e + (f + rest)))))
  {
  }

  /** A node says when its interval starts and ends. */
  lemma NodeReadBack(i: Interval, rest: string)
    ensures ScanBlue(BlueScreen.Node(i) + rest) == Passed(i, rest)
  {
    var second := " end=\"" + (Dec(i.end) + ("\"/>\n" + rest));
    NodeLaidOut(i, rest, second);
    BetweenRead("<bluetime  start=\"", i.start, "\"", second, BlueScreen.Node(i) + rest);
    BetweenRead(" end=\"", i.end, "\"/>\n", rest, second);
  }

  /** What `scan` reads `n` times, if that is all there is. */
  function ReadAll(scan: string -> Step<Interval>, r: string, n: nat): Option<seq<Interval>>
    decreases n
  {
    if n == 0 then (if r == [] then Some([]) else None)
    else
      match scan(r)
      case Failed(_) => None
      case Passed(i, rest) =>
        match ReadAll(scan, rest, n - 1)
        case None => None
        case Some(more) => Some([i] + more)
  }

  /** The texts of `xs`, one behind the other. */
  function Texts(f: Interval -> string, xs: seq<Interval>): string {
    if xs == [] then [] else Texts(f, xs[..|xs| - 1]) + f(xs[|xs| - 1])
  }

  lemma {:induction false} NodesAreTexts(f: Interval -> string, xs: seq<Interval>)
    requires forall x :: f(x) == BlueScreen.Node(x)
    ensures Nodes(xs) == Texts(f, xs)
  {
    if xs != [] {
      NodesAreTexts(f, xs[..|xs| - 1]);
      assert f(xs[|xs| - 1]) == BlueScreen.Node(xs[|xs| - 1]);
    }
  }

  lemma {:induction false} TextsFromFront(f: Interval -> string, xs: seq<Interval>)
    requires xs != []
    ensures Texts(f, xs) == f(xs[0]) + Texts(f, xs[1..])
  {
    var n := |xs| - 1;
    if n > 0 {
      TextsFromFront(f, xs[..n]);
      LastBehind(f(xs[0]), Texts(f, xs[1..n]), f(xs[n]));
      assert xs[..n][1..] == xs[1..n] && xs[1..][..n - 1] == xs[1..n] && xs[1..][n - 1] == xs[n];
    }
  }

  lemma LastBehind(a: string, b: string, c: string)
    ensures (a + b) + c == a + (b + c)
  {
  }

  lemma NodesFromFront(xs: seq<Interval>)
    requires xs != []
    ensures Nodes(xs) == BlueScreen.Node(xs[0]) + Nodes(xs[1..])
  {
    NodesAreTexts(BlueScreen.Node, xs);
    NodesAreTexts(BlueScreen.Node, xs[1..]);
    TextsFromFront(BlueScreen.Node, xs);
  }

  lemma NodesScanned(xs: seq<Interval>)
    requires xs != []
    ensures ScanBlue(Nodes(xs)) == Passed(xs[0], Nodes(xs[1..]))
  {
    NodesFromFront(xs);
    NodeReadBack(xs[0], Nodes(xs[1..]));
  }

  lemma {:induction false} AllRead(scan: string -> Step<Interval>, xs: seq<Interval>)
    requires forall ys: seq<Interval> :: ys != [] ==> scan(Nodes(ys)) == Passed(ys[0], Nodes(ys[1..]))
    ensures ReadAll(scan, Nodes(xs), |xs|) == Some(xs)
  {
    if xs != [] {
      AllRead(scan, xs[1..]);
      assert [xs[0]] + xs[1..] == xs;
    }
  }

  /** The file holds its intervals, in order, and nothing else. */
  lemma NodesReadBack(xs: seq<Interval>)
    ensures ReadAll(ScanBlue, Nodes(xs), |xs|) == Some(xs)
  {
    forall ys: seq<Interval> | ys != [] ensures ScanBlue(Nodes(ys)) == Passed(ys[0], Nodes(ys[1..])) {
      NodesScanned(ys);
    }
    AllRead(ScanBlue, xs);
  }
}
