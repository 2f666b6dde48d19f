/** info2index and record_info_file_node_jpeg: the picture index read back from the info file. */
module IndexFile {
  import opened CText
  import opened Decimal

  // ----- fscanf, directive by directive -----

  /** A directive either fails, leaving the stream where it failed, or succeeds. */
  datatype Step<T> = Failed(left: string) | Passed(value: T, rest: string) {
    /** What is unread after the directive. */
    function Unread(): string {
      match this
      case Failed(left) => left
      case Passed(_, rest) => rest
    }
  }

  /** Literal characters of a format. */
  function Expect(lit: string, r: string): (s: Step<()>)
    ensures |s.Unread()| <= |r|
    decreases lit
  {
    if lit == [] then Passed((), r)
    else if r == [] || r[0] != lit[0] then Failed(r)
    else Expect(lit[1..], r[1..])
  }

  predicate IsDigit(c: char) {
    '0' <= c <= '9'
  }

  /** The value of a run of digits read after `acc`, and what follows it. */
  function Digits(acc: nat, r: string): (d: (nat, string))
    ensures |d.1| <= |r|
    decreases |r|
  {
    if r != [] && IsDigit(r[0]) then Digits(10 * acc + (r[0] as int - '0' as int), r[1..]) else (acc, r)
  }

  /** %d. */
  function ScanInt(r: string): (i: Step<int>)
    ensures |i.Unread()| <= |r|
  {
    var s := SkipSpace(r);
    var t := if s != [] && s[0] == '-' then s[1..] else s;
    if t == [] || !IsDigit(t[0]) then Failed(t)
    else
      var d := Digits(0, t);
      var v: int := d.0;
      Passed(if s[0] == '-' then -v else v, d.1)
  }

  function Word(r: string): string {
    if r == [] || IsSpace(r[0]) then [] else [r[0]] + Word(r[1..])
  }

  /** %s. */
  function ScanWord(r: string): (s: Step<string>)
    ensures |s.Unread()| <= |r|
  {
    var s := SkipSpace(r);
    var w := Word(s);
    WordFits(s);
    if w == [] then Failed(s) else Passed(w, s[|w|..])
  }

  lemma WordFits(r: string)
    ensures |Word(r)| <= |r|
    ensures |Word(r)| < |r| ==> IsSpace(r[|Word(r)|])
  {
  }

  lemma {:induction false} ExpectRead(lit: string, rest: string)
    ensures Expect(lit, lit + rest) == Passed((), rest)
  {
    if lit == [] {
      assert lit + rest == rest;
    } else {
      assert (lit + rest)[1..] == lit[1..] + rest;
      ExpectRead(lit[1..], rest);
    }
  }

  lemma {:induction false} WordRead(w: string, rest: string)
    requires (forall i :: 0 <= i < |w| ==> !IsSpace(w[i])) && (rest == [] || IsSpace(rest[0]))
    ensures Word(w + rest) == w
  {
    if w == [] {
      assert w + rest == rest;
    } else {
      assert (w + rest)[1..] == w[1..] + rest;
      WordRead(w[1..], rest);
    }
  }

  lemma {:induction false} DigitsAppend(acc: nat, ds: string, rest: string)
    requires forall i :: 0 <= i < |ds| ==> IsDigit(ds[i])
    ensures Digits(acc, ds + rest) == Digits(Digits(acc, ds).0, rest)
    decreases |ds|
  {
    if ds == [] {
      assert ds + rest == rest;
    } else {
      assert (ds + rest)[1..] == ds[1..] + rest;
      DigitsAppend(10 * acc + (ds[0] as int - '0' as int), ds[1..], rest);
    }
  }

  lemma {:induction false} DigitsRead(n: nat)
    ensures Digits(0, DigitsOf(n)) == (n, [])
  {
    if n < 10 {
      assert DigitsOf(n)[1..] == [];
    } else {
      var last := [Digit(n % 10)];
      DigitsRead(n / 10);
      DigitsAppend(0, DigitsOf(n / 10), last);
      assert last[1..] == [];
      assert Digits(n / 10, last) == (n, []);
    }
  }

  lemma NatRead(m: nat, rest: string, t: string)
    requires (rest == [] || !IsDigit(rest[0])) && t == DigitsOf(m) + rest
    ensures Digits(0, t) == (m, rest) && IsDigit(t[0])
  {
    DigitsRead(m);
    DigitsAppend(0, DigitsOf(m), rest);
  }

  lemma DigitsScanned(n: nat, t: string, rest: string)
    requires t != [] && IsDigit(t[0]) && Digits(0, t) == (n, rest)
    ensures ScanInt(t) == Passed(n, rest)
  {
    assert SkipSpace(t) == t;
  }

  lemma MinusScanned(n: int, t: string, rest: string)
    requires n < 0 && t != [] && IsDigit(t[0]) && Digits(0, t) == (-n, rest)
    ensures ScanInt("-" + t) == Passed(n, rest)
  {
    var s := "-" + t;
    assert SkipSpace(s) == s && s[1..] == t;
  }

  lemma NaturalRead(n: nat, rest: string)
    requires rest == [] || !IsDigit(rest[0])
    ensures ScanInt(DigitsOf(n) + rest) == Passed(n, rest)
  {
    var t := DigitsOf(n) + rest;
    NatRead(n, rest, t);
    DigitsScanned(n, t, rest);
  }

  lemma NegativeRead(n: int, rest: string)
    requires n < 0 && (rest == [] || !IsDigit(rest[0]))
    ensures ScanInt("-" + (DigitsOf(-n) + rest)) == Passed(n, rest)
  {
    var t := DigitsOf(-n) + rest;
    NatRead(-n, rest, t);
    MinusScanned(n, t, rest);
  }

  lemma IntRead(n: int, rest: string)
    requires rest == [] || !IsDigit(rest[0])
    ensures ScanInt(Dec(n) + rest) == Passed(n, rest)
  {
    if n < 0 {
      NegativeRead(n, rest);
      assert Dec(n) + rest == "-" + (DigitsOf(-n) + rest);
    } else {
      NaturalRead(n, rest);
    }
  }

  // ----- the info file -----

  /** A picture report: size, start time in seconds, file name. */
  datatype Node = Node(width: int, height: int, time: int, name: string)

  /** file_node_jpeg, followed by `tail`. */
  function NodeText(n: Node, tail: string): string {
    "<file" + (" " + ("width=\"" + (Dec(n.width) + ("\"" + SecondText(n, tail)))))
  }

  function SecondText(n: Node, tail: string): string {
    " " + ("height=\"" + (Dec(n.height) + ("\"" + ThirdText(n, tail))))
  }

  function ThirdText(n: Node, tail: string): string {
    " " + ("starttime=\"" + (Dec(n.time) + NameText(n, tail)))
  }

  function NameText(n: Node, tail: string): string {
    "\">" + ((n.name + "</file>") + tail)
  }

  predicate Written(n: Node) {
    n.width != 0 && n.height != 0
  }

  /** What the info file holds after the reports `ns`; a report without a size is not written. */
  function InfoText(ns: seq<Node>): string {
    if ns == [] then []
    else if !Written(ns[0]) then InfoText(ns[1..])
    else NodeText(ns[0], "\n" + InfoText(ns[1..]))
  }

  /** A report leaves no trace exactly when its width or its height is zero. */
  lemma UnsizedLeftOut(n: Node)
    ensures InfoText([n]) == [] <==> n.width == 0 || n.height == 0
  {
    assert [n][1..] == [];
    assert NodeText(n, "\n") != [];
  }

  /** An attribute of the format: white space, its name with equals sign and quote, and %d. */
  function ScanAttribute(name: string, r: string): (s: Step<int>)
    ensures |s.Unread()| <= |r|
  {
    match Expect(name, SkipSpace(r))
    case Failed(left) => Failed(left)
    case Passed(_, rest) => ScanInt(rest)
  }

  function ScanClosed(name: string, close: string, r: string): (s: Step<int>)
    ensures |s.Unread()| <= |r|
  {
    match ScanAttribute(name, r)
    case Failed(left) => Failed(left)
    case Passed(v, rest) =>
      match Expect(close, rest)
      case Failed(left) => Failed(left)
      case Passed(_, rest') => Passed(v, rest')
  }

  /** What one fscanf of FILE_NODE_FORMAT assigns, and what it leaves unread. */
  datatype Scan = Scan(time: Option<int>, name: Option<string>, rest: string)

  /** The part of the format behind the start time. */
  function ScanName(time: int, r: string): (s: Scan)
    ensures |s.rest| <= |r|
  {
    match Expect("\">", r)
    case Failed(left) => Scan(Some(time), None, left)
    case Passed(_, r1) =>
      match ScanWord(r1)
      case Failed(left) => Scan(Some(time), None, left)
      case Passed(name, r2) =>
        match Expect("</file>", r2)
        case Failed(left) => Scan(Some(time), Some(name), left)
        case Passed(_, r3) => Scan(Some(time), Some(name), r3)
  }

  function ScanTime(r: string): (s: Scan)
    ensures |s.rest| <= |r|
  {
    match ScanAttribute("starttime=\"", r)
    case Failed(left) => Scan(None, None, left)
    case Passed(time, rest) => ScanName(time, rest)
  }

  function ScanNode(r: string): (s: Scan)
    ensures |s.rest| <= |r|
  {
    match Expect("<file", r)
    case Failed(left) => Scan(None, None, left)
    case Passed(_, r1) =>
      match ScanClosed("width=\"", "\"", r1)
      case Failed(left) => Scan(None, None, left)
      case Passed(_, r2) =>
        match ScanClosed("height=\"", "\"", r2)
        case Failed(left) => Scan(None, None, left)
        case Passed(_, r3) => ScanTime(r3)
  }

  /** A name that fscanf and strstr take whole. */
  predicate Scannable(name: string) {
    |name| <= 120 && forall i :: 0 <= i < |name| ==> !IsSpace(name[i]) && name[i] != NUL && name[i] != '<'
  }

  lemma ClosedRead(name: string, close: string, n: int, rest: string, r: string)
    requires name != [] && !IsSpace(name[0]) && close != [] && !IsDigit(close[0])
    requires r == " " + (name + (Dec(n) + (close + rest)))
    ensures ScanClosed(name, close, r) == Passed(n, rest)
  {
    var after := close + rest;
    AttributeRead(name, n, after, r);
    ExpectRead(close, rest);
  }

  lemma AttributeRead(name: string, n: int, after: string, r: string)
    requires name != [] && !IsSpace(name[0]) && after != [] && !IsDigit(after[0])
    requires r == " " + (name + (Dec(n) + after))
    ensures ScanAttribute(name, r) == Passed(n, after)
  {
    var s := name + (Dec(n) + after);
    assert r[1..] == s;
    assert SkipSpace(r) == s;
    ExpectRead(name, Dec(n) + after);
    IntRead(n, after);
  }

  lemma NameRead(n: Node, tail: string, r: string)
    requires Scannable(n.name) && tail != [] && tail[0] == '\n' && r == NameText(n, tail)
    ensures ScanName(n.time, r) == Scan(Some(n.time), Some(n.name + "</file>"), tail)
  {
    var w := n.name + "</file>";
    ExpectRead("\">", w + tail);
    WordRead(w, tail);
    assert SkipSpace(w + tail) == w + tail;
    assert (w + tail)[|w|..] == tail;
  }

  /** fscanf reads a written node: its time, and its name together with the closing tag. */
  lemma NodeRead(n: Node, tail: string)
    requires Scannable(n.name) && tail != [] && tail[0] == '\n'
    ensures ScanNode(NodeText(n, tail)) == Scan(Some(n.time), Some(n.name + "</file>"), tail)
  {
    var second, third, name := SecondText(n, tail), ThirdText(n, tail), NameText(n, tail);
    var first := " " + ("width=\"" + (Dec(n.width) + ("\"" + second)));
    ExpectRead("<file", first);
    ClosedRead("width=\"", "\"", n.width, second, first);
    ClosedRead("height=\"", "\"", n.height, third, second);
    AttributeRead("starttime=\"", n.time, name, third);
    NameRead(n, tail, name);
  }

  /** Its width stands behind the tag's name, and its height behind that. */
  lemma SizesRead(n: Node, tail: string)
    ensures var t := NodeText(n, tail);
            && |t| > 5 && t[..5] == "<file"
            && ScanClosed("width=\"", "\"", t[5..]) == Passed(n.width, SecondText(n, tail))
            && ScanClosed("height=\"", "\"", SecondText(n, tail)).Passed?
            && ScanClosed("height=\"", "\"", SecondText(n, tail)).value == n.height
  {
    var second, third := SecondText(n, tail), ThirdText(n, tail);
    var first := " " + ("width=\"" + (Dec(n.width) + ("\"" + second)));
    assert NodeText(n, tail)[5..] == first;
    ClosedRead("width=\"", "\"", n.width, second, first);
    ClosedRead("height=\"", "\"", n.height, third, second);
  }

  // ----- the index -----

  datatype IndexNode = IndexNode(time: int, image: string)

  /** How many bytes fgets takes: through the line end, at most `room`. */
  function LineLength(r: string, room: nat): (n: nat)
    ensures n <= |r| && (r != [] && room > 0 ==> n > 0)
  {
    if r == [] || room == 0 then 0
    else if r[0] == '\n' then 1
    else 1 + LineLength(r[1..], room - 1)
  }

  /** strstr(filename, "</file>"): how much of the name precedes the tag. */
  function TagAt(f: string): (p: Option<nat>)
    ensures p.Some? ==> p.value + 7 <= |f|
    decreases |f|
  {
    if |f| < 7 then None
    else if f[..7] == "</file>" then Some(0)
    else
      match TagAt(f[1..])
      case None => None
      case Some(i) => Some(i + 1)
  }

  /** strncpy over a buffer that is not terminated again: the tail of a longer old string stays. */
  function Overlaid(image: string, name: string): string {
    if |image| <= |name| then name else name + image[|name|..]
  }

  /** The nodes written when info2index goes on from `r` with `nodes` written already and its buffers holding
      `filename`, `image` and `time`. */
  function IndexFrom(r: string, filename: string, image: string, time: int, nodes: seq<IndexNode>): seq<IndexNode>
    decreases |r|
  {
    var s := ScanNode(r);
    var f := if s.name.Some? then s.name.value else filename;
    var t := if s.time.Some? then s.time.value else time;
    var p := TagAt(f);
    if p == None || s.rest == [] then nodes
    else
      var i := Overlaid(image, f[..p.value]);
      IndexFrom(s.rest[LineLength(s.rest, 254)..], f, i, t, nodes + [IndexNode(t, i)])
  }

  /** info2index. The image buffer is modelled by the C string in it: strings there never get shorter, so what
      lies behind the string is always zero. */
  method Info2Index(info: string) returns (nodes: seq<IndexNode>)
    ensures nodes == IndexFrom(info, [], [], 0, [])
  {
    nodes := [];
    var filename, image, time := "", "", 0;
    var rest := info;
    while true
      invariant IndexFrom(info, [], [], 0, []) == IndexFrom(rest, filename, image, time, nodes)
      decreases |rest|
    {
      var s := ScanNode(rest);
      if s.name.Some? { filename := s.name.value; }
      if s.time.Some? { time := s.time.value; }
      var p := TagAt(filename);
      if p == None {
        break;
      }
      image := Overlaid(image, filename[..p.value]);
      if s.rest == [] {
        break;
      }
      rest := s.rest[LineLength(s.rest, 254)..];
      nodes := nodes + [IndexNode(time, image)];
    }
  }

  // ----- what the index lists -----

  /** The written reports, each with its name laid over the image before it. */
  function Listed(ns: seq<Node>, image: string, nodes: seq<IndexNode>): seq<IndexNode> {
    if ns == [] then nodes
    else if !Written(ns[0]) then Listed(ns[1..], image, nodes)
    else
      var i := Overlaid(image, ns[0].name);
      Listed(ns[1..], i, nodes + [IndexNode(ns[0].time, i)])
  }

  predicate AllScannable(ns: seq<Node>) {
    forall i :: 0 <= i < |ns| ==> Scannable(ns[i].name)
  }

  lemma {:induction false} TagFound(name: string)
    requires forall i :: 0 <= i < |name| ==> name[i] != '<'
    ensures TagAt(name + "</file>") == Some(|name|)
  {
    var f := name + "</file>";
    if name == [] {
      assert f[..7] == "</file>";
    } else {
      assert f[1..] == name[1..] + "</file>";
      assert f[..7][0] == name[0];
      TagFound(name[1..]);
    }
  }

  /** One written node: its line is consumed and listed. */
  lemma NodeListed(n: Node, more: string, r: string, filename: string, image: string, time: int, nodes: seq<IndexNode>)
    requires Scannable(n.name) && r == NodeText(n, "\n" + more)
    ensures var i := Overlaid(image, n.name);
            IndexFrom(r, filename, image, time, nodes)
            == IndexFrom(more, n.name + "</file>", i, n.time, nodes + [IndexNode(n.time, i)])
  {
    var tail := "\n" + more;
    NodeRead(n, tail);
    TagFound(n.name);
    assert (n.name + "</file>")[..|n.name|] == n.name;
    assert LineLength(tail, 254) == 1 && tail[1..] == more;
  }

  lemma NothingLeft(filename: string, image: string, time: int, nodes: seq<IndexNode>)
    ensures IndexFrom([], filename, image, time, nodes) == nodes
  {
  }

  /** Reading the info file lists the written reports in order, although the last turn meets a stale name. */
  lemma {:induction false} InfoListed(ns: seq<Node>, r: string, filename: string, image: string, time: int,
      nodes: seq<IndexNode>)
    requires AllScannable(ns) && r == InfoText(ns)
    ensures IndexFrom(r, filename, image, time, nodes) == Listed(ns, image, nodes)
    decreases |ns|
  {
    if ns == [] {
      NothingLeft(filename, image, time, nodes);
    } else {
      assert AllScannable(ns[1..]);
      var more := InfoText(ns[1..]);
      if !Written(ns[0]) {
        InfoListed(ns[1..], r, filename, image, time, nodes);
      } else {
        var n, i := ns[0], Overlaid(image, ns[0].name);
        NodeListed(n, more, r, filename, image, time, nodes);
        InfoListed(ns[1..], more, n.name + "</file>", i, n.time, nodes + [IndexNode(n.time, i)]);
      }
    }
  }

  /** The written reports, each with its own name: what the index is meant to list. */
  function Exactly(ns: seq<Node>, nodes: seq<IndexNode>): seq<IndexNode> {
    if ns == [] then nodes
    else if !Written(ns[0]) then Exactly(ns[1..], nodes)
    else Exactly(ns[1..], nodes + [IndexNode(ns[0].time, ns[0].name)])
  }

  /** No written name is shorter than the one written before it, the first not shorter than `k`. */
  predicate NeverShorter(ns: seq<Node>, k: nat) {
    if ns == [] then true
    else if !Written(ns[0]) then NeverShorter(ns[1..], k)
    else k <= |ns[0].name| && NeverShorter(ns[1..], |ns[0].name|)
  }

  lemma {:induction false} ListedExtends(ns: seq<Node>, image: string, nodes: seq<IndexNode>)
    ensures nodes <= Listed(ns, image, nodes) && nodes <= Exactly(ns, nodes)
  {
    if ns != [] {
      if !Written(ns[0]) {
        ListedExtends(ns[1..], image, nodes);
      } else {
        var i := Overlaid(image, ns[0].name);
        ListedExtends(ns[1..], i, nodes + [IndexNode(ns[0].time, i)]);
        ListedExtends(ns[1..], i, nodes + [IndexNode(ns[0].time, ns[0].name)]);
      }
    }
  }

  lemma {:induction false} ListedExactlyIff(ns: seq<Node>, image: string, nodes: seq<IndexNode>)
    ensures Listed(ns, image, nodes) == Exactly(ns, nodes) <==> NeverShorter(ns, |image|)
  {
    if ns != [] {
      var n := ns[0];
      if !Written(n) {
        ListedExactlyIff(ns[1..], image, nodes);
      } else if |image| <= |n.name| {
        ListedExactlyIff(ns[1..], n.name, nodes + [IndexNode(n.time, n.name)]);
      } else {
        var i := Overlaid(image, n.name);
        ListedExtends(ns[1..], i, nodes + [IndexNode(n.time, i)]);
        ListedExtends(ns[1..], i, nodes + [IndexNode(n.time, n.name)]);
        assert Listed(ns, image, nodes)[|nodes|] == IndexNode(n.time, i);
        assert Exactly(ns, nodes)[|nodes|] == IndexNode(n.time, n.name);
      }
    }
  }

  /** info2index undoes record_info_file_node_jpeg, time and name of every written report in order, exactly when no
      written name is shorter than the one before it. */
  lemma IndexUndoesInfoIff(ns: seq<Node>)
    requires AllScannable(ns)
    ensures IndexFrom(InfoText(ns), [], [], 0, []) == Exactly(ns, []) <==> NeverShorter(ns, 0)
  {
    InfoListed(ns, InfoText(ns), [], [], 0, []);
    ListedExactlyIff(ns, [], []);
  }

  /** A shorter name leaves the end of the longer one before it. */
  lemma ShorterNameGarbled()
    ensures IndexFrom(InfoText([Node(1, 1, 3, "images/10.jpg"), Node(1, 1, 4, "images/9.jpg")]), [], [], 0, [])
         == [IndexNode(3, "images/10.jpg"), IndexNode(4, "images/9.jpgg")]
  {
    var one, two := Node(1, 1, 3, "images/10.jpg"), Node(1, 1, 4, "images/9.jpg");
    InfoListed([one, two], InfoText([one, two]), [], [], 0, []);
    assert Overlaid([], one.name) == one.name && Overlaid(one.name, two.name) == "images/9.jpgg";
    ListedTwo(one, two, [one, two], one.name, "images/9.jpgg");
  }

  lemma ListedTwo(one: Node, two: Node, ns: seq<Node>, first: string, second: string)
    requires ns == [one, two] && Written(one) && Written(two)
    requires first == Overlaid([], one.name) && second == Overlaid(first, two.name)
    ensures Listed(ns, [], []) == [IndexNode(one.time, first), IndexNode(two.time, second)]
  {
    var a := [] + [IndexNode(one.time, first)];
    assert ns[1..] == [two] && [two][1..] == [];
    assert Listed([two], first, a) == Listed([], second, a + [IndexNode(two.time, second)]);
  }
}
