/** The blue-screen file of one stream: a node per interval, the open one provisional and later overwritten. */
module BlueScreen {
  import opened Decimal

  /** The state of a text file: contents and position. */
  datatype File = File(text: string, pos: nat)

  function Written(f: File, s: string): File
    requires f.pos <= |f.text|
  {
    File(f.text[..f.pos] + s + (if f.pos + |s| <= |f.text| then f.text[f.pos + |s|..] else []), f.pos + |s|)
  }

  datatype Interval = Interval(start: int, end: int)

  /** blue_node. */
  function Node(i: Interval): string {
    "<bluetime  start=\"" + Dec(i.start) + "\" end=\"" + Dec(i.end) + "\"/>\n"
  }

  function Nodes(xs: seq<Interval>): string {
    if xs == [] then [] else Nodes(xs[..|xs| - 1]) + Node(xs[|xs| - 1])
  }

  // ----- the reference: maximal runs of blue reports -----

  /** A report of the stream: blue or not, and its time in the course. */
  datatype Sighting = Sighting(blue: bool, time: int)

  function BlueLength(rs: seq<Sighting>): (k: nat)
    ensures k <= |rs|
    ensures forall i :: 0 <= i < k ==> rs[i].blue
    ensures k < |rs| ==> !rs[k].blue
  {
    if rs == [] || !rs[0].blue then 0 else 1 + BlueLength(rs[1..])
  }

  /** One interval per maximal run of blue reports: from its first report to the report that ends it, or to
      `end` when nothing has ended it yet. */
  function Runs(rs: seq<Sighting>, end: int): seq<Interval> {
    var k := BlueLength(rs);
    if rs == [] then []
    else if k == 0 then Runs(rs[1..], end)
    else [Interval(rs[0].time, if k < |rs| then rs[k].time else end)] + Runs(rs[k..], end)
  }

  predicate InBlue(rs: seq<Sighting>) {
    rs != [] && rs[|rs| - 1].blue
  }

  /** The intervals with the last one ended at `e`. */
  function Reclosed(xs: seq<Interval>, e: int): seq<Interval>
    requires xs != []
  {
    xs[..|xs| - 1] + [xs[|xs| - 1].(end := e)]
  }

  lemma {:induction false} RunsEnd(rs: seq<Sighting>, e: int, f: int)
    ensures if InBlue(rs) then Runs(rs, f) != [] && Runs(rs, e) == Reclosed(Runs(rs, f), e)
            else Runs(rs, e) == Runs(rs, f)
    decreases |rs|
  {
    var k := BlueLength(rs);
    if rs != [] {
      var rest := rs[if k == 0 then 1 else k..];
      if rest != [] {
        assert rest[|rest| - 1] == rs[|rs| - 1];
      }
      RunsEnd(rest, e, f);
      if InBlue(rest) && k > 0 {
        var first := Interval(rs[0].time, rs[k].time);
        assert Reclosed([first] + Runs(rest, f), e) == [first] + Reclosed(Runs(rest, f), e);
      }
    }
  }

  lemma {:induction false} BlueLengthAppend(rs: seq<Sighting>, r: Sighting)
    ensures BlueLength(rs + [r]) == if BlueLength(rs) < |rs| then BlueLength(rs) else if r.blue then |rs| + 1 else |rs|
  {
    if rs == [] {
      assert rs + [r] == [r] && [r][1..] == [];
    } else {
      assert (rs + [r])[1..] == rs[1..] + [r];
      if rs[0].blue {
        BlueLengthAppend(rs[1..], r);
      }
    }
  }

  /** The runs after an append to one that covers everything. */
  lemma RunsAppendToRun(rs: seq<Sighting>, r: Sighting, end: int)
    requires rs != [] && BlueLength(rs) == |rs|
    ensures r.blue ==> Runs(rs + [r], end) == Runs(rs, end)
    ensures !r.blue ==> Runs(rs + [r], end) == Runs(rs, r.time)
  {
    var k := |rs|;
    BlueLengthAppend(rs, r);
    assert rs[k..] == [];
    if r.blue {
      assert (rs + [r])[k + 1..] == [];
    } else {
      assert (rs + [r])[k..] == [r] && [r][1..] == [];
      assert Runs([r], end) == Runs([], end);
    }
  }

  /** The reports up to the next one that is not blue, or just one: how far `Runs` moves at a time. */
  function Stride(rs: seq<Sighting>): (n: nat)
    requires rs != []
    ensures 0 < n <= |rs|
  {
    if BlueLength(rs) == 0 then 1 else BlueLength(rs)
  }

  /** The interval of a run that something has ended, if there is one at the front. */
  function EndedRun(rs: seq<Sighting>): seq<Interval>
    requires BlueLength(rs) < |rs|
  {
    if BlueLength(rs) == 0 then [] else [Interval(rs[0].time, rs[BlueLength(rs)].time)]
  }

  lemma RunsUnfold(rs: seq<Sighting>, end: int)
    requires BlueLength(rs) < |rs|
    ensures Runs(rs, end) == EndedRun(rs) + Runs(rs[Stride(rs)..], end)
  {
  }

  lemma RunsUnfoldAppend(rs: seq<Sighting>, r: Sighting, end: int)
    requires BlueLength(rs) < |rs|
    ensures Runs(rs + [r], end) == EndedRun(rs) + Runs(rs[Stride(rs)..] + [r], end)
  {
    BlueLengthAppend(rs, r);
    assert (rs + [r])[Stride(rs)..] == rs[Stride(rs)..] + [r];
    RunsUnfold(rs + [r], end);
  }

  /** Adding a report: it opens, extends or ends a run, and leaves the runs before it alone. */
  lemma {:induction false} RunsAppend(rs: seq<Sighting>, r: Sighting, end: int)
    ensures InBlue(rs) && r.blue ==> Runs(rs + [r], end) == Runs(rs, end)
    ensures InBlue(rs) && !r.blue ==> Runs(rs + [r], end) == Runs(rs, r.time)
    ensures !InBlue(rs) && r.blue ==> Runs(rs + [r], end) == Runs(rs, end) + [Interval(r.time, end)]
    ensures !InBlue(rs) && !r.blue ==> Runs(rs + [r], end) == Runs(rs, end)
    decreases |rs|
  {
    if rs == [] {
      assert rs + [r] == [r] && [r][1..] == [];
    } else if BlueLength(rs) == |rs| {
      RunsAppendToRun(rs, r, end);
    } else {
      var n := Stride(rs);
      var rest := rs[n..];
      RunsAppend(rest, r, end);
      RunsUnfold(rs, end);
      RunsUnfold(rs, r.time);
      RunsUnfoldAppend(rs, r, end);
      assert InBlue(rest) == InBlue(rs);
    }
  }

  // ----- the file -----

  /** A node with a real end is at least as long as the provisional one with end 0. */
  lemma NodeCovers(start: int, end: int)
    ensures |Node(Interval(start, 0))| <= |Node(Interval(start, end))|
  {
    assert |Dec(0)| == 1;
  }

  /** Writing the final node where the provisional one begins leaves no byte of it. */
  lemma Overwritten(f: File, before: string, start: int, end: int)
    requires f.text == before + Node(Interval(start, 0)) && f.pos == |before|
    ensures var g := Written(f, Node(Interval(start, end)));
            g.text == before + Node(Interval(start, end)) && g.pos == |g.text|
  {
    NodeCovers(start, end);
    assert f.text[..f.pos] == before;
    var n := Node(Interval(start, end));
    if f.pos + |n| <= |f.text| {
      assert f.text[f.pos + |n|..] == [];
    }
  }

  lemma NodesAppend(xs: seq<Interval>, x: Interval)
    ensures Nodes(xs + [x]) == Nodes(xs) + Node(x)
  {
    assert (xs + [x])[..|xs|] == xs;
  }

  lemma Appended(f: File, s: string)
    requires f.pos == |f.text|
    ensures Written(f, s) == File(f.text + s, |f.text| + |s|)
  {
    assert f.text[..f.pos] == f.text;
    if f.pos + |s| <= |f.text| {
      assert f.text[f.pos + |s|..] == [];
    }
  }

  /** The file is the list of intervals of the maximal blue runs so far, the open one with end 0, and the
      position is where the next write belongs. */
  ghost predicate Consistent(f: File, start: int, open: bool, heard: seq<Sighting>) {
    var xs := Runs(heard, 0);
    && open == InBlue(heard)
    && f.text == Nodes(xs) && f.pos <= |f.text|
    && (if open then xs != [] && xs[|xs| - 1] == Interval(start, 0) && f.pos == |Nodes(xs[..|xs| - 1])|
        else f.pos == |f.text|)
  }

  /** A run starts: the node goes in with end 0 and the position is put back in front of it. */
  lemma BeginKeeps(f: File, start: int, heard: seq<Sighting>, r: Sighting)
    requires Consistent(f, start, false, heard) && r.blue
    ensures Consistent(File(Written(f, Node(Interval(r.time, 0))).text, f.pos), r.time, true, heard + [r])
  {
    var xs := Runs(heard, 0);
    var x := Interval(r.time, 0);
    RunsAppend(heard, r, 0);
    NodesAppend(xs, x);
    Appended(f, Node(x));
    assert (xs + [x])[..|xs|] == xs;
  }

  /** The provisional node is overwritten by its final form. */
  lemma FinishKeeps(f: File, start: int, heard: seq<Sighting>, end: int)
    requires Consistent(f, start, true, heard)
    ensures var g := Written(f, Node(Interval(start, end)));
            g.text == Nodes(Runs(heard, end)) && g.pos == |g.text|
  {
    RunsEnd(heard, end, 0);
    LastFinished(f, Runs(heard, 0), Runs(heard, end), start, end);
  }

  lemma LastFinished(f: File, xs: seq<Interval>, ys: seq<Interval>, start: int, end: int)
    requires xs != [] && xs[|xs| - 1] == Interval(start, 0) && ys == Reclosed(xs, end)
    requires f.text == Nodes(xs) && f.pos == |Nodes(xs[..|xs| - 1])|
    ensures f.pos <= |f.text|
    ensures var g := Written(f, Node(Interval(start, end)));
            g.text == Nodes(ys) && g.pos == |g.text|
  {
    var before := xs[..|xs| - 1];
    Overwritten(f, Nodes(before), start, end);
    NodesAppend(before, Interval(start, end));
  }

  /** A report that neither starts nor ends a run changes nothing. */
  lemma SameKeeps(f: File, start: int, open: bool, heard: seq<Sighting>, r: Sighting)
    requires Consistent(f, start, open, heard) && r.blue == open
    ensures Consistent(f, start, open, heard + [r])
  {
    RunsAppend(heard, r, 0);
  }

  lemma EndKeeps(f: File, start: int, heard: seq<Sighting>, r: Sighting)
    requires Consistent(f, start, true, heard) && !r.blue
    ensures Consistent(Written(f, Node(Interval(start, r.time))), start, false, heard + [r])
  {
    RunsAppend(heard, r, 0);
    FinishKeeps(f, start, heard, r.time);
  }

  /** The variables of course_record_process that belong to one stream's blue file. */
  class BlueTracker {
    var startFlag: bool
    var endFlag: bool
    var start: int
    var file: File
    /** The reports heard so far. */
    ghost var heard: seq<Sighting>

    ghost predicate Valid()
      reads this
    {
      startFlag == !endFlag && Consistent(file, start, endFlag, heard)
    }

    constructor ()
      ensures Valid() && heard == []
    {
      startFlag, endFlag, start, file := true, false, 0, File([], 0);
      heard := [];
    }

    /** record_blue_node. */
    method RecordNode(end: int)
      requires file.pos <= |file.text|
      modifies this`file
      ensures file == Written(old(file), Node(Interval(start, end)))
    {
      file := Written(file, Node(Interval(start, end)));
    }

    /** A run starts: its provisional node goes in, and the position returns to its front. */
    method BeginRun(r: Sighting)
      requires Valid() && r.blue && startFlag
      modifies this
      ensures Valid() && heard == old(heard) + [r]
    {
      BeginKeeps(file, start, heard, r);
      start := r.time;
      var pos := file.pos;
      RecordNode(0);
      file := file.(pos := pos);
      startFlag, endFlag := false, true;
      heard := heard + [r];
    }

    /** A run ends: the final node is written over the provisional one. */
    method EndRun(r: Sighting)
      requires Valid() && !r.blue && endFlag
      modifies this
      ensures Valid() && heard == old(heard) + [r]
    {
      EndKeeps(file, start, heard, r);
      RecordNode(r.time);
      startFlag, endFlag := true, false;
      heard := heard + [r];
    }

    /** The blue part of the controller's turn for one report of this stream. */
    method OnReport(r: Sighting)
      requires Valid()
      modifies this
      ensures Valid() && heard == old(heard) + [r]
    {
      if r.blue && startFlag {
        BeginRun(r);
      } else if !r.blue && endFlag {
        EndRun(r);
      } else {
        SameKeeps(file, start, endFlag, heard, r);
        heard := heard + [r];
      }
    }

    /** The blue part of closing the course: a run still open is ended at `end`. */
    method OnClose(end: int)
      requires Valid()
      modifies this`file
      ensures file.text == Nodes(Runs(heard, end))
    {
      RunsEnd(heard, end, 0);
      if endFlag && !startFlag {
        FinishKeeps(file, start, heard, end);
        RecordNode(end);
      }
    }
  }
}
