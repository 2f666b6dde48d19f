/** jpeg_record_process: the thread that numbers pictures and reports them. */
module PictureThread {
  import opened CText
  import opened Decimal
  import opened BoundarySearch
  import opened RecorderThread
  import opened IndexFile

  const MAX_JPEG_NUM: nat := 512
  const IMAGES := "images/"

  /** What one turn of the loop meets: the status it sees, a picture or none, the time it is stamped with, and whether
      the queue accepts the report. */
  datatype Shot = NoShot(status: Status) | Shot(status: Status, width: int, height: int, time: int, sent: bool)

  /** The path of picture `i` in the directory `dir`. */
  function Path(dir: string, i: nat): string {
    (dir + "/") + (DigitsOf(i) + ".jpg")
  }

  /** The file name reported for a path: from the first "images/" in it. */
  function Reported(path: string): Option<string> {
    match Find(IMAGES, path)
    case None => None
    case Some(p) => Some(path[p..])
  }

  /** The locals that outlive a turn, the clock aside. */
  datatype Numbering = Numbering(index: nat, done: bool)

  const FIRST := Numbering(1, false)

  /** A picture is numbered when it comes outside a pause and the numbers are not used up. */
  predicate Taken(n: Numbering, s: Shot) {
    !n.done && s.Shot? && s.status != Pause && n.index <= MAX_JPEG_NUM
  }

  function Turned(n: Numbering, s: Shot): Numbering {
    if n.done then n
    else if s.NoShot? then n.(done := s.status == Close)
    else if Taken(n, s) then n.(index := n.index + 1)
    else n
  }

  /** The report of a turn that reaches the queue. */
  function ReportOf(n: Numbering, s: Shot, dir: string): seq<Node> {
    if Taken(n, s) && s.sent && Reported(Path(dir, n.index)).Some? then
      [Node(s.width, s.height, s.time, Reported(Path(dir, n.index)).value)]
    else []
  }

  function NumberingAt(ss: seq<Shot>, i: nat): Numbering
    requires i <= |ss|
  {
    if i == 0 then FIRST else Turned(NumberingAt(ss, i - 1), ss[i - 1])
  }

  /** The reports of the first `i` turns. */
  function PictureReports(ss: seq<Shot>, i: nat, dir: string): seq<Node>
    requires i <= |ss|
  {
    if i == 0 then [] else PictureReports(ss, i - 1, dir) + ReportOf(NumberingAt(ss, i - 1), ss[i - 1], dir)
  }

  /** jpeg_record_process over the events it meets until it sees the close status. */
  method JpegRecordProcess(ss: seq<Shot>, dir: string) returns (reports: seq<Node>)
    ensures reports == PictureReports(ss, |ss|, dir)
  {
    reports := [];
    var index, done := 1, false;
    var i := 0;
    while i < |ss|
      invariant i <= |ss| && Numbering(index, done) == NumberingAt(ss, i)
      invariant reports == PictureReports(ss, i, dir)
    {
      var s := ss[i];
      if !done && s.NoShot? {
        done := s.status == Close;
      } else if !done && !(s.status == Pause || MAX_JPEG_NUM < index) {
        var name := Reported(Path(dir, index));
        index := index + 1;
        if name.Some? && s.sent {
          reports := reports + [Node(s.width, s.height, s.time, name.value)];
        }
      }
      i := i + 1;
    }
  }

  // ----- the names -----

  /** What all reported names of a directory start with. */
  function Stem(dir: string): Option<string> {
    Reported(dir + "/")
  }

  lemma NoSlash(i: nat)
    ensures '/' !in DigitsOf(i) + ".jpg"
  {
  }

  /** What follows the last slash of a text is no part of an "images/". */
  lemma TailHidesNothing(front: string, tail: string, j: nat)
    requires '/' !in tail
    ensures OccursAt(IMAGES, front + tail, j) <==> OccursAt(IMAGES, front, j)
  {
    var path := front + tail;
    forall k | |front| <= k < |path| ensures path[k] != '/' {
      assert path[k] == tail[k - |front|];
    }
    if OccursAt(IMAGES, path, j) {
      assert path[j + 6] == path[j..j + 7][6] == '/';
    }
    assert j + 7 <= |front| ==> path[j..j + 7] == front[j..j + 7];
  }

  lemma TailFindsNothing(front: string, tail: string)
    requires '/' !in tail
    ensures Find(IMAGES, front + tail) == Find(IMAGES, front)
  {
    FindIsLeftmost(IMAGES, front + tail);
    FindIsLeftmost(IMAGES, front);
    var f, g := Find(IMAGES, front + tail), Find(IMAGES, front);
    if f.Some? {
      TailHidesNothing(front, tail, f.value);
    }
    if g.Some? {
      TailHidesNothing(front, tail, g.value);
    }
  }

  /** The reported name is the stem and the number. */
  lemma NameOf(dir: string, i: nat)
    ensures Reported(Path(dir, i)) ==
            match Stem(dir)
            case None => None
            case Some(stem) => Some(stem + (DigitsOf(i) + ".jpg"))
  {
    var front, tail := dir + "/", DigitsOf(i) + ".jpg";
    NoSlash(i);
    TailFindsNothing(front, tail);
    var g := Find(IMAGES, front);
    if g.Some? {
      assert (front + tail)[g.value..] == front[g.value..] + tail;
    }
  }

  /** Reports whose names are the stem and rising numbers. */
  ghost predicate Numbered(ns: seq<Node>, nums: seq<nat>, stem: string) {
    && |ns| == |nums|
    && (forall k :: 0 <= k < |nums| ==> nums[k] <= MAX_JPEG_NUM && ns[k].name == stem + (DigitsOf(nums[k]) + ".jpg"))
    && (forall k, l :: 0 <= k < l < |nums| ==> nums[k] < nums[l])
  }

  /** In every run, whichever reports are lost, the reported pictures are numbered in rising order. */
  lemma {:induction false} ReportsNumbered(ss: seq<Shot>, i: nat, dir: string, stem: string) returns (nums: seq<nat>)
    requires i <= |ss| && Stem(dir) == Some(stem)
    ensures Numbered(PictureReports(ss, i, dir), nums, stem)
    ensures forall k :: 0 <= k < |nums| ==> nums[k] < NumberingAt(ss, i).index
  {
    if i == 0 {
      nums := [];
    } else {
      var before := ReportsNumbered(ss, i - 1, dir, stem);
      nums := StepNumbered(NumberingAt(ss, i - 1), ss[i - 1], dir, stem, PictureReports(ss, i - 1, dir), before);
    }
  }

  lemma StepNumbered(n: Numbering, s: Shot, dir: string, stem: string, ns: seq<Node>, before: seq<nat>)
      returns (nums: seq<nat>)
    requires Stem(dir) == Some(stem) && Numbered(ns, before, stem) && forall k :: 0 <= k < |before| ==>
        before[k] < n.index
    ensures Numbered(ns + ReportOf(n, s, dir), nums, stem)
    ensures forall k :: 0 <= k < |nums| ==> nums[k] < Turned(n, s).index
  {
    NameOf(dir, n.index);
    var more := ReportOf(n, s, dir);
    if more == [] {
      nums := before;
      assert ns + more == ns;
    } else {
      OneMoreNumbered(ns, before, stem, more[0], n.index);
      assert more == [more[0]];
      nums := before + [n.index];
    }
  }

  lemma OneMoreNumbered(ns: seq<Node>, nums: seq<nat>, stem: string, node: Node, num: nat)
    requires Numbered(ns, nums, stem) && num <= MAX_JPEG_NUM && node.name == stem + (DigitsOf(num) + ".jpg")
    requires forall k :: 0 <= k < |nums| ==> nums[k] < num
    ensures Numbered(ns + [node], nums + [num], stem)
  {
  }

  // ----- which pictures are reported -----

  /** The thread has not seen the close status before turn `k`. */
  ghost predicate Going(ss: seq<Shot>, k: nat)
    requires k <= |ss|
  {
    forall j :: 0 <= j < k ==> !(ss[j].NoShot? && ss[j].status == Close)
  }

  /** How many of the first `k` turns met a picture outside a pause. */
  function Unpaused(ss: seq<Shot>, k: nat): nat
    requires k <= |ss|
  {
    if k == 0 then 0 else Unpaused(ss, k - 1) + (if ss[k - 1].Shot? && ss[k - 1].status != Pause then 1 else 0)
  }

  /** The next number is one more than the pictures met outside pauses, up to the last number there is. */
  lemma {:induction false} NumberIs(ss: seq<Shot>, k: nat)
    requires k <= |ss| && Going(ss, k)
    ensures NumberingAt(ss, k) == Numbering(1 + Min(512, Unpaused(ss, k)), false)
  {
    if k > 0 {
      assert Going(ss, k - 1);
      NumberIs(ss, k - 1);
    }
  }

  lemma {:induction false} DoneStays(ss: seq<Shot>, k: nat)
    requires k <= |ss| && !Going(ss, k)
    ensures NumberingAt(ss, k).done
  {
    if Going(ss, k - 1) {
      NumberIs(ss, k - 1);
    } else {
      DoneStays(ss, k - 1);
    }
  }

  /** A turn's picture is reported exactly when it comes before the close and outside a pause, fewer than 512 came so
      before it, the queue takes the report and the directory has an images/. The report has the picture's size and
      time, and is named by the stem and one more than that count. */
  lemma PictureReported(ss: seq<Shot>, k: nat, dir: string)
    requires k < |ss|
    ensures ReportOf(NumberingAt(ss, k), ss[k], dir) ==
            if Going(ss, k) && ss[k].Shot? && ss[k].status != Pause && Unpaused(ss, k) < 512
               && ss[k].sent && Stem(dir).Some?
            then [Node(ss[k].width, ss[k].height, ss[k].time,
                       Stem(dir).value + (DigitsOf(Unpaused(ss, k) + 1) + ".jpg"))]
            else []
  {
    NameOf(dir, NumberingAt(ss, k).index);
    if Going(ss, k) {
      NumberIs(ss, k);
    } else {
      DoneStays(ss, k);
    }
  }

  lemma {:induction false} NumberedNeverShorter(ns: seq<Node>, nums: seq<nat>, stem: string, m: nat)
    requires Numbered(ns, nums, stem) && forall k :: 0 <= k < |nums| ==> m <= nums[k]
    ensures NeverShorter(ns, |stem + (DigitsOf(m) + ".jpg")|)
    decreases |ns|
  {
    if ns != [] {
      DigitsMonotone(m, nums[0]);
      if Written(ns[0]) {
        NumberedNeverShorter(ns[1..], nums[1..], stem, nums[0]);
      } else {
        NumberedNeverShorter(ns[1..], nums[1..], stem, m);
      }
    }
  }

  lemma {:induction false} Relaxed(ns: seq<Node>, k: nat, l: nat)
    requires l <= k && NeverShorter(ns, k)
    ensures NeverShorter(ns, l)
  {
    if ns != [] && !Written(ns[0]) {
      Relaxed(ns[1..], k, l);
    }
  }

  /** A stem that leaves the names scannable. */
  predicate Plain(stem: string) {
    |stem| + 7 <= 120 && forall i :: 0 <= i < |stem| ==> !IsSpace(stem[i]) && stem[i] != NUL && stem[i] != '<'
  }

  lemma NameScannable(stem: string, i: nat)
    requires Plain(stem) && i <= MAX_JPEG_NUM
    ensures Scannable(stem + (DigitsOf(i) + ".jpg"))
  {
    DigitsMonotone(i, 999);
    assert DigitsOf(999) == DigitsOf(99) + "9" && DigitsOf(99) == DigitsOf(9) + "9";
  }

  /** In every run of the picture thread the index lists exactly the accepted pictures that have a size, in order, with
      their times and names. */
  lemma RecorderIndexExact(ss: seq<Shot>, dir: string)
    requires Stem(dir).Some? ==> Plain(Stem(dir).value)
    ensures var ns := PictureReports(ss, |ss|, dir); IndexFrom(InfoText(ns), [], [], 0, []) == Exactly(ns, [])
  {
    var ns := PictureReports(ss, |ss|, dir);
    match Stem(dir)
    case None =>
      NothingReported(ss, |ss|, dir);
      IndexUndoesInfoIff(ns);
    case Some(stem) =>
      var nums := ReportsNumbered(ss, |ss|, dir, stem);
      forall k | 0 <= k < |ns| ensures Scannable(ns[k].name) {
        NameScannable(stem, nums[k]);
      }
      NumberedNeverShorter(ns, nums, stem, 0);
      Relaxed(ns, |stem + (DigitsOf(0) + ".jpg")|, 0);
      IndexUndoesInfoIff(ns);
  }

  lemma NothingReported(ss: seq<Shot>, i: nat, dir: string)
    requires i <= |ss| && Stem(dir) == None
    ensures PictureReports(ss, i, dir) == []
  {
    forall n: Numbering, s: Shot ensures ReportOf(n, s, dir) == [] {
      NothingNamed(n, s, dir);
    }
    NothingAdded(ss, i, dir);
  }

  lemma {:induction false} NothingAdded(ss: seq<Shot>, i: nat, dir: string)
    requires i <= |ss| && forall n: Numbering, s: Shot :: ReportOf(n, s, dir) == []
    ensures PictureReports(ss, i, dir) == []
  {
    if i > 0 {
      NothingAdded(ss, i - 1, dir);
    }
  }

  lemma NothingNamed(n: Numbering, s: Shot, dir: string)
    requires Stem(dir) == None
    ensures ReportOf(n, s, dir) == []
  {
    NameOf(dir, n.index);
  }
}
