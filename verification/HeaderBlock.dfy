/** The header block of a part: which of its lines count. */
module HeaderBlock {
  import opened CText
  import opened HeaderLines
  import opened HeaderValues
  import opened HeaderRoundTrip
  import opened Multipart

  /** Any header lines, and the blank line behind them. */
  function Block(fs: seq<HeaderField>): string {
    if fs == [] then "\r\n" else FieldText(fs[0]) + Block(fs[1..])
  }

  /** A line's name, in the letter case it is sent in. */
  predicate Named(f: HeaderField, name: string) {
    SameLower(Squeezed(f.attr), name)
  }

  ghost predicate AllReadable(fs: seq<HeaderField>, space: nat) {
    forall i :: 0 <= i < |fs| ==> Readable(fs[i]) && |Squeezed(fs[i].attr)| < space
  }

  /** The value of the last line with a name. */
  function LastValue(fs: seq<HeaderField>, name: string): Option<string> {
    if fs == [] then None
    else
      match LastValue(fs[1..], name)
      case Some(v) => Some(v)
      case None => if Named(fs[0], name) then Some(fs[0].value) else None
  }

  lemma {:induction false} LastValueIs(fs: seq<HeaderField>, name: string)
    ensures LastValue(fs, name) == None <==> forall i :: 0 <= i < |fs| ==> !Named(fs[i], name)
    ensures LastValue(fs, name).Some? ==>
              exists k :: 0 <= k < |fs| && Named(fs[k], name) && LastValue(fs, name) == Some(fs[k].value) &&
                          forall i :: k < i < |fs| ==> !Named(fs[i], name)
  {
    if fs != [] {
      var t := fs[1..];
      LastValueIs(t, name);
      assert forall i :: 0 < i < |fs| ==> fs[i] == t[i - 1];
      if LastValue(t, name).Some? {
        var k :| 0 <= k < |t| && Named(t[k], name) && LastValue(t, name) == Some(t[k].value) &&
                 forall i :: k < i < |t| ==> !Named(t[i], name);
        assert fs[k + 1] == t[k];
      } else if Named(fs[0], name) {
        assert LastValue(fs, name) == Some(fs[0].value);
      }
    }
  }

  /** A value as the reader passes it on. */
  function Heard(v: string, space: nat): string {
    CString(Fit(Decoloned(v), space))
  }

  lemma {:induction false} DecolonedSame(v: string)
    requires ':' !in v
    ensures Decoloned(v) == v
  {
    if v != [] {
      DecolonedSame(v[1..]);
    }
  }

  /** A value of one line without colon that fits the buffer is passed on as it is. */
  lemma HeardWhole(v: string, space: nat)
    requires ':' !in v && NUL !in v && |v| < space
    ensures Heard(v, space) == v
  {
    DecolonedSame(v);
  }

  /** A disposition with a parameter nobody asked for. */
  predicate Unasked(f: HeaderField, space: nat) {
    Named(f, "Content-Disposition") && Decompose(Heard(f.value, space), DISPOSITION_ARGS, space, space).BadStore?
  }

  predicate AnyUnasked(fs: seq<HeaderField>, space: nat) {
    exists i :: 0 <= i < |fs| && Unasked(fs[i], space)
  }

  function Disposed(h: Head, v: string, space: nat): Head {
    match Decompose(v, DISPOSITION_ARGS, space, space)
    case BadStore => h
    case Decomposition(main, args) => h.(disposition := main, name := args[0], fileName := args[1])
  }

  /** `h` after a disposition and a type, if there are any. */
  function HeadOf(h: Head, disposition: Option<string>, contentType: Option<string>, space: nat): Head {
    var g := if disposition.None? then h else Disposed(h, Heard(disposition.value, space), space);
    if contentType.None? then g
    else g.(contentType := Decompose(Heard(contentType.value, space), [], space, 0).main)
  }

  lemma AnyUnaskedStep(fs: seq<HeaderField>, space: nat)
    requires fs != []
    ensures AnyUnasked(fs, space) <==> Unasked(fs[0], space) || AnyUnasked(fs[1..], space)
  {
    if AnyUnasked(fs[1..], space) {
      var i :| 0 <= i < |fs[1..]| && Unasked(fs[1..][i], space);
      assert Unasked(fs[i + 1], space);
    }
    if AnyUnasked(fs, space) && !Unasked(fs[0], space) {
      var i :| 0 <= i < |fs| && Unasked(fs[i], space);
      assert Unasked(fs[1..][i - 1], space);
    }
  }

  lemma {:induction false} SqueezedNoNul(s: string)
    requires NUL !in s
    ensures NUL !in Squeezed(s)
  {
    if s != [] {
      SqueezedNoNul(s[1..]);
    }
  }

  lemma {:induction false} DecolonedNotEmpty(v: string)
    requires v != [] && (':' in v ==> EndsInText(v))
    ensures Decoloned(v) != []
    decreases |v|
  {
    if v[0] == ':' {
      SkipSpaceInside(v[1..], []);
      DecolonedNotEmpty(SkipSpace(v[1..]));
    }
  }

  /** What the loop over header lines makes of one of them. */
  lemma FieldApplied(f: HeaderField, rest: string, h: Head, space: nat)
    requires Readable(f) && |Squeezed(f.attr)| < space && 2 <= space
    requires f.end == [CR] ==> rest == [] || rest[0] != LF
    ensures HeadFrom(FieldText(f) + rest, h, space) ==
            match Apply(h, Squeezed(f.attr), Heard(f.value, space), space)
            case None => HeadFault
            case Some(h') => HeadFrom(rest, h', space)
  {
    FieldRead(f, rest, space);
    SqueezedNoNul(f.attr);
    DecolonedNotEmpty(f.value);
  }

  /** A line of any other name changes nothing. */
  lemma ApplyIs(f: HeaderField, h: Head, space: nat)
    ensures var r := Apply(h, Squeezed(f.attr), Heard(f.value, space), space);
            if Unasked(f, space) then r == None
            else r == Some(HeadOf(h, if Named(f, "Content-Disposition") then Some(f.value) else None,
                                  if Named(f, "Content-Type") then Some(f.value) else None, space))
  {
    assert |"Content-Disposition"| != |"Content-Type"|;
  }

  lemma HeadOfAfter(h: Head, d: Option<string>, t: Option<string>, d': Option<string>, t': Option<string>, space: nat)
    requires d'.Some? ==> Decompose(Heard(d'.value, space), DISPOSITION_ARGS, space, space).Decomposition?
    ensures HeadOf(HeadOf(h, d, t, space), d', t', space) ==
            HeadOf(h, if d'.Some? then d' else d, if t'.Some? then t' else t, space)
  {
  }

  lemma BlankLine(end: string, rest: string, h: Head, space: nat)
    requires LineEnd(end) && (end == [CR] ==> rest == [] || rest[0] != LF)
    ensures HeadFrom(end + rest, h, space) == HeadResult(h, rest)
  {
    LineEnded(end, rest, [], [], false, space);
  }

  lemma LastValueSound(fs: seq<HeaderField>, space: nat)
    requires !AnyUnasked(fs, space) && LastValue(fs, "Content-Disposition").Some?
    ensures Decompose(Heard(LastValue(fs, "Content-Disposition").value, space), DISPOSITION_ARGS, space, space)
              .Decomposition?
  {
    LastValueIs(fs, "Content-Disposition");
    var k :| 0 <= k < |fs| && Named(fs[k], "Content-Disposition") &&
             LastValue(fs, "Content-Disposition") == Some(fs[k].value);
    assert !Unasked(fs[k], space);
  }

  /** Header lines without the blank line behind them. */
  function Lines(fs: seq<HeaderField>): string {
    if fs == [] then [] else FieldText(fs[0]) + Lines(fs[1..])
  }

  lemma {:induction false} BlockIsLines(fs: seq<HeaderField>, rest: string)
    ensures Block(fs) + rest == Lines(fs) + ("\r\n" + rest)
  {
    if fs == [] {
      assert [] + ("\r\n" + rest) == "\r\n" + rest;
    } else {
      BlockIsLines(fs[1..], rest);
      assert Block(fs) + rest == FieldText(fs[0]) + (Block(fs[1..]) + rest);
      assert Lines(fs) + ("\r\n" + rest) == FieldText(fs[0]) + (Lines(fs[1..]) + ("\r\n" + rest));
    }
  }

  /** Text that is not taken for the second half of a line end. */
  predicate Behind(more: string) {
    more == [] || more[0] != LF
  }

  lemma LinesBehind(fs: seq<HeaderField>, more: string)
    requires (forall i :: 0 <= i < |fs| ==> Readable(fs[i])) && Behind(more)
    ensures Behind(Lines(fs) + more)
  {
    if fs != [] {
      assert FieldText(fs[0])[0] == if fs[0].attr == [] then ':' else fs[0].attr[0];
      assert fs[0].attr != [] ==> fs[0].attr[0] in fs[0].attr;
    } else {
      assert Lines(fs) + more == more;
    }
  }

  /** The head after the lines `fs`. */
  function HeadAfter(h: Head, fs: seq<HeaderField>, space: nat): Head {
    HeadOf(h, LastValue(fs, "Content-Disposition"), LastValue(fs, "Content-Type"), space)
  }

  lemma HeadAfterStep(h: Head, fs: seq<HeaderField>, space: nat)
    requires fs != [] && !AnyUnasked(fs, space)
    ensures Apply(h, Squeezed(fs[0].attr), Heard(fs[0].value, space), space).Some?
    ensures HeadAfter(Apply(h, Squeezed(fs[0].attr), Heard(fs[0].value, space), space).value, fs[1..], space)
         == HeadAfter(h, fs, space)
  {
    var f, t := fs[0], fs[1..];
    AnyUnaskedStep(fs, space);
    ApplyIs(f, h, space);
    var d := if Named(f, "Content-Disposition") then Some(f.value) else None;
    var y := if Named(f, "Content-Type") then Some(f.value) else None;
    if LastValue(t, "Content-Disposition").Some? {
      LastValueSound(t, space);
    }
    HeadOfAfter(h, d, y, LastValue(t, "Content-Disposition"), LastValue(t, "Content-Type"), space);
  }

  /** For every list of header lines, in any order, any letter case, with any line ends, and whatever follows them: the
      head they leave depends on the last Content-Disposition and the last Content-Type only, and reading fails exactly
      when some disposition has a parameter nobody asked for. */
  lemma {:induction false} LinesRead(fs: seq<HeaderField>, more: string, h: Head, space: nat)
    requires AllReadable(fs, space) && 2 <= space && Behind(more)
    ensures HeadFrom(Lines(fs) + more, h, space) ==
            if AnyUnasked(fs, space) then HeadFault else HeadFrom(more, HeadAfter(h, fs, space), space)
    decreases |fs|
  {
    if fs == [] {
      assert Lines(fs) + more == more;
    } else {
      LineFirst(fs, more, h, space);
      if !Unasked(fs[0], space) {
        var h' := Apply(h, Squeezed(fs[0].attr), Heard(fs[0].value, space), space);
        ApplyIs(fs[0], h, space);
        LinesRead(fs[1..], more, h'.value, space);
        AnyUnaskedStep(fs, space);
        if !AnyUnasked(fs[1..], space) {
          HeadAfterStep(h, fs, space);
        }
      } else {
        AnyUnaskedStep(fs, space);
      }
    }
  }

  lemma LineFirst(fs: seq<HeaderField>, more: string, h: Head, space: nat)
    requires fs != [] && AllReadable(fs, space) && 2 <= space && Behind(more)
    ensures match Apply(h, Squeezed(fs[0].attr), Heard(fs[0].value, space), space)
            case None => Unasked(fs[0], space) && HeadFrom(Lines(fs) + more, h, space) == HeadFault
            case Some(h') =>
              && !Unasked(fs[0], space)
              && HeadFrom(Lines(fs) + more, h, space) == HeadFrom(Lines(fs[1..]) + more, h', space)
  {
    LinesSplit(fs, more);
    LinesBehind(fs[1..], more);
    OneLineRead(fs[0], Lines(fs[1..]) + more, Lines(fs) + more, h, space);
  }

  lemma LinesSplit(fs: seq<HeaderField>, more: string)
    requires fs != []
    ensures Lines(fs) + more == FieldText(fs[0]) + (Lines(fs[1..]) + more)
  {
  }

  lemma OneLineRead(f: HeaderField, rest: string, text: string, h: Head, space: nat)
    requires Readable(f) && |Squeezed(f.attr)| < space && 2 <= space && Behind(rest) && text == FieldText(f) + rest
    ensures match Apply(h, Squeezed(f.attr), Heard(f.value, space), space)
            case None => Unasked(f, space) && HeadFrom(text, h, space) == HeadFault
            case Some(h') => !Unasked(f, space) && HeadFrom(text, h, space) == HeadFrom(rest, h', space)
  {
    FieldApplied(f, rest, h, space);
    ApplyIs(f, h, space);
  }

  /** A header block, up to the blank line. */
  lemma HeadIsLast(fs: seq<HeaderField>, rest: string, h: Head, space: nat)
    requires AllReadable(fs, space) && 2 <= space
    ensures HeadFrom(Block(fs) + rest, h, space) ==
            if AnyUnasked(fs, space) then HeadFault else HeadResult(HeadAfter(h, fs, space), rest)
  {
    BlockIsLines(fs, rest);
    LinesRead(fs, "\r\n" + rest, h, space);
    BlankLine("\r\n", rest, HeadAfter(h, fs, space), space);
  }

  lemma {:induction false} NoLineEnd(cut: string, attr: string, value: string, found: bool, space: nat)
    requires OneLine(cut)
    ensures LineFrom(cut, attr, value, found, space) == Cut
    decreases |cut|
  {
    if cut != [] {
      if cut[0] == ':' && attr != [] {
        SkipSpaceWithin(cut[1..]);
        NoLineEnd(SkipSpace(cut[1..]), attr, value, true, space);
      } else if !found {
        var next := if !IsSpace(cut[0]) && |attr| + 1 < space then attr + [cut[0]] else attr;
        NoLineEnd(cut[1..], next, value, found, space);
      } else {
        NoLineEnd(cut[1..], attr, if |value| + 1 < space then value + [cut[0]] else value, found, space);
      }
    }
  }

  lemma {:induction false} SkipSpaceWithin(v: string)
    ensures forall c :: c in SkipSpace(v) ==> c in v
  {
    if v != [] && IsSpace(v[0]) {
      SkipSpaceWithin(v[1..]);
    }
  }

  /** A stream that ends inside a header line: the lines before it count, and nothing is left. */
  lemma CutHead(fs: seq<HeaderField>, cut: string, h: Head, space: nat)
    requires AllReadable(fs, space) && 2 <= space && OneLine(cut)
    ensures HeadFrom(Lines(fs) + cut, h, space) ==
            if AnyUnasked(fs, space) then HeadFault else HeadResult(HeadAfter(h, fs, space), [])
  {
    LinesRead(fs, cut, h, space);
    NoLineEnd(cut, [], [], false, space);
  }

  /** A line of another name, wherever it stands among the others, makes no difference. */
  lemma OtherLineIgnored(a: seq<HeaderField>, f: HeaderField, b: seq<HeaderField>, rest: string, h: Head, space: nat)
    requires AllReadable(a + [f] + b, space) && 2 <= space
    requires !Named(f, "Content-Disposition") && !Named(f, "Content-Type")
    ensures HeadFrom(Block(a + [f] + b) + rest, h, space) == HeadFrom(Block(a + b) + rest, h, space)
  {
    assert forall i :: 0 <= i < |a + b| ==>
        (a + b)[i] == (a + [f] + b)[if i < |a| then i else i + 1];
    HeadIsLast(a + [f] + b, rest, h, space);
    HeadIsLast(a + b, rest, h, space);
    LastValueDrop(a, f, b, "Content-Disposition");
    LastValueDrop(a, f, b, "Content-Type");
    AnyUnaskedDrop(a, f, b, space);
  }

  lemma {:induction false} LastValueDrop(a: seq<HeaderField>, f: HeaderField, b: seq<HeaderField>, name: string)
    requires !Named(f, name)
    ensures LastValue(a + [f] + b, name) == LastValue(a + b, name)
  {
    if a == [] {
      assert (a + [f] + b)[1..] == b && a + b == b;
    } else {
      assert (a + [f] + b)[1..] == a[1..] + [f] + b && (a + b)[1..] == a[1..] + b;
      LastValueDrop(a[1..], f, b, name);
    }
  }

  lemma {:induction false} AnyUnaskedDrop(a: seq<HeaderField>, f: HeaderField, b: seq<HeaderField>, space: nat)
    requires !Named(f, "Content-Disposition")
    ensures AnyUnasked(a + [f] + b, space) == AnyUnasked(a + b, space)
  {
    if a == [] {
      assert (a + [f] + b)[1..] == b && a + b == b;
      AnyUnaskedStep(a + [f] + b, space);
    } else {
      assert (a + [f] + b)[1..] == a[1..] + [f] + b && (a + b)[1..] == a[1..] + b;
      AnyUnaskedStep(a + [f] + b, space);
      AnyUnaskedStep(a + b, space);
      AnyUnaskedDrop(a[1..], f, b, space);
    }
  }
}
