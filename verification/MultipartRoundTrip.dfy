/** Rendering a multipart/form-data body and parsing it back. */
module MultipartRoundTrip {
  import opened CText
  import opened FormEntry
  import opened BoundarySearch
  import opened OpeningSearch
  import opened HeaderLines
  import opened HeaderValues
  import opened HeaderRoundTrip
  import opened HeaderBlock
  import opened Multipart

  /** What a client submits; an empty file name makes it an ordinary field, an empty type means none given. */
  datatype Part = Part(name: string, fileName: string, contentType: string, body: string)

  /** How a disposition is worded; without a file name the parameter for it may be left out. */
  datatype Wording = Wording(kind: string, name: Spelling, file: Option<Spelling>, fileFirst: bool)

  function DispositionText(w: Wording, p: Part): string {
    var n := ParameterText(w.name, p.name);
    var f := if w.file.None? then [] else ParameterText(w.file.value, p.fileName);
    w.kind + (if w.fileFirst then f + n else n + f)
  }

  /** The wording is one of `p`, whatever kind of disposition it is. */
  predicate Words(w: Wording, p: Part) {
    && ';' !in w.kind && (w.kind != [] ==> !IsSpace(w.kind[0]) && w.kind[0] != '"')
    && Spells(w.name, p.name) && SameLower(w.name.key, "name")
    && (w.file.None? ==> p.fileName == [])
    && (w.file.Some? ==> Spells(w.file.value, p.fileName) && SameLower(w.file.value.key, "filename"))
  }

  /** A value that reaches the parameter splitter as it is. */
  predicate Plain(v: string, space: nat) {
    NUL !in v && ':' !in v && |v| < space
  }

  /** The value `v` is a disposition of `p`, of the kind `kind` up to letter case. */
  ghost predicate Disposes(v: string, kind: string, p: Part, space: nat) {
    Plain(v, space) && exists w: Wording :: Words(w, p) && SameLower(w.kind, kind) && v == DispositionText(w, p)
  }

  ghost predicate DisposesOf(f: HeaderField, space: nat) {
    exists kind: string, p: Part :: Disposes(f.value, kind, p, space)
  }

  /** The value `v` names the type `t`, quoted or not, with parameters or without. */
  ghost predicate Types(v: string, t: string, space: nat) {
    Plain(v, space) && (TypeText(v, t) || (NotQuoteIn(t) && TypeText(v, Quoted(t))))
  }

  predicate NotQuoteIn(t: string) {
    '"' !in t
  }

  predicate TypeText(v: string, t: string) {
    t <= v && (|t| < |v| ==> v[|t|] == ';') && t != []
  }

  /** A part as it is sent: the two bytes in front of it, its header lines in any order and form, its body. */
  datatype Submission = Submission(lead: string, fields: seq<HeaderField>, part: Part)

  /** Header lines whose dispositions have the parameters the parser knows. */
  ghost predicate Headed(fs: seq<HeaderField>, space: nat) {
    && AllReadable(fs, space) && fs != [] && !("--" <= fs[0].attr)
    && forall i :: 0 <= i < |fs| && Named(fs[i], "Content-Disposition") ==> DisposesOf(fs[i], space)
  }

  /** The last disposition is one of form data and says what `p` is, and so does the last type; whatever the other lines
      are. */
  ghost predicate Announces(fs: seq<HeaderField>, p: Part, space: nat) {
    Headed(fs, space) && Told(LastValue(fs, "Content-Disposition"), LastValue(fs, "Content-Type"), p, space)
  }

  ghost predicate Told(disposition: Option<string>, contentType: Option<string>, p: Part, space: nat) {
    && disposition.Some? && Disposes(disposition.value, "form-data", p, space)
    && (if contentType.None? then p.contentType == []
        else Typable(p.contentType) && Types(contentType.value, p.contentType, space))
  }

  /** A type that stands for itself in front of a semicolon. */
  predicate Typable(t: string) {
    t != [] && !IsSpace(t[0]) && t[0] != '"' && ';' !in t
  }

  /** Two bytes that can follow a delimiter that does not end the form, usually CR and LF; a first line that starts with
      a dash can follow it directly. */
  predicate Leads(lead: string, fs: seq<HeaderField>) {
    if lead == [] then fs != [] && fs[0].attr != [] && fs[0].attr[0] == '-' else |lead| == 2 && lead[0] != '-'
  }

  ghost predicate Sendable(s: Submission, boundary: string, space: nat) {
    Leads(s.lead, s.fields) && Announces(s.fields, s.part, space) && Find(Delimiter(boundary), s.part.body).None?
  }

  ghost predicate AllSendable(ss: seq<Submission>, boundary: string, space: nat) {
    forall i :: 0 <= i < |ss| ==> Sendable(ss[i], boundary, space)
  }

  function PartText(s: Submission, boundary: string, more: string): string {
    Block(s.fields) + (s.part.body + Delimiter(boundary) + more)
  }

  /** What follows a delimiter when the parts `ss` are still to come, and then `tail`. */
  function AfterDelimiterText(ss: seq<Submission>, boundary: string, tail: string): string {
    if ss == [] then tail
    else ss[0].lead + PartText(ss[0], boundary, AfterDelimiterText(ss[1..], boundary, tail))
  }

  /** The body of a request that submits `ss`. */
  function FormText(preamble: string, ss: seq<Submission>, boundary: string, tail: string): string {
    preamble + ("--" + boundary) + AfterDelimiterText(ss, boundary, tail)
  }

  function EntryFor(p: Part): Entry {
    EntryOf(Head("form-data", p.name, p.fileName, p.contentType), p.body)
  }

  function EntriesFor(ss: seq<Submission>): seq<Entry> {
    seq(|ss|, i requires 0 <= i < |ss| => EntryFor(ss[i].part))
  }

  // ----- dispositions and types -----

  /** The slot of a parameter does not depend on its letter case. */
  lemma {:induction false} SlotSame(a: string, b: string, names: seq<string>)
    requires SameLower(a, b)
    ensures Slot(a, names) == Slot(b, names)
  {
    if names != [] && !SameLower(a, names[0]) {
      assert !SameLower(b, names[0]);
      SlotSame(a, b, names[1..]);
    } else if names != [] {
      assert SameLower(b, names[0]);
    }
  }

  lemma SlotsOfDisposition()
    ensures Slot("name", DISPOSITION_ARGS) == 0 && Slot("filename", DISPOSITION_ARGS) == 1
  {
    assert SameLower("name", DISPOSITION_ARGS[0]);
    assert SameLower("filename", DISPOSITION_ARGS[1..][0]);
    assert |"filename"| != |"name"|;
  }

  /** A known parameter goes to its own buffer. */
  lemma KnownRead(s: Spelling, key: string, k: nat, text: string, rest: string, args: seq<string>, space: nat)
    requires Spells(s, text) && SameLower(s.key, key) && k < 2 && Slot(key, DISPOSITION_ARGS) == k
    requires |ParameterText(s, text)| < space && |args| == 2 && (rest == [] || rest[0] == ';')
    ensures ParametersFrom(ParameterText(s, text) + rest, DISPOSITION_ARGS, args, space, space)
         == ParametersFrom(rest, DISPOSITION_ARGS, args[k := text], space, space)
  {
    SlotSame(s.key, key, DISPOSITION_ARGS);
    assert |s.key| < space && |text| < space by {
      ParameterLaidOut(s, text, []);
      assert ParameterText(s, text) + [] == ParameterText(s, text);
    }
    ParameterRead(s, text, rest, DISPOSITION_ARGS, args, space, space);
  }

  lemma ParametersRead(w: Wording, p: Part, tail: string, space: nat)
    requires Words(w, p) && |tail| < space
    requires var n := ParameterText(w.name, p.name);
             var f := if w.file.None? then [] else ParameterText(w.file.value, p.fileName);
             tail == if w.fileFirst then f + n else n + f
    ensures ParametersFrom(tail, DISPOSITION_ARGS, Blank(2), space, space) == Parameters([p.name, p.fileName])
  {
    SlotsOfDisposition();
    var b := Blank(2);
    var n := ParameterText(w.name, p.name);
    if w.file.None? {
      assert tail == n + [];
      KnownRead(w.name, "name", 0, p.name, [], b, space);
      assert b[0 := p.name] == [p.name, p.fileName];
    } else {
      var f := ParameterText(w.file.value, p.fileName);
      if w.fileFirst {
        TwoRead(w.file.value, "filename", 1, p.fileName, w.name, "name", 0, p.name, b, space);
      } else {
        TwoRead(w.name, "name", 0, p.name, w.file.value, "filename", 1, p.fileName, b, space);
      }
      assert b[1 := p.fileName][0 := p.name] == [p.name, p.fileName] == b[0 := p.name][1 := p.fileName];
    }
  }

  lemma TwoRead(s: Spelling, key: string, k: nat, text: string, s': Spelling, key': string, k': nat, text': string,
      args: seq<string>, space: nat)
    requires Spells(s, text) && SameLower(s.key, key) && k < 2 && Slot(key, DISPOSITION_ARGS) == k
    requires Spells(s', text') && SameLower(s'.key, key') && k' < 2 && Slot(key', DISPOSITION_ARGS) == k'
    requires |ParameterText(s, text) + ParameterText(s', text')| < space && |args| == 2
    ensures ParametersFrom(ParameterText(s, text) + ParameterText(s', text'), DISPOSITION_ARGS, args, space, space)
         == Parameters(args[k := text][k' := text'])
  {
    var second := ParameterText(s', text');
    KnownRead(s, key, k, text, second, args, space);
    assert second + [] == second;
    KnownRead(s', key', k', text', [], args[k := text], space);
  }

  /** Every wording of a disposition is understood: letter case, order, white space and quotes make no difference. */
  lemma DispositionRead(w: Wording, p: Part, space: nat)
    requires Words(w, p) && |DispositionText(w, p)| < space
    ensures Decompose(DispositionText(w, p), DISPOSITION_ARGS, space, space)
         == Decomposition(w.kind, [p.name, p.fileName])
  {
    var n := ParameterText(w.name, p.name);
    var f := if w.file.None? then [] else ParameterText(w.file.value, p.fileName);
    var tail := if w.fileFirst then f + n else n + f;
    MainRead(w.kind, false, tail);
    ParametersRead(w, p, tail, space);
  }

  lemma DisposesRead(v: string, kind: string, p: Part, space: nat)
    requires Disposes(v, kind, p, space)
    ensures Heard(v, space) == v
    ensures var d := Decompose(v, DISPOSITION_ARGS, space, space);
            d.Decomposition? && SameLower(d.main, kind) && d.args == [p.name, p.fileName]
  {
    HeardWhole(v, space);
    var w: Wording :| Words(w, p) && SameLower(w.kind, kind) && v == DispositionText(w, p);
    DispositionRead(w, p, space);
  }

  lemma TypesRead(v: string, t: string, space: nat)
    requires Typable(t) && Types(v, t, space)
    ensures Decompose(Heard(v, space), [], space, 0).main == t
  {
    HeardWhole(v, space);
    if TypeText(v, t) {
      TypeFound(v, t, t, false);
    } else {
      TypeFound(v, t, Quoted(t), true);
    }
    MainKept(v, t, space);
  }

  lemma TypeFound(v: string, t: string, w: string, quoted: bool)
    requires TypeText(v, w) && w == if quoted then Quoted(t) else t
    requires if quoted then '"' !in t else Typable(t)
    ensures FieldFrom(SkipSpace(v)).text == t
  {
    var tail := v[|w|..];
    assert v == w + tail;
    MainRead(t, quoted, tail);
  }

  lemma MainKept(v: string, t: string, space: nat)
    requires FieldFrom(SkipSpace(v)).text == t && |t| < space
    ensures Decompose(v, [], space, 0).main == t
  {
  }

  // ----- heads -----

  lemma NoneUnasked(fs: seq<HeaderField>, space: nat)
    requires Headed(fs, space)
    ensures !AnyUnasked(fs, space)
  {
    forall i | 0 <= i < |fs| ensures !Unasked(fs[i], space) {
      if Named(fs[i], "Content-Disposition") {
        var kind: string, p: Part :| Disposes(fs[i].value, kind, p, space);
        DisposesRead(fs[i].value, kind, p, space);
      }
    }
  }

  lemma HeadOfRead(d: string, t: Option<string>, kind: string, p: Part, space: nat)
    requires Disposes(d, kind, p, space)
    ensures var h := HeadOf(NO_HEAD, Some(d), t, space);
            && SameLower(h.disposition, kind) && h.name == p.name && h.fileName == p.fileName
            && h.contentType == if t.None? then [] else Decompose(Heard(t.value, space), [], space, 0).main
  {
    DisposesRead(d, kind, p, space);
  }

  ghost predicate Reads(r: HeadResult, p: Part, rest: string) {
    && r.HeadResult? && r.rest == rest && SameLower(r.head.disposition, "form-data")
    && r.head.name == p.name && r.head.fileName == p.fileName && r.head.contentType == p.contentType
  }

  lemma HeadRead(fs: seq<HeaderField>, p: Part, rest: string, space: nat)
    requires Announces(fs, p, space) && 2 <= space
    ensures Reads(HeadFrom(Block(fs) + rest, NO_HEAD, space), p, rest)
  {
    var d, t := LastValue(fs, "Content-Disposition"), LastValue(fs, "Content-Type");
    HeadRest(fs, rest, space, d, t);
    HeadOfRead(d.value, t, "form-data", p, space);
    if t.Some? {
      TypesRead(t.value, p.contentType, space);
    }
  }

  lemma HeadRest(fs: seq<HeaderField>, rest: string, space: nat, d: Option<string>, t: Option<string>)
    requires Headed(fs, space) && 2 <= space
    requires d == LastValue(fs, "Content-Disposition") && t == LastValue(fs, "Content-Type")
    ensures HeadFrom(Block(fs) + rest, NO_HEAD, space) == HeadResult(HeadOf(NO_HEAD, d, t, space), rest)
  {
    NoneUnasked(fs, space);
    HeadIsLast(fs, rest, NO_HEAD, space);
  }

  /** The look-ahead in front of a part finds its first header line. */
  lemma BlockGoesOn(fs: seq<HeaderField>, rest: string, space: nat)
    requires Headed(fs, space)
    ensures var r := Block(fs) + rest; |r| >= 2 && !(r[0] == '-' && r[1] == '-')
  {
    var a, r := fs[0].attr, Block(fs) + rest;
    assert Readable(fs[0]);
    assert a != [];
    assert FieldText(fs[0])[..|a| + 1] == a + ":";
    assert r[..|a| + 1] == a + ":";
    assert r[0] == a[0] && r[1] == if |a| > 1 then a[1] else ':';
    assert "--" == ['-', '-'];
  }

  // ----- bodies -----

  /** No delimiter begins inside a body that contains none: none can straddle its end, because the first
      byte of the delimiter does not recur in it. */
  lemma NoEarlierDelimiter(body: string, d: string, after: string, j: nat)
    requires d != [] && d[0] !in d[1..] && Find(d, body).None? && j < |body|
    ensures !OccursAt(d, body + d + after, j)
  {
    var t := body + d + after;
    if j + |d| <= |body| {
      FindIsLeftmost(d, body);
      assert t[j..j + |d|] == body[j..j + |d|];
      assert !OccursAt(d, body, j);
    } else {
      var k := |body| - j;
      assert d[k] == d[1..][k - 1];
      assert j + |d| <= |t| ==> t[j..j + |d|][k] == d[0];
    }
  }

  /** The delimiter that ends a body is the leftmost one. */
  lemma BodyRead(body: string, boundary: string, after: string)
    requires CR !in boundary && Find(Delimiter(boundary), body).None?
    ensures Split(Delimiter(boundary), body + Delimiter(boundary) + after) == Found(body, [], after)
  {
    var d := Delimiter(boundary);
    var t := body + d + after;
    assert d[1..] == "\n--" + boundary;
    assert OccursAt(d, t, |body|) by {
      assert t[|body|..|body| + |d|] == d;
    }
    forall j: nat | j < |body| ensures !OccursAt(d, t, j) {
      NoEarlierDelimiter(body, d, after, j);
    }
    FindIsLeftmost(d, t);
    assert Find(d, t) == Some(|body|);
    assert t[..|body|] == body && t[|body| + |d|..] == after;
  }

  /** A body followed by the delimiter is read back exactly when it does not contain the delimiter itself. */
  lemma BodyReadIff(body: string, boundary: string, after: string)
    requires CR !in boundary
    ensures Split(Delimiter(boundary), body + Delimiter(boundary) + after) == Found(body, [], after)
       <==> Find(Delimiter(boundary), body).None?
  {
    var d := Delimiter(boundary);
    var t := body + d + after;
    var inside := Find(d, body);
    if inside.None? {
      BodyRead(body, boundary, after);
    } else {
      var i := inside.value;
      FindIsLeftmost(d, body);
      assert t[i..i + |d|] == body[i..i + |d|];
      assert OccursAt(d, t, i);
      FindIsLeftmost(d, t);
      assert Find(d, t).Some? && Find(d, t).value <= i;
    }
  }

  // ----- parts -----

  lemma PartRead(s: Submission, boundary: string, more: string, space: nat)
    requires CR !in boundary && 2 <= space && Sendable(s, boundary, space)
    requires PastDelimiter(more).Some?
    ensures PartsFrom(PartText(s, boundary, more), boundary, space)
         == Cons(EntryFor(s.part), PartsFrom(PastDelimiter(more).value, boundary, space))
  {
    var body := s.part.body + Delimiter(boundary) + more;
    BlockGoesOn(s.fields, body, space);
    HeadRead(s.fields, s.part, body, space);
    BodyRead(s.part.body, boundary, more);
  }

  lemma PastLead(lead: string, fs: seq<HeaderField>, rest: string)
    requires Leads(lead, fs) && (fs != [] ==> fs[0].attr != [])
    ensures PastDelimiter(lead + (Block(fs) + rest)) == Some(Block(fs) + rest)
  {
    var text := Block(fs) + rest;
    if lead == [] {
      assert FieldText(fs[0])[..|fs[0].attr| + 1] == fs[0].attr + ":";
      assert text[0] == '-' && |text| >= 2 && lead + text == text;
    } else {
      assert (lead + text)[2..] == text;
    }
  }

  lemma EntriesForCons(ss: seq<Submission>)
    requires ss != []
    ensures EntriesFor(ss) == [EntryFor(ss[0].part)] + EntriesFor(ss[1..])
  {
  }

  lemma AppendToCons(e: Entry, es: seq<Entry>, f: Form)
    ensures Cons(e, Append(es, f)) == Append([e] + es, f)
  {
    if f.Form? {
      assert ([e] + es) + f.entries == [e] + (es + f.entries);
    }
  }

  /** Parts in front of anything: their entries come first, in order, and the rest is read for itself. */
  lemma {:induction false} PartsRead(ss: seq<Submission>, boundary: string, tail: string, space: nat)
    requires CR !in boundary && 2 <= space && AllSendable(ss, boundary, space) && PastDelimiter(tail).Some?
    ensures var r := PastDelimiter(AfterDelimiterText(ss, boundary, tail));
            r.Some? && PartsFrom(r.value, boundary, space)
                    == Append(EntriesFor(ss), PartsFrom(PastDelimiter(tail).value, boundary, space))
    decreases |ss|
  {
    var end := PartsFrom(PastDelimiter(tail).value, boundary, space);
    if ss == [] {
      assert end.Form? ==> EntriesFor(ss) + end.entries == end.entries;
    } else {
      var more := AfterDelimiterText(ss[1..], boundary, tail);
      assert Readable(ss[0].fields[0]);
      PastLead(ss[0].lead, ss[0].fields, ss[0].part.body + Delimiter(boundary) + more);
      assert AllSendable(ss[1..], boundary, space);
      PartsRead(ss[1..], boundary, tail, space);
      PartRead(ss[0], boundary, more, space);
      EntriesForCons(ss);
      AppendToCons(EntryFor(ss[0].part), EntriesFor(ss[1..]), end);
    }
  }

  /** A form is the parts behind its opening delimiter. */
  lemma FormOpens(preamble: string, boundary: string, after: string, text: string, space: nat)
    requires PastDelimiter(after).Some? && Harmless(preamble, boundary) && text == preamble + ("--" + boundary) + after
    ensures FormFrom(text, boundary, space) == PartsFrom(PastDelimiter(after).value, boundary, space)
  {
    OpeningDelimiter(boundary, preamble, after, text);
  }

  /** A form whose parts are followed by anything. */
  lemma FormGoesOn(preamble: string, ss: seq<Submission>, boundary: string, tail: string, space: nat)
    requires CR !in boundary && 2 <= space && Harmless(preamble, boundary)
    requires AllSendable(ss, boundary, space) && PastDelimiter(tail).Some?
    ensures FormFrom(FormText(preamble, ss, boundary, tail), boundary, space)
         == Append(EntriesFor(ss), PartsFrom(PastDelimiter(tail).value, boundary, space))
  {
    PartsRead(ss, boundary, tail, space);
    FormOpens(preamble, boundary, AfterDelimiterText(ss, boundary, tail),
      FormText(preamble, ss, boundary, tail), space);
  }

  /** The entries `es` say what was submitted: same names, file names, types and bodies in the same order. */
  ghost predicate Tells(es: seq<Entry>, ss: seq<Submission>) {
    && |es| == |ss|
    && forall i :: 0 <= i < |ss| ==>
         && es[i].attr == ss[i].part.name && es[i].fileName == ss[i].part.fileName
         && es[i].contentType == ss[i].part.contentType && es[i].valueLength == |ss[i].part.body|
         && (if ss[i].part.fileName == [] then es[i].value == ss[i].part.body && es[i].file == None
             else es[i].file == Some(ss[i].part.body) && es[i].value == [])
  }

  /** Multipart round trip: for every list of parts whose bodies do not contain the delimiter, with whatever header
      lines in whatever order, letter case and spelling, any harmless preamble and any epilogue, parsing the
      rendered form returns the same names, file names, types and bodies in the same order. */
  lemma RoundTrip(preamble: string, ss: seq<Submission>, boundary: string, epilogue: string, space: nat)
    requires CR !in boundary && 2 <= space && Harmless(preamble, boundary)
    requires AllSendable(ss, boundary, space)
    ensures var form := FormFrom(FormText(preamble, ss, boundary, "--" + epilogue), boundary, space);
            form == Form(ParseSuccess, EntriesFor(ss)) && Tells(form.entries, ss)
  {
    FormGoesOn(preamble, ss, boundary, "--" + epilogue, space);
    assert PastDelimiter("--" + epilogue) == Some("--" + epilogue);
    assert EntriesFor(ss) + [] == EntriesFor(ss);
  }

  // ----- parts that do not come back -----

  /** A part of form data is an input error exactly when no delimiter with two bytes behind it follows its header. */
  lemma CutPartIff(fs: seq<HeaderField>, p: Part, rest: string, boundary: string, space: nat)
    requires Announces(fs, p, space) && 2 <= space
    ensures PartsFrom(Block(fs) + rest, boundary, space) == Form(ParseIO, [])
       <==> forall i: nat :: OccursAt(Delimiter(boundary), rest, i) ==> |rest| < i + |Delimiter(boundary)| + 2
  {
    BlockGoesOn(fs, rest, space);
    HeadRead(fs, p, rest, space);
    ReachedIff(Delimiter(boundary), rest);
    BehindHead(fs, rest, boundary, space, HeadFrom(Block(fs) + rest, NO_HEAD, space).head);
  }

  /** A search comes to its end exactly when some delimiter has two bytes behind it. */
  lemma ReachedIff(d: string, rest: string)
    ensures Reached(Split(d, rest)) == None <==> forall i: nat :: OccursAt(d, rest, i) ==> |rest| < i + |d| + 2
  {
    FindIsLeftmost(d, rest);
    var found := Find(d, rest);
    if found.Some? {
      assert OccursAt(d, rest, found.value);
    }
  }

  lemma BehindHead(fs: seq<HeaderField>, rest: string, boundary: string, space: nat, h: Head)
    requires var r := Block(fs) + rest; |r| >= 2 && !(r[0] == '-' && r[1] == '-')
    requires HeadFrom(Block(fs) + rest, NO_HEAD, space) == HeadResult(h, rest) && SameLower(h.disposition, "form-data")
    ensures PartsFrom(Block(fs) + rest, boundary, space) == Form(ParseIO, [])
       <==> Reached(Split(Delimiter(boundary), rest)) == None
  {
    var o := Reached(Split(Delimiter(boundary), rest));
    if o.Some? {
      ConsAdds(EntryOf(h, o.value.body), PartsFrom(o.value.rest, boundary, space));
    }
  }

  lemma ConsAdds(e: Entry, f: Form)
    ensures Cons(e, f) != Form(ParseIO, [])
  {
  }

  /** A form cut off inside a body: an input error, with the entries before it. */
  lemma CutForm(preamble: string, ss: seq<Submission>, cut: Submission, rest: string, boundary: string, space: nat)
    requires CR !in boundary && 2 <= space && Harmless(preamble, boundary) && AllSendable(ss, boundary, space)
    requires Leads(cut.lead, cut.fields) && Announces(cut.fields, cut.part, space)
    requires Find(Delimiter(boundary), rest).None?
    ensures FormFrom(FormText(preamble, ss, boundary, cut.lead + (Block(cut.fields) + rest)), boundary, space)
         == Form(ParseIO, EntriesFor(ss))
  {
    assert Readable(cut.fields[0]);
    PastLead(cut.lead, cut.fields, rest);
    FormGoesOn(preamble, ss, boundary, cut.lead + (Block(cut.fields) + rest), space);
    FindIsLeftmost(Delimiter(boundary), rest);
    CutPartIff(cut.fields, cut.part, rest, boundary, space);
    assert EntriesFor(ss) + [] == EntriesFor(ss);
  }

  /** A form that ends behind a delimiter, with the two bytes that follow it and at most one more: no error, and the
      entries before it. */
  lemma EndsEarly(preamble: string, ss: seq<Submission>, lead: string, last: string, boundary: string, space: nat)
    requires CR !in boundary && 2 <= space && Harmless(preamble, boundary) && AllSendable(ss, boundary, space)
    requires |lead| == 2 && lead[0] != '-' && |last| < 2
    ensures FormFrom(FormText(preamble, ss, boundary, lead + last), boundary, space)
         == Form(ParseSuccess, EntriesFor(ss))
  {
    assert (lead + last)[2..] == last;
    FormGoesOn(preamble, ss, boundary, lead + last, space);
    assert EntriesFor(ss) + [] == EntriesFor(ss);
  }

  /** A body in which no delimiter has two bytes behind it, and nothing else looks like the start of one, is an empty
      submission. */
  lemma NoFormNoEntries(text: string, boundary: string, space: nat)
    requires !FalseStart("--" + boundary, text)
    requires forall i: nat :: OccursAt("--" + boundary, text, i) ==> |text| < i + |"--" + boundary| + 2
    ensures FormFrom(text, boundary, space) == Form(ParseSuccess, [])
  {
    FormIsPlain(text, boundary, space);
    ReachedIff("--" + boundary, text);
  }

  /** A form cut off inside the header of a part of form data is an input error. */
  lemma CutHeadFails(fs: seq<HeaderField>, p: Part, cut: string, boundary: string, space: nat)
    requires Announces(fs, p, space) && 2 <= space && OneLine(cut)
    ensures PartsFrom(Lines(fs) + cut, boundary, space) == Form(ParseIO, [])
  {
    LinesGoOn(fs, cut, space);
    CutHead(fs, cut, NO_HEAD, space);
    NoneUnasked(fs, space);
    var d, t := LastValue(fs, "Content-Disposition"), LastValue(fs, "Content-Type");
    HeadOfRead(d.value, t, "form-data", p, space);
    NothingBehind(Lines(fs) + cut, HeadOf(NO_HEAD, d, t, space), boundary, space);
  }

  lemma LinesGoOn(fs: seq<HeaderField>, rest: string, space: nat)
    requires Headed(fs, space)
    ensures var r := Lines(fs) + rest; |r| >= 2 && !(r[0] == '-' && r[1] == '-')
  {
    assert Readable(fs[0]);
    assert Lines(fs) + rest == FieldText(fs[0]) + (Lines(fs[1..]) + rest);
    FieldGoesOn(fs[0], Lines(fs[1..]) + rest);
  }

  lemma NothingBehind(r: string, h: Head, boundary: string, space: nat)
    requires |r| >= 2 && !(r[0] == '-' && r[1] == '-')
    requires HeadFrom(r, NO_HEAD, space) == HeadResult(h, []) && SameLower(h.disposition, "form-data")
    ensures PartsFrom(r, boundary, space) == Form(ParseIO, [])
  {
    var d := Delimiter(boundary);
    FindIsLeftmost(d, []);
    assert Find(d, []).None?;
  }

  lemma BlockFirst(fs: seq<HeaderField>, rest: string)
    requires fs != [] && Readable(fs[0]) && !("--" <= fs[0].attr)
    ensures var r := Block(fs) + rest; |r| >= 2 && !(r[0] == '-' && r[1] == '-')
  {
    assert Block(fs) + rest == FieldText(fs[0]) + (Block(fs[1..]) + rest);
    FieldGoesOn(fs[0], Block(fs[1..]) + rest);
  }

  lemma FaultSeen(r: string, boundary: string, space: nat)
    requires |r| >= 2 && !(r[0] == '-' && r[1] == '-') && HeadFrom(r, NO_HEAD, space) == HeadFault
    ensures PartsFrom(r, boundary, space) == Faulted
  {
  }

  /** A disposition with a parameter nobody asked for is a store through null, wherever it stands: nothing is said about
      what the parser makes of the form. */
  lemma UnaskedFaults(fs: seq<HeaderField>, rest: string, boundary: string, space: nat)
    requires AllReadable(fs, space) && 2 <= space && fs != [] && !("--" <= fs[0].attr) && AnyUnasked(fs, space)
    ensures PartsFrom(Block(fs) + rest, boundary, space) == Faulted
  {
    HeadIsLast(fs, rest, NO_HEAD, space);
    BlockFirst(fs, rest);
    FaultSeen(Block(fs) + rest, boundary, space);
  }

  /** Header lines without a disposition, or whose last one is of some other kind. */
  ghost predicate OtherKind(fs: seq<HeaderField>, space: nat) {
    && Headed(fs, space)
    && (LastValue(fs, "Content-Disposition").Some? ==>
          exists kind: string, p: Part ::
            Disposes(LastValue(fs, "Content-Disposition").value, kind, p, space) && !SameLower(kind, "form-data"))
  }

  /** A part that is no form data adds nothing; reading goes on right behind its header lines. */
  lemma OtherPartAddsNothing(fs: seq<HeaderField>, rest: string, boundary: string, space: nat)
    requires OtherKind(fs, space) && 2 <= space
    ensures PartsFrom(Block(fs) + rest, boundary, space) == PartsFrom(rest, boundary, space)
  {
    BlockGoesOn(fs, rest, space);
    var d, t := LastValue(fs, "Content-Disposition"), LastValue(fs, "Content-Type");
    HeadRest(fs, rest, space, d, t);
    if d.Some? {
      var kind: string, p: Part :| Disposes(d.value, kind, p, space) && !SameLower(kind, "form-data");
      HeadOfRead(d.value, t, kind, p, space);
      NotSame(HeadOf(NO_HEAD, d, t, space).disposition, kind, "form-data");
    }
    HeadPassed(fs, rest, boundary, space, HeadOf(NO_HEAD, d, t, space));
  }

  lemma NotSame(a: string, b: string, c: string)
    requires SameLower(a, b) && !SameLower(b, c)
    ensures !SameLower(a, c)
  {
  }

  lemma HeadPassed(fs: seq<HeaderField>, rest: string, boundary: string, space: nat, h: Head)
    requires var r := Block(fs) + rest; |r| >= 2 && !(r[0] == '-' && r[1] == '-')
    requires HeadFrom(Block(fs) + rest, NO_HEAD, space) == HeadResult(h, rest) && !SameLower(h.disposition, "form-data")
    ensures PartsFrom(Block(fs) + rest, boundary, space) == PartsFrom(rest, boundary, space)
  {
  }

  /** Its body is read as header lines. A line without a colon ends the header, so behind a body of one such line the
      delimiter is taken for the end of the form, and everything after it is lost. */
  lemma OtherPartEndsForm(fs: seq<HeaderField>, body: string, boundary: string, more: string, space: nat)
    requires OtherKind(fs, space) && 2 <= space && OneLine(body) && ':' !in body
    ensures PartsFrom(Block(fs) + (body + Delimiter(boundary) + more), boundary, space) == Form(ParseSuccess, [])
  {
    var rest := body + Delimiter(boundary) + more;
    var end := "--" + (boundary + more);
    OtherPartAddsNothing(fs, rest, boundary, space);
    DelimiterLine(body, boundary, more);
    NameOnly(body, end, NO_HEAD, space);
    assert end[0] == '-' && end[1] == '-';
    EndsThere(rest, end, boundary, space);
  }

  lemma DelimiterLine(body: string, boundary: string, more: string)
    ensures body + Delimiter(boundary) + more == body + ("\r\n" + ("--" + (boundary + more)))
  {
  }

  /** A line without a colon ends a header. */
  lemma NameOnly(line: string, rest: string, h: Head, space: nat)
    requires OneLine(line) && ':' !in line
    ensures HeadFrom(line + ("\r\n" + rest), h, space) == HeadResult(h, rest)
  {
    NameTaken(line, "\r\n" + rest, [], space);
    LineEnded("\r\n", rest, NameKept([], line, space), [], false, space);
  }

  lemma EndsThere(rest: string, end: string, boundary: string, space: nat)
    requires |end| >= 2 && end[0] == '-' && end[1] == '-' && HeadFrom(rest, NO_HEAD, space) == HeadResult(NO_HEAD, end)
    ensures PartsFrom(rest, boundary, space) == Form(ParseSuccess, [])
  {
  }

  /** Behind a body that looks like a header line the delimiter is taken for one more line of the header, and the parts
      after it are read. */
  lemma OtherPartPassed(fs: seq<HeaderField>, body: HeaderField, boundary: string, more: string, space: nat)
    requires OtherKind(fs, space) && 2 <= space && OneLine(boundary) && ':' !in boundary
    requires Readable(body) && |Squeezed(body.attr)| < space && body.end == "\r\n" && !("--" <= body.attr)
    requires !Named(body, "Content-Disposition") && !Named(body, "Content-Type")
    ensures PartsFrom(Block(fs) + (FieldText(body) + ("--" + boundary + "\r\n" + more)), boundary, space)
         == PartsFrom(more, boundary, space)
  {
    var last := "--" + boundary;
    var line := last + ("\r\n" + more);
    var rest := FieldText(body) + line;
    assert FieldText(body) + ("--" + boundary + "\r\n" + more) == rest;
    OtherPartAddsNothing(fs, rest, boundary, space);
    FieldApplied(body, line, NO_HEAD, space);
    ApplyIs(body, NO_HEAD, space);
    NameOnly(last, more, NO_HEAD, space);
    FieldGoesOn(body, line);
  }

  lemma FieldGoesOn(f: HeaderField, line: string)
    requires Readable(f) && !("--" <= f.attr)
    ensures var r := FieldText(f) + line; |r| >= 2 && !(r[0] == '-' && r[1] == '-')
  {
    var a, r := f.attr, FieldText(f) + line;
    assert a != [];
    assert r[..|a| + 1] == a + ":";
    assert r[0] == a[0] && r[1] == if |a| > 1 then a[1] else ':';
    assert "--" == ['-', '-'];
  }

  // ----- the usual rendering -----

  const USUAL_NAME := Spelling("name", " ", [], [], true)
  const USUAL_FILE := Spelling("filename", " ", [], [], true)

  function UsualWording(p: Part): Wording {
    Wording("form-data", USUAL_NAME, if p.fileName == [] then None else Some(USUAL_FILE), false)
  }

  function UsualFields(p: Part, disposition: string, contentType: string): seq<HeaderField> {
    [HeaderField(disposition, " ", DispositionText(UsualWording(p), p), "\r\n")] +
    (if p.contentType == [] then [] else [HeaderField(contentType, " ", p.contentType, "\r\n")])
  }

  /** A header name without white space, of letters and dashes. */
  predicate Word(s: string) {
    s != [] && s[0] != '-' && forall i :: 0 <= i < |s| ==> IsAlpha(s[i]) || s[i] == '-'
  }

  lemma {:induction false} WordSqueezed(s: string)
    requires forall i :: 0 <= i < |s| ==> IsAlpha(s[i]) || s[i] == '-'
    ensures Squeezed(s) == s
  {
    if s != [] {
      WordSqueezed(s[1..]);
    }
  }

  lemma UsualWorded(p: Part)
    requires '"' !in p.name && '"' !in p.fileName
    ensures Words(UsualWording(p), p) && SameLower(UsualWording(p).kind, "form-data")
  {
    assert forall c | c in "name" :: IsAlnum(c);
    assert forall c | c in "filename" :: IsAlnum(c);
  }

  lemma UsualReadable(attr: string, v: string)
    requires Word(attr) && v != [] && !IsSpace(v[0]) && OneLine(v) && ':' !in v
    ensures Readable(HeaderField(attr, " ", v, "\r\n"))
  {
    WordSqueezed(attr);
  }

  /** A disposition line that can come first. */
  ghost predicate FirstLine(f: HeaderField, p: Part, space: nat) {
    && Readable(f) && |Squeezed(f.attr)| < space && !("--" <= f.attr)
    && Named(f, "Content-Disposition") && !Named(f, "Content-Type") && Disposes(f.value, "form-data", p, space)
  }

  lemma LinesAnnounce(fs: seq<HeaderField>, d: Option<string>, t: Option<string>, p: Part, space: nat)
    requires Headed(fs, space) && Told(d, t, p, space)
    requires d == LastValue(fs, "Content-Disposition") && t == LastValue(fs, "Content-Type")
    ensures Announces(fs, p, space)
  {
  }

  lemma OneLineAnnounces(f: HeaderField, fs: seq<HeaderField>, p: Part, space: nat)
    requires fs == [f] && FirstLine(f, p, space) && p.contentType == []
    ensures Announces(fs, p, space)
  {
    LinesHeaded(fs, p, space);
    OneValue(f, fs, "Content-Disposition");
    OneValue(f, fs, "Content-Type");
    LinesAnnounce(fs, Some(f.value), None, p, space);
  }

  lemma LinesHeaded(fs: seq<HeaderField>, p: Part, space: nat)
    requires fs != [] && FirstLine(fs[0], p, space) && AllReadable(fs, space)
    requires forall i :: 1 <= i < |fs| ==> !Named(fs[i], "Content-Disposition")
    ensures Headed(fs, space)
  {
    assert DisposesOf(fs[0], space);
  }

  lemma TwoLinesAnnounce(f: HeaderField, g: HeaderField, fs: seq<HeaderField>, p: Part, space: nat)
    requires fs == [f, g] && FirstLine(f, p, space) && Readable(g) && |Squeezed(g.attr)| < space
    requires Named(g, "Content-Type") && !Named(g, "Content-Disposition")
    requires Typable(p.contentType) && Types(g.value, p.contentType, space)
    ensures Announces(fs, p, space)
  {
    LinesHeaded(fs, p, space);
    TwoValues(f, g, fs, "Content-Disposition");
    TwoValues(f, g, fs, "Content-Type");
    LinesAnnounce(fs, Some(f.value), Some(g.value), p, space);
  }

  lemma UsualFirst(p: Part, attr: string, v: string, space: nat)
    requires Word(attr) && SameLower(attr, "Content-Disposition") && |attr| < space
    requires '"' !in p.name && '"' !in p.fileName
    requires v == DispositionText(UsualWording(p), p) && Plain(v, space) && OneLine(v)
    ensures FirstLine(HeaderField(attr, " ", v, "\r\n"), p, space)
  {
    UsualDisposes(p, v, space);
    WordSqueezed(attr);
    UsualReadable(attr, v);
    assert |attr| != |"Content-Type"|;
  }

  /** A browser's rendering of a part is among those covered: one line for the disposition, and one for the type if
      there is any. */
  lemma UsualAnnounces(p: Part, disposition: string, contentType: string, space: nat)
    requires Word(disposition) && SameLower(disposition, "Content-Disposition") && |disposition| < space
    requires Word(contentType) && SameLower(contentType, "Content-Type") && |contentType| < space
    requires '"' !in p.name && '"' !in p.fileName
    requires Plain(DispositionText(UsualWording(p), p), space) && OneLine(DispositionText(UsualWording(p), p))
    requires p.contentType != [] ==> Typable(p.contentType) && Plain(p.contentType, space) && OneLine(p.contentType)
    ensures Announces(UsualFields(p, disposition, contentType), p, space)
  {
    var fs := UsualFields(p, disposition, contentType);
    UsualFirst(p, disposition, DispositionText(UsualWording(p), p), space);
    if p.contentType == [] {
      OneLineAnnounces(fs[0], fs, p, space);
    } else {
      UsualSecond(contentType, p.contentType, fs[1], space);
      TwoLinesAnnounce(fs[0], fs[1], fs, p, space);
    }
  }

  lemma UsualSecond(attr: string, t: string, g: HeaderField, space: nat)
    requires Word(attr) && SameLower(attr, "Content-Type") && g == HeaderField(attr, " ", t, "\r\n")
    requires Typable(t) && Plain(t, space) && OneLine(t)
    ensures Readable(g) && Squeezed(g.attr) == attr && !Named(g, "Content-Disposition") && Types(t, t, space)
  {
    WordSqueezed(attr);
    UsualReadable(attr, t);
    assert |attr| != |"Content-Disposition"| && TypeText(t, t);
  }

  lemma UsualDisposes(p: Part, v: string, space: nat)
    requires '"' !in p.name && '"' !in p.fileName && v == DispositionText(UsualWording(p), p) && Plain(v, space)
    ensures v[0] == 'f' && Disposes(v, "form-data", p, space)
  {
    UsualWorded(p);
  }

  lemma OneValue(f: HeaderField, fs: seq<HeaderField>, name: string)
    requires fs == [f]
    ensures LastValue(fs, name) == if Named(f, name) then Some(f.value) else None
  {
    assert fs[1..] == [];
  }

  lemma TwoValues(f: HeaderField, g: HeaderField, fs: seq<HeaderField>, name: string)
    requires fs == [f, g]
    ensures LastValue(fs, name) ==
            if Named(g, name) then Some(g.value) else if Named(f, name) then Some(f.value) else None
  {
    OneValue(g, fs[1..], name);
  }
}
