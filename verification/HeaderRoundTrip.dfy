/** Rendering header lines and their parameters, and reading them back. */
module HeaderRoundTrip {
  import opened CText
  import opened HeaderLines
  import opened HeaderValues

  function Quoted(text: string): string {
    "\"" + text + "\""
  }

  function HeaderText(attr: string, value: string): string {
    attr + ":" + (" " + value + "\r\n")
  }

  // ----- header lines -----

  /** A name in front of a colon. */
  predicate Token(s: string) {
    s != [] && NoBreakInName(s)
  }

  predicate NoBreakInName(s: string) {
    forall c | c in s :: c != ':' && c != NUL && !IsSpace(c)
  }

  lemma {:induction false} AttrRead(a: string, r: string, pre: string, space: nat)
    requires NoBreakInName(a)
    requires |pre| + |a| < space
    ensures LineFrom(a + r, pre, [], false, space) == LineFrom(r, pre + a, [], false, space)
  {
    if a == [] {
      assert a + r == r && pre + a == pre;
    } else {
      assert a[0] in a;
      assert (a + r)[1..] == a[1..] + r;
      assert pre + [a[0]] + a[1..] == pre + a;
      AttrRead(a[1..], r, pre + [a[0]], space);
    }
  }

  lemma {:induction false} ValueRead(v: string, r: string, attr: string, pre: string, space: nat)
    requires ':' !in v && CR !in v && LF !in v && |pre| + |v| < space
    ensures LineFrom(v + r, attr, pre, true, space) == LineFrom(r, attr, pre + v, true, space)
  {
    if v == [] {
      assert v + r == r && pre + v == pre;
    } else {
      assert v[0] in v;
      assert (v + r)[1..] == v[1..] + r;
      assert pre + [v[0]] + v[1..] == pre + v;
      ValueRead(v[1..], r, attr, pre + [v[0]], space);
    }
  }

  /** A value the reader can have stored: no colon, no line end, no white space in front, room for a NUL. */
  predicate Storable(v: string, space: nat) {
    && ':' !in v && CR !in v && LF !in v && |v| < space
    && (v != [] ==> !IsSpace(v[0]))
  }

  /** Whatever follows the colon, the reader stores a storable value. */
  lemma {:induction false} ValueIsStorable(r: string, attr: string, value: string, space: nat)
    requires attr != [] && 2 <= space && Storable(value, space)
    requires value == [] ==> r == [] || !IsSpace(r[0])
    ensures var l := LineFrom(r, attr, value, true, space); l.Line? ==> Storable(l.value, space)
    decreases |r|
  {
    if r == [] || r[0] == CR || r[0] == LF {
    } else if r[0] == ':' {
      ValueIsStorable(SkipSpace(r[1..]), attr, value, space);
    } else {
      ValueIsStorable(r[1..], attr, if |value| + 1 < space then value + [r[0]] else value, space);
    }
  }

  /** A header line is read back as it was written exactly when its value is not empty, starts with no white space, has
      no colon and no line end, and fits the buffer. */
  lemma HeaderLineKept(attr: string, v: string, rest: string, space: nat)
    requires Token(attr) && |attr| < space
    ensures LineFrom(HeaderText(attr, v) + rest, [], [], false, space) == Line(attr, v, rest)
       <==> v != [] && Storable(v, space)
  {
    var tail := v + ("\r\n" + rest);
    ValueStarts(attr, tail, HeaderText(attr, v) + rest, space);
    ValueIsStorable(SkipSpace(tail), attr, [], space);
    if v == [] {
      EmptyValue(rest, tail);
    } else if Storable(v, space) {
      assert SkipSpace(tail) == tail;
      ValueRead(v, "\r\n" + rest, attr, [], space);
      assert [] + v == v;
      assert ("\r\n" + rest)[1..][1..] == rest;
    }
  }

  /** An empty value: the line end is skipped as white space, and reading goes on in the next line. */
  lemma EmptyValue(rest: string, tail: string)
    requires tail == [] + ("\r\n" + rest)
    ensures SkipSpace(tail) == SkipSpace(rest)
  {
    assert tail[1..][1..] == rest;
    assert SkipSpace(tail[1..]) == SkipSpace(rest);
  }

  /** After the attribute and the colon the reader is in front of the first byte that is no white space. */
  lemma ValueStarts(attr: string, tail: string, text: string, space: nat)
    requires Token(attr) && |attr| < space && text == attr + (":" + (" " + tail))
    ensures LineFrom(text, [], [], false, space) == LineFrom(SkipSpace(tail), attr, [], true, space)
  {
    var after := " " + tail;
    AttrRead(attr, ":" + after, [], space);
    assert [] + attr == attr;
    ColonRead(attr, after, tail, space);
  }

  lemma ColonRead(attr: string, after: string, tail: string, space: nat)
    requires attr != [] && after == " " + tail
    ensures LineFrom(":" + after, attr, [], false, space) == LineFrom(SkipSpace(tail), attr, [], true, space)
  {
    assert (":" + after)[1..] == after && after[1..] == tail;
    assert SkipSpace(after) == SkipSpace(tail);
  }

  /** A value with a colon comes back without it. */
  lemma ColonLost(attr: string, a: string, b: string, space: nat)
    requires Token(attr) && |attr| < space && a != [] && Storable(a, space)
    requires b != [] && Storable(b, space) && |a| + |b| < space
    ensures LineFrom(HeaderText(attr, a + ":" + b), [], [], false, space) == Line(attr, a + b, [])
  {
    var rest := b + "\r\n";
    var tail := a + (":" + rest);
    ValueStarts(attr, tail, HeaderText(attr, a + ":" + b), space);
    assert SkipSpace(tail) == tail && SkipSpace(rest) == rest;
    ColonSkipped(attr, a, rest, space);
    ValueRead(b, "\r\n", attr, a, space);
    assert "\r\n"[1..][1..] == [];
  }

  lemma ColonSkipped(attr: string, a: string, rest: string, space: nat)
    requires attr != [] && ':' !in a && CR !in a && LF !in a && |a| < space
    ensures LineFrom(a + (":" + rest), attr, [], true, space) == LineFrom(SkipSpace(rest), attr, a, true, space)
  {
    ValueRead(a, ":" + rest, attr, [], space);
    assert [] + a == a && (":" + rest)[1..] == rest;
  }

  lemma ColonDropped()
    ensures LineFrom(HeaderText("X", "a:b"), [], [], false, 1024) == Line("X", "ab", [])
  {
    assert "a:b" == "a" + ":" + "b" && "a" + "b" == "ab";
    ColonLost("X", "a", "b", 1024);
  }

  /** With an empty value the reader goes on behind all white space that follows, blank lines included. */
  lemma EmptyValueGoesOn(attr: string, rest: string, space: nat)
    requires Token(attr) && |attr| < space
    ensures LineFrom(HeaderText(attr, []) + rest, [], [], false, space)
         == LineFrom(SkipSpace(rest), attr, [], true, space)
  {
    var tail := [] + ("\r\n" + rest);
    ValueStarts(attr, tail, HeaderText(attr, []) + rest, space);
    EmptyValue(rest, tail);
  }

  lemma LastLine(v: string, attr: string, space: nat)
    requires ':' !in v && CR !in v && LF !in v && |v| < space
    ensures LineFrom(v + "\r\n", attr, [], true, space) == Line(attr, v, [])
  {
    ValueRead(v, "\r\n", attr, [], space);
    assert [] + v == v && "\r\n"[1..][1..] == [];
  }

  /** An empty content type takes the first line of the body for its value, over the blank line between them. */
  lemma EmptyValueSwallows()
    ensures LineFrom(HeaderText("X", []) + "\r\nhi\r\n", [], [], false, 1024) == Line("X", "hi", [])
  {
    EmptyValueGoesOn("X", "\r\nhi\r\n", 1024);
    assert "\r\nhi\r\n"[1..][1..] == "hi" + "\r\n";
    LastLine("hi", "X", 1024);
  }

  // ----- lines of any form -----

  /** A header line as it is sent: white space in and behind the name, any line end. */
  datatype HeaderField = HeaderField(attr: string, gap: string, value: string, end: string)

  function FieldText(f: HeaderField): string {
    f.attr + (":" + (f.gap + (f.value + f.end)))
  }

  predicate AllSpace(s: string) {
    forall c | c in s :: IsSpace(c)
  }

  /** The text without its white space. */
  function Squeezed(s: string): string {
    if s == [] then [] else (if IsSpace(s[0]) then [] else [s[0]]) + Squeezed(s[1..])
  }

  /** The text without its colons and the white space behind each of them. */
  function Decoloned(v: string): string
    decreases |v|
  {
    if v == [] then [] else if v[0] == ':' then Decoloned(SkipSpace(v[1..])) else [v[0]] + Decoloned(v[1..])
  }

  predicate OneLine(s: string) {
    CR !in s && LF !in s
  }

  /** Neither white space nor a colon at the end. */
  predicate EndsInText(v: string) {
    v != [] && !IsSpace(v[|v| - 1]) && v[|v| - 1] != ':'
  }

  /** A line the reader takes as one: it has a name and a value, and no colon in front of nothing but white space. */
  predicate Readable(f: HeaderField) {
    && OneLine(f.attr) && ':' !in f.attr && NUL !in f.attr && Squeezed(f.attr) != []
    && AllSpace(f.gap) && LineEnd(f.end)
    && f.value != [] && !IsSpace(f.value[0]) && OneLine(f.value) && (':' in f.value ==> EndsInText(f.value))
  }

  /** What the reader's buffer holds after the bytes of a name. */
  function NameKept(pre: string, a: string, space: nat): string
    decreases |a|
  {
    if a == [] then pre
    else NameKept(if !IsSpace(a[0]) && |pre| + 1 < space then pre + [a[0]] else pre, a[1..], space)
  }

  lemma {:induction false} NameKeptIs(pre: string, all: string, a: string, goal: string, space: nat)
    requires 0 < space && pre == Fit(all, space) && goal == all + Squeezed(a)
    ensures NameKept(pre, a, space) == Fit(goal, space)
    decreases |a|
  {
    if a == [] {
      assert goal == all;
    } else {
      FitAppend(all, a[0], space);
      if IsSpace(a[0]) {
        assert Squeezed(a) == Squeezed(a[1..]);
        NameKeptIs(pre, all, a[1..], goal, space);
      } else {
        Moved(all, a[0], Squeezed(a[1..]), goal);
        NameKeptIs(if |pre| + 1 < space then pre + [a[0]] else pre, all + [a[0]], a[1..], goal, space);
      }
    }
  }

  lemma Moved(all: string, c: char, more: string, goal: string)
    requires goal == all + ([c] + more)
    ensures goal == (all + [c]) + more
  {
  }

  lemma {:induction false} NameTaken(a: string, r: string, pre: string, space: nat)
    requires OneLine(a) && ':' !in a
    ensures LineFrom(a + r, pre, [], false, space) == LineFrom(r, NameKept(pre, a, space), [], false, space)
    decreases |a|
  {
    if a == [] {
      assert a + r == r;
    } else {
      assert a[0] in a && (a + r)[1..] == a[1..] + r;
      NameTaken(a[1..], r, if !IsSpace(a[0]) && |pre| + 1 < space then pre + [a[0]] else pre, space);
    }
  }

  lemma {:induction false} SkipSpaceOver(sp: string, r: string)
    requires AllSpace(sp) && (r == [] || !IsSpace(r[0]))
    ensures SkipSpace(sp + r) == r
  {
    if sp == [] {
      assert sp + r == r;
    } else {
      assert sp[0] in sp && (sp + r)[1..] == sp[1..] + r;
      assert forall c | c in sp[1..] :: c in sp;
      SkipSpaceOver(sp[1..], r);
    }
  }

  /** Skipping white space stops inside a text that ends in something else. */
  lemma {:induction false} SkipSpaceInside(v: string, r: string)
    requires EndsInText(v)
    ensures SkipSpace(v + r) == SkipSpace(v) + r && EndsInText(SkipSpace(v)) && |SkipSpace(v)| <= |v|
    ensures forall c :: c in SkipSpace(v) ==> c in v
  {
    if IsSpace(v[0]) {
      assert (v + r)[1..] == v[1..] + r;
      SkipSpaceInside(v[1..], r);
    }
  }

  function ValueKept(pre: string, v: string, space: nat): string
    decreases |v|
  {
    if v == [] then pre
    else if v[0] == ':' then ValueKept(pre, SkipSpace(v[1..]), space)
    else ValueKept(if |pre| + 1 < space then pre + [v[0]] else pre, v[1..], space)
  }

  lemma {:induction false} ValueKeptIs(pre: string, all: string, v: string, goal: string, space: nat)
    requires 0 < space && pre == Fit(all, space) && goal == all + Decoloned(v)
    ensures ValueKept(pre, v, space) == Fit(goal, space)
    decreases |v|
  {
    if v == [] {
      assert goal == all;
    } else if v[0] == ':' {
      ValueKeptIs(pre, all, SkipSpace(v[1..]), goal, space);
    } else {
      FitAppend(all, v[0], space);
      Moved(all, v[0], Decoloned(v[1..]), goal);
      ValueKeptIs(if |pre| + 1 < space then pre + [v[0]] else pre, all + [v[0]], v[1..], goal, space);
    }
  }

  lemma {:induction false} ValueTaken(v: string, r: string, attr: string, pre: string, space: nat)
    requires attr != [] && OneLine(v) && (':' in v ==> EndsInText(v))
    ensures LineFrom(v + r, attr, pre, true, space) == LineFrom(r, attr, ValueKept(pre, v, space), true, space)
    decreases |v|
  {
    if v == [] {
      assert v + r == r;
    } else {
      var w := v[1..];
      assert v[0] in v && (v + r)[1..] == w + r;
      assert ':' in w ==> EndsInText(w);
      if v[0] == ':' {
        assert EndsInText(w);
        SkipSpaceInside(w, r);
        ValueTaken(SkipSpace(w), r, attr, pre, space);
      } else {
        ValueTaken(w, r, attr, if |pre| + 1 < space then pre + [v[0]] else pre, space);
      }
    }
  }

  lemma LineEnded(end: string, rest: string, attr: string, value: string, found: bool, space: nat)
    requires LineEnd(end) && (end == [CR] ==> rest == [] || rest[0] != LF)
    ensures LineFrom(end + rest, attr, value, found, space) == Line(attr, value, rest)
  {
    if end == [CR, LF] {
      assert (end + rest)[1..][1..] == rest;
    } else {
      assert (end + rest)[1..] == rest;
    }
  }

  /** The rest of a line, `all` being the name read so far. */
  lemma FieldReadOn(f: HeaderField, rest: string, all: string, name: string, space: nat)
    requires Readable(f) && 0 < space && (f.end == [CR] ==> rest == [] || rest[0] != LF)
    requires name == Fit(all + Squeezed(f.attr), space) != []
    ensures LineFrom(FieldText(f) + rest, Fit(all, space), [], false, space)
         == Line(name, Fit(Decoloned(f.value), space), rest)
  {
    var body := f.value + (f.end + rest);
    FieldLaidOut(f, rest);
    NameKeptIs(Fit(all, space), all, f.attr, all + Squeezed(f.attr), space);
    ValueKeptIs([], [], f.value, Decoloned(f.value), space);
    NameTaken(f.attr, ":" + (f.gap + body), Fit(all, space), space);
    GapRead(name, f.gap, body, space);
    ValueTaken(f.value, f.end + rest, name, [], space);
    LineEnded(f.end, rest, name, Fit(Decoloned(f.value), space), true, space);
  }

  /** Every such line, of whatever length, is read as its name without white space and its value without colons, both
      cut to their buffers, whichever line end it has. */
  lemma FieldRead(f: HeaderField, rest: string, space: nat)
    requires Readable(f) && 0 < space && (f.end == [CR] ==> rest == [] || rest[0] != LF)
    requires Fit(Squeezed(f.attr), space) != []
    ensures LineFrom(FieldText(f) + rest, [], [], false, space)
         == Line(Fit(Squeezed(f.attr), space), Fit(Decoloned(f.value), space), rest)
  {
    assert [] + Squeezed(f.attr) == Squeezed(f.attr) && Fit([], space) == [];
    FieldReadOn(f, rest, [], Fit(Squeezed(f.attr), space), space);
  }

  /** A colon in front of the name is part of the name. */
  lemma LeadingColonKept(f: HeaderField, rest: string, space: nat)
    requires Readable(f) && 1 < space && (f.end == [CR] ==> rest == [] || rest[0] != LF)
    ensures LineFrom(":" + (FieldText(f) + rest), [], [], false, space)
         == Line(Fit(":" + Squeezed(f.attr), space), Fit(Decoloned(f.value), space), rest)
  {
    assert (":" + (FieldText(f) + rest))[1..] == FieldText(f) + rest && [] + ":" == ":";
    assert Fit(":", space) == ":";
    FieldReadOn(f, rest, ":", Fit(":" + Squeezed(f.attr), space), space);
  }

  lemma FieldLaidOut(f: HeaderField, rest: string)
    ensures FieldText(f) + rest == f.attr + (":" + (f.gap + (f.value + (f.end + rest))))
    ensures [] + Squeezed(f.attr) == Squeezed(f.attr) && [] + Decoloned(f.value) == Decoloned(f.value)
  {
  }

  lemma GapRead(name: string, gap: string, body: string, space: nat)
    requires name != [] && AllSpace(gap) && body != [] && !IsSpace(body[0])
    ensures LineFrom(":" + (gap + body), name, [], false, space) == LineFrom(body, name, [], true, space)
  {
    assert (":" + (gap + body))[1..] == gap + body;
    SkipSpaceOver(gap, body);
  }

  // ----- parameters -----

  lemma {:induction false} TakeDrop(a: string, r: string, p: char -> bool)
    requires forall c | c in a :: p(c)
    requires r == [] || !p(r[0])
    ensures Take(a + r, p) == a && Drop(a + r, p) == r
  {
    if a == [] {
      assert a + r == r;
    } else {
      assert a[0] in a && (a + r)[1..] == a[1..] + r;
      TakeDrop(a[1..], r, p);
    }
  }

  /** A quoted text; what stands between it and the next semicolon is dropped. */
  lemma QuotedRead(text: string, junk: string, rest: string)
    requires '"' !in text && ';' !in junk && (rest == [] || rest[0] == ';')
    ensures FieldFrom(Quoted(text) + (junk + rest)) == Field(text, rest)
  {
    var v := Quoted(text) + (junk + rest);
    var after := "\"" + (junk + rest);
    assert v[1..] == text + after;
    TakeDrop(text, after, NotQuote);
    assert after == ("\"" + junk) + rest;
    TakeDrop("\"" + junk, rest, NotSemicolon);
  }

  /** The main value of a header, quoted or not, is what stands before the first semicolon behind it. */
  lemma MainRead(text: string, quoted: bool, tail: string)
    requires tail == [] || tail[0] == ';'
    requires if quoted then '"' !in text else ';' !in text && (text == [] || (!IsSpace(text[0]) && text[0] != '"'))
    ensures FieldFrom(SkipSpace((if quoted then Quoted(text) else text) + tail)) == Field(text, tail)
  {
    var v := (if quoted then Quoted(text) else text) + tail;
    assert v == [] || !IsSpace(v[0]);
    if quoted {
      QuotedRead(text, [], tail);
      assert [] + tail == tail;
    } else {
      assert text == [] ==> v == tail;
      TakeDrop(text, tail, NotSemicolon);
    }
  }

  /** How a parameter is written: its name's letter case, the white space around it, quotes or none. */
  datatype Spelling = Spelling(key: string, lead: string, before: string, after: string, quoted: bool)

  function ParameterText(s: Spelling, text: string): string {
    ";" + (s.lead + (s.key + (s.before + ("=" + (s.after + if s.quoted then Quoted(text) else text)))))
  }

  /** A text without quotes around it must not look like one with them, and ends at the semicolon. */
  predicate Spells(s: Spelling, text: string) {
    && s.key != [] && (forall c | c in s.key :: IsAlnum(c))
    && AllSpace(s.lead) && AllSpace(s.before) && AllSpace(s.after)
    && (if s.quoted then '"' !in text else ';' !in text && (text == [] || (!IsSpace(text[0]) && text[0] != '"')))
  }

  lemma WrittenRead(s: Spelling, text: string, rest: string)
    requires Spells(s, text) && (rest == [] || rest[0] == ';')
    ensures FieldFrom(SkipSpace(s.after + ((if s.quoted then Quoted(text) else text) + rest))) == Field(text, rest)
  {
    SkipSpaceOver(s.after, (if s.quoted then Quoted(text) else text) + rest);
    if s.quoted {
      QuotedRead(text, [], rest);
      assert [] + rest == rest;
    } else {
      assert text == [] ==> text + rest == rest;
      TakeDrop(text, rest, NotSemicolon);
    }
  }

  /** A parameter that is asked for goes to its buffer, cut to it; one that nobody asked for is a store through null
      when there are buffers, and is passed over when there are none. */
  lemma ParameterRead(s: Spelling, text: string, rest: string, names: seq<string>, args: seq<string>, space: nat,
      argSpace: nat)
    requires Spells(s, text) && |s.key| < space && (rest == [] || rest[0] == ';') && |args| == |names|
    ensures var k := Slot(s.key, names);
            ParametersFrom(ParameterText(s, text) + rest, names, args, space, argSpace) ==
            if k < |names| then ParametersFrom(rest, names, args[k := Fit(text, argSpace)], space, argSpace)
            else if argSpace > 0 then HeaderValues.Fault
            else ParametersFrom(rest, names, args, space, argSpace)
  {
    var written := s.after + ((if s.quoted then Quoted(text) else text) + rest);
    var v := ParameterText(s, text) + rest;
    ParameterLaidOut(s, text, rest);
    KeyRead(s.lead, s.key, s.before, "=" + written, v[1..]);
    assert ("=" + written)[1..] == written;
    WrittenRead(s, text, rest);
    ParameterTaken(v, s.key, "=" + written, text, rest, names, args, space, argSpace);
  }

  lemma ParameterLaidOut(s: Spelling, text: string, rest: string)
    ensures var v := ParameterText(s, text) + rest;
            && v != [] && v[0] == ';'
            && v[1..] == s.lead + (s.key + (s.before + ("=" +
                 (s.after + ((if s.quoted then Quoted(text) else text) + rest)))))
  {
    var w := if s.quoted then Quoted(text) else text;
    var a, b, c := s.after + w, "=" + (s.after + w), s.before + ("=" + (s.after + w));
    Regrouped(s.after, w, rest);
    Regrouped("=", a, rest);
    Regrouped(s.before, b, rest);
    Regrouped(s.key, c, rest);
    Regrouped(s.lead, s.key + c, rest);
    Regrouped(";", s.lead + (s.key + c), rest);
  }

  lemma Regrouped(a: string, b: string, c: string)
    ensures (a + b) + c == a + (b + c)
  {
  }

  /** One turn of the loop over parameters. */
  lemma ParameterTaken(v: string, key: string, b: string, text: string, rest: string, names: seq<string>,
      args: seq<string>, space: nat, argSpace: nat)
    requires v != [] && v[0] == ';' && |args| == |names| && |key| < space && b != [] && b[0] == '='
    requires Take(SkipSpace(v[1..]), IsAlnum) == key && SkipSpace(Drop(SkipSpace(v[1..]), IsAlnum)) == b
    requires FieldFrom(SkipSpace(b[1..])) == Field(text, rest)
    ensures var k := Slot(key, names);
            ParametersFrom(v, names, args, space, argSpace) ==
            if k < |names| then ParametersFrom(rest, names, args[k := Fit(text, argSpace)], space, argSpace)
            else if argSpace > 0 then HeaderValues.Fault
            else ParametersFrom(rest, names, args, space, argSpace)
  {
  }

  /** The name in front of the equals sign. */
  lemma KeyRead(lead: string, key: string, before: string, b: string, v: string)
    requires AllSpace(lead) && AllSpace(before) && key != [] && (forall c | c in key :: IsAlnum(c))
    requires b != [] && !IsAlnum(b[0]) && !IsSpace(b[0]) && v == lead + (key + (before + b))
    ensures Take(SkipSpace(v), IsAlnum) == key && SkipSpace(Drop(SkipSpace(v), IsAlnum)) == b
  {
    var a := key + (before + b);
    assert key[0] in key && a[0] == key[0];
    SkipSpaceOver(lead, a);
    assert before != [] ==> before[0] in before && (before + b)[0] == before[0];
    assert before == [] ==> before + b == b;
    TakeDrop(key, before + b, IsAlnum);
    SkipSpaceOver(before, b);
  }

  /** Text behind a semicolon that is no parameter with a value ends the reading of parameters. */
  lemma MalformedEnds(lead: string, key: string, rest: string, names: seq<string>, args: seq<string>, space: nat,
      argSpace: nat)
    requires AllSpace(lead) && (forall c | c in key :: IsAlnum(c)) && |args| == |names|
    requires rest == [] || (!IsAlnum(rest[0]) && !IsSpace(rest[0]) && rest[0] != '=')
    ensures ParametersFrom(";" + (lead + (key + rest)), names, args, space, argSpace) == Parameters(args)
  {
    var v := ";" + (lead + (key + rest));
    assert v[1..] == lead + (key + rest);
    assert key != [] ==> key[0] in key && (key + rest)[0] == key[0];
    assert key == [] ==> key + rest == rest;
    SkipSpaceOver(lead, key + rest);
    TakeDrop(key, rest, IsAlnum);
  }

  /** The main value of a Content-Type header is kept whole exactly when it is empty, or starts with neither white
      space nor a quote, has no semicolon and fits the buffer: what follows a semicolon is taken for parameters and
      dropped. */
  lemma TypeKeptIff(v: string, space: nat)
    ensures Decompose(v, [], space, 0).main == v
       <==> v == [] || (!IsSpace(v[0]) && v[0] != '"' && ';' !in v && |v| < space)
  {
    var w := SkipSpace(v);
    if v != [] && !IsSpace(v[0]) {
      assert w == v;
      TakeHolds(v, NotSemicolon);
      TakeHolds(v[1..], NotQuote);
      if ';' !in v {
        TakeDrop(v, [], NotSemicolon);
        assert v + [] == v;
      }
    } else if v != [] {
      SkipSpaceShorter(v);
      TakeHolds(w, NotSemicolon);
      if w != [] {
        TakeHolds(w[1..], NotQuote);
      }
    }
  }

  lemma SkipSpaceShorter(v: string)
    requires v != [] && IsSpace(v[0])
    ensures |SkipSpace(v)| < |v|
  {
  }

  /** A content type with a parameter comes back without it. */
  lemma ParameterDropped()
    ensures Decompose("a/b; c", [], 1024, 0).main == "a/b"
  {
    var v := "a/b; c";
    assert SkipSpace(v) == v && v == "a/b" + "; c";
    TakeDrop("a/b", "; c", NotSemicolon);
  }
}
