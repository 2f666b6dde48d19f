/** decomposeValue: the parameters of a header value. */
module HeaderValues {
  import opened CText

  // ----- case-insensitive comparison -----

  /** Equality of the lower-case forms. */
  predicate SameLower(a: string, b: string) {
    |a| == |b| && forall i :: 0 <= i < |a| ==> ToLower(a[i]) == ToLower(b[i])
  }

  /** cgiStrEqNc: compares lower-case forms only where the first string has a letter. */
  method StrEqNc(s1: string, s2: string) returns (eq: bool)
    ensures eq == SameLower(s1, s2)
  {
    var i := 0;
    while true
      invariant i <= |s1| && i <= |s2|
      invariant forall j :: 0 <= j < i ==> ToLower(s1[j]) == ToLower(s2[j])
      decreases |s1| - i
    {
      if i == |s1| {
        return i == |s2|;
      } else if i == |s2| {
        return false;
      }
      if IsAlpha(s1[i]) {
        if ToLower(s1[i]) != ToLower(s2[i]) { return false; }
      } else if s1[i] != s2[i] {
        assert ToLower(s1[i]) != ToLower(s2[i]);
        return false;
      }
      i := i + 1;
    }
  }

  // ----- parameters of a header value -----

  predicate NotQuote(c: char) {
    c != '"'
  }

  predicate NotSemicolon(c: char) {
    c != ';'
  }

  /** The longest prefix of `v` whose bytes all satisfy `p`, and the rest. */
  function Take(v: string, p: char -> bool): string {
    if v != [] && p(v[0]) then [v[0]] + Take(v[1..], p) else []
  }

  function Drop(v: string, p: char -> bool): (t: string)
    ensures |t| <= |v|
    ensures t != [] ==> !p(t[0])
  {
    if v != [] && p(v[0]) then Drop(v[1..], p) else v
  }

  /** Every byte taken satisfies `p`. */
  lemma {:induction false} TakeHolds(v: string, p: char -> bool)
    ensures forall c :: c in Take(v, p) ==> p(c)
    ensures |Take(v, p)| <= |v|
  {
    if v != [] && p(v[0]) {
      TakeHolds(v[1..], p);
    }
  }

  datatype Field = Field(text: string, rest: string)

  /** A value, quoted or not, up to the next semicolon. */
  function FieldFrom(v: string): (f: Field)
    ensures |f.rest| <= |v|
  {
    if v != [] && v[0] == '"' then
      Field(Take(v[1..], NotQuote), Drop(Drop(v[1..], NotQuote), NotSemicolon))
    else
      Field(Take(v, NotSemicolon), Drop(v, NotSemicolon))
  }

  /** The first of `names` that equals `name` up to case, or |names|. */
  function Slot(name: string, names: seq<string>): (k: nat)
    ensures k <= |names|
    ensures k < |names| ==> SameLower(name, names[k])
    ensures forall j :: 0 <= j < k ==> !SameLower(name, names[j])
  {
    if names == [] || SameLower(name, names[0]) then 0 else 1 + Slot(name, names[1..])
  }

  /** `Fault` is a store through a null pointer: a parameter nobody asked for, in a call that gave
      buffers for parameters. */
  datatype Parameters = Fault | Parameters(args: seq<string>)

  function ParametersFrom(v: string, names: seq<string>, args: seq<string>, space: nat, argSpace: nat): (r: Parameters)
    requires |args| == |names|
    ensures r.Parameters? ==> |r.args| == |names|
    ensures argSpace == 0 ==> r.Parameters?
    decreases |v|
  {
    if v == [] || v[0] != ';' then Parameters(args)
    else
      var a := SkipSpace(v[1..]);
      var name := Fit(Take(a, IsAlnum), space);
      var b := SkipSpace(Drop(a, IsAlnum));
      if b == [] || b[0] != '=' then Parameters(args)
      else
        var f := FieldFrom(SkipSpace(b[1..]));
        var k := Slot(name, names);
        if k < |names| then ParametersFrom(f.rest, names, args[k := Fit(f.text, argSpace)], space, argSpace)
        else if argSpace > 0 then Fault
        else ParametersFrom(f.rest, names, args, space, argSpace)
  }

  function Blank(n: nat): (b: seq<string>)
    ensures |b| == n && forall i :: 0 <= i < n ==> b[i] == []
  {
    seq(n, i => [])
  }

  datatype Decomposition = BadStore | Decomposition(main: string, args: seq<string>)

  /** decomposeValue as a function of the header value. */
  function Decompose(value: string, names: seq<string>, space: nat, argSpace: nat): (r: Decomposition)
    ensures r.Decomposition? ==> |r.args| == |names|
    ensures argSpace == 0 ==> r.Decomposition?
  {
    var f := FieldFrom(SkipSpace(value));
    match ParametersFrom(f.rest, names, Blank(|names|), space, argSpace)
    case Fault => BadStore
    case Parameters(args) => Decomposition(Fit(f.text, space), args)
  }

  // ----- decomposeValue as the source runs it -----

  lemma FitAppend(s: string, c: char, space: nat)
    ensures |Fit(s, space)| + 1 < space ==> Fit(s + [c], space) == Fit(s, space) + [c]
    ensures |Fit(s, space)| + 1 >= space ==> Fit(s + [c], space) == Fit(s, space)
  {
  }

  lemma TakeStep(all: string, rest: string, p: char -> bool)
    requires rest != [] && p(rest[0])
    ensures all + Take(rest, p) == (all + [rest[0]]) + Take(rest[1..], p)
  {
  }

  /** A loop that appends to a bounded buffer while `p` holds of the next byte. */
  method CopyWhile(v: string, p: char -> bool, space: nat) returns (text: string, rest: string)
    ensures text == Fit(Take(v, p), space) && rest == Drop(v, p)
  {
    text, rest := [], v;
    ghost var all := [];
    while rest != [] && p(rest[0])
      invariant text == Fit(all, space)
      invariant all + Take(rest, p) == Take(v, p) && Drop(rest, p) == Drop(v, p)
      decreases |rest|
    {
      FitAppend(all, rest[0], space);
      if |text| + 1 < space { text := text + [rest[0]]; }
      TakeStep(all, rest, p);
      all := all + [rest[0]];
      rest := rest[1..];
    }
    assert all + [] == all;
  }

  method SkipWhile(v: string, p: char -> bool) returns (rest: string)
    ensures rest == Drop(v, p)
  {
    rest := v;
    while rest != [] && p(rest[0])
      invariant Drop(rest, p) == Drop(v, p)
      decreases |rest|
    {
      rest := rest[1..];
    }
  }

  lemma SkipSpaceIsDrop(v: string)
    ensures SkipSpace(v) == Drop(v, IsSpace)
  {
  }

  method CopyField(v: string, space: nat) returns (text: string, rest: string)
    ensures text == Fit(FieldFrom(v).text, space) && rest == FieldFrom(v).rest
  {
    if v != [] && v[0] == '"' {
      text, rest := CopyWhile(v[1..], NotQuote, space);
      rest := SkipWhile(rest, NotSemicolon);
    } else {
      text, rest := CopyWhile(v, NotSemicolon, space);
    }
  }

  method FindSlot(name: string, names: seq<string>) returns (k: nat)
    ensures k == Slot(name, names)
  {
    k := 0;
    while k < |names|
      invariant k <= |names|
      invariant Slot(name, names) == k + Slot(name, names[k..])
    {
      var eq := StrEqNc(name, names[k]);
      if eq { return; }
      assert names[k..][1..] == names[k + 1..];
      k := k + 1;
    }
  }

  /** decomposeValue. */
  method DecomposeValue(value: string, names: seq<string>, space: nat, argSpace: nat) returns (r: Decomposition)
    ensures r == Decompose(value, names, space, argSpace)
  {
    var args := Blank(|names|);
    var main, name, text;
    var rest := SkipWhile(value, IsSpace);
    SkipSpaceIsDrop(value);
    main, rest := CopyField(rest, space);
    ghost var goal := ParametersFrom(rest, names, args, space, argSpace);
    while rest != [] && rest[0] == ';'
      invariant |args| == |names|
      invariant goal == ParametersFrom(rest, names, args, space, argSpace)
      decreases |rest|
    {
      ghost var here := rest;
      SkipSpaceIsDrop(rest[1..]);
      rest := SkipWhile(rest[1..], IsSpace);
      name, rest := CopyWhile(rest, IsAlnum, space);
      SkipSpaceIsDrop(rest);
      rest := SkipWhile(rest, IsSpace);
      if rest == [] || rest[0] != '=' {
        return Decomposition(main, args);
      }
      SkipSpaceIsDrop(rest[1..]);
      rest := SkipWhile(rest[1..], IsSpace);
      var k := FindSlot(name, names);
      text, rest := CopyField(rest, if k < |names| then argSpace else 0);
      if k < |names| {
        args := args[k := text];
      } else if argSpace > 0 {
        return BadStore;
      }
    }
    r := Decomposition(main, args);
  }
}
