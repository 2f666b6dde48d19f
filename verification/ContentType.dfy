/** The part of cgic's main that finds the boundary in CONTENT_TYPE, and the request it leads to. */
module ContentType {
  import opened CText
  import opened HeaderValues
  import opened HeaderRoundTrip
  import opened Multipart
  import opened MultipartRoundTrip
  import BoundarySearch
  import opened OpeningSearch

  predicate NotSpace(c: char) {
    !IsSpace(c)
  }

  /** cgiStrBeginsNc. */
  predicate BeginsNc(s: string, prefix: string) {
    |prefix| <= |s| && SameLower(s[..|prefix|], prefix)
  }

  const BOUNDARY_PARAMETER := "boundary="

  /** The boundary parameter in a list of parameters, each led by a semicolon. */
  function BoundaryFrom(v: string): (b: string)
    ensures forall c :: c in b ==> !IsSpace(c)
    ensures b != [] ==> |b| + |BOUNDARY_PARAMETER| < |v|
    decreases |v|
  {
    if v == [] then []
    else
      var a := SkipSpace(v[1..]);
      if BeginsNc(a, BOUNDARY_PARAMETER) then
        TakeHolds(a[|BOUNDARY_PARAMETER|..], NotSpace);
        Take(a[|BOUNDARY_PARAMETER|..], NotSpace)
      else BoundaryFrom(Drop(a, NotSemicolon))
  }

  /** The loop over semicolons in main. */
  method FindBoundary(contentType: string) returns (b: string)
    ensures b == BoundaryFrom(Drop(contentType, NotSemicolon))
    ensures forall c :: c in b ==> !IsSpace(c)
    ensures b != [] ==> |b| + 10 <= |contentType|
  {
    var sat := SkipWhile(contentType, NotSemicolon);
    ghost var all := sat;
    while sat != []
      invariant BoundaryFrom(sat) == BoundaryFrom(all)
      decreases |sat|
    {
      SkipSpaceIsDrop(sat[1..]);
      var a := SkipWhile(sat[1..], IsSpace);
      if BeginsNc(a, BOUNDARY_PARAMETER) {
        var rest;
        b, rest := CopyWhile(a[|BOUNDARY_PARAMETER|..], NotSpace, |a|);
        TakeHolds(a[|BOUNDARY_PARAMETER|..], NotSpace);
        return;
      }
      sat := SkipWhile(a, NotSemicolon);
    }
    b := [];
  }

  /** The boundary main takes from a content type, cut to its buffer. */
  function BoundaryOf(contentType: string, space: nat): string {
    BoundaryFrom(Drop(Fit(contentType, space), NotSemicolon))
  }

  /** A multipart request from its CONTENT_TYPE on: the boundary main cuts out always satisfies what the parser
      needs, so whatever the client sends the ring never overflows; and unless the body has a false start before its
      first delimiter, the form is that of the plain body. */
  method ParseRequest(contentType: string, input: string, space: nat) returns (form: Form, ghost peak: nat)
    requires 6 <= space
    ensures form == FormFrom(input, BoundaryOf(contentType, space), space)
    ensures !FalseStart("--" + BoundaryOf(contentType, space), input) ==>
              form == PlainForm(input, BoundaryOf(contentType, space), space)
    ensures peak < space
  {
    var boundary := FindBoundary(Fit(contentType, space));
    form, peak := ParsePostMultipart(input, boundary, space);
  }

  // ----- announcing a boundary -----

  /** Parameters in front of the boundary, each behind its semicolon. */
  function OtherParameters(ps: seq<string>): string {
    if ps == [] then [] else ";" + (ps[0] + OtherParameters(ps[1..]))
  }

  /** No parameter that begins with the name of the boundary, in whatever letter case. */
  predicate NotBoundary(p: string) {
    ';' !in p && !BeginsNc(SkipSpace(p), BOUNDARY_PARAMETER)
  }

  ghost predicate NoBoundaries(ps: seq<string>) {
    forall i :: 0 <= i < |ps| ==> NotBoundary(ps[i])
  }

  /** A content type: media type, other parameters, and then `text` behind the name of the boundary. */
  function Announced(mediaType: string, others: seq<string>, lead: string, key: string, text: string): string {
    mediaType + (OtherParameters(others) + (";" + (lead + (key + text))))
  }

  predicate Key(key: string) {
    SameLower(key, "boundary=")
  }

  lemma {:induction false} SkipSpaceBefore(p: string, rest: string)
    requires rest == [] || !IsSpace(rest[0])
    ensures SkipSpace(p + rest) == SkipSpace(p) + rest && forall c :: c in SkipSpace(p) ==> c in p
  {
    if p == [] {
      assert p + rest == rest;
    } else if IsSpace(p[0]) {
      assert (p + rest)[1..] == p[1..] + rest;
      SkipSpaceBefore(p[1..], rest);
    }
  }

  lemma NotBegins(a: string, rest: string, prefix: string)
    requires rest != [] && rest[0] == ';' && forall i :: 0 <= i < |prefix| ==> IsAlpha(prefix[i]) || prefix[i] == '='
    requires !BeginsNc(a, prefix)
    ensures !BeginsNc(a + rest, prefix)
  {
    if |a| < |prefix| <= |a + rest| {
      assert (a + rest)[..|prefix|][|a|] == ';';
    } else if |prefix| <= |a| {
      assert (a + rest)[..|prefix|] == a[..|prefix|];
    }
  }

  lemma BoundaryStep(v: string, a: string)
    requires v != [] && a == SkipSpace(v[1..]) && !BeginsNc(a, BOUNDARY_PARAMETER)
    ensures BoundaryFrom(v) == BoundaryFrom(Drop(a, NotSemicolon))
  {
  }

  /** The search goes on behind a parameter that is not the boundary. */
  lemma OtherPassed(p: string, rest: string)
    requires NotBoundary(p) && rest != [] && rest[0] == ';'
    ensures BoundaryFrom(";" + (p + rest)) == BoundaryFrom(rest)
  {
    var v, a := ";" + (p + rest), SkipSpace(p);
    assert v[1..] == p + rest;
    SkipSpaceBefore(p, rest);
    NotBegins(a, rest, BOUNDARY_PARAMETER);
    BoundaryStep(v, a + rest);
    TakeDrop(a, rest, NotSemicolon);
  }

  lemma {:induction false} OthersPassed(ps: seq<string>, rest: string)
    requires NoBoundaries(ps) && rest != [] && rest[0] == ';'
    ensures BoundaryFrom(OtherParameters(ps) + rest) == BoundaryFrom(rest)
  {
    if ps == [] {
      assert OtherParameters(ps) + rest == rest;
    } else {
      var more := OtherParameters(ps[1..]) + rest;
      assert OtherParameters(ps) + rest == ";" + (ps[0] + more);
      OtherPassed(ps[0], more);
      OthersPassed(ps[1..], rest);
    }
  }

  /** The bytes up to white space are taken for the boundary, wherever it stands among the parameters and in whatever
      letter case its name is written. */
  lemma BoundaryTaken(mediaType: string, others: seq<string>, lead: string, key: string, text: string)
    requires ';' !in mediaType && NoBoundaries(others) && AllSpace(lead) && Key(key)
    ensures BoundaryFrom(Drop(Announced(mediaType, others, lead, key, text), NotSemicolon)) == Take(text, NotSpace)
  {
    var a := key + text;
    var last := ";" + (lead + a);
    TakeDrop(mediaType, OtherParameters(others) + last, NotSemicolon);
    OthersPassed(others, last);
    assert last[1..] == lead + a && IsAlpha(ToLower(key[0]));
    SkipSpaceOver(lead, a);
    assert a[..|BOUNDARY_PARAMETER|] == key && a[|BOUNDARY_PARAMETER|..] == text;
  }

  /** An announced boundary is found exactly when it has no white space and either nothing or white space follows: a
      parameter right behind it is swallowed. */
  lemma BoundaryFoundIff(mediaType: string, others: seq<string>, lead: string, key: string, boundary: string,
      tail: string)
    requires ';' !in mediaType && NoBoundaries(others) && AllSpace(lead) && Key(key)
    ensures BoundaryFrom(Drop(Announced(mediaType, others, lead, key, boundary + tail), NotSemicolon)) == boundary
       <==> (forall c :: c in boundary ==> !IsSpace(c)) && (tail == [] || IsSpace(tail[0]))
  {
    BoundaryTaken(mediaType, others, lead, key, boundary + tail);
    TakeHolds(boundary + tail, NotSpace);
    if (forall c :: c in boundary ==> !IsSpace(c)) && (tail == [] || IsSpace(tail[0])) {
      TakeDrop(boundary, tail, NotSpace);
    } else if forall c :: c in boundary ==> !IsSpace(c) {
      TakeLonger(boundary, tail);
    }
  }

  lemma {:induction false} TakeLonger(a: string, tail: string)
    requires (forall c :: c in a ==> !IsSpace(c)) && tail != [] && !IsSpace(tail[0])
    ensures |Take(a + tail, NotSpace)| > |a|
  {
    if a == [] {
      assert a + tail == tail;
    } else {
      assert a[0] in a && (a + tail)[1..] == a[1..] + tail;
      TakeLonger(a[1..], tail);
    }
  }

  lemma UsualKey()
    ensures Key("boundary=") && AllSpace(" ")
  {
  }

  /** A parameter behind the boundary: its semicolon becomes part of the boundary. */
  lemma ParameterSwallowed()
    ensures BoundaryFrom(Drop(Announced("m", [], " ", "boundary=", "ab; x"), NotSemicolon)) == "ab;"
  {
    UsualKey();
    BoundaryTaken("m", [], " ", "boundary=", "ab; x");
    assert "ab; x" == "ab;" + " x";
    TakeDrop("ab;", " x", NotSpace);
  }

  /** A whole request: the form rendered with a boundary and announced with it, behind any other parameters, in a
      content type that fits its buffer, comes back part by part. */
  lemma RequestRoundTrip(mediaType: string, others: seq<string>, lead: string, key: string, boundary: string,
      preamble: string, ss: seq<Submission>, epilogue: string, space: nat)
    requires ';' !in mediaType && NoBoundaries(others) && AllSpace(lead) && Key(key)
    requires (forall c :: c in boundary ==> !IsSpace(c)) && 2 <= space
    requires |Announced(mediaType, others, lead, key, boundary)| < space
    requires Harmless(preamble, boundary) && AllSendable(ss, boundary, space)
    ensures var found := BoundaryOf(Announced(mediaType, others, lead, key, boundary), space);
            var form := FormFrom(FormText(preamble, ss, boundary, "--" + epilogue), found, space);
            form == Form(BoundarySearch.ParseSuccess, EntriesFor(ss)) && Tells(form.entries, ss)
  {
    BoundaryFoundIff(mediaType, others, lead, key, boundary, []);
    assert boundary + [] == boundary;
    assert IsSpace(CR);
    RoundTrip(preamble, ss, boundary, epilogue, space);
  }

  /** A content type too long for its buffer announces another boundary. */
  lemma LongBoundaryCut(mediaType: string, boundary: string, space: nat)
    requires ';' !in mediaType && (forall c :: c in boundary ==> !IsSpace(c))
    requires |mediaType| + 11 < space <= |mediaType| + 11 + |boundary|
    ensures BoundaryOf(mediaType + ("; boundary=" + boundary), space) == boundary[..space - 1 - |mediaType| - 11] !=
        boundary
  {
    var kept := boundary[..space - 1 - |mediaType| - 11];
    assert Fit(mediaType + ("; boundary=" + boundary), space) == mediaType + ("; boundary=" + kept);
    UsualKey();
    assert mediaType + ("; boundary=" + kept) == Announced(mediaType, [], " ", "boundary=", kept);
    BoundaryFoundIff(mediaType, [], " ", "boundary=", kept, []);
    assert kept + [] == kept;
  }
}
