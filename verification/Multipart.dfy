/** cgiParsePostMultipartInput: the entries of a multipart/form-data body. */
module Multipart {
  import opened CText
  import opened FormEntry
  import opened MultipartStream
  import opened BoundarySearch
  import opened OpeningSearch
  import opened HeaderLines
  import opened HeaderValues

  /** `Faulted`: a header value made decomposeValue store through a null pointer. */
  datatype Form = Faulted | Form(status: ParseStatus, entries: seq<Entry>)

  // ----- headers of one part -----

  datatype Head = Head(disposition: string, name: string, fileName: string, contentType: string)

  const NO_HEAD: Head := Head([], [], [], [])
  const DISPOSITION_ARGS: seq<string> := ["name", "filename"]

  datatype HeadResult = HeadFault | HeadResult(head: Head, rest: string)

  /** One header line's effect; None is the null store. */
  function Apply(h: Head, attr: string, value: string, space: nat): Option<Head> {
    if SameLower(attr, "Content-Disposition") then
      match Decompose(value, DISPOSITION_ARGS, space, space)
      case BadStore => None
      case Decomposition(main, args) => Some(h.(disposition := main, name := args[0], fileName := args[1]))
    else if SameLower(attr, "Content-Type") then
      Some(h.(contentType := Decompose(value, [], space, 0).main))
    else Some(h)
  }

  function HeadFrom(r: string, h: Head, space: nat): (res: HeadResult)
    ensures res.HeadResult? ==> |res.rest| <= |r| && (r != [] ==> |res.rest| < |r|)
    decreases |r|
  {
    match LineFrom(r, [], [], false, space)
    case Cut => HeadResult(h, [])
    case Line(attr, value, rest) =>
      if attr == [] || value == [] then HeadResult(h, rest)
      else
        match Apply(h, CString(attr), CString(value), space)
        case None => HeadFault
        case Some(h') => HeadFrom(rest, h', space)
  }

  method ApplyLine(h: Head, attr: string, value: string, space: nat) returns (r: Option<Head>)
    ensures r == Apply(h, CString(attr), CString(value), space)
  {
    var isDisposition := StrEqNc(CString(attr), "Content-Disposition");
    if isDisposition {
      var d := DecomposeValue(CString(value), DISPOSITION_ARGS, space, space);
      if d.BadStore? { return None; }
      return Some(h.(disposition := d.main, name := d.args[0], fileName := d.args[1]));
    }
    var isType := StrEqNc(CString(attr), "Content-Type");
    if isType {
      var d := DecomposeValue(CString(value), [], space, 0);
      return Some(h.(contentType := d.main));
    }
    r := Some(h);
  }

  /** The header loop of one part. */
  method ReadHead(mp: MpStream, space: nat) returns (r: Option<Head>)
    requires mp.Valid() && |mp.Queued()| <= 2 && 1 < mp.putback.Length
    modifies mp, mp.putback
    ensures mp.Valid() && |mp.Queued()| <= 1 && mp.peak <= Max(old(mp.peak), 1)
    ensures match HeadFrom(old(mp.Remaining()), NO_HEAD, space)
            case HeadFault => r == None
            case HeadResult(h, rest) => r == Some(h) && mp.Remaining() == rest
  {
    var h := NO_HEAD;
    ghost var goal := HeadFrom(mp.Remaining(), h, space);
    while true
      invariant mp.Valid() && |mp.Queued()| <= 2 && mp.peak <= Max(old(mp.peak), 1)
      invariant goal == HeadFrom(mp.Remaining(), h, space)
      decreases |mp.Remaining()|
    {
      var more, attr, value := ReadHeaderLine(mp, space);
      if !more {
        break;
      }
      var next := ApplyLine(h, attr, value, space);
      if next == None { return None; }
      h := next.value;
    }
    r := Some(h);
  }

  // ----- the whole body -----

  function EntryOf(h: Head, body: string): Entry {
    if h.fileName != [] then Entry(h.name, [], |body|, h.fileName, h.contentType, Some(body))
    else Entry(h.name, body, |body|, [], h.contentType, None)
  }

  function Cons(e: Entry, f: Form): Form {
    match f
    case Faulted => Faulted
    case Form(status, es) => Form(status, [e] + es)
  }

  /** The parts of a stream positioned after a delimiter. A part that is not form data is not skipped to
      its end: reading goes on right behind its headers. */
  function PartsFrom(r: string, boundary: string, space: nat): Form
    decreases |r|
  {
    if |r| < 2 || (r[0] == '-' && r[1] == '-') then Form(ParseSuccess, [])
    else
      match HeadFrom(r, NO_HEAD, space)
      case HeadFault => Faulted
      case HeadResult(h, rest) =>
        if !SameLower(h.disposition, "form-data") then PartsFrom(rest, boundary, space)
        else
          match Reached(Split(Delimiter(boundary), rest))
          case None => Form(ParseIO, [])
          case Some(stop) => Cons(EntryOf(h, stop.body), PartsFrom(stop.rest, boundary, space))
  }

  /** What the parser makes of a body. The opening delimiter is looked for by the ring's own search, which may miss it;
      from there on the parts are those of the plain byte sequence. */
  function FormFrom(input: string, boundary: string, space: nat): Form {
    if input == [] then Form(ParseSuccess, [])
    else
      match Reached(Search(Sought(boundary, true), [], input, 0))
      case None => Form(ParseSuccess, [])
      case Some(stop) => PartsFrom(stop.rest, boundary, space)
  }

  /** The form in a plain byte sequence, from its leftmost delimiter on. */
  function PlainForm(input: string, boundary: string, space: nat): Form {
    if input == [] then Form(ParseSuccess, [])
    else
      match Reached(Split("--" + boundary, input))
      case None => Form(ParseSuccess, [])
      case Some(stop) => PartsFrom(stop.rest, boundary, space)
  }

  lemma FormIsPlain(input: string, boundary: string, space: nat)
    requires !FalseStart("--" + boundary, input)
    ensures FormFrom(input, boundary, space) == PlainForm(input, boundary, space)
  {
    OpeningIsLeftmost(boundary, input);
  }

  function Append(es: seq<Entry>, f: Form): Form {
    match f
    case Faulted => Faulted
    case Form(status, fs) => Form(status, es + fs)
  }

  lemma AppendCons(es: seq<Entry>, e: Entry, f: Form)
    ensures Append(es, Cons(e, f)) == Append(es + [e], f)
  {
    if f.Form? {
      assert es + ([e] + f.entries) == (es + [e]) + f.entries;
    }
  }

  /** The two-byte look-ahead that starts each part: true at the end of the form. */
  method AtEnd(mp: MpStream) returns (end: bool)
    requires mp.Valid() && |mp.Queued()| <= 2 && 2 < mp.putback.Length
    modifies mp, mp.putback
    ensures mp.Valid() && |mp.Queued()| <= 2 && mp.peak <= Max(old(mp.peak), 2)
    ensures var r := old(mp.Remaining());
            end == (|r| < 2 || (r[0] == '-' && r[1] == '-')) && (!end ==> mp.Remaining() == r)
  {
    var ok, d := ReadTwo(mp);
    if !ok || (d[0] == '-' && d[1] == '-') {
      return true;
    }
    mp.PutBack(d);
    assert mp.Queued() == d;
    end := false;
  }

  /** What one turn of the parse loop comes to. */
  datatype Turn = Finished | Skipped | Added(entry: Entry) | Failed | Crashed

  /** The body of a part: everything before the leftmost delimiter. */
  method ReadBody(mp: MpStream, boundary: string) returns (status: ParseStatus, body: string)
    requires mp.Valid() && |mp.Queued()| <= 1
    requires CR !in boundary && |boundary| + 5 <= mp.putback.Length
    modifies mp, mp.putback
    ensures mp.Valid() && |mp.Queued()| <= 2 && mp.peak <= Max(old(mp.peak), Max(2, |boundary| + 3))
    ensures match Reached(Split(Delimiter(boundary), old(mp.Remaining())))
            case None => status == ParseIO
            case Some(stop) =>
              && status == ParseSuccess && body == stop.body && mp.Remaining() == stop.rest
              && |stop.rest| < |old(mp.Remaining())|
  {
    NextDelimiterIsLeftmost(boundary, mp.Queued(), mp.Pending());
    status, body := AfterNextBoundary(mp, boundary, false, true);
  }

  /** One turn of the parse loop. */
  method ReadPart(mp: MpStream, boundary: string, space: nat) returns (turn: Turn)
    requires mp.Valid() && |mp.Queued()| <= 2
    requires CR !in boundary && |boundary| + 5 <= mp.putback.Length
    modifies mp, mp.putback
    ensures mp.Valid() && |mp.Queued()| <= 2 && mp.peak <= Max(old(mp.peak), Max(2, |boundary| + 3))
    ensures turn.Skipped? || turn.Added? ==> |mp.Remaining()| < |old(mp.Remaining())|
    ensures PartsFrom(old(mp.Remaining()), boundary, space) ==
            match turn
            case Finished => Form(ParseSuccess, [])
            case Skipped => PartsFrom(mp.Remaining(), boundary, space)
            case Added(e) => Cons(e, PartsFrom(mp.Remaining(), boundary, space))
            case Failed => Form(ParseIO, [])
            case Crashed => Faulted
  {
    var end := AtEnd(mp);
    if end { return Finished; }
    var head := ReadHead(mp, space);
    if head == None { return Crashed; }
    var h := head.value;
    var isForm := StrEqNc(h.disposition, "form-data");
    if !isForm { return Skipped; }
    var status, body := ReadBody(mp, boundary);
    turn := if status == ParseSuccess then Added(EntryOf(h, body)) else Failed;
  }

  /** The parse loop. */
  method ReadParts(mp: MpStream, boundary: string, space: nat) returns (form: Form)
    requires mp.Valid() && |mp.Queued()| <= 2
    requires CR !in boundary && |boundary| + 5 <= mp.putback.Length
    modifies mp, mp.putback
    ensures mp.Valid() && mp.peak <= Max(old(mp.peak), Max(2, |boundary| + 3))
    ensures form == PartsFrom(old(mp.Remaining()), boundary, space)
  {
    var entries: seq<Entry> := [];
    ghost var goal := PartsFrom(mp.Remaining(), boundary, space);
    assert goal == Append(entries, goal);
    while true
      invariant mp.Valid() && |mp.Queued()| <= 2 && mp.peak <= Max(old(mp.peak), Max(2, |boundary| + 3))
      invariant goal == Append(entries, PartsFrom(mp.Remaining(), boundary, space))
      decreases |mp.Remaining()|
    {
      var turn := ReadPart(mp, boundary, space);
      match turn
      case Finished => return Form(ParseSuccess, entries);
      case Skipped =>
      case Added(e) =>
        AppendCons(entries, e, PartsFrom(mp.Remaining(), boundary, space));
        entries := entries + [e];
      case Failed => return Form(ParseIO, entries);
      case Crashed => return Faulted;
    }
  }

  /** The form in a fresh stream: what precedes the first delimiter is passed over. */
  method ReadForm(mp: MpStream, boundary: string, space: nat) returns (form: Form)
    requires mp.Valid() && mp.Queued() == [] && mp.Pending() != []
    requires CR !in boundary && |boundary| + 5 <= mp.putback.Length
    modifies mp, mp.putback
    ensures mp.Valid() && mp.peak <= Max(old(mp.peak), Max(2, |boundary| + 3))
    ensures form == FormFrom(old(mp.Pending()), boundary, space)
  {
    var status, body := AfterNextBoundary(mp, boundary, true, false);
    if status == ParseIO {
      return Form(ParseSuccess, []);
    }
    form := ReadParts(mp, boundary, space);
  }

  method ParseBody(input: string, boundary: string, space: nat) returns (form: Form, ghost peak: nat)
    requires CR !in boundary && |boundary| + 5 <= space
    ensures form == FormFrom(input, boundary, space)
    ensures peak <= Max(2, |boundary| + 3) < space
  {
    if input == [] {
      return Form(ParseSuccess, []), 0;
    }
    var mp := new MpStream(input, space);
    form := ReadForm(mp, boundary, space);
    peak := mp.peak;
  }

  /** cgiParsePostMultipartInput. Unless the input has a false start before its first delimiter, the answer is that of a
      plain byte sequence; and in every state the parser passes through the ring holds at most
      max(2, delimiter length - 1) bytes. */
  method ParsePostMultipart(input: string, boundary: string, space: nat) returns (form: Form, ghost peak: nat)
    requires CR !in boundary && |boundary| + 5 <= space
    ensures form == FormFrom(input, boundary, space)
    ensures !FalseStart("--" + boundary, input) ==> form == PlainForm(input, boundary, space)
    ensures peak <= Max(2, |boundary| + 3) < space
  {
    form, peak := ParseBody(input, boundary, space);
    if !FalseStart("--" + boundary, input) {
      FormIsPlain(input, boundary, space);
    }
  }
}
