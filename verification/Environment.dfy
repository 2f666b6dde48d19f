/** cgiWriteEnvironment and cgiReadEnvironment: the saved form of a request. */
module Environment {
  import opened CText
  import opened FormEntry
  import opened HostInts

  /** `strings` are the twenty environment strings, from the server software to the cookie, in file order. */
  datatype Env = Env(strings: seq<string>, contentLength: int, entries: seq<Entry>)

  const STRINGS: nat := 20
  const VERSION := "CGIC2.0"

  // ----- strings -----

  function StringText(h: Host, s: string): string {
    h.enc(|s|) + s
  }

  /** What a read yields and what is left in the file. */
  datatype Got<T> = Short | Got(value: T, rest: string)

  function GetInt(h: Host, r: string): (g: Got<int>)
    ensures g.Got? ==> |g.rest| < |r|
  {
    if |r| < 4 then Short else Got(h.dec(r[..4]), r[4..])
  }

  function GetString(h: Host, r: string): (g: Got<string>)
    ensures g.Got? ==> |g.rest| < |r|
  {
    match GetInt(h, r)
    case Short => Short
    case Got(n, rest) => if 0 <= n <= |rest| then Got(CString(rest[..n]), rest[n..]) else Short
  }

  // ----- the written form -----

  function StringsText(h: Host, ss: seq<string>): string {
    if ss == [] then [] else StringText(h, ss[0]) + StringsText(h, ss[1..])
  }

  /** The upload file that cgiFormFileOpen finds under a name: that of the first entry so called. */
  function FirstFile(es: seq<Entry>, name: string): Option<string> {
    if es == [] then None else if es[0].attr == name then es[0].file else FirstFile(es[1..], name)
  }

  function FileText(h: Host, f: Option<string>): string {
    match f
    case None => h.enc(0)
    case Some(bytes) => h.enc(1) + bytes
  }

  function EntryText(h: Host, all: seq<Entry>, e: Entry): string {
    StringText(h, e.attr) + (StringsText(h, [e.value, e.fileName, e.contentType]) +
                             (h.enc(e.valueLength) + FileText(h, FirstFile(all, e.attr))))
  }

  function EntriesText(h: Host, all: seq<Entry>, es: seq<Entry>): string {
    if es == [] then [] else EntryText(h, all, es[0]) + EntriesText(h, all, es[1..])
  }

  function EnvText(h: Host, env: Env): string {
    StringText(h, VERSION) +
      (StringsText(h, env.strings) + (h.enc(env.contentLength) + EntriesText(h, env.entries, env.entries)))
  }

  // ----- reading it -----

  function GetStrings(h: Host, r: string, n: nat): (g: Got<seq<string>>)
    ensures g.Got? ==> |g.value| == n
    decreases n
  {
    if n == 0 then Got([], r)
    else
      match GetString(h, r)
      case Short => Short
      case Got(s, rest) =>
        match GetStrings(h, rest, n - 1)
        case Short => Short
        case Got(ss, rest') => Got([s] + ss, rest')
  }

  /** `NoMore`: there is no further name. `CutEntry`: the file ends inside an entry's fields. `CutFile`: inside its
      upload. */
  datatype GotEntry = NoMore | CutEntry | CutFile | GotEntry(entry: Entry, rest: string)

  /** The upload of an entry whose other fields have been read. */
  function GetFile(h: Host, e: Entry, r: string): (g: GotEntry)
    ensures g.GotEntry? ==> |g.rest| < |r|
  {
    match GetInt(h, r)
    case Short => CutEntry
    case Got(flag, rest) =>
      if flag == 0 then GotEntry(e, rest)
      else
        var n := if e.valueLength > 0 then e.valueLength else 0;
        if n <= |rest| then GotEntry(e.(file := Some(rest[..n])), rest[n..]) else CutFile
  }

  function GetFields(h: Host, attr: string, r: string): (g: GotEntry)
    ensures g.GotEntry? ==> |g.rest| < |r|
  {
    match GetStrings(h, r, 3)
    case Short => CutEntry
    case Got(ss, r1) =>
      StringsShrink(h, r, 3);
      match GetInt(h, r1)
      case Short => CutEntry
      case Got(n, r2) => GetFile(h, Entry(attr, ss[0], n, ss[1], ss[2], None), r2)
  }

  lemma StringsShrink(h: Host, r: string, n: nat)
    ensures GetStrings(h, r, n).Got? ==> |GetStrings(h, r, n).rest| <= |r|
  {
  }

  function GetEntry(h: Host, r: string): (g: GotEntry)
    ensures g.GotEntry? ==> |g.rest| < |r|
  {
    match GetString(h, r)
    case Short => NoMore
    case Got(attr, rest) => GetFields(h, attr, rest)
  }

  /** An entry without upload gets a temporary file name of one byte that is allocated and never set. Only if that
      byte happens to be NUL is the name empty; otherwise the name is loose, and whether cgiFormFileOpen takes the
      entry for an upload depends on the memory behind it. `junk` gives the byte for each position in the list. */
  function Loose(es: seq<Entry>, junk: nat -> char): seq<nat> {
    if es == [] then []
    else
      var n := |es| - 1;
      if es[n].file == None && junk(n) != NUL then Loose(es[..n], junk) + [n] else Loose(es[..n], junk)
  }

  /** `loose` lists the entries whose temporary file name is loose. */
  datatype Restore = WrongVersion | IOFailure | MemoryFailure | Restored(env: Env, loose: seq<nat>)

  /** The entries from `r` on, after `env` has been restored so far. */
  function GetEntries(h: Host, r: string, env: Env, junk: nat -> char): Restore
    decreases |r|
  {
    match GetEntry(h, r)
    case NoMore => Restored(env, Loose(env.entries, junk))
    case CutEntry => MemoryFailure
    case CutFile => IOFailure
    case GotEntry(e, rest) => GetEntries(h, rest, env.(entries := env.entries + [e]), junk)
  }

  function EnvOf(h: Host, text: string, junk: nat -> char): Restore {
    match GetString(h, text)
    case Short => IOFailure
    case Got(version, r1) =>
      if version != VERSION then WrongVersion
      else
        match GetStrings(h, r1, STRINGS)
        case Short => IOFailure
        case Got(ss, r2) =>
          match GetInt(h, r2)
          case Short => IOFailure
          case Got(n, r3) => GetEntries(h, r3, Env(ss, n, []), junk)
  }

  // ----- the source -----

  /** cgiWriteEnvironment. */
  method WriteEnvironment(h: Host, env: Env) returns (out: string)
    ensures out == EnvText(h, env)
  {
    out := WriteStrings(h, StringText(h, VERSION), env.strings);
    ghost var strings := out;
    out := out + h.enc(env.contentLength);
    out := WriteEntries(h, out, env.entries);
    ghost var es := EntriesText(h, env.entries, env.entries);
    assert (strings + h.enc(env.contentLength)) + es == strings + (h.enc(env.contentLength) + es);
  }

  method WriteStrings(h: Host, before: string, ss: seq<string>) returns (out: string)
    ensures out == before + StringsText(h, ss)
  {
    out := before;
    var i := 0;
    assert ss[0..] == ss;
    while i < |ss|
      invariant i <= |ss|
      invariant out + StringsText(h, ss[i..]) == before + StringsText(h, ss)
    {
      ghost var text, tail := StringText(h, ss[i]), StringsText(h, ss[i + 1..]);
      assert ss[i..][1..] == ss[i + 1..];
      assert out + (text + tail) == (out + text) + tail;
      out := out + StringText(h, ss[i]);
      i := i + 1;
    }
    assert out + [] == out;
  }

  method WriteEntries(h: Host, before: string, es: seq<Entry>) returns (out: string)
    ensures out == before + EntriesText(h, es, es)
  {
    out := before;
    var i := 0;
    assert es[0..] == es;
    while i < |es|
      invariant i <= |es|
      invariant out + EntriesText(h, es, es[i..]) == before + EntriesText(h, es, es)
    {
      ghost var tail := EntriesText(h, es, es[i + 1..]);
      assert es[i..][1..] == es[i + 1..];
      var text := WriteEntry(h, es, es[i]);
      assert out + (text + tail) == (out + text) + tail;
      out := out + text;
      i := i + 1;
    }
    assert out + [] == out;
  }

  method WriteEntry(h: Host, all: seq<Entry>, e: Entry) returns (out: string)
    ensures out == EntryText(h, all, e)
  {
    var file := OpenFile(all, e.attr);
    out := h.enc(0);
    if file.Some? {
      out := h.enc(1);
      var pos := 0;
      while pos < |file.value|
        invariant pos <= |file.value| && out == h.enc(1) + file.value[..pos]
      {
        var got := Min(1024, |file.value| - pos);
        assert file.value[..pos + got] == file.value[..pos] + file.value[pos..pos + got];
        out := out + file.value[pos..pos + got];
        pos := pos + got;
      }
      assert file.value[..pos] == file.value;
    }
    var strings := WriteStrings(h, StringText(h, e.attr), [e.value, e.fileName, e.contentType]);
    ghost var three, tail := StringsText(h, [e.value, e.fileName, e.contentType]), h.enc(e.valueLength) + out;
    assert (StringText(h, e.attr) + three) + tail == StringText(h, e.attr) + (three + tail);
    out := strings + (h.enc(e.valueLength) + out);
  }

  /** cgiFormFileOpen: a search by name. */
  method OpenFile(es: seq<Entry>, name: string) returns (file: Option<string>)
    ensures file == FirstFile(es, name)
  {
    var i := 0;
    assert es[0..] == es;
    while i < |es|
      invariant i <= |es| && FirstFile(es, name) == FirstFile(es[i..], name)
    {
      assert es[i..][1..] == es[i + 1..];
      if es[i].attr == name {
        return es[i].file;
      }
      i := i + 1;
    }
    file := None;
  }

  /** cgiReadEnvironment. */
  method ReadEnvironment(h: Host, text: string, junk: nat -> char) returns (result: Restore)
    ensures result == EnvOf(h, text, junk)
  {
    var version := GetString(h, text);
    if version.Short? { return IOFailure; }
    if version.value != VERSION { return WrongVersion; }
    var strings := GetStrings(h, version.rest, STRINGS);
    if strings.Short? { return IOFailure; }
    var length := GetInt(h, strings.rest);
    if length.Short? { return IOFailure; }
    var env := Env(strings.value, length.value, []);
    var rest := length.rest;
    var loose := [];
    while true
      invariant EnvOf(h, text, junk) == GetEntries(h, rest, env, junk)
      invariant loose == Loose(env.entries, junk)
      decreases |rest|
    {
      var e := GetEntry(h, rest);
      match e
      case NoMore => return Restored(env, loose);
      case CutEntry => return MemoryFailure;
      case CutFile => return IOFailure;
      case GotEntry(entry, more) =>
        assert (env.entries + [entry])[..|env.entries|] == env.entries;
        if entry.file == None && junk(|env.entries|) != NUL {
          loose := loose + [|env.entries|];
        }
        env := env.(entries := env.entries + [entry]);
        rest := more;
    }
  }
}
