/** Saving a request and reading it back: what is restored, from the whole file and from a part of it. */
module EnvironmentRoundTrip {
  import opened CText
  import opened FormEntry
  import opened HostInts
  import opened Environment

  // ----- the pieces -----

  lemma IntRead(h: Host, i: int, rest: string)
    requires Portable(h) && IsInt32(i)
    ensures GetInt(h, h.enc(i) + rest) == Got(i, rest)
  {
    assert (h.enc(i) + rest)[..4] == h.enc(i) && (h.enc(i) + rest)[4..] == rest;
  }

  predicate Storable(s: string) {
    NUL !in s && |s| < 0x8000_0000
  }

  lemma StringRead(h: Host, s: string, rest: string)
    requires Portable(h) && Storable(s)
    ensures GetString(h, StringText(h, s) + rest) == Got(s, rest)
  {
    assert StringText(h, s) + rest == h.enc(|s|) + (s + rest);
    IntRead(h, |s|, s + rest);
    assert (s + rest)[..|s|] == s && (s + rest)[|s|..] == rest;
  }

  lemma {:induction false} StringsRead(h: Host, ss: seq<string>, rest: string)
    requires Portable(h)
    requires forall i :: 0 <= i < |ss| ==> Storable(ss[i])
    ensures GetStrings(h, StringsText(h, ss) + rest, |ss|) == Got(ss, rest)
  {
    if ss == [] {
      assert StringsText(h, ss) + rest == rest;
    } else {
      var tail := StringsText(h, ss[1..]);
      assert StringsText(h, ss) + rest == StringText(h, ss[0]) + (tail + rest);
      StringRead(h, ss[0], tail + rest);
      StringsRead(h, ss[1..], rest);
      assert [ss[0]] + ss[1..] == ss;
    }
  }

  /** An entry that can be saved: C strings of int size, and an upload as long as the recorded length. */
  predicate Savable(e: Entry) {
    && Storable(e.attr) && Storable(e.value) && Storable(e.fileName) && Storable(e.contentType)
    && IsInt32(e.valueLength)
    && (e.file.Some? ==> |e.file.value| == e.valueLength)
  }

  predicate SavableEnv(env: Env) {
    && |env.strings| == STRINGS && (forall i :: 0 <= i < STRINGS ==> Storable(env.strings[i]))
    && IsInt32(env.contentLength)
    && forall i :: 0 <= i < |env.entries| ==> Savable(env.entries[i])
  }

  /** The fields of an entry between its name and its upload. */
  function MiddleText(h: Host, e: Entry): string {
    StringsText(h, [e.value, e.fileName, e.contentType]) + h.enc(e.valueLength)
  }

  lemma EntryTextParts(h: Host, all: seq<Entry>, e: Entry)
    ensures EntryText(h, all, e) == StringText(h, e.attr) + (MiddleText(h, e) + FileText(h, FirstFile(all, e.attr)))
  {
  }

  /** An entry's fields come back, and reading goes on with whatever stands for its upload. */
  lemma MiddleRead(h: Host, e: Entry, file: string)
    requires Portable(h) && Savable(e)
    ensures GetFields(h, e.attr, MiddleText(h, e) + file) == GetFile(h, e.(file := None), file)
  {
    var three := [e.value, e.fileName, e.contentType];
    assert MiddleText(h, e) + file == StringsText(h, three) + (h.enc(e.valueLength) + file);
    StringsRead(h, three, h.enc(e.valueLength) + file);
    IntRead(h, e.valueLength, file);
  }

  lemma NameRead(h: Host, e: Entry, file: string, text: string)
    requires Portable(h) && Savable(e) && text == StringText(h, e.attr) + (MiddleText(h, e) + file)
    ensures GetEntry(h, text) == GetFile(h, e.(file := None), file)
  {
    StringRead(h, e.attr, MiddleText(h, e) + file);
    MiddleRead(h, e, file);
  }

  /** What comes back for an entry when the upload saved for it is `f`. */
  lemma EntryRead(h: Host, all: seq<Entry>, e: Entry, rest: string, text: string)
    requires Portable(h) && Savable(e) && text == EntryText(h, all, e) + rest
    ensures GetEntry(h, text) == GetFile(h, e.(file := None), FileText(h, FirstFile(all, e.attr)) + rest)
  {
    var file := FileText(h, FirstFile(all, e.attr));
    EntryTextParts(h, all, e);
    assert text == StringText(h, e.attr) + (MiddleText(h, e) + (file + rest));
    NameRead(h, e, file + rest, text);
  }

  lemma FlagRead(h: Host, e: Entry, f: Option<string>, rest: string)
    requires Portable(h)
    ensures f == None ==> GetFile(h, e, FileText(h, f) + rest) == GotEntry(e, rest)
    ensures f.Some? ==>
              var n := if e.valueLength > 0 then e.valueLength else 0;
              var bytes := f.value + rest;
              GetFile(h, e, FileText(h, f) + rest)
              == if n <= |bytes| then GotEntry(e.(file := Some(bytes[..n])), bytes[n..]) else CutFile
  {
    match f
    case None => IntRead(h, 0, rest);
    case Some(bytes) =>
      assert FileText(h, f) + rest == h.enc(1) + (bytes + rest);
      IntRead(h, 1, bytes + rest);
  }

  // ----- the round trip -----

  /** Every entry's upload is the one found under its name. Distinct names are enough for this. */
  predicate Findable(es: seq<Entry>) {
    forall i :: 0 <= i < |es| ==> FirstFile(es, es[i].attr) == es[i].file
  }

  lemma {:induction false} DistinctNamesFindable(es: seq<Entry>)
    requires forall i, j :: 0 <= i < j < |es| ==> es[i].attr != es[j].attr
    ensures Findable(es)
  {
    if es != [] {
      DistinctNamesFindable(es[1..]);
      forall i | 0 <= i < |es| ensures FirstFile(es, es[i].attr) == es[i].file {
        if i > 0 {
          assert es[i] == es[1..][i - 1];
        }
      }
    }
  }

  predicate AllSavable(all: seq<Entry>, es: seq<Entry>) {
    forall i :: 0 <= i < |es| ==> Savable(es[i]) && FirstFile(all, es[i].attr) == es[i].file
  }

  function With(env: Env, es: seq<Entry>): Env {
    env.(entries := env.entries + es)
  }

  lemma EntriesStep(h: Host, all: seq<Entry>, e: Entry, text: string, rest: string, env: Env, junk: nat -> char)
    requires Portable(h) && Savable(e) && FirstFile(all, e.attr) == e.file
    requires text == EntryText(h, all, e) + rest
    ensures GetEntries(h, text, env, junk) == GetEntries(h, rest, With(env, [e]), junk)
  {
    EntryRead(h, all, e, rest, text);
    FlagRead(h, e.(file := None), e.file, rest);
    if e.file.Some? {
      var f := e.file.value;
      assert (f + rest)[..|f|] == f && (f + rest)[|f|..] == rest;
    }
  }

  lemma WithTwice(env: Env, es: seq<Entry>)
    requires es != []
    ensures With(With(env, [es[0]]), es[1..]) == With(env, es)
  {
    assert env.entries + [es[0]] + es[1..] == env.entries + es;
  }

  /** Entries come back one by one, and reading goes on with whatever follows them. */
  lemma {:induction false} EntriesThen(h: Host, all: seq<Entry>, es: seq<Entry>, more: string, text: string,
      env: Env, junk: nat -> char)
    requires Portable(h) && AllSavable(all, es) && text == EntriesText(h, all, es) + more
    ensures GetEntries(h, text, env, junk) == GetEntries(h, more, With(env, es), junk)
    decreases |es|
  {
    if es == [] {
      assert text == more && With(env, es) == env;
    } else {
      var rest := EntriesText(h, all, es[1..]) + more;
      assert text == EntryText(h, all, es[0]) + rest;
      EntriesStep(h, all, es[0], text, rest, env, junk);
      EntriesThen(h, all, es[1..], more, rest, With(env, [es[0]]), junk);
      WithTwice(env, es);
    }
  }

  lemma EntriesEnd(h: Host, env: Env, junk: nat -> char)
    ensures GetEntries(h, [], env, junk) == Restored(env, Loose(env.entries, junk))
  {
  }

  /** What precedes the entries in the file. */
  function HeadText(h: Host, env: Env): string {
    StringText(h, VERSION) + (StringsText(h, env.strings) + h.enc(env.contentLength))
  }

  function Bare(env: Env): Env {
    env.(entries := [])
  }

  lemma HeadRead(h: Host, env: Env, more: string, text: string, junk: nat -> char)
    requires Portable(h) && SavableEnv(env) && text == HeadText(h, env) + more
    ensures EnvOf(h, text, junk) == GetEntries(h, more, Bare(env), junk)
  {
    var r2 := h.enc(env.contentLength) + more;
    assert text == StringText(h, VERSION) + (StringsText(h, env.strings) + r2);
    StringRead(h, VERSION, StringsText(h, env.strings) + r2);
    StringsRead(h, env.strings, r2);
    IntRead(h, env.contentLength, more);
  }

  lemma EnvTextParts(h: Host, env: Env)
    ensures EnvText(h, env) == HeadText(h, env) + EntriesText(h, env.entries, env.entries)
  {
  }

  /** Environment round trip: reading back a saved environment restores all strings, the content length and every
      entry with its upload. The entries without upload whose one-byte temporary name is not NUL are loose. */
  lemma RoundTrip(h: Host, env: Env, junk: nat -> char)
    requires Portable(h) && SavableEnv(env) && Findable(env.entries)
    ensures EnvOf(h, EnvText(h, env), junk) == Restored(env, Loose(env.entries, junk))
  {
    var es := env.entries;
    var text := EntriesText(h, es, es);
    EnvTextParts(h, env);
    HeadRead(h, env, text, EnvText(h, env), junk);
    assert text == text + [];
    EntriesThen(h, es, es, [], text, Bare(env), junk);
    assert With(Bare(env), es) == env;
    EntriesEnd(h, env, junk);
  }

  lemma {:induction false} NeverWrong(h: Host, r: string, env: Env, junk: nat -> char)
    ensures GetEntries(h, r, env, junk) != WrongVersion
    decreases |r|
  {
    var e := GetEntry(h, r);
    if e.GotEntry? {
      NeverWrong(h, e.rest, env.(entries := env.entries + [e.entry]), junk);
    }
  }

  /** What follows the version never makes it wrong. */
  lemma VersionDecides(h: Host, text: string, version: string, more: string, junk: nat -> char)
    requires GetString(h, text) == Got(version, more)
    ensures EnvOf(h, text, junk) == WrongVersion <==> version != VERSION
  {
    var ss := GetStrings(h, more, STRINGS);
    if version == VERSION && ss.Got? {
      var n := GetInt(h, ss.rest);
      if n.Got? {
        NeverWrong(h, n.rest, Env(ss.value, n.value, []), junk);
      }
    }
  }

  /** A file that starts with a string is refused as one of another version exactly when that is not the version. */
  lemma OtherVersionRefused(h: Host, version: string, more: string, junk: nat -> char)
    requires Portable(h) && Storable(version)
    ensures EnvOf(h, StringText(h, version) + more, junk) == WrongVersion <==> version != "CGIC2.0"
  {
    StringRead(h, version, more);
    VersionDecides(h, StringText(h, version) + more, version, more, junk);
  }

  /** The byte allocated for every entry without upload happens to be NUL. */
  predicate Settled(es: seq<Entry>, junk: nat -> char) {
    forall i :: 0 <= i < |es| && es[i].file == None ==> junk(i) == NUL
  }

  /** An entry comes back as one without upload exactly when its byte is NUL. */
  lemma {:induction false} LooseIff(es: seq<Entry>, junk: nat -> char, i: nat)
    requires i < |es|
    ensures i in Loose(es, junk) <==> es[i].file == None && junk(i) != NUL
  {
    var n := |es| - 1;
    LooseBelow(es[..n], junk);
    if i < n {
      LooseIff(es[..n], junk, i);
    }
  }

  lemma {:induction false} LooseBelow(es: seq<Entry>, junk: nat -> char)
    ensures forall i :: i in Loose(es, junk) ==> i < |es|
  {
    if es != [] {
      LooseBelow(es[..|es| - 1], junk);
    }
  }

  lemma SettledIff(es: seq<Entry>, junk: nat -> char)
    ensures Loose(es, junk) == [] <==> Settled(es, junk)
  {
    forall i | 0 <= i < |es| ensures i in Loose(es, junk) <==> es[i].file == None && junk(i) != NUL {
      LooseIff(es, junk, i);
    }
    LooseBelow(es, junk);
    if Loose(es, junk) != [] {
      assert Loose(es, junk)[0] in Loose(es, junk);
    }
  }

  // ----- uploads under one name -----

  /** An upload that differs from the one found under its entry's name is no prefix of it, nor the other way round. */
  predicate Telling(all: seq<Entry>, es: seq<Entry>) {
    forall i :: 0 <= i < |es| ==>
      var f := FirstFile(all, es[i].attr);
      f == es[i].file || f == None || es[i].file ==
        None || !(f.value <= es[i].file.value || es[i].file.value <= f.value)
  }

  /** Reading never takes back an entry. */
  lemma {:induction false} EntriesGrow(h: Host, r: string, env: Env, junk: nat -> char)
    ensures var g := GetEntries(h, r, env, junk); g.Restored? ==> env.entries <= g.env.entries
    decreases |r|
  {
    var g := GetEntry(h, r);
    if g.GotEntry? {
      EntriesGrow(h, g.rest, env.(entries := env.entries + [g.entry]), junk);
    }
  }

  lemma OnePrefixesOther(f: string, rest: string, g: string)
    requires |g| <= |f + rest| && (f + rest)[..|g|] == g
    ensures f <= g || g <= f
  {
    if |g| <= |f| {
      assert g == f[..|g|];
    } else {
      assert g[..|f|] == f;
    }
  }

  /** An entry that is saved with another's upload does not come back. */
  lemma WrongUpload(h: Host, e: Entry, f: Option<string>, rest: string)
    requires Portable(h) && Savable(e) && f != e.file
    requires f == None || e.file == None || !(f.value <= e.file.value || e.file.value <= f.value)
    ensures var g := GetFile(h, e.(file := None), FileText(h, f) + rest);
            g == CutFile || (g.GotEntry? && g.entry != e)
  {
    FlagRead(h, e.(file := None), f, rest);
    if f.Some? && e.file.Some? {
      var bytes, n := f.value + rest, |e.file.value|;
      if n <= |bytes| && bytes[..n] == e.file.value {
        OnePrefixesOther(f.value, rest, e.file.value);
      }
    }
  }

  lemma {:induction false} EntriesTextSplit(h: Host, all: seq<Entry>, es: seq<Entry>, i: nat)
    requires i <= |es|
    ensures EntriesText(h, all, es) == EntriesText(h, all, es[..i]) + EntriesText(h, all, es[i..])
  {
    if i == 0 {
      assert es[i..] == es && EntriesText(h, all, es[..i]) == [];
    } else {
      var us := es[1..];
      EntriesTextSplit(h, all, us, i - 1);
      assert es[..i][1..] == us[..i - 1] && es[i..] == us[i - 1..] && es[..i][0] == es[0];
      EntriesTextCons(h, all, es, EntryText(h, all, es[0]), EntriesText(h, all, us));
      EntriesTextCons(h, all, es[..i], EntryText(h, all, es[0]), EntriesText(h, all, us[..i - 1]));
      Regrouped(EntryText(h, all, es[0]), EntriesText(h, all, us[..i - 1]), EntriesText(h, all, us[i - 1..]));
    }
  }

  lemma EntriesTextCons(h: Host, all: seq<Entry>, es: seq<Entry>, t: string, rest: string)
    requires es != [] && t == EntryText(h, all, es[0]) && rest == EntriesText(h, all, es[1..])
    ensures EntriesText(h, all, es) == t + rest
  {
  }

  lemma Regrouped(a: string, b: string, c: string)
    ensures a + (b + c) == (a + b) + c
  {
  }

  /** The first entry that is saved with another's upload. */
  lemma {:induction false} FirstWrong(all: seq<Entry>, es: seq<Entry>) returns (i: nat)
    requires exists k :: 0 <= k < |es| && FirstFile(all, es[k].attr) != es[k].file
    ensures i < |es| && FirstFile(all, es[i].attr) != es[i].file
    ensures forall k :: 0 <= k < i ==> FirstFile(all, es[k].attr) == es[k].file
  {
    if FirstFile(all, es[0].attr) != es[0].file {
      i := 0;
    } else {
      var k :| 0 <= k < |es| && FirstFile(all, es[k].attr) != es[k].file;
      assert es[1..][k - 1] == es[k];
      var j := FirstWrong(all, es[1..]);
      i := j + 1;
      assert forall k :: 0 < k < i ==> es[k] == es[1..][k - 1];
    }
  }

  /** A list with an entry that is saved with another's upload is not restored. */
  lemma NotRestored(h: Host, all: seq<Entry>, es: seq<Entry>, text: string, env: Env, junk: nat -> char)
    requires Portable(h) && (forall k :: 0 <= k < |es| ==> Savable(es[k])) && Telling(all, es)
    requires exists k :: 0 <= k < |es| && FirstFile(all, es[k].attr) != es[k].file
    requires text == EntriesText(h, all, es)
    ensures var g := GetEntries(h, text, env, junk); g.Restored? ==> g.env.entries != env.entries + es
  {
    var i := FirstWrong(all, es);
    var us, now := es[i..], With(env, es[..i]);
    PartedAt(all, es, i);
    EntriesTextSplit(h, all, es, i);
    EntriesThen(h, all, es[..i], EntriesText(h, all, us), text, env, junk);
    FirstNotRestored(h, all, us, now, junk, env.entries + es);
  }

  lemma PartedAt(all: seq<Entry>, es: seq<Entry>, i: nat)
    requires (forall k :: 0 <= k < |es| ==> Savable(es[k])) && Telling(all, es) && i < |es|
    requires forall k :: 0 <= k < i ==> FirstFile(all, es[k].attr) == es[k].file
    ensures AllSavable(all, es[..i]) && Telling(all, es[i..])
    ensures es[i..][0] == es[i] && Savable(es[i..][0])
  {
  }

  lemma FirstNotRestored(h: Host, all: seq<Entry>, us: seq<Entry>, env: Env, junk: nat -> char, goal: seq<Entry>)
    requires Portable(h) && us != [] && Savable(us[0]) && Telling(all, us) && FirstFile(all, us[0].attr) != us[0].file
    requires |goal| > |env.entries| && goal[|env.entries|] == us[0]
    ensures var g := GetEntries(h, EntriesText(h, all, us), env, junk); g.Restored? ==> g.env.entries != goal
  {
    var rest := EntriesText(h, all, us[1..]);
    NotRestoredHere(h, all, us[0], EntriesText(h, all, us), rest, env, junk, goal);
  }

  lemma NotRestoredHere(h: Host, all: seq<Entry>, e: Entry, text: string, rest: string, env: Env, junk: nat -> char,
      goal: seq<Entry>)
    requires Portable(h) && Savable(e) && Telling(all, [e]) && FirstFile(all, e.attr) != e.file
    requires text == EntryText(h, all, e) + rest && |goal| > |env.entries| && goal[|env.entries|] == e
    ensures var g := GetEntries(h, text, env, junk); g.Restored? ==> g.env.entries != goal
  {
    EntryRead(h, all, e, rest, text);
    assert [e][0] == e;
    WrongUpload(h, e, FirstFile(all, e.attr), rest);
    var g := GetEntry(h, text);
    if g.GotEntry? {
      var more := env.(entries := env.entries + [g.entry]);
      EntriesGrow(h, g.rest, more, junk);
      assert more.entries[|env.entries|] == g.entry;
    }
  }

  /** A saved environment comes back, with no entry loose, exactly when each upload is the one found under its entry's
      name and the bytes allocated for entries without upload are NUL. */
  lemma RestoredIffFindable(h: Host, env: Env, junk: nat -> char)
    requires Portable(h) && SavableEnv(env) && Telling(env.entries, env.entries)
    ensures EnvOf(h, EnvText(h, env), junk) == Restored(env, [])
        <==> Findable(env.entries) && Settled(env.entries, junk)
  {
    var es := env.entries;
    if Findable(es) {
      RoundTrip(h, env, junk);
      SettledIff(es, junk);
    } else {
      var text := EntriesText(h, es, es);
      EnvTextParts(h, env);
      HeadRead(h, env, text, EnvText(h, env), junk);
      NotRestored(h, es, es, text, Bare(env), junk);
      assert [] + es == es;
    }
  }

  const UPLOAD_A := Entry("f", "", 3, "a", "", Some("xyz"))
  const UPLOAD_B := Entry("f", "", 1, "b", "", Some("q"))

  /** Two uploads of different lengths under one name are not restored. */
  lemma DifferentLengthsLost(h: Host, ss: seq<string>, junk: nat -> char)
    requires Portable(h) && |ss| == STRINGS && forall i :: 0 <= i < STRINGS ==> Storable(ss[i])
    ensures EnvOf(h, EnvText(h, Env(ss, 0, [UPLOAD_A, UPLOAD_B])), junk) !=
        Restored(Env(ss, 0, [UPLOAD_A, UPLOAD_B]), [])
  {
    var es := [UPLOAD_A, UPLOAD_B];
    assert FirstFile(es, "f") == Some("xyz");
    assert "xyz"[0] != "q"[0];
    assert es[1].attr == "f" && FirstFile(es, es[1].attr) != es[1].file;
    RestoredIffFindable(h, Env(ss, 0, es), junk);
  }

  const LONGER := Entry("f", "", 2, "a", "", Some("xy"))
  const SHORTER := Entry("f", "", 1, "b", "", Some("x"))

  /** Without the condition on prefixes the equivalence fails: the upload of the last entry is a prefix of the one found
      under its name, and the environment comes back by chance. */
  lemma PrefixComesBack(h: Host, ss: seq<string>, junk: nat -> char)
    requires Portable(h) && |ss| == STRINGS && forall i :: 0 <= i < STRINGS ==> Storable(ss[i])
    ensures !Findable([LONGER, SHORTER])
    ensures EnvOf(h, EnvText(h, Env(ss, 0, [LONGER, SHORTER])), junk) == Restored(Env(ss, 0, [LONGER, SHORTER]), [])
  {
    assert [LONGER, SHORTER][1] == SHORTER && FirstFile([LONGER, SHORTER], "f") == Some("xy");
    TwoUploads(h, Env(ss, 0, [LONGER, SHORTER]), LONGER, SHORTER, junk);
  }

  lemma TwoUploads(h: Host, env: Env, one: Entry, two: Entry, junk: nat -> char)
    requires Portable(h) && SavableEnv(env) && env.entries == [one, two] && Savable(one) && Savable(two)
    requires one.attr == two.attr && one.file == Some("xy") && two.file == Some("x")
    ensures EnvOf(h, EnvText(h, env), junk) == Restored(env, [])
  {
    var es := env.entries;
    var t1, t2 := EntryText(h, es, one), EntryText(h, es, two);
    TwoEntriesText(h, es, one, two);
    EnvTextParts(h, env);
    TwoUploadsRead(h, env, one, two, t1, t2, EnvText(h, env), junk);
  }

  lemma NothingLoose(env: Env, one: Entry, two: Entry, junk: nat -> char)
    requires env.entries == [one, two] && one.file.Some? && two.file.Some?
    ensures Loose(env.entries, junk) == []
  {
    SettledIff(env.entries, junk);
  }

  lemma TwoUploadsRead(h: Host, env: Env, one: Entry, two: Entry, t1: string, t2: string, text: string,
      junk: nat -> char)
    requires Portable(h) && SavableEnv(env) && env.entries == [one, two] && Savable(one) && Savable(two)
    requires one.attr == two.attr && one.file == FirstFile(env.entries, one.attr) == Some("xy") && two.file == Some("x")
    requires t1 == EntryText(h, env.entries, one) && t2 == EntryText(h, env.entries, two)
    requires text == HeadText(h, env) + (t1 + t2)
    ensures EnvOf(h, text, junk) == Restored(env, [])
  {
    HeadRead(h, env, t1 + t2, text, junk);
    FirstThenLast(h, env.entries, one, two, t1, t2, Bare(env), junk);
    BothAdded(env, one, two);
    NothingLoose(env, one, two, junk);
  }

  lemma BothAdded(env: Env, one: Entry, two: Entry)
    requires env.entries == [one, two]
    ensures With(With(Bare(env), [one]), [two]) == env
  {
    assert [] + [one] + [two] == env.entries;
  }

  lemma FirstThenLast(h: Host, es: seq<Entry>, one: Entry, two: Entry, t1: string, t2: string, env: Env,
      junk: nat -> char)
    requires Portable(h) && Savable(one) && Savable(two) && one.file == FirstFile(es, one.attr) == Some("xy")
    requires one.attr == two.attr && two.file == Some("x") && t1 == EntryText(h, es, one) && t2 == EntryText(h, es, two)
    ensures var all := With(With(env, [one]), [two]);
            GetEntries(h, t1 + t2, env, junk) == Restored(all, Loose(all.entries, junk))
  {
    EntriesStep(h, es, one, t1 + t2, t2, env, junk);
    LastPrefix(h, es, two, t2, With(env, [one]), junk);
  }

  lemma TwoEntriesText(h: Host, all: seq<Entry>, one: Entry, two: Entry)
    ensures EntriesText(h, all, [one, two]) == EntryText(h, all, one) + EntryText(h, all, two)
  {
    assert [one, two][1..] == [two] && [two][1..] == [];
    assert EntriesText(h, all, [two]) == EntryText(h, all, two) + [];
  }

  lemma LastPrefix(h: Host, es: seq<Entry>, two: Entry, text: string, env: Env, junk: nat -> char)
    requires Portable(h) && Savable(two) && two.file == Some("x") && FirstFile(es, two.attr) == Some("xy")
    requires text == EntryText(h, es, two)
    ensures GetEntries(h, text, env, junk) == Restored(With(env, [two]), Loose(With(env, [two]).entries, junk))
  {
    LastPrefixRead(h, es, two, text);
    OneByteLeft(h, With(env, [two]), junk);
  }

  lemma LastPrefixRead(h: Host, es: seq<Entry>, two: Entry, text: string)
    requires Portable(h) && Savable(two) && two.file == Some("x") && FirstFile(es, two.attr) == Some("xy")
    requires text == EntryText(h, es, two)
    ensures GetEntry(h, text) == GotEntry(two, "y")
  {
    assert text + [] == text;
    EntryRead(h, es, two, [], text);
    FlagRead(h, two.(file := None), Some("xy"), []);
    assert ("xy" + [])[..1] == "x" && ("xy" + [])[1..] == "y";
  }

  lemma OneByteLeft(h: Host, env: Env, junk: nat -> char)
    ensures GetEntries(h, "y", env, junk) == Restored(env, Loose(env.entries, junk))
  {
    assert GetEntry(h, "y") == NoMore;
  }

  /** The entries with the uploads that are saved for them: each that of the first entry of its name. */
  function Shadowed(all: seq<Entry>, es: seq<Entry>): (r: seq<Entry>)
    ensures |r| == |es|
  {
    seq(|es|, i requires 0 <= i < |es| => es[i].(file := FirstFile(all, es[i].attr)))
  }

  predicate Named(es: seq<Entry>, name: string) {
    exists i :: 0 <= i < |es| && es[i].attr == name
  }

  lemma {:induction false} ShadowedFirst(all: seq<Entry>, es: seq<Entry>, name: string)
    requires Named(es, name)
    ensures FirstFile(Shadowed(all, es), name) == FirstFile(all, name)
  {
    if es[0].attr != name {
      var i :| 0 <= i < |es| && es[i].attr == name;
      assert es[1..][i - 1].attr == name;
      ShadowedFirst(all, es[1..], name);
      assert Shadowed(all, es)[1..] == Shadowed(all, es[1..]);
    }
  }

  lemma {:induction false} ShadowedText(h: Host, all: seq<Entry>, all': seq<Entry>, es: seq<Entry>)
    requires forall i :: 0 <= i < |es| ==> FirstFile(all', es[i].attr) == FirstFile(all, es[i].attr)
    ensures EntriesText(h, all', Shadowed(all, es)) == EntriesText(h, all, es)
  {
    if es != [] {
      ShadowedText(h, all, all', es[1..]);
      assert Shadowed(all, es)[1..] == Shadowed(all, es[1..]);
    }
  }

  /** Names may repeat as long as the upload saved for an entry has the length recorded for it. */
  predicate LengthsMatch(es: seq<Entry>) {
    forall i :: 0 <= i < |es| ==> var f := FirstFile(es, es[i].attr); f.Some? ==> |f.value| == es[i].valueLength
  }

  /** Where the lengths match, saving and restoring gives every entry the upload of the first entry of its name. */
  lemma RestoredIsShadowed(h: Host, env: Env, junk: nat -> char)
    requires Portable(h) && SavableEnv(env) && LengthsMatch(env.entries)
    ensures var saved := Shadowed(env.entries, env.entries);
            EnvOf(h, EnvText(h, env), junk) == Restored(env.(entries := saved), Loose(saved, junk))
  {
    var es := env.entries;
    var saved := Shadowed(es, es);
    forall i | 0 <= i < |es| ensures FirstFile(saved, es[i].attr) == FirstFile(es, es[i].attr) {
      ShadowedFirst(es, es, es[i].attr);
    }
    ShadowedText(h, es, saved, es);
    RoundTrip(h, env.(entries := saved), junk);
  }

  /** Two uploads of one length under one name: the second comes back with the bytes of the first. */
  lemma DuplicateNameLosesUpload(h: Host, ss: seq<string>, junk: nat -> char)
    requires Portable(h) && |ss| == STRINGS && forall i :: 0 <= i < STRINGS ==> Storable(ss[i])
    ensures var one := Entry("f", "", 1, "a", "", Some("x"));
            var two := Entry("f", "", 1, "b", "", Some("y"));
            EnvOf(h, EnvText(h, Env(ss, 0, [one, two])), junk) ==
              Restored(Env(ss, 0, [one, two.(file := Some("x"))]), [])
  {
    var one := Entry("f", "", 1, "a", "", Some("x"));
    var two := Entry("f", "", 1, "b", "", Some("y"));
    var env := Env(ss, 0, [one, two]);
    assert FirstFile([one, two], "f") == Some("x");
    RestoredIsShadowed(h, env, junk);
    assert Shadowed(env.entries, env.entries) == [one, two.(file := Some("x"))];
    NothingLoose(Env(ss, 0, [one, two.(file := Some("x"))]), one, two.(file := Some("x")), junk);
  }

  // ----- truncated files -----

  /** What a file cut after `n` bytes of its entries comes to: it reads as a shorter list without complaint, or is
      reported as running out of memory, or as an input error. */
  datatype Cut = Unnoticed(kept: nat) | OutOfMemory | InputError

  /** The bytes an entry's name takes in the file, the fields behind it, and its upload with the flag in front. */
  function NameSize(e: Entry): nat {
    4 + |e.attr|
  }

  function MiddleSize(e: Entry): nat {
    16 + |e.value| + |e.fileName| + |e.contentType|
  }

  function FileSize(e: Entry): nat {
    4 + (if e.file.Some? then |e.file.value| else 0)
  }

  /** A cut between entries or inside an entry's name goes unnoticed; one inside the fields behind the name is taken for
      lack of memory, one inside the upload for an input error. */
  function CutAt(es: seq<Entry>, n: nat): (c: Cut)
    ensures c.Unnoticed? ==> c.kept <= |es|
  {
    if es == [] then Unnoticed(0)
    else
      var name, middle, file := NameSize(es[0]), MiddleSize(es[0]), FileSize(es[0]);
      if n >= name + middle + file then
        match CutAt(es[1..], n - (name + middle + file))
        case Unnoticed(k) => Unnoticed(k + 1)
        case OutOfMemory => OutOfMemory
        case InputError => InputError
      else if n < name then Unnoticed(0)
      else if n < name + middle + 4 then OutOfMemory
      else InputError
  }

  lemma Sizes(h: Host, e: Entry)
    requires Portable(h)
    ensures |StringText(h, e.attr)| == NameSize(e) && |MiddleText(h, e)| == MiddleSize(e)
    ensures |FileText(h, e.file)| == FileSize(e)
  {
    var v, f, c := e.value, e.fileName, e.contentType;
    assert [v, f, c][1..] == [f, c] && [f, c][1..] == [c] && [c][1..] == [];
    assert StringsText(h, [c]) == StringText(h, c) + [];
    assert StringsText(h, [f, c]) == StringText(h, f) + StringsText(h, [c]);
    assert StringsText(h, [v, f, c]) == StringText(h, v) + StringsText(h, [f, c]);
  }

  lemma ShortString(h: Host, s: string, u: string)
    requires Portable(h) && Storable(s) && u <= StringText(h, s) && |u| < |StringText(h, s)|
    ensures GetString(h, u) == Short
  {
    if |u| >= 4 {
      assert u[..4] == h.enc(|s|);
    }
  }

  lemma {:induction false} ShortStrings(h: Host, ss: seq<string>, u: string)
    requires Portable(h) && (forall i :: 0 <= i < |ss| ==> Storable(ss[i]))
    requires u <= StringsText(h, ss) && |u| < |StringsText(h, ss)|
    ensures GetStrings(h, u, |ss|) == Short
  {
    var first := StringText(h, ss[0]);
    if |u| < |first| {
      ShortString(h, ss[0], u);
    } else {
      var rest := u[|first|..];
      assert u == first + rest;
      StringRead(h, ss[0], rest);
      ShortStrings(h, ss[1..], rest);
    }
  }

  lemma ShortMiddle(h: Host, e: Entry, u: string)
    requires Portable(h) && Savable(e) && u <= MiddleText(h, e) && |u| < |MiddleText(h, e)|
    ensures GetFields(h, e.attr, u) == CutEntry
  {
    var three := [e.value, e.fileName, e.contentType];
    var s := StringsText(h, three);
    if |u| < |s| {
      ShortStrings(h, three, u);
    } else {
      assert u == s + u[|s|..];
      StringsRead(h, three, u[|s|..]);
    }
  }

  lemma ShortFile(h: Host, e: Entry, u: string)
    requires Portable(h) && Savable(e) && u <= FileText(h, e.file) && |u| < |FileText(h, e.file)|
    ensures GetFile(h, e.(file := None), u) == if |u| < 4 then CutEntry else CutFile
  {
    if |u| >= 4 {
      assert u == h.enc(1) + u[4..];
      IntRead(h, 1, u[4..]);
    }
  }

  /** An entry of which only `u` is left. */
  lemma ShortEntry(h: Host, e: Entry, u: string)
    requires Portable(h) && Savable(e)
    requires var t := StringText(h, e.attr) + (MiddleText(h, e) + FileText(h, e.file)); u <= t && |u| < |t|
    ensures var name, middle := |StringText(h, e.attr)|, |MiddleText(h, e)|;
            GetEntry(h, u) == if |u| < name then NoMore else if |u| < name + middle + 4 then CutEntry else CutFile
  {
    var name, middle := StringText(h, e.attr), MiddleText(h, e);
    if |u| < |name| {
      ShortString(h, e.attr, u);
    } else {
      var v := u[|name|..];
      SplitPrefix(u, name, middle + FileText(h, e.file));
      StringRead(h, e.attr, v);
      ShortRest(h, e, v);
    }
  }

  lemma SplitPrefix(u: string, a: string, b: string)
    requires u <= a + b && |a| <= |u|
    ensures u == a + u[|a|..] && u[|a|..] <= b
  {
  }

  lemma ShortRest(h: Host, e: Entry, v: string)
    requires Portable(h) && Savable(e)
    requires v <= MiddleText(h, e) + FileText(h, e.file) && |v| < |MiddleText(h, e) + FileText(h, e.file)|
    ensures GetFields(h, e.attr, v) == if |v| < |MiddleText(h, e)| + 4 then CutEntry else CutFile
  {
    var middle := MiddleText(h, e);
    if |v| < |middle| {
      ShortMiddle(h, e, v);
    } else {
      var w := v[|middle|..];
      SplitPrefix(v, middle, FileText(h, e.file));
      MiddleRead(h, e, w);
      ShortFile(h, e, w);
    }
  }

  lemma CutInside(h: Host, all: seq<Entry>, e: Entry, n: nat, u: string, env: Env, junk: nat -> char)
    requires Portable(h) && Savable(e) && FirstFile(all, e.attr) == e.file
    requires n < |EntryText(h, all, e)| && u == EntryText(h, all, e)[..n]
    ensures GetEntries(h, u, env, junk) ==
            if n < NameSize(e) then Restored(env, Loose(env.entries, junk))
            else if n < NameSize(e) + MiddleSize(e) + 4 then MemoryFailure
            else IOFailure
  {
    EntryTextParts(h, all, e);
    ShortEntry(h, e, u);
    Sizes(h, e);
  }

  lemma EntrySize(h: Host, all: seq<Entry>, e: Entry)
    requires Portable(h) && FirstFile(all, e.attr) == e.file
    ensures |EntryText(h, all, e)| == EntrySizeOf(e)
  {
    EntryTextParts(h, all, e);
    Sizes(h, e);
  }

  /** What the cut decides. */
  function AfterCut(env: Env, es: seq<Entry>, c: Cut, junk: nat -> char): Restore
    requires c.Unnoticed? ==> c.kept <= |es|
  {
    match c
    case Unnoticed(k) => Restored(With(env, es[..k]), Loose(With(env, es[..k]).entries, junk))
    case OutOfMemory => MemoryFailure
    case InputError => IOFailure
  }

  function EntrySizeOf(e: Entry): nat {
    NameSize(e) + MiddleSize(e) + FileSize(e)
  }

  lemma AfterCutBeyond(env: Env, es: seq<Entry>, n: nat, junk: nat -> char)
    requires es != [] && n >= EntrySizeOf(es[0])
    ensures AfterCut(With(env, [es[0]]), es[1..], CutAt(es[1..], n - EntrySizeOf(es[0])), junk) ==
        AfterCut(env, es, CutAt(es, n), junk)
  {
    OneMoreKept(env, es, CutAt(es[1..], n - EntrySizeOf(es[0])));
  }

  lemma AfterCutInside(env: Env, es: seq<Entry>, n: nat, junk: nat -> char)
    requires es != [] ==> n < EntrySizeOf(es[0])
    ensures AfterCut(env, es, CutAt(es, n), junk) ==
            if es == [] || n < NameSize(es[0]) then Restored(env, Loose(env.entries, junk))
            else if n < NameSize(es[0]) + MiddleSize(es[0]) + 4 then MemoryFailure
            else IOFailure
  {
    assert With(env, es[..0]) == env;
  }

  /** A prefix of the entries' text is a prefix of the first entry, or that entry and a prefix of the others. */
  lemma CutText(h: Host, all: seq<Entry>, es: seq<Entry>, n: nat, text: string, rest: string)
    requires es != [] && text == EntriesText(h, all, es) && rest == EntriesText(h, all, es[1..]) && n <= |text|
    ensures var t := EntryText(h, all, es[0]);
            && (n < |t| ==> text[..n] == t[..n])
            && (n >= |t| ==> n - |t| <= |rest| && text[..n] == t + rest[..n - |t|])
  {
  }

  lemma {:induction false} CutEntries(h: Host, all: seq<Entry>, es: seq<Entry>, n: nat, text: string, env: Env,
      junk: nat -> char)
    requires Portable(h) && AllSavable(all, es) && text == EntriesText(h, all, es) && n <= |text|
    ensures GetEntries(h, text[..n], env, junk) == AfterCut(env, es, CutAt(es, n), junk)
    decreases |es|
  {
    if es == [] {
      EntriesEnd(h, env, junk);
      AfterCutInside(env, es, n, junk);
      assert text[..n] == [];
    } else {
      var rest := EntriesText(h, all, es[1..]);
      EntrySize(h, all, es[0]);
      CutText(h, all, es, n, text, rest);
      if n < EntrySizeOf(es[0]) {
        CutInside(h, all, es[0], n, text[..n], env, junk);
        AfterCutInside(env, es, n, junk);
      } else {
        var m := n - EntrySizeOf(es[0]);
        EntriesStep(h, all, es[0], text[..n], rest[..m], env, junk);
        CutEntries(h, all, es[1..], m, rest, With(env, [es[0]]), junk);
        AfterCutBeyond(env, es, n, junk);
      }
    }
  }

  lemma OneMoreKept(env: Env, es: seq<Entry>, c: Cut)
    requires es != [] && (c.Unnoticed? ==> c.kept < |es|)
    ensures c.Unnoticed? ==> With(With(env, [es[0]]), es[1..][..c.kept]) == With(env, es[..c.kept + 1])
  {
    if c.Unnoticed? {
      assert es[..c.kept + 1] == [es[0]] + es[1..][..c.kept];
      assert env.entries + [es[0]] + es[1..][..c.kept] == env.entries + es[..c.kept + 1];
    }
  }

  /** For every place to cut a saved file: inside the head it is an input error; inside the entries, the cut's kind
      decides, and when it goes unnoticed exactly the entries whole before it are restored. */
  lemma TruncatedRestore(h: Host, env: Env, n: nat, junk: nat -> char)
    requires Portable(h) && SavableEnv(env) && Findable(env.entries) && n <= |EnvText(h, env)|
    ensures var head := |HeadText(h, env)|;
            EnvOf(h, EnvText(h, env)[..n], junk) ==
            if n < head then IOFailure
            else
              match CutAt(env.entries, n - head)
              case Unnoticed(k) => Restored(env.(entries := env.entries[..k]), Loose(env.entries[..k], junk))
              case OutOfMemory => MemoryFailure
              case InputError => IOFailure
  {
    var head, text := HeadText(h, env), EntriesText(h, env.entries, env.entries);
    var u := EnvText(h, env)[..n];
    EnvTextParts(h, env);
    if n < |head| {
      assert u == head[..n];
      ShortHead(h, env, u, junk);
    } else {
      var m := n - |head|;
      assert u == head + text[..m];
      HeadRead(h, env, text[..m], u, junk);
      CutEntries(h, env.entries, env.entries, m, text, Bare(env), junk);
      var c := CutAt(env.entries, m);
      if c.Unnoticed? {
        assert [] + env.entries[..c.kept] == env.entries[..c.kept];
      }
    }
  }

  /** A file of one entry, cut anywhere from its head to inside the entry's name, reads as a request with no entries. */
  lemma CutInName(h: Host, env: Env, e: Entry, m: nat, junk: nat -> char)
    requires Portable(h) && SavableEnv(env) && env.entries == [e] && m < NameSize(e)
    ensures |HeadText(h, env)| + m <= |EnvText(h, env)|
    ensures EnvOf(h, EnvText(h, env)[..|HeadText(h, env)| + m], junk) == Restored(Bare(env), [])
  {
    assert FirstFile([e], e.attr) == e.file;
    OneEntryText(h, env, e);
    assert CutAt([e], m) == Unnoticed(0);
    TruncatedRestore(h, env, |HeadText(h, env)| + m, junk);
    assert env.entries[..0] == [];
  }

  lemma OneEntryText(h: Host, env: Env, e: Entry)
    requires Portable(h) && env.entries == [e]
    ensures |EnvText(h, env)| >= |HeadText(h, env)| + NameSize(e)
  {
    EnvTextParts(h, env);
    EntryTextParts(h, env.entries, e);
    Sizes(h, e);
    assert EntriesText(h, env.entries, [e]) == EntryText(h, env.entries, e) + EntriesText(h, env.entries, [e][1..]);
  }

  const ONE_FIELD := Entry("f", "v", 1, "", "", None)

  /** Cut three bytes behind its head, a request with one field comes back with none. */
  lemma CutUnnoticed(h: Host, env: Env, junk: nat -> char)
    requires Portable(h) && SavableEnv(env) && env.entries == [ONE_FIELD]
    ensures |HeadText(h, env)| + 3 <= |EnvText(h, env)|
    ensures EnvOf(h, EnvText(h, env)[..|HeadText(h, env)| + 3], junk) == Restored(Bare(env), [])
  {
    CutInName(h, env, ONE_FIELD, 3, junk);
  }

  lemma ShortHead(h: Host, env: Env, u: string, junk: nat -> char)
    requires Portable(h) && SavableEnv(env) && u <= HeadText(h, env) && |u| < |HeadText(h, env)|
    ensures EnvOf(h, u, junk) == IOFailure
  {
    var v, s := StringText(h, VERSION), StringsText(h, env.strings);
    if |u| < |v| {
      ShortString(h, VERSION, u);
    } else {
      var w := u[|v|..];
      assert u == v + w;
      StringRead(h, VERSION, w);
      if |w| < |s| {
        assert w <= s;
        ShortStrings(h, env.strings, w);
      } else {
        assert w == s + w[|s|..];
        StringsRead(h, env.strings, w[|s|..]);
      }
    }
  }
}
