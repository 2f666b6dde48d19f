/** A submitted query from its text to the entries an application reads, over a saved and restored environment. */
module SavedForm {
  import opened CText
  import opened FormEntry
  import opened HostInts
  import opened UrlForm
  import opened Environment
  import opened EnvironmentRoundTrip
  import UrlRoundTrip
  import FormString

  ghost predicate Clean(p: Pair) {
    NUL !in p.attr && NUL !in p.value
  }

  lemma {:induction false} CollectedClean(es: seq<Pair>, ps: List)
    requires forall i :: 0 <= i < |es| ==> Clean(es[i])
    ensures forall i :: 0 <= i < |Collected(es, ps)| ==> Clean(Collected(es, ps)[i])
    decreases ps
  {
    match ps
    case Nil =>
    case Cons(p, rest) =>
      assert Clean(Plain(p));
      CollectedClean(es + [Plain(p)], rest);
  }

  /** The strings and the length that go with the entries of a query. */
  ghost predicate SavableHead(ss: seq<string>, length: int) {
    |ss| == STRINGS && (forall i :: 0 <= i < STRINGS ==> EnvironmentRoundTrip.Storable(ss[i])) && IsInt32(length)
  }

  /** No field of a parsed query is longer than an int can say. */
  ghost predicate Short(ps: seq<Pair>) {
    forall i :: 0 <= i < |ps| ==> |ps[i].attr| < 0x8000_0000 && |ps[i].value| < 0x8000_0000
  }

  lemma QueryFindable(ps: seq<Pair>)
    ensures Findable(EntriesOf(ps))
  {
    forall i | 0 <= i < |ps| ensures FirstFile(EntriesOf(ps), EntriesOf(ps)[i].attr) == None {
      NoUploads(EntriesOf(ps), EntriesOf(ps)[i].attr);
    }
  }

  lemma {:induction false} NoUploads(es: seq<Entry>, name: string)
    requires forall i :: 0 <= i < |es| ==> es[i].file == None
    ensures FirstFile(es, name) == None
  {
    if es != [] {
      NoUploads(es[1..], name);
    }
  }

  /** Whatever the query and however often its names repeat, the entries the parser makes of it survive saving and
      restoring. */
  lemma QueryRestored(h: Host, data: string, ss: seq<string>, length: int, junk: nat -> char)
    requires Portable(h) && SavableHead(ss, length) && Short(PairsOf(data))
    ensures var env := Env(ss, length, EntriesOf(PairsOf(data)));
            EnvOf(h, EnvText(h, env), junk) == Restored(env, Loose(env.entries, junk))
  {
    var ps := PairsOf(data);
    CollectedClean([], InName(data, 0, []));
    QueryFindable(ps);
    RoundTrip(h, Env(ss, length, EntriesOf(ps)), junk);
  }

  /** From the pairs a client submits to what cgiFormStringMultiple returns for a name after a restore: the normal
      forms of the values submitted under it, in order. */
  lemma SubmittedValuesRead(codes: seq<Pair>, texts: seq<Pair>, name: string)
    requires UrlRoundTrip.EncodesAll(codes, texts) && UrlRoundTrip.NulFree(texts)
    ensures FormString.ValuesOf(EntriesOf(PairsOf(UrlRoundTrip.Query(codes))), name) == SubmittedUnder(texts, name)
  {
    UrlRoundTrip.RoundTrip(codes, texts);
    ValuesUnder(texts, name);
  }

  /** The normal forms of the values under a name. */
  function SubmittedUnder(ps: seq<Pair>, name: string): seq<string> {
    if ps == [] then []
    else
      var n := |ps| - 1;
      SubmittedUnder(ps[..n], name) + (if ps[n].attr == name then [FormString.Normal(ps[n].value, true)] else [])
  }

  lemma {:induction false} ValuesUnder(ps: seq<Pair>, name: string)
    requires forall i :: 0 <= i < |ps| ==> NUL !in ps[i].value
    ensures FormString.ValuesOf(EntriesOf(ps), name) == SubmittedUnder(ps, name)
  {
    if ps != [] {
      var n := |ps| - 1;
      assert EntriesOf(ps)[..n] == EntriesOf(ps[..n]);
      ValuesUnder(ps[..n], name);
      assert CString(ps[n].value) == ps[n].value;
    }
  }
}
