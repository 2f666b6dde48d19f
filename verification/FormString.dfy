/** cgiFormEntryString and cgiFormStringMultiple: reading a value with line ends normalised. */
module FormString {
  import opened CText
  import opened FormEntry

  datatype FormResult = FormSuccess | FormTruncated | FormEmpty | FormNotFound

  // ----- the reference: bursts of line ends -----

  predicate IsBreak(c: char) {
    c == CR || c == LF
  }

  /** The length of the longest prefix made of CR and LF. */
  function Burst(v: string): (k: nat)
    ensures k <= |v|
  {
    if v == [] || !IsBreak(v[0]) then 0 else 1 + Burst(v[1..])
  }

  function Count(v: string, c: char): (n: nat)
    ensures n <= |v|
  {
    if v == [] then 0 else (if v[0] == c then 1 else 0) + Count(v[1..], c)
  }

  function Feeds(n: nat): (s: string)
    ensures |s| == n && forall i :: 0 <= i < n ==> s[i] == LF
  {
    seq(n, i => LF)
  }

  /** How many line feeds a burst is worth: the larger of its counts, or none. */
  function Worth(cr: nat, lf: nat, newlines: bool): nat {
    if !newlines then 0 else if lf > cr then lf else cr
  }

  /** The worth of the burst that starts `v` when `cr` and `lf` line ends precede it directly. */
  function BurstWorth(v: string, cr: nat, lf: nat, newlines: bool): nat {
    var b := v[..Burst(v)];
    Worth(cr + Count(b, CR), lf + Count(b, LF), newlines)
  }

  /** The value with every maximal burst replaced by its worth in line feeds. */
  function Normal(v: string, newlines: bool): string {
    if v == [] then []
    else if !IsBreak(v[0]) then [v[0]] + Normal(v[1..], newlines)
    else Feeds(BurstWorth(v, 0, 0, newlines)) + Normal(v[Burst(v)..], newlines)
  }

  // ----- the source's counters -----

  /** The output for the rest `v` of a value, with `cr` and `lf` line ends counted just before. */
  function From(v: string, cr: nat, lf: nat, newlines: bool): string {
    if v == [] then Feeds(Worth(cr, lf, newlines))
    else if v[0] == CR then From(v[1..], cr + 1, lf, newlines)
    else if v[0] == LF then From(v[1..], cr, lf + 1, newlines)
    else Feeds(Worth(cr, lf, newlines)) + ([v[0]] + From(v[1..], 0, 0, newlines))
  }

  lemma BurstStep(v: string, cr: nat, lf: nat, newlines: bool)
    requires v != [] && IsBreak(v[0])
    ensures BurstWorth(v, cr, lf, newlines)
         == BurstWorth(v[1..], if v[0] == CR then cr + 1 else cr, if v[0] == LF then lf + 1 else lf, newlines)
    ensures v[Burst(v)..] == v[1..][Burst(v[1..])..]
  {
    var k := Burst(v);
    assert v[..k][1..] == v[1..][..k - 1];
  }

  lemma NoBurst(v: string, cr: nat, lf: nat, newlines: bool)
    requires v == [] || !IsBreak(v[0])
    ensures BurstWorth(v, cr, lf, newlines) == Worth(cr, lf, newlines) && v[Burst(v)..] == v
  {
    assert v[..0] == [];
  }

  lemma NormalSplit(v: string, newlines: bool)
    ensures Normal(v, newlines) == Feeds(BurstWorth(v, 0, 0, newlines)) + Normal(v[Burst(v)..], newlines)
  {
    if v == [] || !IsBreak(v[0]) {
      NoBurst(v, 0, 0, newlines);
      assert Feeds(0) == [];
    }
  }

  /** The counters give the reference. */
  lemma {:induction false} FromIsNormal(v: string, cr: nat, lf: nat, newlines: bool)
    ensures From(v, cr, lf, newlines) == Feeds(BurstWorth(v, cr, lf, newlines)) + Normal(v[Burst(v)..], newlines)
  {
    if v == [] || !IsBreak(v[0]) {
      NoBurst(v, cr, lf, newlines);
      if v != [] {
        FromIsNormal(v[1..], 0, 0, newlines);
        NormalSplit(v[1..], newlines);
      }
    } else {
      BurstStep(v, cr, lf, newlines);
      FromIsNormal(v[1..], if v[0] == CR then cr + 1 else cr, if v[0] == LF then lf + 1 else lf, newlines);
    }
  }

  // ----- laws -----

  lemma {:induction false} NormalNoLonger(v: string, newlines: bool)
    ensures |Normal(v, newlines)| <= |v|
  {
    if v != [] {
      if !IsBreak(v[0]) {
        NormalNoLonger(v[1..], newlines);
      } else {
        NormalNoLonger(v[Burst(v)..], newlines);
      }
    }
  }

  lemma {:induction false} BurstOfFeeds(n: nat, rest: string)
    requires rest == [] || !IsBreak(rest[0])
    ensures Burst(Feeds(n) + rest) == n && Count(Feeds(n), LF) == n && Count(Feeds(n), CR) == 0
  {
    if n == 0 {
      assert Feeds(n) + rest == rest;
    } else {
      assert Feeds(n)[1..] == Feeds(n - 1);
      assert (Feeds(n) + rest)[1..] == Feeds(n - 1) + rest;
      BurstOfFeeds(n - 1, rest);
    }
  }

  /** Line feeds are worth themselves, or nothing. */
  lemma FeedsKept(n: nat, rest: string, newlines: bool)
    requires (rest == [] || !IsBreak(rest[0])) && (newlines || n == 0)
    ensures Normal(Feeds(n) + rest, newlines) == Feeds(n) + Normal(rest, newlines)
  {
    var v := Feeds(n) + rest;
    BurstOfFeeds(n, rest);
    NormalSplit(v, newlines);
    assert v[..n] == Feeds(n) && v[n..] == rest;
  }

  lemma BurstEnds(v: string)
    ensures v[Burst(v)..] == [] || !IsBreak(v[Burst(v)..][0])
  {
    if v != [] && IsBreak(v[0]) {
      BurstEnds(v[1..]);
      BurstStep(v, 0, 0, true);
    }
  }

  lemma {:induction false} NormalStart(v: string, newlines: bool)
    requires v == [] || !IsBreak(v[0])
    ensures var n := Normal(v, newlines); n == [] || !IsBreak(n[0])
  {
  }

  /** Normalising twice is normalising once, with line feeds kept and without. */
  lemma {:induction false} NormalIdempotent(v: string, newlines: bool)
    ensures Normal(Normal(v, newlines), newlines) == Normal(v, newlines)
  {
    if v != [] {
      if !IsBreak(v[0]) {
        NormalIdempotent(v[1..], newlines);
        assert ([v[0]] + Normal(v[1..], newlines))[1..] == Normal(v[1..], newlines);
      } else {
        var rest := v[Burst(v)..];
        NormalIdempotent(rest, newlines);
        BurstEnds(v);
        NormalStart(rest, newlines);
        FeedsKept(BurstWorth(v, 0, 0, newlines), Normal(rest, newlines), newlines);
      }
    }
  }

  // ----- the source -----

  /** The inner loop that emits pending line feeds while there is room. */
  method EmitFeeds(result: array<char>, at: nat, avail: nat, n: nat) returns (len: nat, truncated: bool)
    requires at <= avail < result.Length
    modifies result
    ensures len == Min(at + n, avail) && truncated == (at + n > avail)
    ensures result[..at] == old(result[..at]) && result[at..len] == Feeds(len - at)
  {
    len, truncated := at, false;
    var left := n;
    while left > 0
      invariant at <= len <= avail && len + left == at + n && !truncated
      invariant result[..at] == old(result[..at])
      invariant forall i :: at <= i < len ==> result[i] == LF
      decreases left
    {
      if len >= avail {
        truncated := true;
        break;
      }
      result[len] := LF;
      len, left := len + 1, left - 1;
    }
  }

  /** What `cgiFormEntryString` reports for a value whose normal form is `n`. */
  function Verdict(n: string, max: nat): FormResult
    requires 0 < max
  {
    if |n| > max - 1 then FormTruncated else if n == [] then FormEmpty else FormSuccess
  }

  /** The turn of the loop that meets a byte other than a line end, or the end of the value. */
  method Put(value: string, sp: nat, cr: nat, lf: nat, newlines: bool, result: array<char>, at: nat, avail: nat,
      ghost n: string)
    returns (len: nat, truncated: bool)
    requires sp <= |value| && (sp < |value| ==> !IsBreak(value[sp]))
    requires at <= avail < result.Length
    requires n == result[..at] + From(value[sp..], cr, lf, newlines)
    modifies result
    ensures len <= avail
    ensures truncated ==> |n| > avail == len && result[..len] == n[..len]
    ensures !truncated && sp == |value| ==> n == result[..len]
    ensures !truncated && sp < |value| ==> n == result[..len] + From(value[sp + 1..], 0, 0, newlines)
  {
    ghost var feeds, done := Worth(cr, lf, newlines), result[..at];
    ghost var rest := value[sp..];
    len, truncated := EmitFeeds(result, at, avail, Worth(cr, lf, newlines));
    assert result[..len] == done + Feeds(len - at);
    if truncated {
      assert Feeds(feeds)[..len - at] == Feeds(len - at);
      return;
    }
    if sp == |value| {
      return;
    }
    ghost var tail := From(value[sp + 1..], 0, 0, newlines);
    assert rest[1..] == value[sp + 1..];
    assert n == result[..len] + ([value[sp]] + tail);
    if len >= avail {
      truncated := true;
      return;
    }
    ghost var so := result[..len];
    result[len] := value[sp];
    len := len + 1;
    assert result[..len] == so + [value[sp]];
    assert so + ([value[sp]] + tail) == (so + [value[sp]]) + tail;
  }

  lemma Started(value: string, newlines: bool)
    ensures Normal(value, newlines) == From(value[0..], 0, 0, newlines)
  {
    FromIsNormal(value, 0, 0, newlines);
    NormalSplit(value, newlines);
    assert value[0..] == value;
  }

  lemma Counted(value: string, sp: nat, cr: nat, lf: nat, newlines: bool)
    requires sp < |value|
    ensures value[sp] == CR ==> From(value[sp..], cr, lf, newlines) == From(value[sp + 1..], cr + 1, lf, newlines)
    ensures value[sp] == LF ==> From(value[sp..], cr, lf, newlines) == From(value[sp + 1..], cr, lf + 1, newlines)
  {
    assert value[sp..][1..] == value[sp + 1..];
  }

  /** cgiFormEntryString: the first max - 1 bytes of the normal form, and truncation reported exactly when there
      are more. */
  method EntryString(text: string, result: array<char>, max: nat, newlines: bool) returns (status: FormResult)
    requires 0 < max <= result.Length
    modifies result
    ensures var n := Normal(CString(text), newlines);
            var len := Min(|n|, max - 1);
            result[..len] == n[..len] && result[len] == NUL
    ensures var n := Normal(CString(text), newlines);
            && (status == FormTruncated <==> |n| > max - 1) && (status == FormEmpty <==> n == [])
            && (status == FormSuccess <==> 0 < |n| <= max - 1)
  {
    var value := CString(text);
    ghost var n := Normal(value, newlines);
    Started(value, newlines);
    var len: nat, cr: nat, lf: nat, sp: nat := 0, 0, 0, 0;
    var truncated := false;
    while !truncated
      invariant sp <= |value| && len < max
      invariant !truncated ==> n == result[..len] + From(value[sp..], cr, lf, newlines)
      invariant truncated ==> |n| > max - 1 == len && result[..len] == n[..len]
      decreases |value| - sp, !truncated
    {
      if sp < |value| && value[sp] == CR {
        Counted(value, sp, cr, lf, newlines);
        cr := cr + 1;
      } else if sp < |value| && value[sp] == LF {
        Counted(value, sp, cr, lf, newlines);
        lf := lf + 1;
      } else {
        len, truncated := Put(value, sp, cr, lf, newlines, result, len, max - 1, n);
        cr, lf := 0, 0;
        if sp == |value| {
          break;
        }
      }
      sp := sp + 1;
    }
    status := Terminate(result, len, truncated, max, n);
  }

  /** The end of cgiFormEntryString. */
  method Terminate(result: array<char>, len: nat, truncated: bool, ghost max: nat, ghost n: string)
    returns (status: FormResult)
    requires len < max <= result.Length
    requires !truncated ==> n == result[..len]
    requires truncated ==> |n| > max - 1 == len && result[..len] == n[..len]
    modifies result
    ensures len == Min(|n|, max - 1) && result[..len] == n[..len] && result[len] == NUL && status == Verdict(n, max)
  {
    result[len] := NUL;
    status := if truncated then FormTruncated else if len == 0 then FormEmpty else FormSuccess;
  }

  /** The normal forms of the values of all entries with a name, each read as a C string, in order. */
  function ValuesOf(es: seq<Entry>, name: string): seq<string> {
    if es == [] then []
    else if es[|es| - 1].attr == name then ValuesOf(es[..|es| - 1], name) + [Normal(CString(es[|es| - 1].value), true)]
    else ValuesOf(es[..|es| - 1], name)
  }

  lemma {:induction false} NormalNoNul(v: string)
    requires NUL !in v
    ensures NUL !in Normal(v, true)
  {
    if v != [] {
      NormalNoNul(v[if IsBreak(v[0]) then Burst(v) else 1..]);
    }
  }

  /** The C string in a buffer that holds `n` and then a NUL. */
  lemma LengthOf(b: string, n: string)
    requires |n| < |b| && b[..|n|] == n && b[|n|] == NUL && NUL !in n
    ensures b[..Length(b, 0)] == n
  {
    assert forall k :: 0 <= k < |n| ==> b[k] == n[k];
    assert Length(b, 0) == |n|;
  }

  /** A value read into a buffer of its own length and one byte. */
  method WholeString(text: string) returns (s: string)
    ensures s == Normal(CString(text), true)
  {
    var value := CString(text);
    var buffer := new char[|value| + 1](_ => NUL);
    var status := EntryString(text, buffer, |value| + 1, true);
    ghost var n := Normal(value, true);
    NormalNoLonger(value, true);
    NormalNoNul(value);
    assert n[..|n|] == n && buffer[..][..|n|] == buffer[..|n|];
    LengthOf(buffer[..], n);
    s := buffer[..Length(buffer[..], 0)];
  }

  /** cgiFormStringMultiple: every value with the name, never truncated. */
  method StringMultiple(es: seq<Entry>, name: string) returns (values: seq<string>, status: FormResult)
    ensures values == ValuesOf(es, name)
    ensures status == if values == [] then FormNotFound else FormSuccess
  {
    values := [];
    var i := 0;
    while i < |es|
      invariant i <= |es| && values == ValuesOf(es[..i], name)
    {
      assert es[..i + 1][..i] == es[..i];
      if es[i].attr == name {
        var s := WholeString(es[i].value);
        values := values + [s];
      }
      i := i + 1;
    }
    assert es[..i] == es;
    status := if values == [] then FormNotFound else FormSuccess;
  }
}
