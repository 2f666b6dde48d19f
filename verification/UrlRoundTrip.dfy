/** Encoding name/value pairs as in section 8.2.1 of RFC 1866 and parsing them back. */
module UrlRoundTrip {
  import opened CText
  import opened FormEntry
  import opened UrlForm

  /** `c` is the hexadecimal digit of `v`, of either case. */
  predicate IsHexOf(c: char, v: nat) {
    if v < 10 then c as int == '0' as int + v
    else v < 16 && (c as int == 'a' as int + (v - 10) || c as int == 'A' as int + (v - 10))
  }

  predicate IsHex(c: char) {
    '0' <= c <= '9' || 'a' <= c <= 'f' || 'A' <= c <= 'F'
  }

  lemma HexOfValue(c: char, v: nat)
    ensures IsHexOf(c, v) <==> IsHex(c) && HexValue(c) == v
  {
  }

  /** A byte that may stand for itself. */
  predicate Literal(c: char) {
    c != '%' && c != '+' && c != '&' && c != '='
  }

  /** `code` is an encoding of `text`: each byte stands for itself, a space may be a plus sign, and any byte may be
      a percent sign with two hexadecimal digits of either case. */
  predicate Encodes(code: string, text: string)
    decreases |text|
  {
    if text == [] then code == []
    else
      || (code != [] && Literal(text[0]) && code[0] == text[0] && Encodes(code[1..], text[1..]))
      || (code != [] && text[0] == ' ' && code[0] == '+' && Encodes(code[1..], text[1..]))
      || (|code| >= 3 && code[0] == '%' && IsHexOf(code[1], text[0] as int / 16) &&
          IsHexOf(code[2], text[0] as int % 16) && Encodes(code[3..], text[1..]))
  }

  lemma {:induction false} EncodingHasNoSeparator(code: string, text: string)
    requires Encodes(code, text)
    ensures '=' !in code && '&' !in code
    decreases |text|
  {
    if text != [] {
      if code[0] == '%' {
        EncodingHasNoSeparator(code[3..], text[1..]);
        assert code == [code[0], code[1], code[2]] + code[3..];
      } else {
        EncodingHasNoSeparator(code[1..], text[1..]);
        assert code == [code[0]] + code[1..];
      }
    }
  }

  /** A percent sign and two digits stand for one byte. */
  lemma EscapeRead(cs: string, i: nat, c: char)
    requires i + 3 <= |cs| && cs[i] == '%'
    requires IsHexOf(cs[i + 1], c as int / 16) && IsHexOf(cs[i + 2], c as int % 16)
    ensures Machine(Rest, cs, i) == [c] + Machine(Rest, cs, i + 3)
  {
    HexOfValue(cs[i + 1], c as int / 16);
    HexOfValue(cs[i + 2], c as int % 16);
    assert Machine(Second(HexValue(cs[i + 1])), cs, i + 2) == [c] + Machine(Rest, cs, i + 3);
  }

  lemma LiteralRead(cs: string, i: nat)
    requires i < |cs| && cs[i] != '%'
    ensures Machine(Rest, cs, i) == [if cs[i] == '+' then ' ' else cs[i]] + Machine(Rest, cs, i + 1)
  {
  }

  /** The machine undoes every encoding. */
  lemma {:induction false} MachineDecodes(cs: string, i: nat, text: string)
    requires i <= |cs| && Encodes(cs[i..], text)
    ensures Machine(Rest, cs, i) == text
    decreases |text|
  {
    if text != [] {
      assert cs[i..][1..] == cs[i + 1..];
      if cs[i] == '%' {
        assert cs[i..][3..] == cs[i + 3..] && cs[i..][1] == cs[i + 1] && cs[i..][2] == cs[i + 2];
        EscapeRead(cs, i, text[0]);
        MachineDecodes(cs, i + 3, text[1..]);
      } else {
        LiteralRead(cs, i);
        MachineDecodes(cs, i + 1, text[1..]);
      }
    }
  }

  /** An escape cut off at the end of the text stands for nothing, and a byte that is no digit for zero. */
  lemma CutEscape(high: char)
    ensures Unescape("%") == [] && Unescape(['%', high]) == []
  {
    assert Machine(First, "%", 1) == [];
    assert Machine(Second(HexValue(high)), ['%', high], 2) == [];
    assert Machine(First, ['%', high], 1) == [];
  }

  lemma BadDigitsAreZero(high: char, low: char)
    requires !IsHex(high) && !IsHex(low)
    ensures Unescape(['%', high, low]) == [NUL]
  {
    var cs := ['%', high, low];
    assert Machine(Second(0), cs, 2) == [NUL] + Machine(Rest, cs, 3);
    assert Machine(First, cs, 1) == Machine(Second(0), cs, 2);
  }

  lemma UnescapeDecodes(code: string, text: string)
    requires Encodes(code, text)
    ensures Unescape(code) == text
  {
    assert code[0..] == code;
    MachineDecodes(code, 0, text);
  }

  // ----- a list of pairs -----

  function Query(codes: seq<Pair>): string
    decreases |codes|, 0
  {
    if codes == [] then [] else codes[0].attr + ("=" + (codes[0].value + QueryTail(codes[1..])))
  }

  function QueryTail(codes: seq<Pair>): string
    decreases |codes|, 1
  {
    if codes == [] then [] else "&" + Query(codes)
  }

  ghost predicate EncodesAll(codes: seq<Pair>, texts: seq<Pair>) {
    |codes| == |texts| &&
    forall i :: 0 <= i < |codes| ==> Encodes(codes[i].attr, texts[i].attr) && Encodes(codes[i].value, texts[i].value)
  }

  ghost predicate NulFree(texts: seq<Pair>) {
    forall i :: 0 <= i < |texts| ==> NUL !in texts[i].attr && NUL !in texts[i].value
  }

  predicate Separable(codes: seq<Pair>) {
    forall i :: 0 <= i < |codes| ==> '=' !in codes[i].attr && '&' !in codes[i].value
  }

  lemma Peel(data: string, pos: nat, a: string, b: string)
    requires pos <= |data| && data[pos..] == a + b
    ensures pos + |a| <= |data| && data[pos..pos + |a|] == a && data[pos + |a|..] == b
  {
    assert data[pos..pos + |a|] == data[pos..][..|a|];
    assert data[pos + |a|..] == data[pos..][|a|..];
  }

  lemma {:induction false} NameRead(data: string, i: nat, t: string, pre: string)
    requires i + |t| <= |data| && data[i..i + |t|] == t && '=' !in t
    ensures InName(data, i, pre) == InName(data, i + |t|, pre + t)
    decreases |t|
  {
    if t == [] {
      assert pre + t == pre;
    } else {
      assert data[i] == t[0] && data[i..i + |t|][1..] == data[i + 1..i + |t|];
      NameRead(data, i + 1, t[1..], pre + [t[0]]);
      assert pre + [t[0]] + t[1..] == pre + t;
    }
  }

  lemma {:induction false} ValueRead(data: string, i: nat, name: string, t: string, pre: string)
    requires i + |t| <= |data| && data[i..i + |t|] == t && '&' !in t
    ensures InValue(data, i, name, pre) == InValue(data, i + |t|, name, pre + t)
    decreases |t|
  {
    if t == [] {
      assert pre + t == pre;
    } else {
      assert data[i] == t[0] && data[i..i + |t|][1..] == data[i + 1..i + |t|];
      ValueRead(data, i + 1, name, t[1..], pre + [t[0]]);
      assert pre + [t[0]] + t[1..] == pre + t;
    }
  }

  function ListOf(ps: seq<Pair>): List {
    if ps == [] then Nil else Cons(ps[0], ListOf(ps[1..]))
  }

  lemma FirstName(data: string, pos: nat, name: string, after: string)
    requires pos <= |data| && data[pos..] == name + ("=" + after) && '=' !in name
    ensures var eq := pos + |name|;
            eq < |data| && data[eq + 1..] == after && InName(data, pos, []) == InValue(data, eq + 1, name, [])
  {
    var eq := pos + |name|;
    Peel(data, pos, name, "=" + after);
    NameRead(data, pos, name, []);
    assert [] + name == name;
    Peel(data, eq, "=", after);
    assert data[eq] == '=';
  }

  lemma FirstValue(data: string, pos: nat, name: string, value: string, after: string)
    requires pos <= |data| && data[pos..] == value + after && '&' !in value
    ensures var amp := pos + |value|;
            amp <= |data| && data[amp..] == after && InValue(data, pos, name, []) == InValue(data, amp, name, value)
  {
    Peel(data, pos, value, after);
    ValueRead(data, pos, name, value, []);
    assert [] + value == value;
  }

  /** The first pair of a query and where the rest starts. */
  lemma FirstPair(data: string, pos: nat, c: Pair, tail: string)
    requires pos <= |data| && data[pos..] == c.attr + ("=" + (c.value + tail))
    requires '=' !in c.attr && '&' !in c.value
    ensures var amp := pos + |c.attr| + 1 + |c.value|;
            amp <= |data| && data[amp..] == tail && InName(data, pos, []) == InValue(data, amp, c.attr, c.value)
  {
    FirstName(data, pos, c.attr, c.value + tail);
    FirstValue(data, pos + |c.attr| + 1, c.attr, c.value, tail);
  }

  /** What may follow the pairs: nothing, or a last name without an equals sign. */
  predicate Dangling(codes: seq<Pair>, tail: string) {
    tail == [] || ('=' !in tail && (codes != [] ==> tail[0] == '&'))
  }

  lemma {:induction false} NoEquals(data: string, i: nat, name: string)
    requires i <= |data| && '=' !in data[i..]
    ensures InName(data, i, name) == Nil
    decreases |data| - i
  {
    if i < |data| {
      assert data[i] == data[i..][0] && data[i + 1..] == data[i..][1..];
      NoEquals(data, i + 1, name + [data[i]]);
    }
  }

  /** Cutting a query gives back the pairs it was joined from; a name without an equals sign at its end is dropped. */
  lemma {:induction false} CutsQuery(data: string, pos: nat, codes: seq<Pair>, tail: string)
    requires pos <= |data| && data[pos..] == Query(codes) + tail && Separable(codes) && Dangling(codes, tail)
    ensures InName(data, pos, []) == ListOf(codes)
    decreases |codes|
  {
    if codes == [] {
      assert data[pos..] == tail;
      NoEquals(data, pos, []);
    } else {
      var c, rest := codes[0], codes[1..];
      var after := QueryTail(rest) + tail;
      QueryLaidOut(codes, tail);
      FirstPair(data, pos, c, after);
      var amp := pos + |c.attr| + 1 + |c.value|;
      if rest != [] {
        NextName(data, amp, c, Query(rest) + tail);
        CutsQuery(data, amp + 1, rest, tail);
      } else {
        LastPair(data, amp, c, after, tail);
      }
    }
  }

  /** Behind an ampersand the next name starts. */
  lemma NextName(data: string, amp: nat, c: Pair, more: string)
    requires amp <= |data| && data[amp..] == "&" + more
    ensures amp < |data| && data[amp + 1..] == more
    ensures InValue(data, amp, c.attr, c.value) == Cons(c, InName(data, amp + 1, []))
  {
    Peel(data, amp, "&", more);
    assert data[amp] == '&';
  }

  lemma QueryLaidOut(codes: seq<Pair>, tail: string)
    requires codes != []
    ensures Query(codes) + tail == codes[0].attr + ("=" + (codes[0].value + (QueryTail(codes[1..]) + tail)))
    ensures codes[1..] != [] ==> QueryTail(codes[1..]) + tail == "&" + (Query(codes[1..]) + tail)
    ensures codes[1..] == [] ==> QueryTail(codes[1..]) + tail == tail
  {
    Regrouped(codes[0].value, QueryTail(codes[1..]), tail);
    Regrouped("=", codes[0].value + QueryTail(codes[1..]), tail);
    Regrouped(codes[0].attr, "=" + (codes[0].value + QueryTail(codes[1..])), tail);
    Regrouped("&", Query(codes[1..]), tail);
  }

  lemma Regrouped(a: string, b: string, c: string)
    ensures (a + b) + c == a + (b + c)
  {
  }

  lemma LastPair(data: string, amp: nat, c: Pair, after: string, tail: string)
    requires amp <= |data| && data[amp..] == after && after == tail && Dangling([c], tail)
    ensures InValue(data, amp, c.attr, c.value) == Cons(c, Nil)
  {
    if tail != [] {
      assert data[amp] == tail[0] && data[amp + 1..] == tail[1..];
      NoEquals(data, amp + 1, []);
    }
  }

  /** The texts as C strings. */
  function CPairs(ps: seq<Pair>): (r: seq<Pair>)
    ensures |r| == |ps|
    ensures forall i :: 0 <= i < |ps| ==> r[i] == Pair(CString(ps[i].attr), CString(ps[i].value))
  {
    seq(|ps|, i requires 0 <= i < |ps| => Pair(CString(ps[i].attr), CString(ps[i].value)))
  }

  lemma PairDecodes(code: Pair, text: Pair)
    requires Encodes(code.attr, text.attr) && Encodes(code.value, text.value)
    ensures Plain(code) == Pair(CString(text.attr), CString(text.value))
  {
    UnescapeDecodes(code.attr, text.attr);
    UnescapeDecodes(code.value, text.value);
  }

  lemma CPairsCons(texts: seq<Pair>)
    requires texts != []
    ensures CPairs(texts) == [Pair(CString(texts[0].attr), CString(texts[0].value))] + CPairs(texts[1..])
  {
  }

  lemma Joined(es: seq<Pair>, p: Pair, more: seq<Pair>)
    ensures es + ([p] + more) == (es + [p]) + more
  {
  }

  lemma {:induction false} CollectedDecodes(es: seq<Pair>, codes: seq<Pair>, texts: seq<Pair>)
    requires EncodesAll(codes, texts)
    ensures Collected(es, ListOf(codes)) == es + CPairs(texts)
    decreases |codes|
  {
    if codes == [] {
      assert es + CPairs(texts) == es;
    } else {
      var first := Pair(CString(texts[0].attr), CString(texts[0].value));
      PairDecodes(codes[0], texts[0]);
      CPairsCons(texts);
      CollectedDecodes(es + [first], codes[1..], texts[1..]);
      Joined(es, first, CPairs(texts[1..]));
    }
  }

  lemma AllSeparable(codes: seq<Pair>, texts: seq<Pair>)
    requires EncodesAll(codes, texts)
    ensures Separable(codes)
  {
    forall i | 0 <= i < |codes| ensures '=' !in codes[i].attr && '&' !in codes[i].value {
      EncodingHasNoSeparator(codes[i].attr, texts[i].attr);
      EncodingHasNoSeparator(codes[i].value, texts[i].value);
    }
  }

  /** For every list of pairs and every way of encoding them, parsing the query returns the list in order, each text cut
      at its first NUL; a name without an equals sign at the end of the query is dropped. */
  lemma QueryRead(codes: seq<Pair>, texts: seq<Pair>, tail: string)
    requires EncodesAll(codes, texts) && Dangling(codes, tail)
    ensures PairsOf(Query(codes) + tail) == CPairs(texts)
  {
    AllSeparable(codes, texts);
    var data := Query(codes) + tail;
    assert data[0..] == data;
    CutsQuery(data, 0, codes, tail);
    CollectedDecodes([], codes, texts);
    assert [] + CPairs(texts) == CPairs(texts);
  }

  /** The entries made of a query: attribute, value, the value's length, and no upload. */
  lemma EntriesRead(codes: seq<Pair>, texts: seq<Pair>, tail: string)
    requires EncodesAll(codes, texts) && Dangling(codes, tail)
    ensures var es := EntriesOf(PairsOf(Query(codes) + tail));
            && |es| == |texts|
            && forall i :: 0 <= i < |texts| ==>
                 && es[i].attr == CString(texts[i].attr) && es[i].value == CString(texts[i].value)
                 && es[i].valueLength == |es[i].value| && es[i].fileName == [] && es[i].contentType == []
                 && es[i].file == None
  {
    QueryRead(codes, texts, tail);
  }

  /** URL-encoded round trip: for every list of NUL-free pairs and every way of encoding them, parsing the query
      returns the same list in order. */
  lemma RoundTrip(codes: seq<Pair>, texts: seq<Pair>)
    requires EncodesAll(codes, texts) && NulFree(texts)
    ensures PairsOf(Query(codes)) == texts
  {
    QueryRead(codes, texts, []);
    assert Query(codes) + [] == Query(codes);
    assert CPairs(texts) == texts;
  }

  // ----- every text has an encoding -----

  function HexDigit(v: nat): (c: char)
    requires v < 16
    ensures IsHex(c) && HexValue(c) == v
  {
    if v < 10 then '0' + v as char else 'A' + (v - 10) as char
  }

  predicate Bytes(text: string) {
    forall i :: 0 <= i < |text| ==> text[i] as int < 256
  }

  function Escaped(text: string): string
    requires Bytes(text)
  {
    if text == [] then []
    else
      var c := text[0];
      var code := if IsAlnum(c) then [c] else if c == ' ' then "+"
                  else ['%', HexDigit(c as int / 16), HexDigit(c as int % 16)];
      code + Escaped(text[1..])
  }

  lemma {:induction false} EscapedEncodes(text: string)
    requires Bytes(text)
    ensures Encodes(Escaped(text), text)
  {
    if text != [] {
      EscapedEncodes(text[1..]);
      var code, rest := Escaped(text), Escaped(text[1..]);
      if IsAlnum(text[0]) || text[0] == ' ' {
        assert code[1..] == rest;
      } else {
        assert code[3..] == rest;
      }
    }
  }
}
