/** cgiParseFormInput and cgiUnescapeChars: application/x-www-form-urlencoded data. */
module UrlForm {
  import opened CText
  import opened FormEntry

  datatype Pair = Pair(attr: string, value: string)

  // ----- the three-state unescaper -----

  /** cgiHexValue: zero for anything that is not a hexadecimal digit. */
  function HexValue(c: char): (v: nat)
    ensures v < 16
  {
    if '0' <= c <= '9' then c as int - '0' as int
    else if 'a' <= c <= 'f' then c as int - 'a' as int + 10
    else if 'A' <= c <= 'F' then c as int - 'A' as int + 10
    else 0
  }

  datatype EscapeState = Rest | First | Second(high: nat)

  /** The output of the machine from a given state and position. */
  function Machine(s: EscapeState, cs: string, i: nat): string
    requires i <= |cs| && (s.Second? ==> s.high < 16)
    decreases |cs| - i
  {
    if i == |cs| then []
    else
      match s
      case Rest =>
        if cs[i] == '%' then Machine(First, cs, i + 1)
        else [if cs[i] == '+' then ' ' else cs[i]] + Machine(Rest, cs, i + 1)
      case First => Machine(Second(HexValue(cs[i])), cs, i + 1)
      case Second(high) => [(16 * high + HexValue(cs[i])) as char] + Machine(Rest, cs, i + 1)
  }

  function Unescape(cs: string): string {
    Machine(Rest, cs, 0)
  }

  /** The machine's next state and what it emits for one byte. */
  function NextState(s: EscapeState, c: char): EscapeState {
    match s
    case Rest => if c == '%' then First else Rest
    case First => Second(HexValue(c))
    case Second(_) => Rest
  }

  function Emitted(s: EscapeState, c: char): string
    requires s.Second? ==> s.high < 16
  {
    match s
    case Rest => if c == '%' then [] else [if c == '+' then ' ' else c]
    case First => []
    case Second(high) => [(16 * high + HexValue(c)) as char]
  }

  lemma MachineStep(out: string, s: EscapeState, cs: string, i: nat)
    requires i < |cs| && (s.Second? ==> s.high < 16)
    ensures out + Machine(s, cs, i) == (out + Emitted(s, cs[i])) + Machine(NextState(s, cs[i]), cs, i + 1)
  {
  }

  /** cgiUnescapeChars: the output never leaves its buffer of length + 1 bytes. */
  method UnescapeChars(cs: string) returns (r: string)
    ensures r == Unescape(cs)
  {
    var s := new char[|cs| + 1](_ => NUL);
    var state := Rest;
    var src, dst := 0, 0;
    while src < |cs|
      invariant dst <= src <= |cs|
      invariant state.Second? ==> state.high < 16
      invariant Unescape(cs) == s[..dst] + Machine(state, cs, src)
    {
      MachineStep(s[..dst], state, cs, src);
      ghost var next := s[..dst] + Emitted(state, cs[src]);
      match state {
        case Rest =>
          if cs[src] == '%' {
            state := First;
          } else if cs[src] == '+' {
            s[dst] := ' ';
            dst := dst + 1;
          } else {
            s[dst] := cs[src];
            dst := dst + 1;
          }
        case First =>
          state := Second(HexValue(cs[src]));
        case Second(high) =>
          s[dst] := (16 * high + HexValue(cs[src])) as char;
          dst := dst + 1;
          state := Rest;
      }
      assert s[..dst] == next;
      src := src + 1;
    }
    s[dst] := NUL;
    r := s[..dst];
  }

  // ----- pairs -----

  /** cgiFormEntryFirst and its `next` links. */
  datatype List = Nil | Cons(head: Pair, tail: List)

  /** The pairs from `i` on, still escaped, `name` being read: a name without an equals sign is dropped. */
  function InName(data: string, i: nat, name: string): List
    requires i <= |data|
    decreases |data| - i
  {
    if i == |data| then Nil
    else if data[i] == '=' then InValue(data, i + 1, name, [])
    else InName(data, i + 1, name + [data[i]])
  }

  /** The pairs from `i` on, `value` being read. */
  function InValue(data: string, i: nat, name: string, value: string): List
    requires i <= |data|
    decreases |data| - i
  {
    if i == |data| then Cons(Pair(name, value), Nil)
    else if data[i] == '&' then Cons(Pair(name, value), InName(data, i + 1, []))
    else InValue(data, i + 1, name, value + [data[i]])
  }

  /** A pair unescaped, as C strings. */
  function Plain(p: Pair): Pair {
    Pair(CString(Unescape(p.attr)), CString(Unescape(p.value)))
  }

  /** The entries `es` followed by those of the raw pairs `ps`. */
  function Collected(es: seq<Pair>, ps: List): seq<Pair>
    decreases ps
  {
    match ps
    case Nil => es
    case Cons(p, rest) => Collected(es + [Plain(p)], rest)
  }

  /** The pairs in a query. */
  function PairsOf(data: string): seq<Pair> {
    Collected([], InName(data, 0, []))
  }

  /** A form entry of a query: no upload, so file name and type are empty. */
  function EntryOf(p: Pair): Entry {
    Entry(p.attr, p.value, |p.value|, [], [], None)
  }

  function EntriesOf(ps: seq<Pair>): seq<Entry> {
    seq(|ps|, i requires 0 <= i < |ps| => EntryOf(ps[i]))
  }

  lemma EntriesOfAppend(ps: seq<Pair>, p: Pair)
    ensures EntriesOf(ps + [p]) == EntriesOf(ps) + [EntryOf(p)]
  {
  }

  /** The scan for the equals sign. */
  method ScanName(data: string, start: nat) returns (name: string, found: bool)
    requires start <= |data|
    ensures start + |name| <= |data| && name == data[start..start + |name|]
    ensures found ==> start + |name| < |data| && InName(data, start, []) == InValue(data, start + |name| + 1, name, [])
    ensures !found ==> InName(data, start, []) == Nil
  {
    var pos := start;
    found := false;
    assert data[start..start] == [];
    while pos != |data|
      invariant start <= pos <= |data| && !found
      invariant InName(data, start, []) == InName(data, pos, data[start..pos])
    {
      if data[pos] == '=' {
        found := true;
        break;
      }
      assert data[start..pos + 1] == data[start..pos] + [data[pos]];
      pos := pos + 1;
    }
    name := data[start..pos];
  }

  /** The scan for the ampersand. */
  method ScanValue(data: string, start: nat, ghost name: string) returns (value: string, found: bool)
    requires start <= |data|
    ensures start + |value| <= |data| && value == data[start..start + |value|]
    ensures found ==> start + |value| < |data| &&
                      InValue(data, start, name, []) == Cons(Pair(name, value), InName(data, start + |value| + 1, []))
    ensures !found ==> InValue(data, start, name, []) == Cons(Pair(name, value), Nil)
  {
    var pos := start;
    found := false;
    assert data[start..start] == [];
    while pos != |data|
      invariant start <= pos <= |data| && !found
      invariant InValue(data, start, name, []) == InValue(data, pos, name, data[start..pos])
    {
      if data[pos] == '&' {
        found := true;
        break;
      }
      assert data[start..pos + 1] == data[start..pos] + [data[pos]];
      pos := pos + 1;
    }
    value := data[start..pos];
  }

  method PlainPair(name: string, value: string) returns (p: Pair)
    ensures p == Plain(Pair(name, value))
  {
    var a := UnescapeChars(name);
    var v := UnescapeChars(value);
    p := Pair(CString(a), CString(v));
  }

  /** cgiParseFormInput. */
  method ParseFormInput(data: string) returns (entries: seq<Entry>)
    ensures entries == EntriesOf(PairsOf(data))
  {
    entries := [];
    ghost var pairs: seq<Pair> := [];
    var pos := 0;
    while pos != |data|
      invariant pos <= |data|
      invariant PairsOf(data) == Collected(pairs, InName(data, pos, [])) && entries == EntriesOf(pairs)
      decreases |data| - pos
    {
      var name, foundEq := ScanName(data, pos);
      if !foundEq {
        return;
      }
      pos := pos + |name| + 1;
      var value, foundAmp := ScanValue(data, pos, name);
      pos := pos + |value|;
      var pair := PlainPair(name, value);
      EntriesOfAppend(pairs, pair);
      pairs := pairs + [pair];
      entries := entries + [Entry(pair.attr, pair.value, |pair.value|, [], [], None)];
      if !foundAmp {
        return;
      }
      pos := pos + 1;
    }
  }
}
