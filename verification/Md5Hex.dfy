/** our_MD5End, our_MD5File and our_MD5Data (our_md5hl.c): digests as hexadecimal text. */
module Md5Hex {
  import opened CText
  import opened Md5

  /** A lower-case hexadecimal digit. */
  function Digit(v: nat): (c: char)
    requires v < 16
    ensures Value(c) == v
  {
    if v < 10 then '0' + v as char else 'a' + (v - 10) as char
  }

  /** The two digits of a byte, the high one first. */
  function Digits(b: Byte): (t: string)
    ensures |t| == 2 && 16 * Value(t[0]) + Value(t[1]) == b
  {
    [Digit(b / 16), Digit(b % 16)]
  }

  function Rendered(d: seq<Byte>): (t: string)
    ensures |t| == 2 * |d|
  {
    if d == [] then [] else Rendered(d[..|d| - 1]) + Digits(d[|d| - 1])
  }

  /** The value of a lower-case hexadecimal digit. */
  function Value(c: char): (v: nat)
    ensures v < 16
  {
    if '0' <= c <= '9' then c as int - '0' as int
    else if 'a' <= c <= 'f' then c as int - 'a' as int + 10
    else 0
  }

  function Parsed(t: string): seq<Byte> {
    if |t| < 2 then [] else Parsed(t[..|t| - 2]) + [16 * Value(t[|t| - 2]) + Value(t[|t| - 1])]
  }

  /** The table our_MD5End looks digits up in. */
  const HEX := "0123456789abcdef"

  lemma TableHolds(v: nat)
    requires v < 16
    ensures HEX[v] == Digit(v)
  {
  }

  lemma ParsedAppend(t: string, two: string, text: string, b: Byte)
    requires |two| == 2 && 16 * Value(two[0]) + Value(two[1]) == b && text == t + two
    ensures Parsed(text) == Parsed(t) + [b]
  {
    assert text[..|text| - 2] == t;
  }

  /** The text determines the digest. */
  lemma {:induction false} ParsedRendered(d: seq<Byte>, text: string)
    requires text == Rendered(d)
    ensures Parsed(text) == d
  {
    if d != [] {
      var n := |d| - 1;
      ParsedRendered(d[..n], Rendered(d[..n]));
      ParsedAppend(Rendered(d[..n]), Digits(d[n]), text, d[n]);
      assert d[..n] + [d[n]] == d;
    }
  }

  /** Two characters a byte, the one for the high half first, of the table's lower-case digits. */
  lemma {:induction false} RenderedAt(d: seq<Byte>, i: nat)
    requires i < |d|
    ensures Rendered(d)[2 * i] == "0123456789abcdef"[d[i] / 16]
    ensures Rendered(d)[2 * i + 1] == "0123456789abcdef"[d[i] % 16]
  {
    var n := |d| - 1;
    if i < n {
      RenderedAt(d[..n], i);
    } else {
      TableHolds(d[n] / 16);
      TableHolds(d[n] % 16);
    }
  }

  /** our_MD5End: the digest's 32 digits and a NUL. */
  method End(ctx: Context, buf: array<char>)
    requires ctx.Valid() && buf.Length >= 33
    modifies ctx, ctx.buffer, buf
    ensures buf[..32] == Rendered(Digest(ctx.compress, old(ctx.fed))) && buf[32] == NUL
  {
    var digest := ctx.Final();
    var i := 0;
    while i < 16
      invariant i <= 16 && buf[..i + i] == Rendered(digest[..i])
    {
      assert digest[..i + 1][..i] == digest[..i];
      TableHolds(digest[i] / 16);
      TableHolds(digest[i] % 16);
      buf[i + i] := HEX[digest[i] / 16];
      buf[i + i + 1] := HEX[digest[i] % 16];
      i := i + 1;
    }
    assert digest[..i] == digest;
    buf[i + i] := NUL;
  }

  /** our_MD5Data. */
  method Data(f: Compression, data: seq<Byte>) returns (text: string)
    requires |data| + 63 < TWO32
    ensures text == Rendered(Digest(f, data))
  {
    var ctx := new Context(f);
    ctx.Update(data);
    assert ctx.fed == data;
    text := Text(ctx);
  }

  method Text(ctx: Context) returns (text: string)
    requires ctx.Valid()
    modifies ctx, ctx.buffer
    ensures text == Rendered(Digest(ctx.compress, old(ctx.fed)))
  {
    var buf := new char[33](_ => NUL);
    End(ctx, buf);
    text := buf[..32];
  }

  /** our_MD5File: reads of at most 255 bytes, of whatever sizes fread returns. */
  method File(f: Compression, file: seq<Byte>) returns (text: string)
    ensures text == Rendered(Digest(f, file))
  {
    var ctx := new Context(f);
    FeedWhole(ctx, file, 255);
    assert ctx.fed == file;
    text := Text(ctx);
  }
}
