/** The one-shot digest in the words of RFC 1321 and RFC 2104: bit strings, weights and chained states, without the
    functions that compute it. */
module Md5Rfc {
  import opened Md5
  import opened Hmac

  /** The number whose low-order byte comes first. */
  function LittleEndian(bs: seq<Byte>): (n: nat) {
    if bs == [] then 0 else bs[0] + 0x100 * LittleEndian(bs[1..])
  }

  lemma {:induction false} LittleEndianAppend(a: seq<Byte>, b: seq<Byte>)
    ensures LittleEndian(a + b) == LittleEndian(a) + Weight(|a|) * LittleEndian(b)
  {
    if a == [] {
      assert a + b == b;
    } else {
      LittleEndianAppend(a[1..], b);
      assert (a + b)[1..] == a[1..] + b;
      WeightTimes(|a|, LittleEndian(b));
    }
  }

  function Weight(n: nat): (w: nat) {
    if n == 0 then 1 else 0x100 * Weight(n - 1)
  }

  lemma WeightTimes(n: nat, x: nat)
    requires n > 0
    ensures 0x100 * (Weight(n - 1) * x) == Weight(n) * x
  {
  }

  /** Byte strings of one length with the same value are the same. */
  lemma {:induction false} SameValue(a: seq<Byte>, b: seq<Byte>)
    requires |a| == |b| && LittleEndian(a) == LittleEndian(b)
    ensures a == b
  {
    if a != [] {
      LowByte(a[0], LittleEndian(a[1..]), b[0], LittleEndian(b[1..]));
      SameValue(a[1..], b[1..]);
      assert a == [a[0]] + a[1..] && b == [b[0]] + b[1..];
    }
  }

  lemma LowByte(a: Byte, x: nat, b: Byte, y: nat)
    requires a + 0x100 * x == b + 0x100 * y
    ensures a == b && x == y
  {
  }

  // ----- words -----

  /** Four bytes of weights 1, 256, 256^2 and 256^3. */
  function Weighed(a: int, b: int, c: int, d: int): int {
    a + 0x100 * b + 0x1_0000 * c + 0x100_0000 * d
  }

  lemma FourBytes(b: seq<Byte>)
    requires |b| == 4
    ensures LittleEndian(b) == Weighed(b[0], b[1], b[2], b[3])
  {
    var c := b[1..];
    var d := c[1..];
    var e := d[1..];
    assert e[1..] == [] && LittleEndian(e) == b[3];
    assert LittleEndian(d) == b[2] + 0x100 * LittleEndian(e);
    assert LittleEndian(c) == b[1] + 0x100 * LittleEndian(d);
  }

  lemma WordValue(w: Word)
    ensures |EncodeWord(w)| == 4
    ensures var b := EncodeWord(w); Weighed(b[0], b[1], b[2], b[3]) == w
  {
    var q := w / 0x100;
    var r := q / 0x100;
    assert w == w % 0x100 + 0x100 * q && q == q % 0x100 + 0x100 * r && r == r % 0x100 + 0x100 * (r / 0x100);
    assert w / 0x1_0000 == r && w / 0x100_0000 == r / 0x100;
  }

  /** Byte j of word i of an encoding has weight 256^j. */
  lemma {:induction false} EncodeAt(ws: seq<Word>, i: nat)
    requires i < |ws|
    ensures var b := Encode(ws)[4 * i..4 * i + 4];
            Weighed(b[0], b[1], b[2], b[3]) == ws[i] == LittleEndian(b)
  {
    var n := |ws| - 1;
    var e := Encode(ws);
    if i == n {
      assert e[4 * i..4 * i + 4] == EncodeWord(ws[n]);
      WordValue(ws[n]);
      FourBytes(EncodeWord(ws[n]));
    } else {
      EncodeAt(ws[..n], i);
      assert e[4 * i..4 * i + 4] == Encode(ws[..n])[4 * i..4 * i + 4];
    }
  }

  /** The initial state of section 3.3 is the bytes 01 23 45 67, 89 ab cd ef, and these backwards. */
  lemma InitialBytes()
    ensures Encode(IV) == [0x01, 0x23, 0x45, 0x67, 0x89, 0xab, 0xcd, 0xef,
                           0xfe, 0xdc, 0xba, 0x98, 0x76, 0x54, 0x32, 0x10]
  {
    InitialWords();
    var ws := IV;
    assert ws[..3][..2] == ws[..2] && ws[..2][..1] == ws[..1] && ws[..1][..0] == [];
    assert Encode(ws[..1]) == EncodeWord(ws[0]);
    assert Encode(ws[..2]) == Encode(ws[..1]) + EncodeWord(ws[1]);
    assert Encode(ws[..3]) == Encode(ws[..2]) + EncodeWord(ws[2]);
  }

  lemma InitialWords()
    ensures EncodeWord(IV[0]) == [0x01, 0x23, 0x45, 0x67] && EncodeWord(IV[1]) == [0x89, 0xab, 0xcd, 0xef]
    ensures EncodeWord(IV[2]) == [0xfe, 0xdc, 0xba, 0x98] && EncodeWord(IV[3]) == [0x76, 0x54, 0x32, 0x10]
  {
  }

  // ----- padding -----

  /** Sections 3.1 and 3.2: the message, a byte 80, zeros up to the first length that is 56 modulo 64, then eight bytes
      whose value is the number of bits modulo 2^64. */
  ghost predicate IsPadded(p: seq<Byte>, m: seq<Byte>) {
    && m <= p && |p| % 64 == 0 && |m| + 9 <= |p| < |m| + 73
    && p[|m|] == 0x80 && (forall i :: |m| < i < |p| - 8 ==> p[i] == 0)
    && LittleEndian(p[|p| - 8..]) == 8 * |m| % 0x1_0000_0000_0000_0000
  }

  lemma TwoWords(n: nat)
    ensures LittleEndian(Encode(BitCount(n))) == 8 * n % 0x1_0000_0000_0000_0000
  {
    var ws := BitCount(n);
    var e := Encode(ws);
    EncodeAt(ws, 0);
    EncodeAt(ws, 1);
    assert e == e[..4] + e[4..] && e[0..4] == e[..4] && e[4..8] == e[4..];
    LittleEndianAppend(e[..4], e[4..]);
    assert Weight(4) == 0x100 * (0x100 * (0x100 * (0x100 * Weight(0))));
    Halves(8 * n, ws[0], ws[1]);
  }

  lemma Halves(x: nat, low: nat, high: nat)
    requires low == x % TWO32 && high == x / TWO32 % TWO32
    ensures low + TWO32 * high == x % 0x1_0000_0000_0000_0000
  {
    var q := x / TWO32;
    var r := q / TWO32;
    assert x == low + TWO32 * q && q == high + TWO32 * r;
    assert x == (low + TWO32 * high) + 0x1_0000_0000_0000_0000 * r;
  }

  /** Two multiples of 64 that are less than 64 apart are the same. */
  lemma SameMultiple(a: nat, b: nat, low: nat)
    requires a % 64 == 0 && b % 64 == 0 && low <= a < low + 64 && low <= b < low + 64
    ensures a == b
  {
  }

  lemma PaddedIs(m: seq<Byte>)
    ensures IsPadded(Padded(m), m)
  {
    var p, k := Padded(m), PadLength(|m|);
    TwoWords(|m|);
    assert p[|p| - 8..] == Encode(BitCount(|m|));
    assert forall i :: 0 <= i < k ==> p[|m| + i] == Padding(k)[i];
    assert p[|m|] == Padding(k)[0];
    forall i | |m| < i < |p| - 8 ensures p[i] == 0 {
      assert p[|m| + (i - |m|)] == Padding(k)[i - |m|];
    }
  }

  /** There is exactly one such string, the one the digest is taken of. */
  lemma PaddedIff(p: seq<Byte>, m: seq<Byte>)
    ensures p == Padded(m) <==> IsPadded(p, m)
  {
    PaddedIs(m);
    if IsPadded(p, m) {
      var q := Padded(m);
      SameMultiple(|p|, |q|, |m| + 9);
      SameValue(p[|p| - 8..], q[|q| - 8..]);
      forall i | 0 <= i < |p| ensures p[i] == q[i] {
        if i >= |p| - 8 {
          assert p[i] == p[|p| - 8..][i - (|p| - 8)] && q[i] == q[|q| - 8..][i - (|q| - 8)];
        }
      }
    }
  }

  // ----- the digest -----

  /** Section 3.4: the states a padded message is taken through, block after block. */
  ghost predicate Chained(f: Compression, ss: seq<Words>, p: seq<Byte>) {
    && |p| == 64 * (|ss| - 1) && ss != [] && ss[0] == IV
    && forall k :: 0 <= k < |ss| - 1 ==> ss[k + 1] == f(ss[k], p[64 * k..64 * k + 64])
  }

  lemma {:induction false} ChainedFold(f: Compression, ss: seq<Words>, p: seq<Byte>)
    requires Chained(f, ss, p)
    ensures Fold(f, p) == ss[|ss| - 1]
  {
    var n := |ss| - 1;
    if n > 0 {
      var front := p[..64 * (n - 1)];
      forall k | 0 <= k < n - 1 ensures ss[..n][k + 1] == f(ss[..n][k], front[64 * k..64 * k + 64]) {
        assert front[64 * k..64 * k + 64] == p[64 * k..64 * k + 64];
      }
      ChainedFold(f, ss[..n], front);
      assert p[64 * (n - 1)..] == p[64 * (n - 1)..64 * (n - 1) + 64];
      assert ss[n - 1 + 1] == f(ss[n - 1], p[64 * (n - 1)..64 * (n - 1) + 64]);
    }
  }

  /** The digest is the 16 bytes whose four words, low byte first, are the last state. */
  lemma DigestIff(f: Compression, m: seq<Byte>, p: seq<Byte>, ss: seq<Words>, d: seq<Byte>)
    requires IsPadded(p, m) && Chained(f, ss, p)
    ensures d == Digest(f, m) <==> Spells(d, ss[|ss| - 1])
  {
    PaddedIff(p, m);
    ChainedFold(f, ss, p);
    EncodedWords(ss[|ss| - 1]);
    if Spells(d, ss[|ss| - 1]) {
      SpelledOnce(d, Digest(f, m), ss[|ss| - 1]);
    }
  }

  /** The four bytes of word `i`. */
  function Quad(d: seq<Byte>, i: nat): seq<Byte>
    requires 4 * i + 4 <= |d|
  {
    d[4 * i..4 * i + 4]
  }

  /** Four words, the low byte of each first. */
  ghost predicate Spells(d: seq<Byte>, ws: Words) {
    |d| == 16 && forall i: nat :: i < 4 ==> LittleEndian(Quad(d, i)) == ws[i]
  }

  lemma EncodedWords(ws: Words)
    ensures Spells(Encode(ws), ws)
  {
    forall i: nat | i < 4 ensures LittleEndian(Quad(Encode(ws), i)) == ws[i] {
      EncodeAt(ws, i);
    }
  }

  lemma SpelledOnce(d: seq<Byte>, e: seq<Byte>, ws: Words)
    requires Spells(d, ws) && Spells(e, ws)
    ensures d == e
  {
    WordOnce(d, e, ws, 0);
    WordOnce(d, e, ws, 1);
    WordOnce(d, e, ws, 2);
    WordOnce(d, e, ws, 3);
    FourWords(d);
    FourWords(e);
  }

  lemma WordOnce(d: seq<Byte>, e: seq<Byte>, ws: Words, i: nat)
    requires Spells(d, ws) && Spells(e, ws) && i < 4
    ensures Quad(d, i) == Quad(e, i)
  {
    SameValue(Quad(d, i), Quad(e, i));
  }

  lemma FourWords(d: seq<Byte>)
    requires |d| == 16
    ensures d == Quad(d, 0) + Quad(d, 1) + Quad(d, 2) + Quad(d, 3)
  {
  }

  /** Such states exist for every padded message. */
  lemma {:induction false} ChainExists(f: Compression, p: seq<Byte>) returns (ss: seq<Words>)
    requires |p| % 64 == 0
    ensures Chained(f, ss, p)
  {
    if p == [] {
      ss := [IV];
    } else {
      var n := |p| - 64;
      Minus64(|p|);
      var front := ChainExists(f, p[..n]);
      ss := front + [f(front[|front| - 1], p[n..])];
      forall k | 0 <= k < |ss| - 1 ensures ss[k + 1] == f(ss[k], p[64 * k..64 * k + 64]) {
        if k < |front| - 1 {
          assert p[..n][64 * k..64 * k + 64] == p[64 * k..64 * k + 64];
          assert front[k + 1] == f(front[k], p[..n][64 * k..64 * k + 64]);
        } else {
          assert p[64 * k..64 * k + 64] == p[n..];
        }
      }
    }
  }

  lemma Minus64(n: nat)
    requires 64 <= n && n % 64 == 0
    ensures (n - 64) % 64 == 0
  {
  }

  // ----- cutting a message into chunks -----

  lemma {:induction false} ConcatAppend(a: seq<seq<Byte>>, b: seq<seq<Byte>>)
    ensures Concat(a + b) == Concat(a) + Concat(b)
    ensures forall x :: Concat([x]) == x
    decreases |b|
  {
    forall x: seq<Byte> ensures Concat([x]) == x {
      assert [x][..0] == [];
    }
    if b == [] {
      assert a + b == a;
    } else {
      ConcatAppend(a, b[..|b| - 1]);
      assert (a + b)[..|a + b| - 1] == a + b[..|b| - 1];
    }
  }

  // ----- HMAC -----

  /** The zero-filled key combined with a byte throughout. */
  ghost predicate Masks(block: seq<Byte>, k: seq<Byte>, mask: bv8) {
    |block| == 64 &&
    forall i :: 0 <= i < 64 ==> block[i] == (((if i < |k| then k[i] else 0) as bv8) ^ mask) as int
  }

  lemma MasksIsPad(block: seq<Byte>, k: seq<Byte>, mask: bv8)
    requires |k| <= 64 && Masks(block, k, mask)
    ensures block == Pad(k, mask)
  {
    forall i | 0 <= i < 64 ensures block[i] == Pad(k, mask)[i] {
      var b: Byte := if i < |k| then k[i] else 0;
      assert block[i] == Xor(b, mask);
    }
  }

  /** Section 2 of RFC 2104: a key of more than 64 bytes is replaced by its digest; the key is filled with zeros to a
      block, and combined with 36 within and with 5c without. */
  lemma HmacIs(f: Compression, key: seq<Byte>, text: seq<Byte>, k: seq<Byte>, inner: seq<Byte>, outer: seq<Byte>)
    requires k == if |key| <= 64 then key else Digest(f, key)
    requires Masks(inner, k, 0x36) && Masks(outer, k, 0x5c)
    ensures Hmac.Hmac(f, key, text) == Digest(f, outer + Digest(f, inner + text))
  {
    MasksIsPad(inner, k, 0x36);
    MasksIsPad(outer, k, 0x5c);
  }
}
