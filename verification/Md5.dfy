/** The streaming MD5 context (our_md5.c, md5lib.c), for any compression function. */
module Md5 {

  type Byte = b: int | 0 <= b < 0x100
  type Word = w: int | 0 <= w < 0x1_0000_0000
  type Words = s: seq<Word> | |s| == 4 witness [0, 0, 0, 0]
  type Compression = (Words, seq<Byte>) -> Words

  const TWO32: int := 0x1_0000_0000
  const IV: Words := [0x67452301, 0xefcdab89, 0x98badcfe, 0x10325476]

  // ----- the one-shot digest of section 3 of RFC 1321 -----

  /** The whole 64-byte blocks of `m`, folded into the state one after the other. */
  function Fold(f: Compression, m: seq<Byte>): Words {
    if |m| < 64 then IV else f(Fold(f, m[..|m| - 64]), m[|m| - 64..])
  }

  /** Little-endian bytes of a word. */
  function EncodeWord(w: Word): seq<Byte> {
    [w % 0x100, w / 0x100 % 0x100, w / 0x1_0000 % 0x100, w / 0x100_0000]
  }

  function Encode(ws: seq<Word>): (bs: seq<Byte>)
    ensures |bs| == 4 * |ws|
  {
    if ws == [] then [] else Encode(ws[..|ws| - 1]) + EncodeWord(ws[|ws| - 1])
  }

  function BitCount(n: nat): (ws: seq<Word>)
    ensures |ws| == 2
  {
    [8 * n % TWO32, 8 * n / TWO32 % TWO32]
  }

  /** How many padding bytes bring `n` to 56 modulo 64, at least one. */
  function PadLength(n: nat): (k: nat)
    ensures 1 <= k <= 64 && (n + k) % 64 == 56
  {
    if n % 64 < 56 then 56 - n % 64 else 120 - n % 64
  }

  function Padding(k: nat): (p: seq<Byte>)
    ensures |p| == k
  {
    seq<Byte>(k, i => if i == 0 then 0x80 else 0)
  }

  function Padded(m: seq<Byte>): (p: seq<Byte>)
    ensures |p| % 64 == 0
  {
    m + Padding(PadLength(|m|)) + Encode(BitCount(|m|))
  }

  function Digest(f: Compression, m: seq<Byte>): (d: seq<Byte>)
    ensures |d| == 16
  {
    Encode(Fold(f, Padded(m)))
  }

  // ----- lemmas -----

  lemma FoldBlock(f: Compression, m: seq<Byte>, b: seq<Byte>)
    requires |b| == 64
    ensures Fold(f, m + b) == f(Fold(f, m), b)
  {
    assert (m + b)[..|m|] == m && (m + b)[|m|..] == b;
  }

  /** Adding the bits of `len` bytes to a two-word count with 32-bit wrap-around. */
  function AddedCount(c: seq<Word>, len: nat): (r: seq<Word>)
    requires |c| == 2 && len < TWO32
    ensures |r| == 2
  {
    var add := 8 * len % TWO32;
    var low := (c[0] + add) % TWO32;
    var high := if low < add then (c[1] + 1) % TWO32 else c[1];
    [low, (high + len / 0x2000_0000) % TWO32]
  }

  /** The two 32-bit halves with their carry are the 64-bit count. */
  lemma CountAdds(n: nat, len: nat)
    requires len < TWO32
    ensures AddedCount(BitCount(n), len) == BitCount(n + len)
  {
    var old0, add := 8 * n % TWO32, 8 * len % TWO32;
    var q, l := 8 * n / TWO32, 8 * len / TWO32;
    assert l == len / 0x2000_0000;
    var sum := old0 + add;
    var carry := if sum % TWO32 < add then 1 else 0;
    assert sum == sum % TWO32 + TWO32 * carry;
    assert 8 * (n + len) == sum % TWO32 + TWO32 * (q + l + carry);
    QuotientRemainder(8 * (n + len), q + l + carry, sum % TWO32);
    RemainderTwice(q, carry);
    RemainderTwice(q + carry, l);
  }

  lemma RemainderTwice(a: nat, b: nat)
    ensures (a % TWO32 + b) % TWO32 == (a + b) % TWO32
  {
  }

  lemma QuotientRemainder(x: nat, q: nat, r: nat)
    requires x == r + TWO32 * q && r < TWO32
    ensures x / TWO32 == q && x % TWO32 == r
  {
  }

  /** The bit count's low word gives the position in the block. */
  lemma CountIndex(n: nat)
    ensures BitCount(n)[0] / 8 % 64 == n % 64
  {
    var q, r := n / 0x2000_0000, n % 0x2000_0000;
    QuotientRemainder(8 * n, q, 8 * r);
    assert n == 64 * (0x80_0000 * q) + r;
  }

  function Whole(n: nat): (w: nat)
    ensures w <= n && n - w < 64 && w % 64 == 0 && n - w == n % 64
  {
    n - n % 64
  }

  /** memcpy. */
  method Copy(dst: array<Byte>, at: nat, src: seq<Byte>)
    requires at + |src| <= dst.Length
    modifies dst
    ensures dst[..at] == old(dst[..at])
    ensures dst[at..at + |src|] == src
    ensures dst[at + |src|..] == old(dst[at + |src|..])
  {
    var i := 0;
    while i < |src|
      invariant i <= |src|
      invariant dst[..at] == old(dst[..at])
      invariant dst[at..at + i] == src[..i]
      invariant dst[at + i..] == old(dst[at + i..])
    {
      dst[at + i] := src[i];
      i := i + 1;
    }
  }

  function Zeros(n: nat): (z: seq<Byte>)
    ensures |z| == n && forall i :: 0 <= i < n ==> z[i] == 0
  {
    seq(n, i => 0)
  }

  lemma Plus64(n: nat)
    requires n % 64 == 0
    ensures (n + 64) % 64 == 0
  {
  }

  /** The block completed by the first bytes of an update. */
  lemma FirstBlock(f: Compression, m: seq<Byte>, x: seq<Byte>)
    requires |x| >= 64 - |m| % 64
    ensures var p := 64 - |m| % 64;
            Fold(f, (m + x)[..|m| + p]) == f(Fold(f, m[..Whole(|m|)]), m[Whole(|m|)..] + x[..p])
    ensures (|m| + (64 - |m| % 64)) % 64 == 0
  {
    var w, p := Whole(|m|), 64 - |m| % 64;
    assert (m + x)[..|m| + p] == m[..w] + (m[w..] + x[..p]);
    FoldBlock(f, m[..w], m[w..] + x[..p]);
  }

  lemma NextBlock(f: Compression, m: seq<Byte>, k: nat)
    requires k + 64 <= |m|
    ensures Fold(f, m[..k + 64]) == f(Fold(f, m[..k]), m[k..k + 64])
  {
    assert m[..k + 64] == m[..k] + m[k..k + 64];
    FoldBlock(f, m[..k], m[k..k + 64]);
  }

  lemma NextInput(f: Compression, m: seq<Byte>, x: seq<Byte>, all: seq<Byte>, i: nat, done: nat)
    requires all == m + x && i + 64 <= |x| && done == |m| + i
    ensures Fold(f, all[..done + 64]) == f(Fold(f, all[..done]), x[i..i + 64])
  {
    NextBlock(f, all, done);
    assert x[i..i + 64] == all[done..done + 64];
  }

  lemma Remainder(n: nat, w: nat, r: nat)
    requires n == w + r && w % 64 == 0 && r < 64
    ensures n % 64 == r && Whole(n) == w
  {
    var k := w / 64;
    assert n == 64 * k + r;
  }

  /** What `state`, `count` and `buffer` say of the message fed so far. */
  ghost predicate Describes(f: Compression, state: Words, count: seq<Word>, buffer: seq<Byte>, m: seq<Byte>)
    requires |buffer| == 64
  {
    Holds(f, state, buffer, m) && count == BitCount(|m|)
  }

  /** The whole blocks are in `state`, the tail is at the front of `buffer`. */
  ghost predicate Holds(f: Compression, state: Words, buffer: seq<Byte>, m: seq<Byte>)
    requires |buffer| == 64
  {
    state == Fold(f, m[..Whole(|m|)]) && buffer[..|m| % 64] == m[Whole(|m|)..]
  }

  lemma HoldsAt(f: Compression, state: Words, buffer: seq<Byte>, m: seq<Byte>, w: nat)
    requires |buffer| == 64 && w % 64 == 0 && w <= |m| < w + 64
    requires state == Fold(f, m[..w]) && buffer[..|m| - w] == m[w..]
    ensures Holds(f, state, buffer, m)
  {
    Remainder(|m|, w, |m| - w);
  }

  /** The end of an update that fills no block: its bytes join the tail in the buffer. */
  lemma UpdateKept(f: Compression, m: seq<Byte>, x: seq<Byte>, state: Words, buffer: seq<Byte>)
    requires |buffer| == 64 && |m| % 64 + |x| < 64 && state == Fold(f, m[..Whole(|m|)])
    requires buffer[..|m| % 64 + |x|] == m[Whole(|m|)..] + x
    ensures Holds(f, state, buffer, m + x)
  {
    var w := Whole(|m|);
    assert (m + x)[..w] == m[..w] && (m + x)[w..] == m[w..] + x;
    HoldsAt(f, state, buffer, m + x, w);
  }

  /** The end of an update of which `i` bytes have gone into blocks and the rest into the buffer. */
  lemma UpdateHeld(f: Compression, m: seq<Byte>, x: seq<Byte>, i: nat, state: Words, buffer: seq<Byte>)
    requires |buffer| == 64 && i <= |x| < i + 64 && (|m| + i) % 64 == 0 && state == Fold(f, (m + x)[..|m| + i])
    requires buffer[..|x| - i] == x[i..]
    ensures Holds(f, state, buffer, m + x)
  {
    assert (m + x)[|m| + i..] == x[i..];
    HoldsAt(f, state, buffer, m + x, |m| + i);
  }

  /** MD5_CTX. */
  class Context {
    const compress: Compression
    const buffer: array<Byte>
    var state: Words
    var count: seq<Word>
    /** The bytes fed since initialisation. */
    ghost var fed: seq<Byte>

    ghost predicate Valid()
      reads this, buffer
    {
      buffer.Length == 64 && Describes(compress, state, count, buffer[..], fed)
    }

    /** our_MD5Init. */
    constructor (f: Compression)
      ensures Valid() && fresh(buffer) && fed == [] && compress == f
    {
      compress := f;
      buffer := new Byte[64](_ => 0);
      state, count := IV, [0, 0];
      fed := [];
    }

    /** The block position, taken from the bit count. */
    method Position() returns (index: nat)
      requires count == BitCount(|fed|)
      ensures index == |fed| % 64
    {
      CountIndex(|fed|);
      index := count[0] / 8 % 64;
    }

    /** The bit count of ourMD5Update, in 32-bit arithmetic. */
    method AddCount(len: nat)
      requires len < TWO32 && count == BitCount(|fed|)
      modifies this`count
      ensures count == BitCount(|fed| + len)
    {
      CountAdds(|fed|, len);
      count := Add(count, len);
    }

    static method Add(c: seq<Word>, len: nat) returns (r: seq<Word>)
      requires |c| == 2 && len < TWO32
      ensures r == AddedCount(c, len)
    {
      r := c;
      var add: Word := 8 * len % TWO32;
      r := r[0 := (r[0] + add) % TWO32];
      if r[0] < add {
        r := r[1 := (r[1] + 1) % TWO32];
      }
      r := r[1 := (r[1] + len / 0x2000_0000) % TWO32];
    }

    /** The part of ourMD5Update that transforms: the block in the buffer, then whole blocks of the input.
        The loop's `i + 63` must not wrap. */
    method Transform(input: seq<Byte>, index: nat) returns (i: nat)
      requires buffer.Length == 64 && index == |fed| % 64
      requires state == Fold(compress, fed[..Whole(|fed|)]) && buffer[..index] == fed[Whole(|fed|)..]
      requires 64 - index <= |input| && |input| + 63 < TWO32
      modifies this`state, buffer
      ensures 0 < i <= |input| < i + 64 && (|fed| + i) % 64 == 0
      ensures state == Fold(compress, (fed + input)[..|fed| + i])
    {
      var partLen := 64 - index;
      Copy(buffer, index, input[..partLen]);
      FirstBlock(compress, fed, input);
      assert buffer[..] == buffer[..index] + buffer[index..64];
      state := compress(state, buffer[..]);
      i := TransformBlocks(input, partLen, fed + input);
    }

    /** The loop over whole blocks; `all` is the message with the input at its end. */
    method TransformBlocks(input: seq<Byte>, first: nat, ghost all: seq<Byte>) returns (i: nat)
      requires all == fed + input && 0 < first <= |input| && |input| + 63 < TWO32 && (|fed| + first) % 64 == 0
      requires state == Fold(compress, all[..|fed| + first])
      modifies this`state
      ensures 0 < i <= |input| < i + 64 && (|fed| + i) % 64 == 0
      ensures state == Fold(compress, all[..|fed| + i])
    {
      i := first;
      ghost var done: nat := |fed| + first;
      while i + 63 < |input|
        invariant first <= i <= |input| && done == |fed| + i && done % 64 == 0
        invariant state == Fold(compress, all[..done])
      {
        NextInput(compress, fed, input, all, i, done);
        Plus64(done);
        state := compress(state, input[i..i + 64]);
        i := i + 64;
        done := done + 64;
      }
    }

    /** An update that completes at least one block. */
    method Absorb(input: seq<Byte>, index: nat)
      requires buffer.Length == 64 && Holds(compress, state, buffer[..], fed) && index == |fed| % 64
      requires 64 - index <= |input| && |input| + 63 < TWO32
      modifies this`state, buffer
      ensures Holds(compress, state, buffer[..], fed + input)
    {
      var i := Transform(input, index);
      Copy(buffer, 0, input[i..]);
      UpdateHeld(compress, fed, input, i, state, buffer[..]);
    }

    /** An update that completes none. */
    method Keep(input: seq<Byte>, index: nat)
      requires buffer.Length == 64 && Holds(compress, state, buffer[..], fed) && index == |fed| % 64
      requires index + |input| < 64
      modifies buffer
      ensures Holds(compress, state, buffer[..], fed + input)
    {
      ghost var held := buffer[..index];
      Copy(buffer, index, input);
      assert buffer[..index + |input|] == held + input;
      UpdateKept(compress, fed, input, state, buffer[..]);
    }

    /** ourMD5Update. */
    method Update(input: seq<Byte>)
      requires Valid() && |input| + 63 < TWO32
      modifies this, buffer
      ensures Valid() && fed == old(fed) + input
    {
      var index := Position();
      AddCount(|input|);
      if |input| >= 64 - index {
        Absorb(input, index);
      } else {
        Keep(input, index);
      }
      fed := fed + input;
    }

    /** our_MD5Final: pads, appends the bit count, and wipes the context. */
    method Final() returns (digest: seq<Byte>)
      requires Valid()
      modifies this, buffer
      ensures digest == Digest(compress, old(fed))
      ensures state == [0, 0, 0, 0] && count == [0, 0] && buffer[..] == Zeros(64)
    {
      ghost var m := fed;
      var bits := EncodeWords(count);
      CountIndex(|fed|);
      var index := count[0] / 8 % 64;
      var padLen := if index < 56 then 56 - index else 120 - index;
      Update(Padding(padLen));
      Update(bits);
      assert fed == Padded(m);
      assert fed[..|fed|] == fed;
      digest := EncodeWords(state);
      state, count := [0, 0, 0, 0], [0, 0];
      Copy(buffer, 0, Zeros(64));
    }
  }

  /** Encode: the loop over words. */
  method EncodeWords(input: seq<Word>) returns (output: seq<Byte>)
    ensures output == Encode(input)
  {
    output := [];
    var i := 0;
    while i < |input|
      invariant i <= |input| && output == Encode(input[..i])
    {
      assert input[..i + 1][..i] == input[..i];
      output := output + EncodeWord(input[i]);
      i := i + 1;
    }
    assert input[..i] == input;
  }

  function Concat(chunks: seq<seq<Byte>>): seq<Byte> {
    if chunks == [] then [] else Concat(chunks[..|chunks| - 1]) + chunks[|chunks| - 1]
  }

  /** Feeds the chunks one by one. */
  method Feed(ctx: Context, chunks: seq<seq<Byte>>)
    requires ctx.Valid()
    requires forall k :: 0 <= k < |chunks| ==> |chunks[k]| + 63 < TWO32
    modifies ctx, ctx.buffer
    ensures ctx.Valid() && ctx.fed == old(ctx.fed) + Concat(chunks)
  {
    ghost var before := ctx.fed;
    var i := 0;
    while i < |chunks|
      invariant i <= |chunks| && ctx.Valid()
      invariant ctx.fed == before + Concat(chunks[..i])
    {
      assert chunks[..i + 1][..i] == chunks[..i];
      ctx.Update(chunks[i]);
      assert (before + Concat(chunks[..i])) + chunks[i] == before + (Concat(chunks[..i]) + chunks[i]);
      i := i + 1;
    }
    assert chunks[..i] == chunks;
  }

  /** Init, one Update per chunk, Final: however a message is cut into chunks, the digest is the one-shot digest
      of their concatenation. */
  method DigestOfChunks(f: Compression, chunks: seq<seq<Byte>>) returns (digest: seq<Byte>)
    requires forall k :: 0 <= k < |chunks| ==> |chunks[k]| + 63 < TWO32
    ensures digest == Digest(f, Concat(chunks))
  {
    var ctx := new Context(f);
    Feed(ctx, chunks);
    assert ctx.fed == Concat(chunks);
    digest := ctx.Final();
  }

  /** Init, one Update and Final. */
  method OneShot(f: Compression, data: seq<Byte>) returns (digest: seq<Byte>)
    requires |data| + 63 < TWO32
    ensures digest == Digest(f, data)
  {
    var ctx := new Context(f);
    ctx.Update(data);
    assert ctx.fed == data;
    digest := ctx.Final();
  }

  // ----- feeding a file -----

  /** fread: any number of bytes up to what is asked for and left, none only at the end. */
  method Fread(rest: seq<Byte>, want: nat) returns (n: nat)
    ensures n <= want && n <= |rest|
    ensures n == 0 <==> want == 0 || rest == []
  {
    var most := if want <= |rest| then want else |rest|;
    n :| n <= most && (n == 0 <==> most == 0);
  }

  lemma NextPiece(before: seq<Byte>, file: seq<Byte>, pos: nat, len: nat)
    requires pos + len <= |file|
    ensures (before + file[..pos]) + file[pos..pos + len] == before + file[..pos + len]
  {
  }

  /** The read loop of MDFile_key and our_MD5File: `chunk` bytes at a time until nothing comes. */
  method FeedWhole(ctx: Context, file: seq<Byte>, chunk: nat)
    requires ctx.Valid() && 0 < chunk <= 1024
    modifies ctx, ctx.buffer
    ensures ctx.Valid() && ctx.fed == old(ctx.fed) + file
  {
    ghost var before := ctx.fed;
    var pos := 0;
    while true
      invariant pos <= |file|
      invariant ctx.Valid() && ctx.fed == before + file[..pos]
      decreases |file| - pos
    {
      var len := Fread(file[pos..], chunk);
      if len == 0 { break; }
      NextPiece(before, file, pos, len);
      ctx.Update(file[pos..pos + len]);
      pos := pos + len;
    }
    assert file[..|file|] == file;
  }
}
