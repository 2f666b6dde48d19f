/** rsa_encrypt and rsa_decrypt: messages of any length through a block cipher. */
module Rsa {
  import opened CText

  /** An RSA key as OpenSSL offers it: `size` bytes a block, of which 11 go to the padding of section 7.2.1 of
      RFC 8017. `enc` also depends on the random padding drawn for the block. */
  datatype Cipher = Cipher(size: nat, enc: (string, nat) -> string, dec: string -> Option<string>)

  type Key = c: Cipher | 11 < c.size witness Cipher(12, (m: string, r: nat) => m, (t: string) => None)

  ghost predicate Sound(c: Key) {
    && (forall m, r {:trigger c.enc(m, r)} :: |m| <= c.size - 11 ==>
          |c.enc(m, r)| == c.size && c.dec(c.enc(m, r)) == Some(m))
    && (forall t {:trigger c.dec(t)} :: c.dec(t).Some? ==> |c.dec(t).value| <= c.size - 11)
  }

  /** What one encrypted block carries of `n` bytes that are left. */
  function Carried(c: Key, n: nat): (k: nat)
    ensures k <= n && (n > 0 ==> k > 0) && k <= c.size - 11
  {
    if n >= c.size - 11 then c.size - 11 else n
  }

  function Encrypted(c: Key, m: string, r: nat): string
    decreases |m|
  {
    if m == [] then []
    else
      var k := Carried(c, |m|);
      c.enc(m[..k], r) + Encrypted(c, m[k..], r + 1)
  }

  /** How decryption ends: with the input, at a block the cipher refuses, or at less than a block. */
  datatype Stop = AllRead | BadBlock | PartBlock

  datatype Progress = Progress(text: string, stop: Stop)

  function Decrypted(c: Key, t: string): Progress
    decreases |t|
  {
    if t == [] then Progress([], AllRead)
    else if |t| < c.size then Progress([], PartBlock)
    else
      match c.dec(t[..c.size])
      case None => Progress([], BadBlock)
      case Some(a) =>
        var p := Decrypted(c, t[c.size..]);
        Progress(a + p.text, p.stop)
  }

  /** The size of the encryption of `n` bytes. */
  function SizeOf(c: Key, n: nat): nat
    decreases n
  {
    if n == 0 then 0 else c.size + SizeOf(c, n - Carried(c, n))
  }

  lemma {:induction false} EncryptedSize(c: Key, m: string, r: nat)
    requires Sound(c)
    ensures |Encrypted(c, m, r)| == SizeOf(c, |m|)
    decreases |m|
  {
    if m != [] {
      EncryptedSize(c, m[Carried(c, |m|)..], r + 1);
    }
  }

  /** More plain text in front. */
  function Onto(done: string, p: Progress): Progress {
    Progress(done + p.text, p.stop)
  }

  lemma OntoTwice(a: string, b: string, c: string, p: Progress)
    requires a + b == c
    ensures Onto(a, Onto(b, p)) == Onto(c, p)
  {
    assert a + (b + p.text) == c + p.text;
  }

  lemma DecryptsOne(c: Key, block: string, text: string, rest: string, t: string)
    requires |block| == c.size && c.dec(block) == Some(text) && t == block + rest
    ensures Decrypted(c, t) == Onto(text, Decrypted(c, rest))
  {
    assert t[..c.size] == block && t[c.size..] == rest;
  }

  lemma EncryptedFirst(c: Key, m: string, r: nat, k: nat)
    requires m != [] && k == Carried(c, |m|)
    ensures Encrypted(c, m, r) == c.enc(m[..k], r) + Encrypted(c, m[k..], r + 1)
  {
  }

  /** What is encrypted decrypts to itself, and decryption then goes on with whatever follows. */
  lemma {:induction false} DecryptsThen(c: Key, m: string, r: nat, more: string, t: string)
    requires Sound(c) && t == Encrypted(c, m, r) + more
    ensures Decrypted(c, t) == Onto(m, Decrypted(c, more))
    decreases |m|
  {
    if m == [] {
      assert t == more && Onto(m, Decrypted(c, more)) == Decrypted(c, more);
    } else {
      var k := Carried(c, |m|);
      var first, rest := c.enc(m[..k], r), Encrypted(c, m[k..], r + 1) + more;
      EncryptedFirst(c, m, r, k);
      assert t == first + rest;
      DecryptsThen(c, m[k..], r + 1, more, rest);
      DecryptsOne(c, first, m[..k], rest, t);
      OntoTwice(m[..k], m[k..], m, Decrypted(c, more));
    }
  }

  /** Decrypting the chunked encryption returns the message; its size is that of a whole number of blocks. */
  lemma ChunksRoundTrip(c: Key, m: string, r: nat)
    requires Sound(c)
    ensures Decrypted(c, Encrypted(c, m, r)) == Progress(m, AllRead) && |Encrypted(c, m, r)| == SizeOf(c, |m|)
  {
    EncryptedSize(c, m, r);
    DecryptsThen(c, m, r, [], Encrypted(c, m, r) + []);
    assert Encrypted(c, m, r) + [] == Encrypted(c, m, r) && m + [] == m;
  }

  lemma Successor(b: nat, p: nat)
    ensures (b + 1) * p == b * p + p && (b > 0 ==> b * p >= p)
  {
  }

  /** ceil(n / (size - 11)). */
  ghost predicate IsBlocks(c: Key, n: nat, blocks: nat) {
    n <= blocks * (c.size - 11) < n + (c.size - 11)
  }

  /** The size is ceil(n / (size - 11)) blocks. */
  lemma {:induction false} SizeIsBlocks(c: Key, n: nat, blocks: nat)
    requires IsBlocks(c, n, blocks)
    ensures SizeOf(c, n) == blocks * c.size
    decreases blocks
  {
    if blocks > 0 {
      var p, b := c.size - 11, blocks - 1;
      Successor(b, p);
      Successor(b, c.size);
      if n >= p {
        SizeIsBlocks(c, n - p, b);
      } else {
        assert b == 0;
      }
    }
  }

  /** Every message has that number of blocks. */
  lemma {:induction false} BlocksExist(c: Key, n: nat) returns (blocks: nat)
    ensures IsBlocks(c, n, blocks) && SizeOf(c, n) == blocks * c.size && (n > 0 ==> blocks > 0)
    decreases n
  {
    if n == 0 {
      blocks := 0;
    } else {
      var b := BlocksExist(c, n - Carried(c, n));
      Successor(b, c.size - 11);
      Successor(b, c.size);
      blocks := b + 1;
    }
  }

  // ----- the parameter tests -----

  /** The parameter test shared by both directions, with its cross-multiplied lengths. */
  predicate Misfit(c: Key, inLen: nat, outLen: nat) {
    inLen * (c.size - 11) > outLen * c.size
  }

  predicate EncryptRefused(c: Key, inLen: nat, outLen: nat) {
    inLen == 0 || outLen < 128 || Misfit(c, inLen, outLen)
  }

  predicate DecryptRefused(c: Key, inLen: nat, outLen: nat) {
    inLen < c.size || outLen <= c.size - 11 || Misfit(c, inLen, outLen)
  }

  /** Block `i` of an encryption occupies the bytes from `i * size` on. */
  predicate BlockInside(c: Key, i: nat, outLen: nat) {
    i * c.size + c.size <= outLen
  }

  lemma Scaled(a: nat, b: nat, k: nat)
    requires a <= b
    ensures a * k <= b * k
  {
    Distribute(a, b - a, k);
  }

  lemma Distribute(a: nat, b: nat, k: nat)
    ensures (a + b) * k == a * k + b * k
  {
  }

  /** Every block written stays inside the output exactly when ceil(n / (size - 11)) blocks fit. */
  lemma BlocksInsideIff(c: Key, n: nat, outLen: nat, blocks: nat)
    requires IsBlocks(c, n, blocks)
    ensures (forall i: nat :: i < blocks ==> BlockInside(c, i, outLen)) <==> SizeOf(c, n) <= outLen
  {
    SizeIsBlocks(c, n, blocks);
    if blocks > 0 {
      Successor(blocks - 1, c.size);
      if SizeOf(c, n) > outLen {
        assert !BlockInside(c, blocks - 1, outLen);
      }
    }
    forall i: nat | i < blocks && SizeOf(c, n) <= outLen ensures BlockInside(c, i, outLen) {
      Scaled(i + 1, blocks, c.size);
      Successor(i, c.size);
    }
  }

  /** A buffer one byte short of the encryption passes the cross-multiplied test. */
  lemma ShortByOneFits(c: Key, n: nat)
    requires n > 0
    ensures SizeOf(c, n) > 0 && !Misfit(c, n, SizeOf(c, n) - 1)
  {
    var k, p := c.size, c.size - 11;
    var b := BlocksExist(c, n);
    Successor(b - 1, k);
    Scaled(n, b * p, p);
    SquareGap(b, k, p);
  }

  lemma SquareGap(b: nat, k: nat, p: nat)
    requires b > 0 && k == p + 11 && p > 0
    ensures b * p * p <= (b * k - 1) * k && b * k > 0
  {
    assert b * k == b * p + 11 * b;
    assert (b * k - 1) * k == b * k * k - k;
    assert b * k * k == (b * p + 11 * b) * k == b * p * k + 11 * b * k;
    assert b * p * k == b * p * p + 11 * (b * p);
    Scaled(1, b, k);
  }

  /** For a message of `n` bytes the parameter test alone keeps every block inside the output, whatever the output's
      length, exactly when the encryption fits the 128 bytes the test insists on. */
  lemma TestImpliesRoomIff(c: Key, n: nat)
    ensures (forall outLen: nat :: !EncryptRefused(c, n, outLen) ==> SizeOf(c, n) <= outLen)
       <==> n == 0 || SizeOf(c, n) <= 128
  {
    if n > 0 && SizeOf(c, n) > 128 {
      ShortByOneFits(c, n);
      assert !EncryptRefused(c, n, SizeOf(c, n) - 1);
    }
  }

  /** 118 bytes need two blocks of 128, and a buffer of 128 is accepted. */
  lemma EncryptTestAdmitsShortBuffer(c: Key)
    requires c.size == 128
    ensures !EncryptRefused(c, 118, 128) && SizeOf(c, 118) > 128
  {
    assert Carried(c, 118) == 117;
  }

  /** An output with room for the encryption, and no shorter than 128 bytes, is never refused. */
  lemma RoomIsAccepted(c: Key, n: nat, outLen: nat)
    requires 0 < n && 128 <= outLen && SizeOf(c, n) <= outLen
    ensures !EncryptRefused(c, n, outLen)
  {
    ShortByOneFits(c, n);
    Scaled(SizeOf(c, n) - 1, outLen, c.size);
  }

  /** The callers' outputs of four times the input are refused exactly when the input is less than a block. */
  lemma FourfoldAccepted(c: Key, n: nat)
    ensures DecryptRefused(c, n, 4 * n) <==> n < c.size
  {
    Scaled(n, 4 * n, c.size);
    Commute(n, c.size - 11);
    Commute(n, c.size);
    Scaled(c.size - 11, c.size, n);
  }

  lemma Commute(a: nat, b: nat)
    ensures a * b == b * a
  {
  }

  // ----- memory -----

  function Zeros(n: nat): (z: string)
    ensures |z| == n && forall i :: 0 <= i < n ==> z[i] == NUL
  {
    seq(n, i => NUL)
  }

  /** A buffer of `n` bytes that starts with `text` and is zero behind it. */
  function Filled(text: string, n: nat): (b: string)
    ensures |text| <= n ==> |b| == n
  {
    text + Zeros(if |text| <= n then n - |text| else 0)
  }

  lemma FilledMore(done: string, text: string, n: nat)
    requires |done| + |text| <= n
    ensures Filled(done, n)[..|done|] + text + Filled(done, n)[|done| + |text|..] == Filled(done + text, n)
  {
  }

  /** Storing a block: memcpy into the output. */
  method Store(out: array<char>, at: nat, text: string)
    requires at + |text| <= out.Length
    modifies out
    ensures out[..] == old(out[..at]) + text + old(out[at + |text|..])
  {
    var i := 0;
    while i < |text|
      invariant i <= |text|
      invariant out[..at + i] == old(out[..at]) + text[..i]
      invariant out[at + i..] == old(out[at + i..])
    {
      out[at + i] := text[i];
      i := i + 1;
    }
    assert text[..i] == text;
    assert out[..] == out[..at + i] + out[at + i..];
  }

  /** memset to zero. */
  method Clear(out: array<char>)
    modifies out
    ensures out[..] == Filled([], out.Length)
  {
    var i := 0;
    while i < out.Length
      invariant i <= out.Length && forall j :: 0 <= j < i ==> out[j] == NUL
    {
      out[i] := NUL;
      i := i + 1;
    }
  }

  // ----- the source -----

  /** The two kinds of failure: -1 for refused parameters, and OpenSSL's error code for a key or a block. */
  datatype Code = Ok | MinusOne | ErrorCode

  /** `Overrun`: a block is written behind the end of the output. `Overread`: one is read behind the end of the
      input. Otherwise the code returned and the length reported; a failure leaves the length as it was. */
  datatype Outcome = Overrun | Overread | Returned(code: Code, len: nat)

  lemma EncryptStep(c: Key, done: string, rest: string, draw: nat, k: nat, all: string)
    requires rest != [] && k == Carried(c, |rest|)
    requires all == done + Encrypted(c, rest, draw)
    ensures all == (done + c.enc(rest[..k], draw)) + Encrypted(c, rest[k..], draw + 1)
    ensures SizeOf(c, |rest|) == c.size + SizeOf(c, |rest[k..]|)
  {
  }

  /** rsa_encrypt; `key` is None when the key data cannot be loaded. */
  method RsaEncrypt(key: Option<Key>, input: string, out: array<char>) returns (r: Outcome)
    requires key.Some? ==> Sound(key.value)
    modifies out
    ensures key == None ==> r == Returned(ErrorCode, out.Length) && out[..] == old(out[..])
    ensures key.Some? && EncryptRefused(key.value, |input|, out.Length) ==>
              r == Returned(MinusOne, out.Length) && out[..] == old(out[..])
    ensures key.Some? && !EncryptRefused(key.value, |input|, out.Length) ==>
              if SizeOf(key.value, |input|) > out.Length then r == Overrun
              else r == Returned(Ok, SizeOf(key.value, |input|)) &&
                   out[..] == Filled(Encrypted(key.value, input, 0), out.Length)
  {
    if key == None {
      return Returned(ErrorCode, out.Length);
    }
    if EncryptRefused(key.value, |input|, out.Length) {
      return Returned(MinusOne, out.Length);
    }
    Clear(out);
    r := EncryptBlocks(key.value, input, out);
  }

  /** The block loop. */
  method EncryptBlocks(c: Key, input: string, out: array<char>) returns (r: Outcome)
    requires Sound(c) && out[..] == Filled([], out.Length)
    modifies out
    ensures if SizeOf(c, |input|) > out.Length then r == Overrun
            else r == Returned(Ok, SizeOf(c, |input|)) && out[..] == Filled(Encrypted(c, input, 0), out.Length)
  {
    ghost var all, size := Encrypted(c, input, 0), SizeOf(c, |input|);
    ghost var done := "";
    EncryptedSize(c, input, 0);
    var rest, encLen: nat, draw: nat := input, 0, 0;
    while |rest| > 0
      invariant encLen == |done| <= out.Length && size == encLen + SizeOf(c, |rest|)
      invariant all == done + Encrypted(c, rest, draw)
      invariant out[..] == Filled(done, out.Length)
      decreases |rest|
    {
      var flen := Carried(c, |rest|);
      EncryptStep(c, done, rest, draw, flen, all);
      var block := c.enc(rest[..flen], draw);
      if encLen + |block| > out.Length {
        return Overrun;
      }
      FilledMore(done, block, out.Length);
      Store(out, encLen, block);
      done := done + block;
      encLen, rest, draw := encLen + |block|, rest[flen..], draw + 1;
    }
    assert all == done;
    r := Returned(Ok, encLen);
  }

  /** The most that `n` bytes of blocks can decrypt to. */
  function Room(c: Key, n: nat): nat
    decreases n
  {
    if n < c.size then 0 else c.size - 11 + Room(c, n - c.size)
  }

  lemma {:induction false} RoomTimesSize(c: Key, n: nat)
    ensures Room(c, n) * c.size <= n * (c.size - 11)
    decreases n
  {
    if n >= c.size {
      RoomTimesSize(c, n - c.size);
      Distribute(c.size - 11, Room(c, n - c.size), c.size);
      Distribute(c.size, n - c.size, c.size - 11);
      Commute(c.size, c.size - 11);
    }
  }

  /** The parameter test leaves room for every block of the input. */
  lemma RoomForBlocks(c: Key, n: nat, outLen: nat)
    ensures Misfit(c, n, outLen) || Room(c, n) <= outLen
  {
    RoomTimesSize(c, n);
    if Room(c, n) > outLen {
      Distribute(outLen, Room(c, n) - outLen, c.size);
      Successor(Room(c, n) - outLen, c.size);
    }
  }

  lemma DecryptStep(c: Key, done: string, rest: string, all: Progress)
    requires rest != [] && all == Onto(done, Decrypted(c, rest))
    ensures |rest| < c.size ==> all == Progress(done, PartBlock)
    ensures |rest| >= c.size && c.dec(rest[..c.size]) == None ==> all == Progress(done, BadBlock)
    ensures |rest| >= c.size && c.dec(rest[..c.size]).Some? ==>
              all == Onto(done + c.dec(rest[..c.size]).value, Decrypted(c, rest[c.size..]))
  {
  }

  /** rsa_decrypt. The parameter test keeps every block inside the output. After a refused block the output holds
      what came before it, zeros behind that, and the length is not set. */
  method RsaDecrypt(key: Option<Key>, input: string, out: array<char>) returns (r: Outcome)
    requires key.Some? ==> Sound(key.value)
    modifies out
    ensures key == None ==> r == Returned(ErrorCode, out.Length) && out[..] == old(out[..])
    ensures key.Some? && DecryptRefused(key.value, |input|, out.Length) ==>
              r == Returned(MinusOne, out.Length) && out[..] == old(out[..])
    ensures key.Some? && !DecryptRefused(key.value, |input|, out.Length) ==>
              var p := Decrypted(key.value, input);
              && |p.text| <= out.Length
              && (p.stop == PartBlock ==> r == Overread)
              && (p.stop == BadBlock ==> r == Returned(ErrorCode, out.Length) && out[..] == Filled(p.text, out.Length))
              && (p.stop == AllRead ==> r == Returned(Ok, |p.text|) && out[..] == Filled(p.text, out.Length))
  {
    if key == None {
      return Returned(ErrorCode, out.Length);
    }
    if DecryptRefused(key.value, |input|, out.Length) {
      return Returned(MinusOne, out.Length);
    }
    RoomForBlocks(key.value, |input|, out.Length);
    Clear(out);
    r := DecryptBlocks(key.value, input, out);
  }

  /** The block loop. */
  method DecryptBlocks(c: Key, input: string, out: array<char>) returns (r: Outcome)
    requires Sound(c) && out[..] == Filled([], out.Length) && Room(c, |input|) <= out.Length
    modifies out
    ensures var p := Decrypted(c, input);
            && |p.text| <= out.Length
            && (p.stop == PartBlock ==> r == Overread)
            && (p.stop == BadBlock ==> r == Returned(ErrorCode, out.Length) && out[..] == Filled(p.text, out.Length))
            && (p.stop == AllRead ==> r == Returned(Ok, |p.text|) && out[..] == Filled(p.text, out.Length))
  {
    ghost var all := Decrypted(c, input);
    ghost var done := "";
    assert all == Onto(done, all);
    var rest, decLen: nat := input, 0;
    while |rest| > 0
      invariant decLen == |done| && decLen + Room(c, |rest|) <= out.Length
      invariant all == Onto(done, Decrypted(c, rest))
      invariant out[..] == Filled(done, out.Length)
      decreases |rest|
    {
      DecryptStep(c, done, rest, all);
      if |rest| < c.size {
        return Overread;
      }
      var block := c.dec(rest[..c.size]);
      if block == None {
        return Returned(ErrorCode, out.Length);
      }
      FilledMore(done, block.value, out.Length);
      Store(out, decLen, block.value);
      done := done + block.value;
      decLen, rest := decLen + |block.value|, rest[c.size..];
    }
    assert all == Progress(done, AllRead);
    r := Returned(Ok, decLen);
  }
}
