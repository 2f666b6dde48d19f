/** hmac_md5, MDFile_key and MDFile_key_len (md5lib.c). */
module Hmac {
  import opened Md5

  // ----- section 2 of RFC 2104 -----

  function Xor(b: Byte, mask: bv8): Byte {
    ((b as bv8) ^ mask) as int
  }

  /** The key, or its digest when it is longer than a block. */
  function ShortKey(f: Compression, key: seq<Byte>): (k: seq<Byte>)
    ensures |k| <= 64
  {
    if |key| > 64 then Digest(f, key) else key
  }

  /** The key filled up with zeros to a block and combined with a pad byte. */
  function Pad(k: seq<Byte>, mask: bv8): (p: seq<Byte>)
    requires |k| <= 64
    ensures |p| == 64
  {
    seq<Byte>(64, i requires 0 <= i < 64 => Xor(if i < |k| then k[i] else 0, mask))
  }

  /** H(K xor opad, H(K xor ipad, text)). */
  function Hmac(f: Compression, key: seq<Byte>, text: seq<Byte>): seq<Byte> {
    var k := ShortKey(f, key);
    Digest(f, Pad(k, 0x5c) + Digest(f, Pad(k, 0x36) + text))
  }

  // ----- the source -----

  /** A key longer than a block is replaced by its digest. */
  method Shorten(f: Compression, key: seq<Byte>) returns (k: seq<Byte>)
    requires |key| + 63 < TWO32
    ensures k == ShortKey(f, key)
  {
    k := key;
    if |key| > 64 {
      k := OneShot(f, key);
    }
  }

  /** A 65-byte pad buffer: cleared, filled with the key, combined with the pad byte. */
  method FillPad(k: seq<Byte>, mask: bv8) returns (pad: seq<Byte>)
    requires |k| <= 64
    ensures pad == Pad(k, mask)
  {
    var buf := new Byte[65](_ => 0);
    var i := 0;
    while i < |k|
      invariant i <= |k|
      invariant forall j :: 0 <= j < 65 ==> buf[j] == if j < i then k[j] else 0
    {
      buf[i] := k[i];
      i := i + 1;
    }
    i := 0;
    while i < 64
      invariant i <= 64
      invariant forall j :: 0 <= j < i ==> buf[j] == Xor(if j < |k| then k[j] else 0, mask)
      invariant forall j :: i <= j < 64 ==> buf[j] == if j < |k| then k[j] else 0
    {
      buf[i] := Xor(buf[i], mask);
      i := i + 1;
    }
    pad := buf[..64];
  }

  /** The outer pass. */
  method Outer(f: Compression, k: seq<Byte>, inner: seq<Byte>) returns (digest: seq<Byte>)
    requires |k| <= 64 && |inner| == 16
    ensures digest == Digest(f, Pad(k, 0x5c) + inner)
  {
    var pad := FillPad(k, 0x5c);
    var ctx := new Context(f);
    ctx.Update(pad);
    assert ctx.fed == pad;
    ctx.Update(inner);
    digest := ctx.Final();
  }

  /** A context that has been fed the inner pad. */
  method Inner(f: Compression, k: seq<Byte>) returns (ctx: Context)
    requires |k| <= 64
    ensures fresh(ctx) && fresh(ctx.buffer) && ctx.Valid() && ctx.compress == f && ctx.fed == Pad(k, 0x36)
  {
    var pad := FillPad(k, 0x36);
    ctx := new Context(f);
    ctx.Update(pad);
    assert ctx.fed == pad;
  }

  /** hmac_md5. */
  method HmacMd5(f: Compression, text: seq<Byte>, key: seq<Byte>) returns (digest: seq<Byte>)
    requires |key| + 63 < TWO32 && |text| + 63 < TWO32
    ensures digest == Hmac(f, key, text)
  {
    var k := Shorten(f, key);
    var ctx := Inner(f, k);
    ctx.Update(text);
    var inner := ctx.Final();
    digest := Outer(f, k, inner);
  }

  /** The read loop of MDFile_key_len: at most `limit` bytes. */
  method FeedFile(ctx: Context, file: seq<Byte>, limit: nat)
    requires ctx.Valid()
    modifies ctx, ctx.buffer
    ensures ctx.Valid()
    ensures ctx.fed == old(ctx.fed) + (if limit <= |file| then file[..limit] else file)
  {
    ghost var before := ctx.fed;
    var pos, left := 0, limit;
    while left > 0
      invariant pos <= |file| && pos + left == limit
      invariant ctx.Valid() && ctx.fed == before + file[..pos]
    {
      var len := Fread(file[pos..], if left > 1024 then 1024 else left);
      if len == 0 { break; }
      NextPiece(before, file, pos, len);
      ctx.Update(file[pos..pos + len]);
      pos, left := pos + len, left - len;
    }
    assert file[..|file|] == file;
  }

  /** MDFile_key_len: covers exactly the first min(uiLen, file length) bytes, whatever sizes fread returns. */
  method FileKeyLen(f: Compression, file: seq<Byte>, key: seq<Byte>, len: nat) returns (digest: seq<Byte>)
    requires |key| + 63 < TWO32
    ensures digest == Hmac(f, key, if len <= |file| then file[..len] else file)
  {
    var k := Shorten(f, key);
    var ctx := Inner(f, k);
    FeedFile(ctx, file, len);
    var inner := ctx.Final();
    digest := Outer(f, k, inner);
  }

  /** MDFile_key: the whole file. */
  method FileKey(f: Compression, file: seq<Byte>, key: seq<Byte>) returns (digest: seq<Byte>)
    requires |key| + 63 < TWO32
    ensures digest == Hmac(f, key, file)
  {
    var k := Shorten(f, key);
    var ctx := Inner(f, k);
    FeedWhole(ctx, file, 1024);
    var inner := ctx.Final();
    digest := Outer(f, k, inner);
  }
}
