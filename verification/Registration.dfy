/** The device registration exchange: cli_reg.c, srv_build_key.c and cli_verify.c. */
module Registration {
  import opened CText
  import opened HostInts
  import opened Rsa

  /** Two byte strings, each behind its length: hardware and public key, or hardware and setup data. */
  function Framed(h: Host, a: string, b: string): string {
    h.enc(|a|) + (a + (h.enc(|b|) + b))
  }

  const HARDWARE: nat := 256
  const SETUP_MAX: nat := 1024

  /** Whatever key bytes load, load as a working key. */
  ghost predicate LoadsSound(load: string -> Option<Key>) {
    forall p {:trigger load(p)} :: load(p).Some? ==> Sound(load(p).value)
  }

  /** The int at an offset of a buffer; None when it lies outside. */
  function IntAt(h: Host, buf: string, at: int): Option<int> {
    if 0 <= at && at + 4 <= |buf| then Some(h.dec(buf[at..at + 4])) else None
  }

  // ----- the three programs as functions of what they read -----

  /** `Stray`: memory outside a buffer is read. `Overran`: memory outside a buffer is written. `Nothing`: no file is
      written, or no setup data returned. */
  datatype Result = Nothing | Stray | Overran | Given(text: string)

  /** A record encrypted into `room` bytes and written to a file. The callers look for -1 only: when the key cannot be
      loaded the file gets the zeros of the untouched buffer. */
  function Sealed(key: Option<Key>, record: string, room: nat): Result {
    match key
    case None => Given(Zeros(room))
    case Some(c) =>
      if EncryptRefused(c, |record|, room) then Nothing
      else if SizeOf(c, |record|) > room then Overran
      else Given(Encrypted(c, record, 0))
  }

  /** A decrypted file: the whole buffer and the length the caller then believes in. */
  datatype Opened = NotOpened | Outside | Opened(buf: string, len: nat)

  /** A file decrypted into four times its length. Again the callers look for -1 only: after a refused block, or with a
      key that cannot be loaded, they go on with a zero-filled buffer and its full length. */
  function Unsealed(key: Option<Key>, t: string): Opened {
    match key
    case None => Opened(Zeros(4 * |t|), 4 * |t|)
    case Some(c) =>
      if DecryptRefused(c, |t|, 4 * |t|) then NotOpened
      else
        var p := Decrypted(c, t);
        match p.stop
        case PartBlock => Outside
        case BadBlock => Opened(Filled(p.text, 4 * |t|), 4 * |t|)
        case AllRead => Opened(Filled(p.text, 4 * |t|), |p.text|)
  }

  /** cli_reg: the registration file. */
  function Registered(h: Host, server: Option<Key>, hardware: string, pub: string): Result {
    Sealed(server, Framed(h, hardware, pub), 4 * |Framed(h, hardware, pub)|)
  }

  /** srv_build_key from the decrypted buffer on. There is no test of the two lengths; a negative one fails to
      allocate, and `zeroAlloc` says whether calloc of no bytes yields a pointer. */
  function Rebuilt(h: Host, load: string -> Option<Key>, buf: string, setup: string, zeroAlloc: bool): Result {
    match IntAt(h, buf, 0)
    case None => Stray
    case Some(n) =>
      if n < 0 || (n == 0 && !zeroAlloc) then Nothing
      else
        match IntAt(h, buf, 4 + n)
        case None => Stray
        case Some(m) =>
          if m <= 0 then Nothing
          else if 8 + n + m > |buf| then Stray
          else Sealed(load(buf[8 + n..8 + n + m]), Framed(h, buf[4..4 + n], setup), 4 * m)
  }

  /** srv_build_key: the device key for a registration file. `load` turns stored key bytes into a key. */
  function Built(h: Host, server: Option<Key>, load: string -> Option<Key>, reg: string, setup: string,
      zeroAlloc: bool): Result {
    match Unsealed(server, reg)
    case NotOpened => Nothing
    case Outside => Stray
    case Opened(buf, _) => Rebuilt(h, load, buf, setup, zeroAlloc)
  }

  /** check_hw_and_get_pri_data from the decrypted buffer on: the lengths must add up to `len`, and 256 bytes are
      compared whatever the first length says. */
  function Compared(h: Host, buf: string, len: nat, hardware: string, zeroAlloc: bool): Result {
    match IntAt(h, buf, 0)
    case None => Stray
    case Some(n) =>
      match IntAt(h, buf, 4 + n)
      case None => Stray
      case Some(m) =>
        if n + m + 8 != len then Nothing
        else if |buf| < 4 + HARDWARE then Stray
        else if buf[4..4 + HARDWARE] != hardware || m < 0 || (m == 0 && !zeroAlloc) then Nothing
        else if 8 + n + m > |buf| then Stray
        else Given(buf[8 + n..8 + n + m])
  }

  /** check_hw_and_get_pri_data: the setup data, if the key is for this hardware. */
  function Verified(h: Host, client: Option<Key>, key: string, hardware: string, zeroAlloc: bool): Result {
    match Unsealed(client, key)
    case NotOpened => Nothing
    case Outside => Stray
    case Opened(buf, len) => Compared(h, buf, len, hardware, zeroAlloc)
  }

  /** With a key that cannot be loaded the client writes zeros, four times as many as the record has bytes. */
  lemma UnloadedKeyGivesZeros(h: Host, hardware: string, pub: string)
    requires Portable(h)
    ensures var r := Registered(h, None, hardware, pub);
            r.Given? && |r.text| == 4 * (8 + |hardware| + |pub|) && forall i :: 0 <= i < |r.text| ==> r.text[i] == NUL
  {
    assert |h.enc(|hardware|)| == 4 && |h.enc(|pub|)| == 4;
  }

  // ----- frames -----

  /** Where the fields of a framed record lie, whatever follows it in the buffer. */
  lemma FrameFields(h: Host, a: string, b: string, rest: string, buf: string)
    requires Portable(h) && |a| < 0x8000_0000 && |b| < 0x8000_0000 && buf == Framed(h, a, b) + rest
    ensures |Framed(h, a, b)| == 8 + |a| + |b|
    ensures IntAt(h, buf, 0) == Some(|a|) && IntAt(h, buf, 4 + |a|) == Some(|b|)
    ensures buf[4..4 + |a|] == a && buf[8 + |a|..8 + |a| + |b|] == b
  {
    var x, y := h.enc(|a|), h.enc(|b|);
    assert |x| == 4 && |y| == 4;
    assert buf == x + (a + (y + (b + rest)));
    assert buf[..4] == x;
    assert buf[4..] == a + (y + (b + rest));
    assert buf[4..4 + |a|] == buf[4..][..|a|] == a;
    assert buf[4 + |a|..] == buf[4..][|a|..] == y + (b + rest);
    assert buf[4 + |a|..8 + |a|] == buf[4 + |a|..][..4] == y;
    assert buf[8 + |a|..] == buf[4 + |a|..][4..] == b + rest;
    assert buf[8 + |a|..8 + |a| + |b|] == buf[8 + |a|..][..|b|] == b;
  }

  lemma UnsealsWhole(c: Key, m: string)
    requires Sound(c) && m != []
    ensures Unsealed(Some(c), Encrypted(c, m, 0)) == Opened(Filled(m, 4 * |Encrypted(c, m, 0)|), |m|)
  {
    ChunksRoundTrip(c, m, 0);
    FourfoldAccepted(c, |Encrypted(c, m, 0)|);
  }

  lemma {:induction false} NotShorter(c: Key, n: nat)
    ensures n <= SizeOf(c, n)
    decreases n
  {
    if n > 0 {
      NotShorter(c, n - Carried(c, n));
    }
  }

  // ----- end to end -----

  /** From a registration the server builds the sealed record of hardware and setup data. */
  lemma ServerBuilds(h: Host, server: Key, load: string -> Option<Key>, hardware: string, pub: string, setup: string,
      zeroAlloc: bool)
    requires Portable(h) && Sound(server)
    requires |hardware| == HARDWARE && 0 < |pub| < 0x8000_0000
    ensures Built(h, Some(server), load, Encrypted(server, Framed(h, hardware, pub), 0), setup, zeroAlloc)
         == Sealed(load(pub), Framed(h, hardware, setup), 4 * |pub|)
  {
    var record := Framed(h, hardware, pub);
    FrameFields(h, hardware, pub, [], record + []);
    UnsealsWhole(server, record);
    var n := 4 * |Encrypted(server, record, 0)|;
    EncryptedSize(server, record, 0);
    NotShorter(server, |record|);
    FrameFields(h, hardware, pub, Zeros(n - |record|), Filled(record, n));
  }

  /** A sealed record of hardware and setup data yields the setup data on that hardware and nothing on any other. */
  lemma ClientVerifies(h: Host, client: Key, hardware: string, other: string, setup: string, zeroAlloc: bool)
    requires Portable(h) && Sound(client)
    requires |hardware| == |other| == HARDWARE && 0 < |setup| < 0x8000_0000
    ensures Verified(h, Some(client), Encrypted(client, Framed(h, hardware, setup), 0), other, zeroAlloc)
         == if other == hardware then Given(setup) else Nothing
  {
    var record := Framed(h, hardware, setup);
    FrameFields(h, hardware, setup, [], record + []);
    UnsealsWhole(client, record);
    var n := 4 * |Encrypted(client, record, 0)|;
    EncryptedSize(client, record, 0);
    NotShorter(client, |record|);
    FrameFields(h, hardware, setup, Zeros(n - |record|), Filled(record, n));
  }

  /** The two buffers the exchange encrypts into are large enough. */
  predicate RoomForExchange(server: Key, client: Key, pub: string, setup: string) {
    && 32 <= |pub| < 0x8000_0000
    && SizeOf(server, 264 + |pub|) <= 4 * (264 + |pub|)
    && SizeOf(client, 264 + |setup|) <= 4 * |pub|
  }

  /** Registration end to end: the client registers, the server builds a key from the registration, the client
      verifies it. With room for both encryptions it gets exactly the setup data on the same hardware and nothing on
      any other. */
  method Exchange(h: Host, server: Key, client: Key, load: string -> Option<Key>,
                  hardware: string, other: string, pub: string, setup: string, zeroAlloc: bool)
    returns (reg: Result, key: Result, back: Result)
    requires Portable(h) && Sound(server) && Sound(client) && load(pub) == Some(client) && LoadsSound(load)
    requires |hardware| == |other| == HARDWARE && 0 < |setup| <= SETUP_MAX
    requires RoomForExchange(server, client, pub, setup)
    ensures reg.Given? && key.Given? && back == if other == hardware then Given(setup) else Nothing
  {
    Sealing(h, server, hardware, pub, 4 * (264 + |pub|));
    reg := WriteClientReg(h, Some(server), hardware, pub);
    ServerBuilds(h, server, load, hardware, pub, setup, zeroAlloc);
    Sealing(h, client, hardware, setup, 4 * |pub|);
    key := BuildDeviceKey(h, Some(server), load, reg.text, setup, zeroAlloc);
    ClientVerifies(h, client, hardware, other, setup, zeroAlloc);
    back := CheckHardware(h, Some(client), key.text, other, zeroAlloc);
  }

  /** A record with its hardware is sealed where its encryption has room. */
  lemma Sealing(h: Host, c: Key, hardware: string, more: string, room: nat)
    requires Portable(h) && |hardware| == HARDWARE && 128 <= room && SizeOf(c, 264 + |more|) <= room
    ensures |Framed(h, hardware, more)| == 264 + |more|
    ensures Sealed(Some(c), Framed(h, hardware, more), room) == Given(Encrypted(c, Framed(h, hardware, more), 0))
  {
    assert |h.enc(|hardware|)| == 4 && |h.enc(|more|)| == 4;
    RoomIsAccepted(c, 264 + |more|, room);
  }

  // ----- the buffers the programs allocate -----

  /** The client encrypts into four times the record's length, which is enough for the 1024-bit keys it uses. */
  lemma {:induction false} ClientBufferSuffices(c: Key, n: nat)
    requires c.size == 128 && 45 <= n
    ensures SizeOf(c, n) <= 4 * n
    decreases n
  {
    if n >= 117 + 45 {
      ClientBufferSuffices(c, n - 117);
    } else if n > 117 {
      assert SizeOf(c, n - 117) == 128;
    }
  }

  lemma SizeBound(c: Key, n: nat, room: nat)
    requires c.size == 128 && 234 < n && 512 <= room < 640
    ensures SizeOf(c, n) <= room <==> n <= 468
  {
    assert SizeOf(c, n) == 128 + SizeOf(c, n - 117);
    assert SizeOf(c, n - 117) == 128 + SizeOf(c, n - 234);
    var m := n - 234;
    if m <= 117 {
      assert SizeOf(c, m) == 128;
    } else {
      assert SizeOf(c, m) == 128 + SizeOf(c, m - 117);
      if m <= 234 {
        assert SizeOf(c, m - 117) == 128;
      } else {
        assert SizeOf(c, m - 117) == 128 + SizeOf(c, m - 234);
        assert SizeOf(c, m - 234) >= 128;
      }
    }
  }

  /** The server encrypts into four times the public key's length, whatever the setup data. For the key of a 1024-bit
      pair the key is built up to 204 bytes of setup data, refused from where the parameter test notices, and in between
      the encryption is written past the buffer. */
  lemma ServerRanges(h: Host, c: Key, hardware: string, setup: string, pub: string)
    requires Portable(h) && c.size == 128 && |hardware| == HARDWARE && 128 <= |pub| < 160
    ensures var r := Sealed(Some(c), Framed(h, hardware, setup), 4 * |pub|);
            && (r.Given? <==> |setup| <= 204)
            && (r == Nothing <==> 117 * (264 + |setup|) > 512 * |pub|)
            && (r == Overran <==> 204 < |setup| && 117 * (264 + |setup|) <= 512 * |pub|)
  {
    var n := |Framed(h, hardware, setup)|;
    assert n == 264 + |setup|;
    SizeBound(c, n, 4 * |pub|);
  }

  /** The public key of a 1024-bit pair with exponent 3 takes 138 bytes: built up to 204 bytes of setup data,
      written past the buffer from 205 to 339, refused from 340 on. */
  lemma ServerRangesOfKey(h: Host, c: Key, hardware: string, setup: string, pub: string)
    requires Portable(h) && c.size == 128 && |hardware| == HARDWARE && |pub| == 138
    ensures var r := Sealed(Some(c), Framed(h, hardware, setup), 4 * |pub|);
            && (r.Given? <==> |setup| <= 204)
            && (r == Overran <==> 205 <= |setup| <= 339)
            && (r == Nothing <==> 340 <= |setup|)
  {
    ServerRanges(h, c, hardware, setup, pub);
  }

  /** One byte of setup data more than 204, and the encryption is written past the buffer; with 340 it is refused. */
  lemma SetupTooLong(h: Host, c: Key)
    requires Portable(h) && c.size == 128
    ensures Sealed(Some(c), Framed(h, Zeros(256), Zeros(205)), 4 * 138) == Overran
    ensures Sealed(Some(c), Framed(h, Zeros(256), Zeros(340)), 4 * 138) == Nothing
  {
    ServerRangesOfKey(h, c, Zeros(256), Zeros(205), Zeros(138));
    ServerRangesOfKey(h, c, Zeros(256), Zeros(340), Zeros(138));
  }

  /** With 1024-bit keys, and a public key of 138 bytes, the exchange has room exactly up to 204 bytes of setup data. */
  lemma RoomForExchangeIff(server: Key, client: Key, pub: string, setup: string)
    requires server.size == client.size == 128 && |pub| == 138
    ensures RoomForExchange(server, client, pub, setup) <==> |setup| <= 204
  {
    ClientBufferSuffices(server, 264 + |pub|);
    SizeBound(client, 264 + |setup|, 4 * |pub|);
  }

  // ----- refused blocks -----

  /** Decryption that stops at a refused block behind the encryption of `m`. */
  lemma UnsealsBroken(c: Key, m: string, bad: string, more: string, key: string)
    requires Sound(c) && |bad| == c.size && c.dec(bad) == None && key == Encrypted(c, m, 0) + (bad + more)
    ensures |m| <= 4 * |key| && Unsealed(Some(c), key) == Opened(Filled(m, 4 * |key|), 4 * |key|)
  {
    assert (bad + more)[..c.size] == bad;
    DecryptsThen(c, m, 0, bad + more, key);
    assert m + [] == m;
    EncryptedSize(c, m, 0);
    NotShorter(c, |m|);
    FourfoldAccepted(c, |key|);
  }

  lemma {:induction false} TextInRoom(c: Key, t: string)
    requires Sound(c)
    ensures |Decrypted(c, t).text| <= Room(c, |t|)
    decreases |t|
  {
    if |t| >= c.size && c.dec(t[..c.size]).Some? {
      TextInRoom(c, t[c.size..]);
    }
  }

  /** After a refused block the client goes on with what came before it, zeros behind that, and the full length. */
  lemma UnsealsBad(c: Key, key: string)
    requires Sound(c) && |key| >= c.size && Decrypted(c, key).stop == BadBlock
    ensures var buf := Filled(Decrypted(c, key).text, 4 * |key|);
            |buf| == 4 * |key| && Unsealed(Some(c), key) == Opened(buf, 4 * |key|)
  {
    FourfoldAccepted(c, |key|);
    RoomForBlocks(c, |key|, 4 * |key|);
    TextInRoom(c, key);
  }

  /** A buffer that passes for a record of its whole size: two lengths that add up to it, the second of which allocates,
      and the right hardware at its place. */
  predicate PassesWhole(h: Host, buf: string, hardware: string, zeroAlloc: bool)
    requires 4 <= |buf|
  {
    var n := h.dec(buf[..4]);
    var m := |buf| - 8 - n;
    && 260 <= |buf| && buf[4..260] == hardware
    && 0 <= 4 + n <= |buf| - 4 && h.dec(buf[4 + n..8 + n]) == m
    && (if zeroAlloc then 0 <= m else 0 < m)
  }

  lemma WholeCompared(h: Host, buf: string, hardware: string, zeroAlloc: bool)
    requires 4 <= |buf|
    ensures Compared(h, buf, |buf|, hardware, zeroAlloc).Given? <==> PassesWhole(h, buf, hardware, zeroAlloc)
  {
    assert buf[0..4] == buf[..4];
  }

  /** In every key with a refused block, the block goes unnoticed exactly when what came before it, filled up with
      zeros to four times the key's length, passes for a record of that whole size. */
  lemma BrokenKeyUnnoticedIff(h: Host, c: Key, key: string, hardware: string, zeroAlloc: bool)
    requires Sound(c) && |hardware| == HARDWARE && |key| >= c.size && Decrypted(c, key).stop == BadBlock
    ensures |Filled(Decrypted(c, key).text, 4 * |key|)| == 4 * |key|
    ensures Verified(h, Some(c), key, hardware, zeroAlloc).Given?
       <==> PassesWhole(h, Filled(Decrypted(c, key).text, 4 * |key|), hardware, zeroAlloc)
  {
    UnsealsBad(c, key);
    WholeCompared(h, Filled(Decrypted(c, key).text, 4 * |key|), hardware, zeroAlloc);
  }

  /** Such a key exists: three good blocks with the lengths 256 and 1784 and the right hardware, the fourth refused.
      The client takes 1784 zeros for setup data. */
  lemma BrokenKeyAccepted(h: Host, c: Key, hardware: string, bad: string)
    requires Portable(h) && Sound(c) && c.size == 128 && |hardware| == HARDWARE
    requires |bad| == c.size && c.dec(bad) == None
    ensures var m := h.enc(256) + hardware + h.enc(1784);
            Verified(h, Some(c), Encrypted(c, m, 0) + bad, hardware, true) == Given(Zeros(1784))
  {
    var m := h.enc(256) + hardware + h.enc(1784);
    var key := Encrypted(c, m, 0) + (bad + []);
    assert bad + [] == bad;
    UnsealsBroken(c, m, bad, [], key);
    EncryptedSize(c, m, 0);
    assert SizeOf(c, 264) == 128 + SizeOf(c, 147) && SizeOf(c, 147) == 128 + SizeOf(c, 30) && SizeOf(c, 30) == 128;
    var buf := Filled(m, 2048);
    assert |key| == 512;
    assert buf == m + Zeros(1784);
    assert buf[0..4] == h.enc(256) && buf[4..260] == hardware && buf[260..264] == h.enc(1784);
    assert buf[264..2048] == Zeros(1784);
  }

  /** A key or registration `m` with block `i` replaced by one the cipher refuses. */
  ghost predicate Damaged(c: Key, m: string, i: nat, bad: string, more: string, t: string) {
    && c.size == 128 && 117 * i < |m| && |bad| == 128 && c.dec(bad) == None
    && t == Encrypted(c, m[..117 * i], 0) + (bad + more) && |t| == SizeOf(c, |m|)
  }

  /** What is left of a framed record of which only the blocks before `i` came through. Its second length is lost for
      the first three blocks and whole after that. */
  lemma DamagedFields(h: Host, a: string, b: string, i: nat, n: nat, buf: string)
    requires Portable(h) && h.enc(0) == Zeros(4) && |a| == HARDWARE && |b| < 0x8000_0000
    requires 117 * i < 264 + |b| <= n && buf == Filled(Framed(h, a, b)[..117 * i], n)
    ensures |buf| == n
    ensures i == 0 ==> IntAt(h, buf, 0) == Some(0) && IntAt(h, buf, 4) == Some(0)
    ensures 0 < i <= 2 ==> IntAt(h, buf, 0) == Some(256) && IntAt(h, buf, 260) == Some(0)
    ensures i > 2 ==> IntAt(h, buf, 0) == Some(256) && IntAt(h, buf, 260) == Some(|b|)
    ensures i > 2 ==> buf[4..260] == a && buf[264..264 + |b|] == Filled(b[..117 * i - 264], |b|)
  {
    var f := Framed(h, a, b);
    FrameFields(h, a, b, [], f + []);
    assert f + [] == f;
    assert h.dec(Zeros(4)) == 0;
    if i == 0 {
      assert buf[0..4] == Zeros(4) && buf[4..8] == Zeros(4);
    } else {
      assert buf[0..4] == f[0..4];
      if i <= 2 {
        assert buf[260..264] == Zeros(4);
      } else {
        assert buf[4..260] == f[4..260] && buf[260..264] == f[260..264];
        assert f[264..] == b;
        assert f[..117 * i][264..] == b[..117 * i - 264];
      }
    }
  }

  /** A refused block in a key the server built is always noticed. */
  lemma DamagedKeyNoticed(h: Host, c: Key, hardware: string, other: string, setup: string,
                          i: nat, bad: string, more: string, key: string, zeroAlloc: bool)
    requires Portable(h) && h.enc(0) == Zeros(4) && Sound(c) && |hardware| == HARDWARE && |setup| < 0x8000_0000
    requires Damaged(c, Framed(h, hardware, setup), i, bad, more, key)
    ensures Verified(h, Some(c), key, other, zeroAlloc) == Nothing
  {
    var f := Framed(h, hardware, setup);
    UnsealsBroken(c, f[..117 * i], bad, more, key);
    NotShorter(c, |f|);
    DamagedFields(h, hardware, setup, i, 4 * |key|, Filled(f[..117 * i], 4 * |key|));
  }

  /** A refused block in a registration is noticed exactly in the first three blocks; after that the server goes
      on with a public key whose end is zeros. */
  lemma DamagedRegistration(h: Host, c: Key, load: string -> Option<Key>, hardware: string, pub: string, setup: string,
                            i: nat, bad: string, more: string, reg: string, zeroAlloc: bool)
    requires Portable(h) && h.enc(0) == Zeros(4) && Sound(c) && |hardware| == HARDWARE && 0 < |pub| < 0x8000_0000
    requires Damaged(c, Framed(h, hardware, pub), i, bad, more, reg)
    ensures i <= 2 ==> Built(h, Some(c), load, reg, setup, zeroAlloc) == Nothing
    ensures i > 2 ==> Built(h, Some(c), load, reg, setup, zeroAlloc) ==
                      Sealed(load(Filled(pub[..117 * i - 264], |pub|)), Framed(h, hardware, setup), 4 * |pub|)
  {
    var f := Framed(h, hardware, pub);
    UnsealsBroken(c, f[..117 * i], bad, more, reg);
    NotShorter(c, |f|);
    DamagedFields(h, hardware, pub, i, 4 * |reg|, Filled(f[..117 * i], 4 * |reg|));
  }

  // ----- the three programs as the source runs them -----

  /** memcpy behind what has been laid out so far. */
  method Append(buf: array<char>, done: string, text: string)
    requires |done| + |text| <= buf.Length && buf[..|done|] == done
    modifies buf
    ensures buf[..|done + text|] == done + text
  {
    Store(buf, |done|, text);
  }

  lemma Regrouped(x: string, a: string, y: string, b: string)
    ensures x + a + y + b == x + (a + (y + b))
  {
  }

  /** The four memcpy calls that lay out a record. */
  method BuildFrame(h: Host, a: string, b: string) returns (record: string)
    requires Portable(h)
    ensures record == Framed(h, a, b)
  {
    var buf := new char[8 + |a| + |b|](_ => NUL);
    var x, y := h.enc(|a|), h.enc(|b|);
    Append(buf, [], x);
    Append(buf, x, a);
    Append(buf, x + a, y);
    Append(buf, x + a + y, b);
    Regrouped(x, a, y, b);
    record := buf[..];
  }

  /** write_client_reg and write_device_key: encrypt into a buffer of `room` bytes and write what is reported. */
  method Seal(key: Option<Key>, record: string, room: nat) returns (r: Result)
    requires key.Some? ==> Sound(key.value)
    ensures r == Sealed(key, record, room)
  {
    var out := new char[room](_ => NUL);
    assert out[..] == Zeros(room);
    var o := RsaEncrypt(key, record, out);
    if o == Overrun { return Overran; }
    if o.code == MinusOne { return Nothing; }
    if key.Some? { EncryptedSize(key.value, record, 0); }
    r := Given(out[..o.len]);
  }

  /** cli_reg. */
  method WriteClientReg(h: Host, server: Option<Key>, hardware: string, pub: string) returns (reg: Result)
    requires Portable(h) && (server.Some? ==> Sound(server.value))
    ensures reg == Registered(h, server, hardware, pub)
  {
    var record := BuildFrame(h, hardware, pub);
    reg := Seal(server, record, 4 * |record|);
  }

  /** Decryption into four times the input, as both readers do it. */
  method Unseal(key: Option<Key>, t: string) returns (o: Opened)
    requires key.Some? ==> Sound(key.value)
    ensures o == Unsealed(key, t)
  {
    var out := new char[4 * |t|](_ => NUL);
    assert out[..] == Zeros(4 * |t|);
    var r := RsaDecrypt(key, t, out);
    if r == Overread { return Outside; }
    if r.code == MinusOne { return NotOpened; }
    o := Opened(out[..], r.len);
  }

  /** srv_build_key. */
  method BuildDeviceKey(h: Host, server: Option<Key>, load: string -> Option<Key>, reg: string, setup: string,
      zeroAlloc: bool)
    returns (key: Result)
    requires Portable(h) && (server.Some? ==> Sound(server.value))
    requires LoadsSound(load)
    ensures key == Built(h, server, load, reg, setup, zeroAlloc)
  {
    var o := Unseal(server, reg);
    if o == NotOpened { return Nothing; }
    if o == Outside { return Stray; }
    key := Rebuild(h, load, o.buf, setup, zeroAlloc);
  }

  /** The part of srv_build_key that cuts the record apart and lays out a new one. */
  method Rebuild(h: Host, load: string -> Option<Key>, buf: string, setup: string, zeroAlloc: bool)
      returns (key: Result)
    requires Portable(h) && LoadsSound(load)
    ensures key == Rebuilt(h, load, buf, setup, zeroAlloc)
  {
    var n := IntAt(h, buf, 0);
    if n == None { return Stray; }
    if n.value < 0 || (n.value == 0 && !zeroAlloc) { return Nothing; }
    var m := IntAt(h, buf, 4 + n.value);
    if m == None { return Stray; }
    if m.value <= 0 { return Nothing; }
    if 8 + n.value + m.value > |buf| { return Stray; }
    var hardware, pub := buf[4..4 + n.value], buf[8 + n.value..8 + n.value + m.value];
    var record := BuildFrame(h, hardware, setup);
    key := Seal(load(pub), record, 4 * m.value);
  }

  /** check_hw_and_get_pri_data. */
  method CheckHardware(h: Host, client: Option<Key>, key: string, hardware: string, zeroAlloc: bool)
      returns (setup: Result)
    requires Portable(h) && (client.Some? ==> Sound(client.value))
    ensures setup == Verified(h, client, key, hardware, zeroAlloc)
  {
    var o := Unseal(client, key);
    if o == NotOpened { return Nothing; }
    if o == Outside { return Stray; }
    var buf := o.buf;
    var n := IntAt(h, buf, 0);
    if n == None { return Stray; }
    var m := IntAt(h, buf, 4 + n.value);
    if m == None { return Stray; }
    if n.value + m.value + 8 != o.len { return Nothing; }
    if |buf| < 4 + HARDWARE { return Stray; }
    if buf[4..4 + HARDWARE] != hardware { return Nothing; }
    if m.value < 0 || (m.value == 0 && !zeroAlloc) { return Nothing; }
    if 8 + n.value + m.value > |buf| { return Stray; }
    setup := Given(buf[8 + n.value..8 + n.value + m.value]);
  }
}
