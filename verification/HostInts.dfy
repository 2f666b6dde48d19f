/** The host's four-byte integers, as they are written to files and framed records. */
module HostInts {

  predicate IsInt32(i: int) {
    -0x8000_0000 <= i < 0x8000_0000
  }

  /** The host's representation of an int in four bytes; `fwrite` and `fread` use it as it is in memory. */
  datatype Host = Host(enc: int -> string, dec: string -> int)

  ghost predicate Portable(h: Host) {
    forall i {:trigger h.enc(i)} :: |h.enc(i)| == 4 && (IsInt32(i) ==> h.dec(h.enc(i)) == i)
  }

  function LowByteFirst(i: int): (s: string)
    ensures |s| == 4
  {
    var u := i % 0x1_0000_0000;
    [(u % 0x100) as char, (u / 0x100 % 0x100) as char, (u / 0x1_0000 % 0x100) as char, (u / 0x100_0000) as char]
  }

  function FromLowByteFirst(s: string): int {
    if |s| != 4 then 0
    else
      var u := s[0] as int + 0x100 * (s[1] as int) + 0x1_0000 * (s[2] as int) + 0x100_0000 * (s[3] as int);
      if u < 0x8000_0000 then u else u - 0x1_0000_0000
  }

  /** The usual host. */
  const LITTLE_ENDIAN := Host(LowByteFirst, FromLowByteFirst)

  lemma LittleEndianSound()
    ensures Portable(LITTLE_ENDIAN)
    ensures forall i :: IsInt32(i) ==> WeighsTo(LowByteFirst(i), i)
  {
    forall i | IsInt32(i) ensures WeighsTo(LowByteFirst(i), i) {
      LowByteFirstRead(i);
    }
    forall i {:trigger LITTLE_ENDIAN.enc(i)}
      ensures |LITTLE_ENDIAN.enc(i)| == 4 && (IsInt32(i) ==> LITTLE_ENDIAN.dec(LITTLE_ENDIAN.enc(i)) == i) {
      if IsInt32(i) {
        LowByteFirstRead(i);
      }
      assert LITTLE_ENDIAN.enc(i) == LowByteFirst(i);
    }
  }

  /** The four bytes with the weights 1, 256, 256^2 and 256^3 make `i`, or `i` and 2^32 when it is negative. */
  predicate WeighsTo(s: string, i: int) {
    |s| == 4 &&
    s[0] as int + 0x100 * (s[1] as int) + 0x1_0000 * (s[2] as int) + 0x100_0000 * (s[3] as int)
      == if i >= 0 then i else i + 0x1_0000_0000
  }

  lemma LowByteFirstRead(i: int)
    requires IsInt32(i)
    ensures FromLowByteFirst(LowByteFirst(i)) == i && WeighsTo(LowByteFirst(i), i)
  {
    var u := if i >= 0 then i else i + 0x1_0000_0000;
    assert i % 0x1_0000_0000 == u;
    ByteSum(u);
  }

  lemma ByteSum(u: nat)
    requires u < 0x1_0000_0000
    ensures u == u % 0x100 + 0x100 * (u / 0x100 % 0x100) + 0x1_0000 * (u / 0x1_0000 % 0x100) +
        0x100_0000 * (u / 0x100_0000)
  {
  }
}
