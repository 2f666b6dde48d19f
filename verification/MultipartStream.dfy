/** The put-back stream of the multipart reader: a ring buffer in front of the request body. */
module MultipartStream {
  import opened CText

  const EOF: int := -1

  /** The contents of a ring over the cells `a`, from position `r` up to position `w`. */
  ghost function Ring(a: string, r: nat, w: nat): (q: string)
    requires r < |a| && w < |a|
    ensures |q| < |a|
    ensures q == [] <==> r == w
  {
    if r <= w then a[r..w] else a[r..] + a[..w]
  }

  /** The cell after `p`: the source's increment followed by a remainder. */
  function Next(p: nat, size: nat): (n: nat)
    requires p < size
    ensures n < size
  {
    if p + 1 == size then 0 else p + 1
  }

  lemma NextIsRemainder(p: nat, size: nat)
    requires p < size
    ensures Next(p, size) == (p + 1) % size
  {
  }

  lemma RingPop(a: string, r: nat, w: nat)
    requires r < |a| && w < |a| && r != w
    ensures Ring(a, r, w) == [a[r]] + Ring(a, Next(r, |a|), w)
  {
    if r + 1 == |a| {
      assert Ring(a, r, w) == [a[r]] + a[..w];
    }
  }

  lemma RingPush(a: string, r: nat, w: nat, c: char)
    requires r < |a| && w < |a| && |Ring(a, r, w)| + 1 < |a|
    ensures Ring(a[w := c], r, Next(w, |a|)) == Ring(a, r, w) + [c]
  {
    var b := a[w := c];
    if w + 1 == |a| {
      assert b[r..] == a[r..w] + [c];
    } else if r <= w {
      assert b[r..w + 1] == a[r..w] + [c];
    } else {
      assert b[r..] == a[r..] && b[..w + 1] == a[..w] + [c];
    }
  }

  lemma FrontOf(q: string, p: string, len: nat)
    ensures var k := Min(len, |q|);
            (q + p)[..Min(len, |q + p|)] == q[..k] + p[..Min(len - k, |p|)]
  {
  }

  class MpStream {
    const putback: array<char>
    /** Everything cgiIn will deliver; its length is the declared Content-Length. */
    const input: string
    var readPos: nat
    var writePos: nat
    /** The source's running offset: only a lower bound on the true position. */
    var offset: int
    var inPos: nat
    /** The most bytes the ring has ever held. */
    ghost var peak: nat

    ghost predicate Valid()
      reads this, putback
    {
      && readPos < putback.Length
      && writePos < putback.Length
      && inPos <= |input|
      && offset + |Queued()| <= inPos
      && |Queued()| <= peak
    }

    /** The bytes put back and not yet read again, in reading order. */
    ghost function Queued(): (q: string)
      requires readPos < putback.Length && writePos < putback.Length
      reads this, putback
      ensures |q| < putback.Length
    {
      Ring(putback[..], readPos, writePos)
    }

    /** The bytes cgiIn has not delivered yet. */
    ghost function Pending(): string
      requires inPos <= |input|
      reads this
    {
      input[inPos..]
    }

    /** What successive reads will return. */
    ghost function Remaining(): string
      requires Valid()
      reads this, putback
    {
      Queued() + Pending()
    }

    constructor (body: string, capacity: nat)
      requires 0 < capacity
      ensures Valid() && fresh(putback)
      ensures input == body && putback.Length == capacity
      ensures Queued() == [] && Pending() == body && peak == 0
    {
      putback := new char[capacity](_ => NUL);
      input := body;
      readPos, writePos, offset, inPos := 0, 0, 0, 0;
      peak := 0;
    }

    /** The ring loop of mpRead: takes up to `len` bytes from the ring. */
    method ReadRing(len: nat) returns (buffer: string)
      requires Valid()
      modifies this`readPos
      ensures readPos < putback.Length
      ensures buffer == old(Queued())[..Min(len, |old(Queued())|)]
      ensures Queued() == old(Queued())[|buffer|..]
    {
      buffer := [];
      ghost var q0 := Queued();
      while |buffer| < len && readPos != writePos
        invariant readPos < putback.Length && |buffer| <= len
        invariant q0 == buffer + Queued()
      {
        ghost var before, c := buffer, putback[readPos];
        RingPop(putback[..], readPos, writePos);
        buffer := buffer + [putback[readPos]];
        readPos := Next(readPos, putback.Length);
        assert before + ([c] + Queued()) == (before + [c]) + Queued();
      }
    }

    /** mpRead: the ring first, then cgiIn, never past the declared length. The length guard never
        withholds a declared byte: a read returns all that is asked for as long as it remains. */
    method Read(len: nat) returns (got: int, buffer: string)
      requires Valid()
      modifies this
      ensures Valid() && peak == old(peak)
      ensures buffer == old(Remaining())[..Min(len, |old(Remaining())|)]
      ensures buffer != [] || len == 0 ==> got == |buffer|
      ensures buffer == [] && len > 0 ==> got == 0 || got == EOF
      ensures Queued() == old(Queued())[Min(len, |old(Queued())|)..]
      ensures Pending() == old(Pending())[|buffer| - Min(len, |old(Queued())|)..]
    {
      ghost var q, p := Queued(), Pending();
      buffer := ReadRing(len);
      var fromRing := |buffer|;
      FrontOf(q, p, len);
      var want: int := len - fromRing;
      if want > |input| - offset {
        want := |input| - offset;
      }
      if want != 0 {
        var fgot := Min(want, |input| - inPos);
        assert input[inPos..inPos + fgot] == p[..fgot];
        buffer := buffer + input[inPos..inPos + fgot];
        inPos := inPos + fgot;
        offset := offset + fromRing + fgot;
        got := fromRing + fgot;
      } else if fromRing > 0 {
        got := fromRing;
      } else if len > 0 {
        got := EOF;
      } else {
        got := 0;
      }
    }

    /** mpRead for one byte, as every byte loop uses it: `ok` is "the result is 1". */
    method ReadByte() returns (ok: bool, c: char)
      requires Valid()
      modifies this
      ensures Valid() && peak == old(peak)
      ensures ok == (old(Remaining()) != [])
      ensures !ok ==> Queued() == [] && Pending() == []
      ensures ok && old(Queued()) != [] ==>
                c == old(Queued())[0] && Queued() == old(Queued())[1..] && Pending() == old(Pending())
      ensures ok && old(Queued()) == [] ==>
                c == old(Pending())[0] && Queued() == [] && Pending() == old(Pending())[1..]
      ensures ok ==> old(Remaining()) == [c] + Remaining()
    {
      ghost var q, p := Queued(), Pending();
      var got, buffer := Read(1);
      ok := got == 1;
      c := if ok then buffer[0] else NUL;
      if q != [] {
        assert q == [q[0]] + q[1..];
        assert q + p == [q[0]] + (q[1..] + p);
      }
    }

    /** mpPutBack: appends at the write end of the ring, behind whatever is still queued there. */
    method PutBack(data: string)
      requires Valid()
      requires |Queued()| + |data| < putback.Length
      modifies this, putback
      ensures Valid()
      ensures Queued() == old(Queued()) + data
      ensures Pending() == old(Pending())
      ensures peak == Max(old(peak), |Queued()|)
    {
      offset := offset - |data|;
      ghost var q0 := Queued();
      var i := 0;
      while i < |data|
        invariant i <= |data|
        invariant writePos < putback.Length
        invariant readPos == old(readPos) && inPos == old(inPos) && peak == old(peak)
        invariant Queued() == q0 + data[..i]
        invariant offset == old(offset) - |data|
      {
        ghost var cells, q, head := putback[..], Queued(), data[..i];
        RingPush(cells, readPos, writePos, data[i]);
        putback[writePos] := data[i];
        assert putback[..] == cells[writePos := data[i]];
        writePos := Next(writePos, putback.Length);
        assert Queued() == q + [data[i]];
        assert data[..i + 1] == head + [data[i]];
        assert (q0 + head) + [data[i]] == q0 + (head + [data[i]]);
        i := i + 1;
      }
      assert data[..i] == data;
      peak := Max(peak, |Queued()|);
    }
  }
}
