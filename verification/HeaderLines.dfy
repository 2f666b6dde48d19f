/** readHeaderLine: one header line of a part. */
module HeaderLines {
  import opened CText
  import opened MultipartStream

  /** `Cut` when the stream ends inside the line; otherwise the fields and what follows the line. */
  datatype HeaderLine = Cut | Line(attr: string, value: string, rest: string)

  /** The line that starts at `r` in a stream read byte by byte, `attr` and `value` being what is
      collected so far. Every colon after the attribute's first byte is dropped together with the
      white space behind it, also inside the value. */
  function LineFrom(r: string, attr: string, value: string, found: bool, space: nat): (l: HeaderLine)
    ensures l.Line? ==> |l.rest| < |r|
    decreases |r|
  {
    if r == [] then Cut
    else if r[0] == CR then Line(attr, value, if r[1..] != [] && r[1] == LF then r[1..][1..] else r[1..])
    else if r[0] == LF then Line(attr, value, r[1..])
    else if r[0] == ':' && attr != [] then LineFrom(SkipSpace(r[1..]), attr, value, true, space)
    else if !found then
      LineFrom(r[1..], if !IsSpace(r[0]) && |attr| + 1 < space then attr + [r[0]] else attr, value, found, space)
    else
      LineFrom(r[1..], attr, if |value| + 1 < space then value + [r[0]] else value, found, space)
  }

  /** The whitespace loop after a colon; the ring is empty on entry, so putting back is un-reading. */
  method SkipStreamSpace(mp: MpStream)
    requires mp.Valid() && mp.Queued() == [] && 1 < mp.putback.Length
    modifies mp, mp.putback
    ensures mp.Valid() && |mp.Queued()| <= 1 && mp.peak <= Max(old(mp.peak), 1)
    ensures mp.Remaining() == SkipSpace(old(mp.Remaining()))
  {
    ghost var r0 := mp.Remaining();
    while true
      invariant mp.Valid() && mp.Queued() == [] && mp.peak == old(mp.peak)
      invariant SkipSpace(mp.Remaining()) == SkipSpace(r0)
      decreases |mp.Remaining()|
    {
      ghost var r := mp.Remaining();
      var ok, c := mp.ReadByte();
      if !ok { return; }
      assert r[1..] == mp.Remaining();
      if !IsSpace(c) {
        mp.PutBack([c]);
        assert mp.Remaining() == r;
        return;
      }
    }
  }

  /** The byte after a CR: a line feed goes with it, anything else is put back. */
  method SkipLineFeed(mp: MpStream)
    requires mp.Valid() && |mp.Queued()| <= 1 && 1 < mp.putback.Length
    modifies mp, mp.putback
    ensures mp.Valid() && |mp.Queued()| <= 1 && mp.peak <= Max(old(mp.peak), 1)
    ensures var r := old(mp.Remaining());
            mp.Remaining() == if r != [] && r[0] == LF then r[1..] else r
  {
    ghost var r := mp.Remaining();
    var ok, c := mp.ReadByte();
    if ok && c != LF {
      mp.PutBack([c]);
      assert mp.Remaining() == r;
    }
  }

  /** readHeaderLine: false at the end of the header block or of the stream. */
  method ReadHeaderLine(mp: MpStream, space: nat) returns (more: bool, attr: string, value: string)
    requires mp.Valid() && |mp.Queued()| <= 2 && 1 < mp.putback.Length
    modifies mp, mp.putback
    ensures mp.Valid() && |mp.Queued()| <= 1 && mp.peak <= Max(old(mp.peak), 1)
    ensures match LineFrom(old(mp.Remaining()), [], [], false, space)
            case Cut => !more && mp.Remaining() == []
            case Line(a, v, rest) => attr == a && value == v && mp.Remaining() == rest && more == (a != [] && v != [])
  {
    attr, value := [], [];
    var found := false;
    ghost var goal := LineFrom(mp.Remaining(), [], [], false, space);
    while true
      invariant mp.Valid() && mp.peak <= Max(old(mp.peak), 1)
      invariant |mp.Queued()| <= 2 && (|mp.Queued()| == 2 ==> attr == [])
      invariant goal == LineFrom(mp.Remaining(), attr, value, found, space)
      decreases |mp.Remaining()|
    {
      ghost var r := mp.Remaining();
      var ok, c := mp.ReadByte();
      if !ok {
        return false, attr, value;
      }
      ghost var tail := mp.Remaining();
      assert r[0] == c && r[1..] == tail;
      if c == CR {
        SkipLineFeed(mp);
        break;
      } else if c == LF {
        break;
      } else if c == ':' && attr != [] {
        found := true;
        SkipStreamSpace(mp);
      } else if !found {
        if !IsSpace(c) && |attr| + 1 < space {
          attr := attr + [c];
        }
      } else if |value| + 1 < space {
        value := value + [c];
      }
    }
    more := attr != [] && value != [];
  }
}
