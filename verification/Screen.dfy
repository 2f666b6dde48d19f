/** Screen_fill against Screen_setPixel (enc/text/screen.c and screen.h). */
module Screen {

  datatype ColorSpace = YUV422PSEMI | RGB565 | TWOBIT

  /** A frame buffer's geometry; `size` is the byte count of the buffer. */
  datatype Format = Format(space: ColorSpace, lineLength: nat, size: nat)

  // ----- addresses -----

  /** Screen_getStep: how far the pointer moves after the pixel called `x`. */
  function GetStep(s: ColorSpace, x: nat): nat {
    match s
    case YUV422PSEMI => 1
    case RGB565 => 2
    case TWOBIT => if (x + 1) % 4 == 0 then 1 else 0
  }

  /** Screen_getInc: where pixel `x` of a line starts. */
  function GetInc(s: ColorSpace, x: nat): nat {
    match s
    case YUV422PSEMI => x
    case RGB565 => 2 * x
    case TWOBIT => x / 4
  }

  predicate EvenShift(s: nat) {
    s == 0 || s == 2 || s == 4 || s == 6
  }

  /** SCREEN_GET_2BPP_SHIFT. */
  function Shift(x: nat): (s: nat)
    ensures EvenShift(s)
  {
    x % 4 * 2
  }

  /** The byte Screen_setPixel addresses. */
  function PixelByte(f: Format, x: nat, y: nat): nat {
    match f.space
    case YUV422PSEMI => y * f.lineLength + x
    case RGB565 => 2 * (y * (f.lineLength / 2) + x)
    case TWOBIT => y * f.lineLength + x / 4
  }

  // ----- writing one pixel -----

  function Low(v: bv32): bv8 {
    (v & 0xff) as bv8
  }

  function High(v: bv32): bv8 {
    ((v >> 8) & 0xff) as bv8
  }

  /** A byte with two bits replaced: `(b & !(3 << s)) | (v << s)`, for each of the four shifts. */
  function Packed(b: bv8, s: nat, v: bv32): bv8
    requires EvenShift(s)
  {
    if s == 0 then (b & !3) | Low(v)
    else if s == 2 then (b & !(3 << 2)) | Low(v << 2)
    else if s == 4 then (b & !(3 << 4)) | Low(v << 4)
    else (b & !(3 << 6)) | Low(v << 6)
  }

  /** The bytes a store at `p` touches lie in the buffer. */
  predicate Inside(f: Format, p: nat) {
    match f.space
    case YUV422PSEMI => p + f.size / 2 < f.size && p < f.size / 2
    case RGB565 => p + 1 < f.size
    case TWOBIT => p < f.size
  }

  /** Screen_setPixelPtr without overlay, on the pixel called `x` whose byte is `p`; a store that would miss the
      buffer is left out here, and ruled out by the methods below. */
  function Stored(f: Format, b: seq<bv8>, p: nat, x: nat, v: bv32): (r: seq<bv8>)
    requires |b| == f.size
    ensures |r| == |b|
  {
    if !Inside(f, p) then b
    else match f.space
      case YUV422PSEMI => b[p := High(v)][p + f.size / 2 := Low(v)]
      case RGB565 => b[p := Low(v)][p + 1 := High(v)]
      case TWOBIT => b[p := Packed(b[p], Shift(x), v)]
  }

  /** Screen_setPixel without overlay. */
  function PixelSet(f: Format, b: seq<bv8>, x: nat, y: nat, v: bv32): (r: seq<bv8>)
    requires |b| == f.size
    ensures |r| == |b|
  {
    Stored(f, b, PixelByte(f, x, y), x, v)
  }

  /** Two values alternate along a line. */
  function Striped(x: nat, even: bv32, odd: bv32): bv32 {
    if x % 2 == 1 then odd else even
  }

  // ----- the pointer walk -----

  /** The walk calls the pixel in column `i` by the name `i + x`. Its pointer there, relative to the line. */
  function Walked(s: ColorSpace, x: nat, i: nat): nat
    requires x <= i
  {
    if i == x then GetInc(s, x) else Walked(s, x, i - 1) + GetStep(s, i - 1 + x)
  }

  /** The 8- and 16-bit spaces store two bytes of a value and no more. */
  predicate SameColour(v: bv32, w: bv32) {
    High(v) == High(w) && Low(v) == Low(w)
  }

  /** A start column, and for the 8- and 16-bit spaces stripes, that the walk draws like the pixel setter. */
  predicate Fits(s: ColorSpace, x: nat, even: bv32, odd: bv32) {
    if s == TWOBIT then x % 4 == 0 else x % 2 == 0 || SameColour(even, odd)
  }

  /** Four columns further the two-bit walk is at the same place in a byte. */
  lemma QuarterStep(m: nat, x: nat)
    requires x % 4 == 0
    ensures (m + x) % 4 == m % 4
    ensures (m + 1) / 4 == m / 4 + (if (m + x + 1) % 4 == 0 then 1 else 0)
  {
    var q := x / 4;
    assert x == 4 * q;
  }

  lemma {:induction false} WalkedIs(s: ColorSpace, x: nat, i: nat)
    requires x <= i && (s == TWOBIT ==> x % 4 == 0)
    ensures Walked(s, x, i) == GetInc(s, i)
  {
    if i > x {
      WalkedIs(s, x, i - 1);
      if s == TWOBIT {
        QuarterStep(i - 1, x);
      }
    }
  }

  // ----- filling -----

  /** The pointer of the walk in column `i` of line `j`. */
  ghost function WalkByte(f: Format, x: nat, i: nat, j: nat): nat
    requires x <= i
  {
    j * f.lineLength + Walked(f.space, x, i)
  }

  /** Every store of the walk over columns x..x+width of lines y..y+height lies in the buffer. */
  ghost predicate WalkInside(f: Format, x: nat, y: nat, width: nat, height: nat) {
    forall i: nat, j: nat :: x <= i < x + width && y <= j < y + height ==> Inside(f, WalkByte(f, x, i, j))
  }

  /** The buffer after the walk has written columns x..i of line j. */
  ghost function WalkLine(f: Format, b: seq<bv8>, x: nat, i: nat, j: nat, even: bv32, odd: bv32): (r: seq<bv8>)
    requires |b| == f.size && x <= i
    ensures |r| == |b|
    decreases i
  {
    if i == x then b
    else
      Stored(f, WalkLine(f, b, x, i - 1, j, even, odd), WalkByte(f, x, i - 1, j), i - 1 + x,
        Striped(i - 1 + x, even, odd))
  }

  /** The buffer after lines y..j. */
  ghost function WalkLines(f: Format, b: seq<bv8>, x: nat, width: nat, y: nat, j: nat, even: bv32,
      odd: bv32): (r: seq<bv8>)
    requires |b| == f.size && y <= j
    ensures |r| == |b|
    decreases j
  {
    if j == y then b
    else WalkLine(f, WalkLines(f, b, x, width, y, j - 1, even, odd), x, x + width, j - 1, even, odd)
  }

  /** Screen_setPixelPtr without overlay. */
  method SetPixelPtr(f: Format, buf: array<bv8>, p: nat, x: nat, v: bv32)
    requires buf.Length == f.size && Inside(f, p)
    modifies buf
    ensures buf[..] == Stored(f, old(buf[..]), p, x, v)
  {
    match f.space {
      case YUV422PSEMI =>
        buf[p] := High(v);
        buf[p + f.size / 2] := Low(v);
      case RGB565 =>
        buf[p] := Low(v);
        buf[p + 1] := High(v);
      case TWOBIT =>
        buf[p] := Packed(buf[p], Shift(x), v);
    }
  }

  /** One line of Screen_fill. */
  method FillLine(f: Format, buf: array<bv8>, ptr: nat, x: nat, width: nat, ghost j: nat, even: bv32, odd: bv32)
    requires buf.Length == f.size && ptr == j * f.lineLength + GetInc(f.space, x)
    requires WalkInside(f, x, j, width, 1)
    modifies buf
    ensures buf[..] == WalkLine(f, old(buf[..]), x, x + width, j, even, odd)
  {
    var rowPtr, i := ptr, x;
    while i < x + width
      invariant x <= i <= x + width && rowPtr == WalkByte(f, x, i, j)
      invariant buf[..] == WalkLine(f, old(buf[..]), x, i, j, even, odd)
    {
      assert Inside(f, WalkByte(f, x, i, j));
      SetPixelPtr(f, buf, rowPtr, i + x, Striped(i + x, even, odd));
      rowPtr := rowPtr + GetStep(f.space, i + x);
      i := i + 1;
    }
  }

  lemma NextLine(j: nat, n: nat)
    ensures (j + 1) * n == j * n + n
  {
  }

  /** Screen_fill. */
  method ScreenFill(f: Format, buf: array<bv8>, x: nat, y: nat, width: nat, height: nat, even: bv32, odd: bv32)
    requires buf.Length == f.size && WalkInside(f, x, y, width, height)
    modifies buf
    ensures buf[..] == WalkLines(f, old(buf[..]), x, width, y, y + height, even, odd)
  {
    var ptr := y * f.lineLength + GetInc(f.space, x);
    var j := y;
    while j < height + y
      invariant y <= j <= y + height && ptr == j * f.lineLength + GetInc(f.space, x)
      invariant buf[..] == WalkLines(f, old(buf[..]), x, width, y, j, even, odd)
    {
      assert WalkInside(f, x, j, width, 1);
      FillLine(f, buf, ptr, x, width, j, even, odd);
      NextLine(j, f.lineLength);
      ptr := ptr + f.lineLength;
      j := j + 1;
    }
  }

  // ----- the fill is the pixel setter on every pixel -----

  /** Lines of 16-bit pixels have even length. */
  predicate Regular(f: Format) {
    f.space == RGB565 ==> f.lineLength % 2 == 0
  }

  lemma WalkIsPixel(f: Format, x: nat, i: nat, j: nat)
    requires x <= i && (f.space == TWOBIT ==> x % 4 == 0) && Regular(f)
    ensures WalkByte(f, x, i, j) == PixelByte(f, i, j)
  {
    WalkedIs(f.space, x, i);
    if f.space == RGB565 {
      Halves(j, f.lineLength);
    }
  }

  lemma Halves(j: nat, n: nat)
    requires n % 2 == 0
    ensures 2 * (j * (n / 2)) == j * n
  {
    var h := n / 2;
    assert n == 2 * h;
    assert j * (2 * h) == 2 * (j * h);
  }

  /** Screen_setPixel applied to columns x..i of line j. */
  ghost function PixelLine(f: Format, b: seq<bv8>, x: nat, i: nat, j: nat, even: bv32, odd: bv32): (r: seq<bv8>)
    requires |b| == f.size && x <= i
    ensures |r| == |b|
    decreases i
  {
    if i == x then b
    else PixelSet(f, PixelLine(f, b, x, i - 1, j, even, odd), i - 1, j, Striped(i - 1, even, odd))
  }

  ghost function PixelLines(f: Format, b: seq<bv8>, x: nat, width: nat, y: nat, j: nat, even: bv32,
      odd: bv32): (r: seq<bv8>)
    requires |b| == f.size && y <= j
    ensures |r| == |b|
    decreases j
  {
    if j == y then b
    else PixelLine(f, PixelLines(f, b, x, width, y, j - 1, even, odd), x, x + width, j - 1, even, odd)
  }

  /** An aligned start column shifts neither the two-bit position nor the stripes. */
  lemma SameName(s: ColorSpace, x: nat, i: nat, even: bv32, odd: bv32)
    requires if s == TWOBIT then x % 4 == 0 else x % 2 == 0
    ensures Striped(i + x, even, odd) == Striped(i, even, odd)
    ensures s == TWOBIT ==> Shift(i + x) == Shift(i)
  {
    if s == TWOBIT {
      QuarterStep(i, x);
      QuadIsEven(x);
    }
    EvenStep(i, x);
  }

  lemma QuadIsEven(x: nat)
    requires x % 4 == 0
    ensures x % 2 == 0
  {
    var q := x / 4;
    assert x == 2 * (q + q);
    Doubled(q + q);
  }

  lemma Doubled(k: nat)
    ensures 2 * k % 2 == 0
  {
  }

  lemma EvenStep(i: nat, x: nat)
    requires x % 2 == 0
    ensures (i + x) % 2 == i % 2
  {
  }

  /** One store of the walk is one call of the pixel setter. */
  lemma OnePixel(f: Format, b: seq<bv8>, x: nat, i: nat, j: nat, even: bv32, odd: bv32)
    requires |b| == f.size && x <= i && Fits(f.space, x, even, odd) && Regular(f)
    ensures WalkByte(f, x, i, j) == PixelByte(f, i, j)
    ensures Stored(f, b, WalkByte(f, x, i, j), i + x, Striped(i + x, even, odd)) ==
        PixelSet(f, b, i, j, Striped(i, even, odd))
  {
    WalkIsPixel(f, x, i, j);
    NamesFit(f.space, x, i, even, odd);
    SameStored(f, b, WalkByte(f, x, i, j), i + x, i, Striped(i + x, even, odd), Striped(i, even, odd));
  }

  /** Stores of values that agree as far as the colour space goes, at one place. */
  lemma SameStored(f: Format, b: seq<bv8>, p: nat, m: nat, i: nat, v: bv32, w: bv32)
    requires |b| == f.size && (v == w || (f.space != TWOBIT && SameColour(v, w)))
    requires f.space == TWOBIT ==> Shift(m) == Shift(i)
    ensures Stored(f, b, p, m, v) == Stored(f, b, p, i, w)
  {
  }

  lemma NamesFit(s: ColorSpace, x: nat, i: nat, even: bv32, odd: bv32)
    requires Fits(s, x, even, odd)
    ensures var v, w := Striped(i + x, even, odd), Striped(i, even, odd); v == w || (s != TWOBIT && SameColour(v, w))
    ensures s == TWOBIT ==> Shift(i + x) == Shift(i)
  {
    if s == TWOBIT || x % 2 == 0 {
      SameName(s, x, i, even, odd);
    }
  }

  lemma LineBase(f: Format, b: seq<bv8>, x: nat, j: nat, even: bv32, odd: bv32)
    requires |b| == f.size
    ensures WalkLine(f, b, x, x, j, even, odd) == PixelLine(f, b, x, x, j, even, odd)
  {
  }

  lemma LineStep(f: Format, b: seq<bv8>, x: nat, h: nat, i: nat, j: nat, even: bv32, odd: bv32)
    requires |b| == f.size && x <= h && i == h + 1 && Fits(f.space, x, even, odd) && Regular(f)
    requires WalkLine(f, b, x, h, j, even, odd) == PixelLine(f, b, x, h, j, even, odd)
    ensures WalkLine(f, b, x, i, j, even, odd) == PixelLine(f, b, x, i, j, even, odd)
  {
    OnePixel(f, WalkLine(f, b, x, h, j, even, odd), x, h, j, even, odd);
  }

  lemma {:induction false} LineIsPixels(f: Format, b: seq<bv8>, x: nat, i: nat, j: nat, even: bv32, odd: bv32)
    requires |b| == f.size && x <= i && Fits(f.space, x, even, odd) && Regular(f)
    ensures WalkLine(f, b, x, i, j, even, odd) == PixelLine(f, b, x, i, j, even, odd)
    decreases i
  {
    if i == x {
      LineBase(f, b, x, j, even, odd);
    } else {
      var h := i - 1;
      LineIsPixels(f, b, x, h, j, even, odd);
      LineStep(f, b, x, h, i, j, even, odd);
    }
  }

  /** Screen_fill equals Screen_setPixel on every pixel of the rectangle, line by line. */
  lemma {:induction false} FillIsPixels(f: Format, b: seq<bv8>, x: nat, width: nat, y: nat, j: nat, even: bv32,
      odd: bv32)
    requires |b| == f.size && y <= j && Fits(f.space, x, even, odd) && Regular(f)
    ensures WalkLines(f, b, x, width, y, j, even, odd) == PixelLines(f, b, x, width, y, j, even, odd)
    decreases j
  {
    if j > y {
      var h := j - 1;
      FillIsPixels(f, b, x, width, y, h, even, odd);
      LineIsPixels(f, WalkLines(f, b, x, width, y, h, even, odd), x, x + width, h, even, odd);
    }
  }

  // ----- exactly when -----

  /** The stores of the pixel setter over the rectangle lie in the buffer. */
  ghost predicate PixelsInside(f: Format, x: nat, y: nat, width: nat, height: nat) {
    forall i: nat, j: nat :: x <= i < x + width && y <= j < y + height ==> Inside(f, PixelByte(f, i, j))
  }

  /** On every buffer with this line length, and every rectangle from column `x` on that lies in it, the fill
      leaves what the pixel setter would. */
  ghost predicate FillsLikePixels(s: ColorSpace, lineLength: nat, x: nat, even: bv32, odd: bv32) {
    forall f: Format, b: seq<bv8>, width: nat, y: nat, j: nat ::
      f.space == s && f.lineLength == lineLength && |b| == f.size && y <= j &&
      WalkInside(f, x, y, width, j - y) && PixelsInside(f, x, y, width, j - y) ==>
        WalkLines(f, b, x, width, y, j, even, odd) == PixelLines(f, b, x, width, y, j, even, odd)
  }

  /** A rectangle of one pixel. */
  lemma SinglePixel(f: Format, b: seq<bv8>, x: nat, y: nat, even: bv32, odd: bv32)
    requires |b| == f.size
    ensures WalkLines(f, b, x, 1, y, y + 1, even, odd)
         == Stored(f, b, y * f.lineLength + GetInc(f.space, x), x + x, Striped(x + x, even, odd))
    ensures PixelLines(f, b, x, 1, y, y + 1, even, odd) == Stored(f, b, PixelByte(f, x, y), x, Striped(x, even, odd))
  {
    assert WalkLines(f, b, x, 1, y, y, even, odd) == b;
    assert WalkLine(f, b, x, x, y, even, odd) == b;
    assert PixelLines(f, b, x, 1, y, y, even, odd) == b;
    assert PixelLine(f, b, x, x, y, even, odd) == b;
  }

  /** One pixel on which walk and setter differ refutes the whole. */
  lemma OnePixelRefutes(f: Format, b: seq<bv8>, x: nat, y: nat, even: bv32, odd: bv32)
    requires |b| == f.size
    requires Inside(f, y * f.lineLength + GetInc(f.space, x)) && Inside(f, PixelByte(f, x, y))
    requires Stored(f, b, y * f.lineLength + GetInc(f.space, x), x + x, Striped(x + x, even, odd))
          != Stored(f, b, PixelByte(f, x, y), x, Striped(x, even, odd))
    ensures !FillsLikePixels(f.space, f.lineLength, x, even, odd)
  {
    SinglePixel(f, b, x, y, even, odd);
    assert WalkInside(f, x, y, 1, y + 1 - y) && PixelsInside(f, x, y, 1, y + 1 - y);
  }

  function Constant(n: nat, v: bv8): (b: seq<bv8>)
    ensures |b| == n && forall i :: 0 <= i < n ==> b[i] == v
  {
    seq(n, i => v)
  }

  lemma TwiceIsEven(x: nat)
    ensures (x + x) % 2 == 0
  {
    Doubled(x);
  }

  /** An odd start column exchanges the stripes. */
  lemma OddColumnDiffers(s: ColorSpace, lineLength: nat, x: nat, even: bv32, odd: bv32)
    requires s != TWOBIT && x % 2 == 1 && !SameColour(even, odd)
    ensures !FillsLikePixels(s, lineLength, x, even, odd)
  {
    TwiceIsEven(x);
    if s == YUV422PSEMI {
      var f := Format(s, lineLength, 2 * (x + 1));
      var b := Constant(f.size, 0);
      assert Stored(f, b, x, x + x, even)[x] == High(even) && Stored(f, b, x, x, odd)[x] == High(odd);
      assert Stored(f, b, x, x + x, even)[x + (x + 1)] == Low(even) && Stored(f, b, x, x, odd)[x + (x + 1)] == Low(odd);
      OnePixelRefutes(f, b, x, 0, even, odd);
    } else {
      var f := Format(s, lineLength, 2 * x + 2);
      var b := Constant(f.size, 0);
      assert Stored(f, b, 2 * x, x + x, even)[2 * x] == Low(even) && Stored(f, b, 2 * x, x, odd)[2 * x] == Low(odd);
      assert Stored(f, b, 2 * x, x + x, even)[2 * x + 1] == High(even);
      assert Stored(f, b, 2 * x, x, odd)[2 * x + 1] == High(odd);
      OnePixelRefutes(f, b, x, 0, even, odd);
    }
  }

  lemma ByteIsNotItsComplement(v: bv8)
    ensures !v != v
  {
  }

  /** An odd line length puts the 16-bit walk one byte off on line 1. */
  lemma OddLineDiffers(lineLength: nat, x: nat, even: bv32, odd: bv32)
    requires lineLength % 2 == 1
    ensures !FillsLikePixels(RGB565, lineLength, x, even, odd)
  {
    var p := lineLength + 2 * x;
    var v, w := Striped(x + x, even, odd), Striped(x, even, odd);
    var f := Format(RGB565, lineLength, p + 2);
    var b := Constant(f.size, !Low(w));
    assert PixelByte(f, x, 1) == p - 1;
    ByteIsNotItsComplement(Low(w));
    assert Stored(f, b, p, x + x, v)[p - 1] == !Low(w) && Stored(f, b, p - 1, x, w)[p - 1] == Low(w);
    OnePixelRefutes(f, b, x, 1, even, odd);
  }

  /** Two different two-bit places of a byte cannot agree both on a clear and on a full byte. */
  lemma PlacesDiffer(s: nat, t: nat, v: bv32, w: bv32)
    requires s != t && EvenShift(s) && EvenShift(t)
    ensures Packed(0, s, v) != Packed(0, t, w) || Packed(0xff, s, v) != Packed(0xff, t, w)
  {
    if s < t {
      BelowUntouched(0, s, t, w);
      BelowUntouched(0xff, s, t, w);
      PlaceFixed(s, v);
    } else {
      BelowUntouched(0, t, s, v);
      BelowUntouched(0xff, t, s, v);
      PlaceFixed(t, w);
    }
  }

  /** A store leaves the places below its own alone. */
  lemma BelowUntouched(b: bv8, s: nat, t: nat, w: bv32)
    requires s < t && EvenShift(s) && EvenShift(t)
    ensures TwoBits(Packed(b, t, w), s) == TwoBits(b, s)
  {
    if t == 2 {
    } else if t == 4 {
      if s == 0 {} else {}
    } else {
      if s == 0 {} else if s == 2 {} else {}
    }
  }

  /** What a store leaves at its own place does not depend on what was there. */
  lemma PlaceFixed(s: nat, v: bv32)
    requires EvenShift(s)
    ensures TwoBits(Packed(0, s, v), s) == TwoBits(Packed(0xff, s, v), s) && TwoBits(0, s) != TwoBits(0xff, s)
  {
    if s == 0 {
    } else if s == 2 {
    } else if s == 4 {
    } else {
    }
  }

  lemma OtherPlace(x: nat)
    requires x % 4 != 0
    ensures Shift(x + x) != Shift(x)
  {
    var q, k := x / 4, x % 4;
    assert x + x == 4 * (2 * q) + (k + k);
  }

  /** A start column that is no multiple of four puts the two-bit walk at another place of the byte. */
  lemma OddPlaceDiffers(lineLength: nat, x: nat, even: bv32, odd: bv32)
    requires x % 4 != 0
    ensures !FillsLikePixels(TWOBIT, lineLength, x, even, odd)
  {
    var p := x / 4;
    var v, w := Striped(x + x, even, odd), Striped(x, even, odd);
    var f := Format(TWOBIT, lineLength, p + 1);
    OtherPlace(x);
    PlacesDiffer(Shift(x + x), Shift(x), v, w);
    var b := Constant(f.size, if Packed(0, Shift(x + x), v) != Packed(0, Shift(x), w) then 0 else 0xff);
    assert Stored(f, b, p, x + x, v)[p] == Packed(b[p], Shift(x + x), v);
    assert Stored(f, b, p, x, w)[p] == Packed(b[p], Shift(x), w);
    OnePixelRefutes(f, b, x, 0, even, odd);
  }

  /** Screen_fill leaves what Screen_setPixel on every pixel would, whatever the buffer and the rectangle, exactly
      when the start column and the stripes fit and 16-bit lines have even length. */
  lemma FillIsPixelsIff(s: ColorSpace, lineLength: nat, x: nat, even: bv32, odd: bv32)
    ensures FillsLikePixels(s, lineLength, x, even, odd)
       <==> Fits(s, x, even, odd) && (s == RGB565 ==> lineLength % 2 == 0)
  {
    if s == RGB565 && lineLength % 2 == 1 {
      OddLineDiffers(lineLength, x, even, odd);
    } else if s == TWOBIT && x % 4 != 0 {
      OddPlaceDiffers(lineLength, x, even, odd);
    } else if !Fits(s, x, even, odd) {
      OddColumnDiffers(s, lineLength, x, even, odd);
    } else {
      forall f: Format, b: seq<bv8>, width: nat, y: nat, j: nat
        | f.space == s && f.lineLength == lineLength && |b| == f.size && y <= j
        ensures WalkLines(f, b, x, width, y, j, even, odd) == PixelLines(f, b, x, width, y, j, even, odd) {
        FillIsPixels(f, b, x, width, y, j, even, odd);
      }
    }
  }

  /** An unaligned fill of one pixel: column 1 of a 4-byte YUV422 buffer gets the even value instead of the odd one. */
  lemma UnalignedDiffers()
    ensures var f := Format(YUV422PSEMI, 2, 4);
            && WalkLines(f, Constant(4, 0), 1, 1, 0, 1, 0x1234, 0x5678) == [0, 0x12, 0, 0x34]
            && PixelLines(f, Constant(4, 0), 1, 1, 0, 1, 0x1234, 0x5678) == [0, 0x56, 0, 0x78]
  {
    var f := Format(YUV422PSEMI, 2, 4);
    SinglePixel(f, Constant(4, 0), 1, 0, 0x1234, 0x5678);
  }

  // ----- what is on the screen afterwards -----

  function PixelsPerLine(f: Format): nat {
    match f.space
    case YUV422PSEMI => f.lineLength
    case RGB565 => f.lineLength / 2
    case TWOBIT => 4 * f.lineLength
  }

  function TwoBits(b: bv8, s: nat): bv8
    requires EvenShift(s)
  {
    if s == 0 then b & 3 else if s == 2 then (b >> 2) & 3 else if s == 4 then (b >> 4) & 3 else (b >> 6) & 3
  }

  /** A pixel's value as stored: two bytes, or two bits. */
  function PixelAt(f: Format, b: seq<bv8>, x: nat, p: nat): (bv8, bv8)
    requires |b| == f.size && Inside(f, p)
  {
    match f.space
    case YUV422PSEMI => (b[p], b[p + f.size / 2])
    case RGB565 => (b[p + 1], b[p])
    case TWOBIT => (TwoBits(b[p], Shift(x)), 0)
  }

  function Shown(f: Format, v: bv32): (bv8, bv8) {
    if f.space == TWOBIT then (Low(v), 0) else (High(v), Low(v))
  }

  /** Two-bit values are 0 to 3. */
  predicate Valued(f: Format, v: bv32) {
    f.space == TWOBIT ==> v < 4
  }

  lemma PackedSame(b: bv8, s: nat, v: bv32)
    requires v < 4 && EvenShift(s)
    ensures TwoBits(Packed(b, s, v), s) == Low(v)
  {
    if s == 0 {
    } else if s == 2 {
    } else if s == 4 {
    } else {
    }
  }

  lemma PackedOther(b: bv8, s: nat, t: nat, v: bv32)
    requires v < 4 && s != t && EvenShift(s) && EvenShift(t)
    ensures TwoBits(Packed(b, s, v), t) == TwoBits(b, t)
  {
    if s == 0 {
      if t == 2 {} else if t == 4 {} else {}
    } else if s == 2 {
      if t == 0 {} else if t == 4 {} else {}
    } else if s == 4 {
      if t == 0 {} else if t == 2 {} else {}
    } else {
      if t == 0 {} else if t == 2 {} else {}
    }
  }

  /** Two pixels share storage only if they are the same. */
  predicate Apart(f: Format, x: nat, p: nat, x': nat, p': nat) {
    match f.space
    case YUV422PSEMI => p != p'
    case RGB565 => p != p' && p % 2 == p' % 2 == 0
    case TWOBIT => p != p' || Shift(x) != Shift(x')
  }

  lemma StoredAt(f: Format, b: seq<bv8>, p: nat, x: nat, v: bv32, p': nat, x': nat)
    requires |b| == f.size && Inside(f, p') && Valued(f, v)
    ensures p == p' && (f.space == TWOBIT ==> Shift(x) == Shift(x')) ==>
        PixelAt(f, Stored(f, b, p, x, v), x', p') == Shown(f, v)
    ensures Apart(f, x, p, x', p') ==> PixelAt(f, Stored(f, b, p, x, v), x', p') == PixelAt(f, b, x', p')
  {
    if f.space == TWOBIT && Inside(f, p) {
      PackedAt(b, p, Shift(x), v, p', Shift(x'));
    }
  }

  /** Replacing two bits of one byte of a buffer, read back at any place. */
  lemma PackedAt(b: seq<bv8>, p: nat, s: nat, v: bv32, p': nat, t: nat)
    requires p < |b| && p' < |b| && v < 4 && EvenShift(s) && EvenShift(t)
    ensures p == p' && s == t ==> TwoBits(b[p := Packed(b[p], s, v)][p'], t) == Low(v)
    ensures p != p' || s != t ==> TwoBits(b[p := Packed(b[p], s, v)][p'], t) == TwoBits(b[p'], t)
  {
    if p == p' {
      if s == t {
        PackedSame(b[p], s, v);
      } else {
        PackedOther(b[p], s, t, v);
      }
    }
  }

  /** Screen_setPixel in bytes. 8-bit pixels have their first byte in the first half of the buffer and the second as
      far on in the other half; a 16-bit pixel has its low byte first; four two-bit pixels share a byte from the low
      end up. */
  lemma PixelSetIs(f: Format, b: seq<bv8>, x: nat, y: nat, v: bv32, low: bv8, high: bv8)
    requires |b| == f.size && Inside(f, PixelByte(f, x, y)) && (f.space == TWOBIT ==> v < 4)
    requires low == (v & 0xff) as bv8 && high == ((v >> 8) & 0xff) as bv8
    ensures f.space == YUV422PSEMI ==>
              PixelSet(f, b, x, y, v) == b[y * f.lineLength + x := high][y * f.lineLength + x + f.size / 2 := low]
    ensures f.space == RGB565 ==>
              var p := 2 * (y * (f.lineLength / 2) + x); PixelSet(f, b, x, y, v) == b[p := low][p + 1 := high]
    ensures f.space == TWOBIT ==>
              var p := y * f.lineLength + x / 4;
              PixelSet(f, b, x, y, v) == b[p := Quarter(b[p], x % 4, low)]
  {
    if f.space == TWOBIT {
      QuarterIs(b[PixelByte(f, x, y)], x % 4, v, low);
    }
  }

  /** Two bits of a byte replaced. */
  function Quarter(b: bv8, k: nat, two: bv8): bv8 {
    if k == 0 then (b & 0xfc) | two
    else if k == 1 then (b & 0xf3) | (two << 2)
    else if k == 2 then (b & 0xcf) | (two << 4)
    else (b & 0x3f) | (two << 6)
  }

  lemma QuarterIs(b: bv8, k: nat, v: bv32, low: bv8)
    requires k < 4 && v < 4 && low == (v & 0xff) as bv8
    ensures Packed(b, 2 * k, v) == Quarter(b, k, low)
  {
    if k == 0 {} else if k == 1 {} else if k == 2 {} else {}
  }

  lemma RowMajor(n: nat, y: nat, a: nat, y': nat, b: nat)
    requires a < n && b < n && y * n + a == y' * n + b
    ensures y == y' && a == b
  {
    if y < y' {
      Gap(n, y, y');
    } else if y' < y {
      Gap(n, y', y);
    }
  }

  lemma Gap(n: nat, y: nat, y': nat)
    requires y < y'
    ensures y * n + n <= y' * n
  {
    var d := y' - y - 1;
    assert y' * n == (y + 1 + d) * n == y * n + n + d * n;
  }

  lemma DifferentQuads(n: nat, x: nat, y: nat, x': nat, y': nat)
    requires x < 4 * n && x' < 4 * n && (x != x' || y != y')
    ensures y * n + x / 4 != y' * n + x' / 4 || Shift(x) != Shift(x')
  {
    var a, b := x / 4, x' / 4;
    if y * n + a == y' * n + b && Shift(x) == Shift(x') {
      RowMajor(n, y, a, y', b);
      Quarters(x, x');
    }
  }

  lemma Quarters(x: nat, x': nat)
    requires x / 4 == x' / 4 && Shift(x) == Shift(x')
    ensures x == x'
  {
  }

  lemma DifferentCells(n: nat, x: nat, y: nat, x': nat, y': nat)
    requires x < n && x' < n && (x != x' || y != y')
    ensures y * n + x != y' * n + x'
  {
    if y * n + x == y' * n + x' {
      RowMajor(n, y, x, y', x');
    }
  }

  /** Different pixels of lines that do not overlap share no storage. */
  lemma DifferentPixels(f: Format, x: nat, y: nat, x': nat, y': nat)
    requires x < PixelsPerLine(f) && x' < PixelsPerLine(f) && (x != x' || y != y')
    ensures Apart(f, x, PixelByte(f, x, y), x', PixelByte(f, x', y'))
  {
    match f.space
    case YUV422PSEMI => DifferentCells(f.lineLength, x, y, x', y');
    case RGB565 => DifferentCells(f.lineLength / 2, x, y, x', y');
    case TWOBIT => DifferentQuads(f.lineLength, x, y, x', y');
  }

  /** Line `j` of the fill shows the stripes in columns x..i and changes no other pixel. */
  lemma {:induction false} LineShows(
    f: Format, b: seq<bv8>, x: nat, i: nat, j: nat, even: bv32, odd: bv32, px: nat, py: nat)
    requires |b| == f.size && x <= i <= PixelsPerLine(f)
    requires Valued(f, even) && Valued(f, odd)
    requires px < PixelsPerLine(f) && Inside(f, PixelByte(f, px, py))
    ensures py == j && x <= px < i ==>
              PixelAt(f, PixelLine(f, b, x, i, j, even, odd), px, PixelByte(f, px, py)) ==
                Shown(f, Striped(px, even, odd))
    ensures !(py == j && x <= px < i) ==>
              PixelAt(f, PixelLine(f, b, x, i, j, even, odd), px, PixelByte(f, px, py)) ==
                PixelAt(f, b, px, PixelByte(f, px, py))
    decreases i
  {
    if i > x {
      var h := i - 1;
      LineShows(f, b, x, h, j, even, odd, px, py);
      if px != h || py != j {
        DifferentPixels(f, h, j, px, py);
      }
      StoredAt(f, PixelLine(f, b, x, h, j, even, odd), PixelByte(f, h, j), h, Striped(h, even, odd),
        PixelByte(f, px, py), px);
    }
  }

  /** Setting lines y..j one by one shows the stripes in the rectangle and changes no other pixel. */
  lemma {:induction false} LinesShow(
    f: Format, b: seq<bv8>, x: nat, width: nat, y: nat, j: nat, even: bv32, odd: bv32, px: nat, py: nat)
    requires |b| == f.size && y <= j && x + width <= PixelsPerLine(f)
    requires Valued(f, even) && Valued(f, odd)
    requires px < PixelsPerLine(f) && Inside(f, PixelByte(f, px, py))
    ensures y <= py < j && x <= px < x + width ==>
              PixelAt(f, PixelLines(f, b, x, width, y, j, even, odd), px, PixelByte(f, px, py)) ==
                Shown(f, Striped(px, even, odd))
    ensures !(y <= py < j && x <= px < x + width) ==>
              PixelAt(f, PixelLines(f, b, x, width, y, j, even, odd), px, PixelByte(f, px, py)) ==
                PixelAt(f, b, px, PixelByte(f, px, py))
    decreases j
  {
    if j == y {
      assert PixelLines(f, b, x, width, y, j, even, odd) == b;
    } else {
      var h := j - 1;
      var before, after := PixelLines(f, b, x, width, y, h, even, odd), PixelLines(f, b, x, width, y, j, even, odd);
      LinesShow(f, b, x, width, y, h, even, odd, px, py);
      OneMoreLine(f, b, x, width, y, h, j, even, odd, before, after);
      LineShows(f, before, x, x + width, h, even, odd, px, py);
    }
  }

  lemma OneMoreLine(f: Format, b: seq<bv8>, x: nat, width: nat, y: nat, h: nat, j: nat, even: bv32, odd: bv32,
      before: seq<bv8>, after: seq<bv8>)
    requires |b| == f.size && y <= h && j == h + 1
    requires before == PixelLines(f, b, x, width, y, h, even, odd)
    requires after == PixelLines(f, b, x, width, y, j, even, odd)
    ensures |before| == f.size && after == PixelLine(f, before, x, x + width, h, even, odd)
  {
  }

  /** After Screen_fill every pixel of the rectangle shows its stripe and every other pixel is as before. */
  lemma FillShows(
    f: Format, b: seq<bv8>, x: nat, width: nat, y: nat, j: nat, even: bv32, odd: bv32, px: nat, py: nat)
    requires |b| == f.size && y <= j && x + width <= PixelsPerLine(f) && Fits(f.space, x, even, odd) && Regular(f)
    requires Valued(f, even) && Valued(f, odd)
    requires px < PixelsPerLine(f) && Inside(f, PixelByte(f, px, py))
    ensures y <= py < j && x <= px < x + width ==>
              PixelAt(f, WalkLines(f, b, x, width, y, j, even, odd), px, PixelByte(f, px, py)) ==
                Shown(f, Striped(px, even, odd))
    ensures !(y <= py < j && x <= px < x + width) ==>
              PixelAt(f, WalkLines(f, b, x, width, y, j, even, odd), px, PixelByte(f, px, py)) ==
                PixelAt(f, b, px, PixelByte(f, px, py))
  {
    FillIsPixels(f, b, x, width, y, j, even, odd);
    LinesShow(f, b, x, width, y, j, even, odd, px, py);
  }
}
