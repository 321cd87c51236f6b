/** Drawing in a linear framebuffer: pixels, rectangles and lines. */
module Graphics {
  import opened Bytes
  import Bits

  type Point = (int, int)

  /** A line from (x0, y0) to (x1, y1). */
  datatype Segment = Segment(x0: int, y0: int, x1: int, y1: int)
  {
    function Dx(): int { x1 - x0 }
    function Dy(): int { y1 - y0 }

    /** How far the point is from the exact line, in units of 1/Dx. */
    function Lag(x: int, y: int): int { Dy() * (x - x0) - (y - y0) * Dx() }

    /** The points of the line, by their distance from it: a column has the last
        point not yet beyond the exact line, seen from the start. */
    predicate Has(x: int, y: int) {
      && x0 <= x <= x1
      && if x0 == x1 then (if y0 <= y1 then y0 <= y <= y1 else y1 <= y <= y0)
         else if Dy() >= 0 then 0 <= Lag(x, y) < Dx()
         else -Dx() < Lag(x, y) <= 0
    }
  }

  // ----- The shape of a line -----

  /** The division of C, which truncates toward zero. */
  function Quotient(a: int, d: int): int
    requires d != 0
  {
    if d > 0 then (if a >= 0 then a / d else -((-a) / d))
    else if a >= 0 then -(a / -d) else (-a) / -d
  }

  lemma QuotientBounds(a: int, d: int)
    requires d > 0
    ensures a >= 0 ==> 0 <= a - Quotient(a, d) * d < d
    ensures a <= 0 ==> -d < a - Quotient(a, d) * d <= 0
  {
    var b := if a >= 0 then a else -a;
    assert b == d * (b / d) + b % d;
  }

  /** It leaves a remainder smaller than the divisor, with the sign of the dividend. */
  lemma QuotientIs(a: int, d: int)
    requires d != 0
    ensures var r := a - Quotient(a, d) * d;
            && (if d > 0 then -d < r < d else d < r < -d)
            && (r > 0 ==> a > 0) && (r < 0 ==> a < 0)
  {
    if d > 0 {
      QuotientBounds(a, d);
    } else {
      QuotientBounds(a, -d);
      assert Quotient(a, d) == -Quotient(a, -d);
      assert Quotient(a, d) * d == Quotient(a, -d) * -d;
    }
  }

  lemma LagStep(l: Segment, x: int, y: int, y': int)
    ensures l.Lag(x, y) - l.Lag(x, y') == (y' - y) * l.Dx()
  {
  }

  /** The row that `line` computes for a column is the one row of the line there. */
  lemma ColumnRow(l: Segment, x: int, y: int)
    requires l.x0 <= x <= l.x1 && l.x0 < l.x1
    ensures l.Has(x, y) <==> y == l.y0 + Quotient(l.Dy() * (x - l.x0), l.Dx())
  {
    var a := l.Dy() * (x - l.x0);
    var row := l.y0 + Quotient(a, l.Dx());
    SignOfProduct(l.Dy(), x - l.x0);
    QuotientBounds(a, l.Dx());
    assert l.Lag(x, row) == a - Quotient(a, l.Dx()) * l.Dx();
    assert l.Has(x, row);
    if l.Has(x, y) {
      LagStep(l, x, row, y);
      Bits.Multiple(y - row, l.Dx(), l.Lag(x, row) - l.Lag(x, y));
    }
  }

  lemma SignOfProduct(a: int, b: int)
    requires b >= 0
    ensures a >= 0 ==> a * b >= 0
    ensures a <= 0 ==> a * b <= 0
  {
  }

  /** A line hits both its ends. */
  lemma Ends(l: Segment)
    requires l.x0 <= l.x1
    ensures l.Has(l.x0, l.y0) && l.Has(l.x1, l.y1)
  {
    assert l.Lag(l.x0, l.y0) == 0;
    assert l.Lag(l.x1, l.y1) == l.Dy() * l.Dx() - l.Dy() * l.Dx() == 0;
  }

  /** It never turns back ... */
  lemma Monotone(l: Segment, x: int, y: int, x': int, y': int)
    requires l.x0 < l.x1 && l.Has(x, y) && l.Has(x', y') && x <= x'
    ensures l.Dy() >= 0 ==> y <= y'
    ensures l.Dy() <= 0 ==> y >= y'
  {
    var d := l.Dx();
    SignOfProduct(l.Dy(), x' - x);
    assert (y' - y) * d == l.Dy() * (x' - x) + l.Lag(x, y) - l.Lag(x', y');
    Bits.MulBounds(y' - y, d);
  }

  /** ... and so stays between the rows of its ends. */
  lemma Between(l: Segment, x: int, y: int)
    requires l.Has(x, y)
    ensures if l.y0 <= l.y1 then l.y0 <= y <= l.y1 else l.y1 <= y <= l.y0
  {
    if l.x0 < l.x1 {
      Ends(l);
      Monotone(l, l.x0, l.y0, x, y);
      Monotone(l, x, y, l.x1, l.y1);
    }
  }

  // ----- Pixels in memory -----

  /** Size of the picture, bytes from one row to the next, bytes of a pixel. */
  datatype Layout = Layout(width: nat, height: nat, pitch: nat, depth: nat)
  {
    /** Rows do not overlap. The kernel does not check it. */
    predicate Apart() { 0 < width * depth <= pitch }

    /** All pixels lie in `size` bytes. */
    predicate Fits(size: nat) { width == 0 || height == 0 || (height - 1) * pitch + width * depth <= size }

    predicate OnScreen(x: int, y: int) { 0 <= x < width && 0 <= y < height }

    function Offset(x: nat, y: nat): nat { y * pitch + x * depth }

    function Byte(x: nat, y: nat, i: nat): nat { y * pitch + x * depth + i }

    /** Whether the `k`-th byte belongs to a pixel of the screen. */
    predicate Visible(k: nat)
      requires pitch > 0
    {
      k % pitch < width * depth && k / pitch < height
    }

    /** Whether the `k`-th byte belongs to this pixel. */
    predicate Covers(p: Point, k: nat) {
      OnScreen(p.0, p.1) && Offset(p.0, p.1) <= k < Offset(p.0, p.1) + depth
    }
  }

  /** The bytes of a colour, the low byte first. */
  function Ink(value: nat, depth: nat): (r: seq<byte>)
    ensures |r| == depth
  {
    if depth == 0 then [] else [value % 256] + Ink(value / 256, depth - 1)
  }

  function Power256(n: nat): (r: nat)
    ensures r > 0
  {
    if n == 0 then 1 else 256 * Power256(n - 1)
  }

  /** Byte `i` of a pixel is digit `i` of its colour in base 256. */
  lemma {:induction false} InkAt(value: nat, depth: nat, i: nat)
    requires i < depth
    ensures Ink(value, depth)[i] == value / Power256(i) % 256
  {
    if i > 0 {
      InkAt(value / 256, depth - 1, i - 1);
      DivideTwice(value, 256, Power256(i - 1));
    }
  }

  lemma DivideTwice(v: nat, a: nat, b: nat)
    requires a > 0 && b > 0
    ensures a * b > 0 && v / a / b == v / (a * b)
  {
    var q, r := v / a / b, v / a % b;
    assert v == a * (v / a) + v % a && v / a == b * q + r;
    assert v == (a * b) * q + (a * r + v % a) by {
      assert a * (b * q + r) == (a * b) * q + a * r;
    }
    assert a * r + v % a < a * b by {
      Bits.MulBounds(b - r, a);
      assert (b - r) * a == a * b - a * r;
    }
    Bits.RemainderUnique(v, a * b, q, a * r + v % a);
  }

  lemma OffsetInside(l: Layout, x: nat, y: nat, size: nat)
    requires l.Fits(size) && l.OnScreen(x, y)
    ensures l.Offset(x, y) + l.depth <= size
  {
    MulMono(x + 1, l.width, l.depth);
    MulMono(y, l.height - 1, l.pitch);
  }

  /** A memory holds every pixel exactly if the layout fits it. */
  lemma FitsExactly(l: Layout, size: nat)
    ensures l.Fits(size) <==> forall x: nat, y: nat :: x < l.width && y < l.height ==> l.Byte(x, y, l.depth) <= size
  {
    if l.Fits(size) {
      forall x: nat, y: nat | x < l.width && y < l.height ensures l.Byte(x, y, l.depth) <= size {
        OffsetInside(l, x, y, size);
      }
    } else {
      assert l.Byte(l.width - 1, l.height - 1, l.depth) == (l.height - 1) * l.pitch + l.width * l.depth;
    }
  }

  lemma MulMono(a: nat, b: nat, c: nat)
    requires a <= b
    ensures a * c <= b * c && a * c + c == (a + 1) * c
  {
  }

  /** The byte ranges of two pixels are disjoint, and margins belong to none. */
  lemma PixelOfByte(l: Layout, x: nat, y: nat, b: nat)
    requires l.Apart() && l.OnScreen(x, y) && b < l.depth
    ensures var k := l.Offset(x, y) + b;
            l.pitch > 0 && l.Visible(k) && k / l.pitch == y && k % l.pitch / l.depth == x && k % l.pitch % l.depth == b
  {
    var k := l.Offset(x, y) + b;
    Bits.MulBounds(l.width - x, l.depth);
    assert (l.width - x) * l.depth == l.width * l.depth - x * l.depth;
    Bits.RemainderUnique(k, l.pitch, y, x * l.depth + b);
    Bits.RemainderUnique(x * l.depth + b, l.depth, x, b);
  }

  function Cell(l: Layout, bytes: seq<byte>, x: nat, y: nat): seq<byte>
    requires l.OnScreen(x, y) && l.Fits(|bytes|)
  {
    OffsetInside(l, x, y, |bytes|);
    bytes[l.Offset(x, y)..l.Offset(x, y) + l.depth]
  }

  /** The memory after one pixel: off the screen nothing is painted. */
  function Put(l: Layout, bytes: seq<byte>, p: Point, value: nat): (r: seq<byte>)
    requires l.Fits(|bytes|)
    ensures |r| == |bytes|
    ensures forall k :: 0 <= k < |bytes| ==>
              r[k] == if l.Covers(p, k) then Ink(value, l.depth)[k - l.Offset(p.0, p.1)] else bytes[k]
  {
    if !l.OnScreen(p.0, p.1) then bytes
    else
      OffsetInside(l, p.0, p.1, |bytes|);
      var at := l.Offset(p.0, p.1);
      bytes[..at] + Ink(value, l.depth) + bytes[at + l.depth..]
  }

  /** The memory after pixels, in order. */
  function Drawn(l: Layout, bytes: seq<byte>, points: seq<Point>, value: nat): (r: seq<byte>)
    requires l.Fits(|bytes|)
    ensures |r| == |bytes|
  {
    if points == [] then bytes
    else Put(l, Drawn(l, bytes, points[..|points| - 1], value), points[|points| - 1], value)
  }

  lemma DrawnNext(l: Layout, bytes: seq<byte>, points: seq<Point>, i: nat, value: nat)
    requires l.Fits(|bytes|) && i < |points|
    ensures Drawn(l, bytes, points[..i + 1], value) == Put(l, Drawn(l, bytes, points[..i], value), points[i], value)
  {
    assert points[..i + 1][..i] == points[..i];
  }

  lemma {:induction false} DrawnBoth(l: Layout, bytes: seq<byte>, p: seq<Point>, q: seq<Point>, value: nat)
    requires l.Fits(|bytes|)
    ensures Drawn(l, bytes, p + q, value) == Drawn(l, Drawn(l, bytes, p, value), q, value)
    decreases |q|
  {
    if q == [] {
      assert p + q == p;
    } else {
      DrawnBoth(l, bytes, p, q[..|q| - 1], value);
      assert (p + q)[..|p + q| - 1] == p + q[..|q| - 1];
    }
  }

  /** On any layout, a byte has what the last pixel that covers it put there ... */
  lemma {:induction false} LastPainter(l: Layout, bytes: seq<byte>, points: seq<Point>, value: nat, k: nat, j: nat)
    requires l.Fits(|bytes|) && k < |bytes| && j < |points| && l.Covers(points[j], k)
    requires forall i :: j < i < |points| ==> !l.Covers(points[i], k)
    ensures Drawn(l, bytes, points, value)[k] == Ink(value, l.depth)[k - l.Offset(points[j].0, points[j].1)]
    decreases |points|
  {
    if j < |points| - 1 {
      LastPainter(l, bytes, points[..|points| - 1], value, k, j);
    }
  }

  /** ... and stays as it was when none does. */
  lemma {:induction false} NoPainter(l: Layout, bytes: seq<byte>, points: seq<Point>, value: nat, k: nat)
    requires l.Fits(|bytes|) && k < |bytes| && forall i :: 0 <= i < |points| ==> !l.Covers(points[i], k)
    ensures Drawn(l, bytes, points, value)[k] == bytes[k]
    decreases |points|
  {
    if points != [] {
      NoPainter(l, bytes, points[..|points| - 1], value, k);
    }
  }

  /** Exactly the points of `points` that are on the screen got the colour. */
  ghost predicate Painted(l: Layout, before: seq<byte>, after: seq<byte>, points: seq<Point>, value: nat)
    requires l.Fits(|before|)
  {
    && |after| == |before|
    && (forall x, y :: l.OnScreen(x, y) ==>
          Cell(l, after, x, y) == if (x, y) in points then Ink(value, l.depth) else Cell(l, before, x, y))
    && (forall k :: 0 <= k < |before| && !(l.pitch > 0 && l.Visible(k)) ==> after[k] == before[k])
  }

  /** When rows do not overlap, drawing paints exactly its points, in any order and
      however often. */
  lemma {:induction false} DrawnPainted(l: Layout, bytes: seq<byte>, points: seq<Point>, value: nat)
    requires l.Apart() && l.Fits(|bytes|)
    ensures Painted(l, bytes, Drawn(l, bytes, points, value), points, value)
    decreases |points|
  {
    if points != [] {
      var n := |points| - 1;
      var middle := Drawn(l, bytes, points[..n], value);
      DrawnPainted(l, bytes, points[..n], value);
      OnePixel(l, middle, points[n], value);
      PaintedBoth(l, bytes, middle, Put(l, middle, points[n], value), points[..n], points[n], value);
      assert points[..n] + [points[n]] == points;
    }
  }

  /** Byte by byte: a pixel of the screen that was drawn has the digits of its colour
      in base 256, the low one first; any other has what it had. */
  lemma PixelBytes(l: Layout, bytes: seq<byte>, points: seq<Point>, value: nat, x: nat, y: nat, i: nat)
    requires l.Apart() && l.Fits(|bytes|) && x < l.width && y < l.height && i < l.depth
    ensures var k := y * l.pitch + x * l.depth + i;
            && k < |bytes|
            && Drawn(l, bytes, points, value)[k] ==
               if (x as int, y as int) in points then value / Power256(i) % 256 else bytes[k]
  {
    var after := Drawn(l, bytes, points, value);
    OffsetInside(l, x, y, |bytes|);
    DrawnPainted(l, bytes, points, value);
    var k := y * l.pitch + x * l.depth + i;
    assert after[k] == Cell(l, after, x, y)[i] && bytes[k] == Cell(l, bytes, x, y)[i];
    InkAt(value, l.depth, i);
  }

  lemma CoveredByte(l: Layout, p: Point, k: nat) returns (i: nat)
    requires l.Covers(p, k)
    ensures 0 <= p.0 < l.width && 0 <= p.1 < l.height && i < l.depth && k == l.Byte(p.0, p.1, i)
  {
    i := k - l.Offset(p.0, p.1);
  }

  /** A byte that belongs to no pixel of the screen stays, on any layout. */
  lemma OtherBytes(l: Layout, bytes: seq<byte>, points: seq<Point>, value: nat, k: nat)
    requires l.Fits(|bytes|) && k < |bytes|
    requires forall x: nat, y: nat, i: nat :: x < l.width && y < l.height && i < l.depth ==> k != l.Byte(x, y, i)
    ensures Drawn(l, bytes, points, value)[k] == bytes[k]
  {
    forall j | 0 <= j < |points| ensures !l.Covers(points[j], k) {
      if l.Covers(points[j], k) {
        var i := CoveredByte(l, points[j], k);
      }
    }
    NoPainter(l, bytes, points, value, k);
  }

  lemma PaintedBoth(l: Layout, a: seq<byte>, b: seq<byte>, c: seq<byte>, ps: seq<Point>, p: Point, value: nat)
    requires l.Fits(|a|) && Painted(l, a, b, ps, value) && Painted(l, b, c, [p], value)
    ensures Painted(l, a, c, ps + [p], value)
  {
  }

  lemma OnePixel(l: Layout, before: seq<byte>, p: Point, value: nat)
    requires l.Apart() && l.Fits(|before|)
    ensures Painted(l, before, Put(l, before, p, value), [p], value)
  {
    var after := Put(l, before, p, value);
    if l.OnScreen(p.0, p.1) {
      OffsetInside(l, p.0, p.1, |before|);
      assert Cell(l, after, p.0, p.1) == Ink(value, l.depth);
      forall x, y | l.OnScreen(x, y) && (x, y) != p ensures Cell(l, after, x, y) == Cell(l, before, x, y) {
        OtherPixel(l, before, after, p.0, p.1, x, y);
      }
      forall k | 0 <= k < |before| && !(l.pitch > 0 && l.Visible(k)) ensures after[k] == before[k] {
        if l.Covers(p, k) { PixelOfByte(l, p.0, p.1, k - l.Offset(p.0, p.1)); }
      }
    }
  }

  lemma OtherPixel(l: Layout, before: seq<byte>, after: seq<byte>, x: nat, y: nat, x': nat, y': nat)
    requires l.Apart() && l.OnScreen(x, y) && l.OnScreen(x', y') && (x', y') != (x, y)
    requires |after| == |before| && l.Fits(|before|)
    requires forall k :: 0 <= k < |before| && !(l.Offset(x, y) <= k < l.Offset(x, y) + l.depth) ==>
               after[k] == before[k]
    ensures Cell(l, after, x', y') == Cell(l, before, x', y')
  {
    var at, at' := l.Offset(x, y), l.Offset(x', y');
    OffsetInside(l, x', y', |before|);
    forall k: nat | at' <= k < at' + l.depth ensures after[k] == before[k] {
      PixelOfByte(l, x', y', k - at');
      if at <= k < at + l.depth { PixelOfByte(l, x, y, k - at); }
    }
  }

  // ----- Drawing -----

  const I31: int := 0x8000_0000

  /** A coordinate of 32 bits. */
  type Coordinate = v: nat | v < U32

  /** The conversion to `int32_t`. */
  function Signed(v: Coordinate): int {
    if v < I31 then v else v - U32
  }

  function Unsigned(v: int): Coordinate {
    v % U32
  }

  lemma SignedUnsigned(v: int)
    requires -I31 <= v < I31
    ensures Signed(Unsigned(v)) == v
  {
  }

  lemma UnsignedSigned(v: Coordinate)
    ensures -I31 <= Signed(v) < I31 && Unsigned(Signed(v)) == v
  {
  }

  /** The line that the arguments of `line` name: its arithmetic is signed. */
  function SignedLine(x0: Coordinate, y0: Coordinate, x1: Coordinate, y1: Coordinate): Segment {
    Segment(Signed(x0), Signed(y0), Signed(x1), Signed(y1))
  }

  /** The row that the loop computes for a column. */
  function ColumnOf(l: Segment, x: int): int
    requires l.x0 != l.x1
  {
    l.y0 + Quotient(l.Dy() * (x - l.x0), l.Dx())
  }

  predicate Word(v: int) {
    -I31 <= v < I31
  }

  /** No signed operation overflows at this column. */
  predicate DefinedAt(l: Segment, x: int)
    requires l.x0 != l.x1
  {
    && Word(x - l.x0) && Word(l.Dy() * (x - l.x0))
    && Word(Quotient(l.Dy() * (x - l.x0), l.Dx())) && Word(ColumnOf(l, x))
  }

  /** No signed operation of `line` overflows at any column it visits. Up to the last
      column of the 32-bit range these are all columns, since the counter wraps. */
  ghost predicate Defined(x0: Coordinate, x1: Coordinate, l: Segment) {
    x0 < x1 ==>
      && l.Dx() != 0 && Word(l.Dx()) && Word(l.Dy())
      && forall x: Coordinate :: x0 <= x <= x1 || x1 == U32 - 1 ==> DefinedAt(l, Signed(x))
  }

  /** The one line that never ends: flat, over all columns. Every other line up to
      the last column overflows. */
  lemma EndlessLine(x0: Coordinate, y0: Coordinate, x1: Coordinate, y1: Coordinate)
    requires x0 < x1 == U32 - 1
    ensures Defined(x0, x1, SignedLine(x0, y0, x1, y1)) <==> x0 == 0 && y0 == y1
  {
    var l := SignedLine(x0, y0, x1, y1);
    UnsignedSigned(x0);
    UnsignedSigned(y0);
    UnsignedSigned(y1);
    if Defined(x0, x1, l) {
      var least, most: Coordinate := I31, I31 - 1;
      assert DefinedAt(l, Signed(least)) && DefinedAt(l, Signed(most));
      assert Signed(least) == -I31 && Signed(most) == I31 - 1;
      OnlyFlat(l);
    }
    if x0 == 0 && y0 == y1 {
      forall x: Coordinate ensures DefinedAt(l, Signed(x)) {
        UnsignedSigned(x);
        assert l.Dy() * (Signed(x) - l.x0) == 0;
      }
    }
  }

  lemma OnlyFlat(l: Segment)
    requires l.x0 != l.x1 == -1 && DefinedAt(l, -I31) && DefinedAt(l, I31 - 1)
    ensures l.x0 == 0 && l.Dy() == 0
  {
    assert l.x0 == 0;
    Bits.MulBounds(l.Dy() - 1, I31);
  }

  function Rows(l: Segment): nat {
    (if l.Dy() < 0 then -l.Dy() else l.Dy()) + 1
  }

  /** The `i`-th row of a vertical line. */
  function VerticalRow(l: Segment, i: int): int {
    if l.y0 <= l.y1 then l.y0 + i else l.y0 - i
  }

  /** The pixels of a vertical line, from its first row to its last. */
  function VerticalPoints(x0: Coordinate, l: Segment): seq<Point> {
    seq(Rows(l), i requires 0 <= i < Rows(l) => (x0 as int, Unsigned(VerticalRow(l, i)) as int))
  }

  /** The pixels of a sloped line, column by column. */
  function SlopedPoints(x0: Coordinate, x1: Coordinate, l: Segment): seq<Point>
    requires x0 <= x1 && l.x0 != l.x1
  {
    seq(x1 - x0 + 1, i requires 0 <= i < x1 - x0 + 1 => (x0 + i, Unsigned(ColumnOf(l, Signed(x0 + i))) as int))
  }

  /** The pixels that `line` paints, in order. */
  function LinePoints(x0: Coordinate, y0: Coordinate, x1: Coordinate, y1: Coordinate): seq<Point> {
    var l := SignedLine(x0, y0, x1, y1);
    if x0 == x1 then VerticalPoints(x0, l)
    else if x0 > x1 then []
    else
      UnsignedSigned(x0);
      UnsignedSigned(x1);
      SlopedPoints(x0, x1, l)
  }

  lemma VerticalShape(x0: Coordinate, l: Segment, x: Coordinate, y: Coordinate)
    requires l.x0 == l.x1 == Signed(x0) && Word(l.y0) && Word(l.y1)
    ensures (x, y) in VerticalPoints(x0, l) <==> l.Has(Signed(x), Signed(y))
  {
    UnsignedSigned(x);
    UnsignedSigned(x0);
    UnsignedSigned(y);
    if l.Has(Signed(x), Signed(y)) {
      VerticalFound(x0, l, Signed(y));
    }
    if (x, y) in VerticalPoints(x0, l) {
      var i: nat :| i < Rows(l) && VerticalPoints(x0, l)[i] == (x as int, y as int);
      VerticalHas(l, Signed(y), i);
    }
  }

  lemma VerticalFound(x0: Coordinate, l: Segment, y: int)
    requires l.Has(l.x0, y) && l.x0 == l.x1
    ensures (x0 as int, Unsigned(y) as int) in VerticalPoints(x0, l)
  {
    var i := if l.y0 <= l.y1 then y - l.y0 else l.y0 - y;
    assert VerticalPoints(x0, l)[i] == (x0 as int, Unsigned(y) as int);
  }

  lemma VerticalHas(l: Segment, y: int, i: nat)
    requires l.x0 == l.x1 && Word(l.y0) && Word(l.y1) && i < Rows(l)
    requires Word(y) && Unsigned(y) == Unsigned(VerticalRow(l, i))
    ensures l.Has(l.x0, y)
  {
    var row := VerticalRow(l, i);
    SignedUnsigned(y);
    SignedUnsigned(row);
    assert y == row;
  }

  lemma SlopedShape(x0: Coordinate, x1: Coordinate, l: Segment, x: Coordinate, y: Coordinate)
    requires x0 < x1 && l.x0 == Signed(x0) < l.x1 == Signed(x1) && Word(l.y0) && Word(l.y1)
    ensures (x, y) in SlopedPoints(x0, x1, l) <==> l.Has(Signed(x), Signed(y))
  {
    var points := SlopedPoints(x0, x1, l);
    UnsignedSigned(x);
    UnsignedSigned(y);
    if x0 <= x <= x1 {
      var row := ColumnOf(l, Signed(x));
      ColumnRow(l, Signed(x), row);
      ColumnRow(l, Signed(x), Signed(y));
      Between(l, Signed(x), row);
      SignedUnsigned(row);
      assert points[x - x0] == (x as int, Unsigned(row) as int);
    }
  }

  /** Of columns in one half of the 32-bit range, `line` paints exactly the points
      of the line; rows and columns are read as signed numbers. */
  lemma LineShape(x0: Coordinate, y0: Coordinate, x1: Coordinate, y1: Coordinate, x: Coordinate, y: Coordinate)
    requires x0 < I31 <==> x1 < I31
    ensures (x, y) in LinePoints(x0, y0, x1, y1) <==> SignedLine(x0, y0, x1, y1).Has(Signed(x), Signed(y))
  {
    var l := SignedLine(x0, y0, x1, y1);
    UnsignedSigned(x0);
    UnsignedSigned(x1);
    UnsignedSigned(y0);
    UnsignedSigned(y1);
    if x0 == x1 {
      VerticalShape(x0, l, x, y);
    } else if x0 < x1 {
      SlopedShape(x0, x1, l, x, y);
    }
  }

  /** The pixels of a row, and of an area row by row. */
  function RowPoints(left: nat, right: nat, y: nat): seq<Point> {
    if left >= right then [] else RowPoints(left, right - 1, y) + [(right - 1, y as int)]
  }

  function AreaPoints(left: nat, top: nat, right: nat, bottom: nat): seq<Point> {
    if top >= bottom then [] else AreaPoints(left, top, right, bottom - 1) + RowPoints(left, right, bottom - 1)
  }

  lemma {:induction false} RowShape(left: nat, right: nat, y: nat, p: Point)
    ensures p in RowPoints(left, right, y) <==> left <= p.0 < right && p.1 == y
    decreases right
  {
    if left < right {
      RowShape(left, right - 1, y, p);
    }
  }

  lemma InEither(a: seq<Point>, b: seq<Point>, p: Point)
    ensures p in a + b <==> p in a || p in b
  {
  }

  lemma {:induction false} AreaShape(left: nat, top: nat, right: nat, bottom: nat, p: Point)
    ensures p in AreaPoints(left, top, right, bottom) <==> left <= p.0 < right && top <= p.1 < bottom
    decreases bottom
  {
    if top < bottom {
      var above, last := AreaPoints(left, top, right, bottom - 1), RowPoints(left, right, bottom - 1);
      AreaShape(left, top, right, bottom - 1, p);
      RowShape(left, right, bottom - 1, p);
      InEither(above, last, p);
    }
  }

  /** One more row. */
  lemma AreaNext(l: Layout, bytes: seq<byte>, left: nat, top: nat, right: nat, y: nat, value: nat)
    requires l.Fits(|bytes|) && top <= y
    ensures Drawn(l, Drawn(l, bytes, AreaPoints(left, top, right, y), value), RowPoints(left, right, y), value) ==
            Drawn(l, bytes, AreaPoints(left, top, right, y + 1), value)
  {
    DrawnBoth(l, bytes, AreaPoints(left, top, right, y), RowPoints(left, right, y), value);
  }

  function Min(a: nat, b: nat): nat {
    if a <= b then a else b
  }

  class Canvas {
    const layout: Layout
    const bytes: array<byte>

    ghost predicate Valid() {
      layout.Fits(bytes.Length) && layout.width < U32 && layout.height < U32
    }

    constructor (layout: Layout, bytes: array<byte>)
      requires layout.Fits(bytes.Length) && layout.width < U32 && layout.height < U32
      ensures Valid() && this.layout == layout && this.bytes == bytes
    {
      this.layout, this.bytes := layout, bytes;
    }

    /** `pixel`: nothing outside the screen is painted. */
    method Pixel(x: Coordinate, y: Coordinate, value: nat)
      requires Valid()
      modifies bytes
      ensures bytes[..] == Put(layout, old(bytes[..]), (x as int, y as int), value)
    {
      if x >= layout.width || y >= layout.height {
        return;
      }
      OffsetInside(layout, x, y, bytes.Length);
      var at, rest := layout.Offset(x, y), value;
      ghost var ink := Ink(value, layout.depth);
      for index := 0 to layout.depth
        invariant forall k :: 0 <= k < bytes.Length ==>
          bytes[k] == if at <= k < at + index then ink[k - at] else old(bytes[k])
        invariant Ink(rest, layout.depth - index) == ink[index..]
      {
        assert ink[index] == ink[index..][0];
        bytes[at + index] := rest % 256;
        rest := rest / 256;
      }
    }

    /** The `i`-th pixel of a list, after the ones before it. */
    method NextPixel(x: Coordinate, y: Coordinate, value: nat, ghost was: seq<byte>,
                     ghost points: seq<Point>, ghost i: nat)
      requires Valid() && i < |points| && points[i] == (x as int, y as int)
      requires layout.Fits(|was|) && bytes[..] == Drawn(layout, was, points[..i], value)
      modifies bytes
      ensures bytes[..] == Drawn(layout, was, points[..i + 1], value)
    {
      Pixel(x, y, value);
      DrawnNext(layout, was, points, i, value);
    }

    /** `line`: paints its points in order. Its counter wraps when the last column
        of the 32-bit range is to its right, and then it never ends. */
    method Line(x0: Coordinate, y0: Coordinate, x1: Coordinate, y1: Coordinate, value: nat) returns (ended: bool)
      requires Valid() && Defined(x0, x1, SignedLine(x0, y0, x1, y1))
      modifies bytes
      ensures ended <==> x0 >= x1 || x1 < U32 - 1
      ensures ended ==> bytes[..] == Drawn(layout, old(bytes[..]), LinePoints(x0, y0, x1, y1), value)
      ensures ended && layout.Apart() ==>
                Painted(layout, old(bytes[..]), bytes[..], LinePoints(x0, y0, x1, y1), value)
    {
      ghost var was := bytes[..];
      ended := Stroke(x0, y0, x1, y1, value);
      if ended && layout.Apart() {
        DrawnPainted(layout, was, LinePoints(x0, y0, x1, y1), value);
      }
    }

    method Stroke(x0: Coordinate, y0: Coordinate, x1: Coordinate, y1: Coordinate, value: nat) returns (ended: bool)
      requires Valid() && Defined(x0, x1, SignedLine(x0, y0, x1, y1))
      modifies bytes
      ensures ended <==> x0 >= x1 || x1 < U32 - 1
      ensures ended ==> bytes[..] == Drawn(layout, old(bytes[..]), LinePoints(x0, y0, x1, y1), value)
    {
      var l := SignedLine(x0, y0, x1, y1);
      if x0 == x1 {
        Vertical(x0, l, value, VerticalPoints(x0, l));
      } else if x0 > x1 {
        assert LinePoints(x0, y0, x1, y1) == [];
      } else if x1 == U32 - 1 {
        return false;
      } else {
        UnsignedSigned(x0);
        UnsignedSigned(x1);
        Sloped(x0, x1, l, value, SlopedPoints(x0, x1, l));
      }
      return true;
    }

    /** The vertical case, from the first row to the last in either direction. */
    method Vertical(x0: Coordinate, l: Segment, value: nat, ghost points: seq<Point>)
      requires Valid() && Word(l.y0) && Word(l.y1) && |points| == Rows(l)
      requires forall i :: 0 <= i < |points| ==>
                 points[i] == (x0 as int, Unsigned(VerticalRow(l, i)) as int)
      modifies bytes
      ensures bytes[..] == Drawn(layout, old(bytes[..]), points, value)
    {
      ghost var was := bytes[..];
      var step := if l.y0 <= l.y1 then 1 else -1;
      var y := l.y0;
      ghost var i := 0;
      while true
        invariant 0 <= i < Rows(l) && y == VerticalRow(l, i)
        invariant bytes[..] == Drawn(layout, was, points[..i], value)
        decreases Rows(l) - i
      {
        NextPixel(x0, Unsigned(y), value, was, points, i);
        if y == l.y1 {
          break;
        }
        y, i := y + step, i + 1;
      }
      assert points[..i + 1] == points;
    }

    /** The columns, from the first to the last. */
    method Sloped(x0: Coordinate, x1: Coordinate, l: Segment, value: nat, ghost points: seq<Point>)
      requires Valid() && x0 < x1 < U32 - 1 && l.x0 != l.x1 && |points| == x1 - x0 + 1
      requires forall i :: 0 <= i < |points| ==>
                 points[i] == (x0 + i, Unsigned(ColumnOf(l, Signed(x0 + i))) as int)
      modifies bytes
      ensures bytes[..] == Drawn(layout, old(bytes[..]), points, value)
    {
      ghost var was := bytes[..];
      var x: Coordinate := x0;
      while x <= x1
        invariant x0 <= x <= x1 + 1
        invariant bytes[..] == Drawn(layout, was, points[..x - x0], value)
      {
        var y := Unsigned(l.y0 + Quotient((l.y1 - l.y0) * (Signed(x) - l.x0), l.x1 - l.x0));
        ghost var i := x - x0;
        assert points[i] == (x as int, y as int);
        NextPixel(x, y, value, was, points, i);
        x := x + 1;
      }
      assert points[..|points|] == points;
    }

    /** `rectangle`: the sums that bound it wrap at 32 bits. */
    method Rectangle(left: Coordinate, top: Coordinate, width: Coordinate, height: Coordinate, value: nat)
      requires Valid()
      modifies bytes
      ensures var right, bottom := (left + width) % U32, (top + height) % U32;
              var points := AreaPoints(left, top, Min(right, layout.width), Min(bottom, layout.height));
              && bytes[..] == Drawn(layout, old(bytes[..]), points, value)
              && (layout.Apart() ==> Painted(layout, old(bytes[..]), bytes[..], points, value))
    {
      ghost var was := bytes[..];
      Fill(left, top, (left + width) % U32, (top + height) % U32, value);
      if layout.Apart() {
        DrawnPainted(layout, was, AreaPoints(left, top, Min((left + width) % U32, layout.width),
                                             Min((top + height) % U32, layout.height)), value);
      }
    }

    method Fill(left: Coordinate, top: Coordinate, right: Coordinate, bottom: Coordinate, value: nat)
      requires Valid()
      modifies bytes
      ensures bytes[..] == Drawn(layout, old(bytes[..]),
                                 AreaPoints(left, top, Min(right, layout.width), Min(bottom, layout.height)), value)
    {
      ghost var was, side, end := bytes[..], Min(right, layout.width), Min(bottom, layout.height);
      var y: Coordinate := top;
      while y < bottom && y < layout.height
        invariant top <= y && (top <= end ==> y <= end) && (end < top ==> y == top)
        invariant bytes[..] == Drawn(layout, was, AreaPoints(left, top, side, y), value)
      {
        Row(left, right, y, value);
        AreaNext(layout, was, left, top, side, y, value);
        y := y + 1;
      }
    }

    method Row(left: Coordinate, right: Coordinate, y: Coordinate, value: nat)
      requires Valid()
      modifies bytes
      ensures bytes[..] == Drawn(layout, old(bytes[..]), RowPoints(left, Min(right, layout.width), y), value)
    {
      ghost var was, end := bytes[..], Min(right, layout.width);
      var x: Coordinate := left;
      while x < right && x < layout.width
        invariant left <= x && (left <= end ==> x <= end) && (end < left ==> x == left)
        invariant bytes[..] == Drawn(layout, was, RowPoints(left, x, y), value)
      {
        Pixel(x, y, value);
        x := x + 1;
      }
    }
  }
}
