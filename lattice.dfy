/**
 * The discrete lattice shared by LineWorld, GridWorld and CubeWorld: their
 * extents, the coordinates they accept, the position record they attach to
 * agents, and the linear address that lays the cells out in one list.
 */
module Lattice {

  /**
   * The extents of a world. `Line`, `Grid` and `Cube` are the 1-, 2- and
   * 3-axis worlds; the axes a world does not have count as extent 1.
   */
  datatype Shape =
    | Line(width: int)
    | Grid(width: int, height: int)
    | Cube(width: int, height: int, depth: int)

  /** A PositionComponent: the x, y and z of an agent, y and z defaulting to 0. */
  datatype Position = Position(x: int, y: int, z: int)

  /** `getDimensions()`: the extents in axis order. */
  function Extents(s: Shape): (e: seq<int>)
    ensures 1 <= |e| <= 3 && e[0] == s.width
  {
    match s
    case Line(w) => [w]
    case Grid(w, h) => [w, h]
    case Cube(w, h, d) => [w, h, d]
  }

  /** The number of coordinates the world's methods take. */
  function Dims(s: Shape): nat {
    |Extents(s)|
  }

  /** The constructor's guard, exactly as each world class writes it: every extent is at least 1. */
  predicate ValidShape(s: Shape): (ok: bool)
    ensures ok <==> forall i :: 0 <= i < |Extents(s)| ==> Extents(s)[i] >= 1
  {
    var e := Extents(s);
    match s
    case Line(w) =>
      assert e[0] == w;
      !(w < 1)
    case Grid(w, h) =>
      assert e[0] == w && e[1] == h;
      !(w < 1 || h < 1)
    case Cube(w, h, d) =>
      assert e[0] == w && e[1] == h && e[2] == d;
      !(w < 1 || h < 1 || d < 1)
  }

  function Width(s: Shape): int {
    s.width
  }

  function Height(s: Shape): int {
    if s.Line? then 1 else s.height
  }

  function Depth(s: Shape): int {
    if s.Cube? then s.depth else 1
  }

  /** The number of cells the constructor creates: the product of the extents. */
  function CellCount(s: Shape): (n: int)
    ensures n == match s
                 case Line(w) => w
                 case Grid(w, h) => w * h
                 case Cube(w, h, d) => w * h * d
  {
    Depth(s) * Height(s) * Width(s)
  }

  lemma CellCountPositive(s: Shape)
    requires ValidShape(s)
    ensures CellCount(s) >= 1
  {
    var w, h, d := Width(s), Height(s), Depth(s);
    assert h * w >= 1 by { MulAtLeast(h, w); }
    MulAtLeast(d, h * w);
    assert d * (h * w) == d * h * w;
  }

  /** Every axis within its extent; the axes the shape lacks are 0. */
  predicate InRange(s: Shape, p: Position) {
    0 <= p.x < Width(s) && 0 <= p.y < Height(s) && 0 <= p.z < Depth(s)
  }

  /**
   * The construction order: the index at which the constructor's loops
   * append the cell for `p` (`x`, `x + y*width`, `z*width*height + y*width + x`).
   */
  function Address(s: Shape, p: Position): (k: int)
    ensures s.Line? && InRange(s, p) ==> k == p.x
    ensures s.Grid? && InRange(s, p) ==> k == p.x + p.y * s.width
    ensures ValidShape(s) && InRange(s, p) ==> 0 <= k < CellCount(s)
  {
    var k := p.z * Width(s) * Height(s) + p.y * Width(s) + p.x;
    assert ValidShape(s) && InRange(s, p) ==> 0 <= k < CellCount(s) by {
      if ValidShape(s) && InRange(s, p) {
        AddressBound(Width(s), Height(s), Depth(s), p.x, p.y, p.z);
      }
    }
    assert !s.Cube? && InRange(s, p) ==> p.z == 0 && k == p.y * Width(s) + p.x;
    assert s.Line? && InRange(s, p) ==> p.y == 0 && k == p.x;
    k
  }

  /** The construction index of an in-range coordinate lies inside the cell list. */
  lemma AddressBound(w: int, h: int, d: int, x: int, y: int, z: int)
    requires w > 0 && h > 0 && 0 <= x < w && 0 <= y < h && 0 <= z < d
    ensures 0 <= z * w * h + y * w + x < d * h * w
  {
    DigitsBound(w, h, d, x, y, z);
    assert z * w * h >= 0 && y * w >= 0;
  }

  /** The coordinate of the cell the constructor appends at index `i`. */
  function PositionOf(s: Shape, i: nat): (p: Position)
    requires ValidShape(s)
    ensures i < CellCount(s) ==> InRange(s, p)
    ensures s.Line? && i < CellCount(s) ==> p == Position(i, 0, 0)
  {
    var w, h := Width(s), Height(s);
    var p := Position(i % w, (i / w) % h, i / (w * h));
    assert i < CellCount(s) ==> InRange(s, p) by {
      Undigits3(w, h, i);
      DigitsBound(w, h, Depth(s), p.x, p.y, p.z);
    }
    assert s.Line? && i < CellCount(s) ==> p == Position(i, 0, 0) by {
      if s.Line? && i < CellCount(s) {
        DivModUnique(i, w, 0, i);
        assert w * h == w;
      }
    }
    p
  }

  lemma DivModUnique(n: int, w: int, q: int, r: int)
    requires w > 0 && 0 <= r < w && n == q * w + r
    ensures n / w == q && n % w == r
  {
    var q', r' := n / w, n % w;
    assert n == q' * w + r';
    if q' < q {
      assert (q - q') * w >= w by { MulAtLeast(q - q', w); }
      assert false;
    } else if q' > q {
      assert (q' - q) * w >= w by { MulAtLeast(q' - q, w); }
      assert false;
    }
  }

  lemma MulAtLeast(k: int, w: int)
    requires k >= 1 && w > 0
    ensures k * w >= w
  {
  }

  lemma MulStrict(a: int, b: int, c: int)
    requires 0 <= a < b && c > 0
    ensures a * c + c <= b * c
  {
    assert b * c - a * c == (b - a) * c;
    MulAtLeast(b - a, c);
  }

  /** The arithmetic behind the layout: `z*w*h + y*w + x` splits back into its digits. */
  lemma Digits3(w: int, h: int, x: int, y: int, z: int)
    requires w > 0 && h > 0 && 0 <= x < w && 0 <= y < h && z >= 0
    ensures var i := z * w * h + y * w + x;
      i % w == x && (i / w) % h == y && i / (w * h) == z
  {
    var i := z * w * h + y * w + x;
    var row := z * h + y;
    assert i == row * w + x;
    DivModUnique(i, w, row, x);
    DivModUnique(row, h, z, y);
    var low := y * w + x;
    assert low < w * h by { MulStrict(y, h, w); }
    assert low >= 0;
    assert i == z * (w * h) + low;
    DivModUnique(i, w * h, z, low);
  }

  /** An index below `d*h*w` has a third digit below `d`. */
  lemma DigitsBound(w: int, h: int, d: int, x: int, y: int, z: int)
    requires w > 0 && h > 0 && 0 <= x < w && 0 <= y < h && 0 <= z
    ensures z * w * h + y * w + x < d * h * w <==> z < d
  {
    var low := y * w + x;
    assert 0 <= low < w * h by { MulStrict(y, h, w); }
    assert z * w * h == z * (w * h);
    assert d * h * w == d * (w * h);
    if z < d {
      MulStrict(z, d, w * h);
    } else {
      assert z * (w * h) >= d * (w * h) by { MulMonotone(d, z, w * h); }
    }
  }

  lemma MulMonotone(a: int, b: int, c: int)
    requires a <= b && c >= 0
    ensures a * c <= b * c
  {
    assert b * c - a * c == (b - a) * c;
  }

  /** Every in-range coordinate has an address inside the cell list, and it maps back. */
  lemma AddressRoundTrip(s: Shape, p: Position)
    requires ValidShape(s) && InRange(s, p)
    ensures 0 <= Address(s, p) < CellCount(s)
    ensures PositionOf(s, Address(s, p)) == p
  {
    Digits3(Width(s), Height(s), p.x, p.y, p.z);
    DigitsBound(Width(s), Height(s), Depth(s), p.x, p.y, p.z);
    assert p.z * Width(s) * Height(s) >= 0;
    assert p.y * Width(s) >= 0;
  }

  /** Conversely every natural number is `z*w*h + y*w + x` for its own digits. */
  lemma Undigits3(w: int, h: int, i: int)
    requires w > 0 && h > 0 && i >= 0
    ensures var x, y, z := i % w, (i / w) % h, i / (w * h);
      i == z * w * h + y * w + x && z >= 0
  {
    var x, row := i % w, i / w;
    var y, z := row % h, row / h;
    assert i == row * w + x;
    assert row == z * h + y;
    assert z >= 0;
    Distribute(z * h, y, w);
    Swap(z, h, w);
    Digits3(w, h, x, y, z);
  }

  lemma Distribute(a: int, b: int, c: int)
    ensures (a + b) * c == a * c + b * c
  {
  }

  lemma Swap(a: int, b: int, c: int)
    ensures a * b * c == a * c * b
  {
  }

  /** Every index of the cell list is the address of an in-range coordinate. */
  lemma PositionRoundTrip(s: Shape, i: nat)
    requires ValidShape(s) && i < CellCount(s)
    ensures InRange(s, PositionOf(s, i))
    ensures Address(s, PositionOf(s, i)) == i
  {
    var w, h := Width(s), Height(s);
    Undigits3(w, h, i);
    DigitsBound(w, h, Depth(s), i % w, (i / w) % h, i / (w * h));
  }

  /** Addresses of distinct in-range coordinates differ: the layout is a bijection. */
  lemma AddressInjective(s: Shape, p: Position, q: Position)
    requires ValidShape(s) && InRange(s, p) && InRange(s, q) && Address(s, p) == Address(s, q)
    ensures p == q
  {
    AddressRoundTrip(s, p);
    AddressRoundTrip(s, q);
  }

  /** The position record built from a coordinate list: missing axes default to 0. */
  function ToPosition(c: seq<int>): (p: Position)
    requires 1 <= |c| <= 3
    ensures Axes(p, |c|) == c
    ensures |c| < 2 ==> p.y == 0
    ensures |c| < 3 ==> p.z == 0
  {
    Position(c[0], if |c| > 1 then c[1] else 0, if |c| > 2 then c[2] else 0)
  }

  /** The first `n` axes of a position: what a world with `n` axes compares and reads back. */
  function Axes(p: Position, n: nat): seq<int>
    requires n <= 3
  {
    [p.x, p.y, p.z][..n]
  }

  /**
   * The bounds check of `addAgent` and `getCell`: the coordinate lies on the map.
   * Each branch is the guard of the corresponding world class, negated.
   */
  predicate OnMap(s: Shape, c: seq<int>): (on: bool)
    requires |c| == Dims(s)
    ensures on <==> InRange(s, ToPosition(c))
  {
    match s
    case Line(w) => !(c[0] >= w || c[0] < 0)
    case Grid(w, h) => !(c[0] >= w || c[0] < 0 || c[1] >= h || c[1] < 0)
    case Cube(w, h, d) => !(c[0] >= w || c[0] < 0 || c[1] >= h || c[1] < 0 || c[2] >= d || c[2] < 0)
  }

  /** Reading back the axes of an in-range position and rebuilding it is the identity. */
  lemma ToPositionAxes(s: Shape, p: Position)
    requires InRange(s, p)
    ensures ToPosition(Axes(p, Dims(s))) == p
  {
  }

  /** An in-range position's axes form an on-map coordinate. */
  lemma InRangeOnMap(s: Shape, p: Position)
    requires InRange(s, p)
    ensures OnMap(s, Axes(p, Dims(s)))
  {
  }

  /**
   * The index `getCell` reads, as each world class computes it: `x`,
   * `x + y*width`, and for CubeWorld `x + width*(y + depth*z)`.
   */
  function LookupIndex(s: Shape, c: seq<int>): (k: int)
    requires |c| == Dims(s)
    ensures !s.Cube? ==> k == Address(s, ToPosition(c))
  {
    match s
    case Line(_) => c[0]
    case Grid(w, _) => c[0] + (c[1] * w)
    case Cube(w, _, d) => c[0] + w * (c[1] + d * c[2])
  }

  /**
   * The lookup index agrees with the construction order on every line and
   * grid, and on a cube exactly when `height == depth` or the layer is `z = 0`.
   */
  lemma LookupIndexAgreement(s: Shape, c: seq<int>)
    requires ValidShape(s) && |c| == Dims(s)
    ensures !s.Cube? ==> LookupIndex(s, c) == Address(s, ToPosition(c))
    ensures s.Cube? ==> (LookupIndex(s, c) == Address(s, ToPosition(c)) <==> s.height == s.depth || c[2] == 0)
  {
    if s.Cube? {
      var w, h, d := s.width, s.height, s.depth;
      var x, y, z := c[0], c[1], c[2];
      assert LookupIndex(s, c) == x + w * y + w * d * z;
      assert Address(s, ToPosition(c)) == x + w * y + w * h * z;
      assert LookupIndex(s, c) - Address(s, ToPosition(c)) == w * z * (d - h);
      if w * z * (d - h) == 0 {
        assert z == 0 || d - h == 0 by {
          if z != 0 && d - h != 0 { NonZeroProduct(w, z, d - h); }
        }
      }
    }
  }

  lemma NonZeroProduct(a: int, b: int, c: int)
    requires a != 0 && b != 0 && c != 0
    ensures a * b * c != 0
  {
    assert a * b != 0;
  }

  /** The product of a list of extents. */
  function Product(e: seq<int>): int {
    if e == [] then 1 else e[0] * Product(e[1..])
  }

  lemma Product3(w: int, h: int, d: int)
    ensures Product([w]) == w && Product([w, h]) == h * w && Product([w, h, d]) == d * h * w
  {
    assert [w, h, d][1..] == [h, d] && [h, d][1..] == [d] && [d][1..] == [];
    assert [w, h][1..] == [h] && [h][1..] == [] && [w][1..] == [];
    assert Product([d]) == d && Product([h]) == h;
    assert Product([h, d]) == h * d;
    assert Product([w, h, d]) == w * (h * d);
  }

  /** The shape has as many cells as the product of its extents. */
  lemma CellCountProduct(s: Shape)
    ensures CellCount(s) == Product(Extents(s))
  {
    Product3(Width(s), Height(s), Depth(s));
  }
}
