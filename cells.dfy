/**
 * Cells, grid coordinates and the small integer helpers of worker.cc.
 *
 * A cell of the grid is a record of its two flags, its colour (the allele) and
 * its fitness. The accessors and the toggle_on / toggle_off updates of the cell
 * type live in a header that is not part of this model; the effect used here is
 * the one the edit queue relies on: toggle_on makes a cell a null obstacle that
 * never competes, toggle_off restores it to a fertile cell of colour 0.
 */
module Cells {
  import opened Bits

  /** One cell of a buffer. The fitness is carried along but never computed with. */
  datatype Cell = Cell(isNull: bool, fertile: bool, color: nat, fitness: real)

  /** A grid coordinate (x, y), as the std::pair<int,int> keys of the edit queue. */
  datatype Coord = Coord(x: int, y: int)

  /** The cell after toggle_on: null, and not a reproduction source. */
  function ToggleOn(c: Cell): (r: Cell)
    ensures r.isNull && !r.fertile
    ensures r.color == c.color && r.fitness == c.fitness
  {
    c.(isNull := true, fertile := false)
  }

  /** The cell after toggle_off: a fertile, non-null cell of colour 0. */
  function ToggleOff(c: Cell): (r: Cell)
    ensures !r.isNull && r.fertile && r.color == 0
    ensures r.fitness == c.fitness
  {
    c.(isNull := false, fertile := true, color := 0)
  }

  /** Toggling a cell off undoes toggling it on, up to the colour, which becomes 0. */
  lemma ToggleOffAfterOn(c: Cell)
    ensures ToggleOff(ToggleOn(c)) == ToggleOff(c)
  {
  }

  /** Every cell of a buffer carries a colour below n, so that it indexes a table of n counters. */
  predicate ColorsBelow(cells: seq<Cell>, n: nat)
  {
    forall i :: 0 <= i < |cells| ==> cells[i].color < n
  }

  /** is_cell_valid: the coordinate lies on a width x height grid. */
  predicate InBounds(width: int, height: int, p: Coord)
  {
    0 <= p.x < width && 0 <= p.y < height
  }

  /** The position x + y * width of a coordinate in a row-major buffer. */
  function Index(width: int, p: Coord): int
  {
    p.x + p.y * width
  }

  /** Every in-bounds coordinate has its own position inside the buffer. */
  lemma IndexInRange(width: int, height: int, p: Coord)
    requires InBounds(width, height, p)
    ensures 0 <= Index(width, p) < width * height
  {
    assert p.y * width <= (height - 1) * width;
  }

  /** The position row y starts at, y * width, written as a sum so that the solver meets no product. */
  function RowStart(width: int, y: nat): int
  {
    if y == 0 then 0 else RowStart(width, y - 1) + width
  }

  /** Row y starts at y * width. */
  lemma {:induction false} RowStartIndex(width: int, y: nat)
    ensures RowStart(width, y) == y * width
  {
    if y > 0 {
      RowStartIndex(width, y - 1);
      assert y * width == (y - 1) * width + width;
    }
  }

  /** Every row of the grid ends inside the buffer, and the rows fill it. */
  lemma RowStartBound(width: int, height: int, y: nat)
    requires width > 0 && y <= height
    ensures y < height ==> RowStart(width, y) + width <= width * height
    ensures y == height ==> RowStart(width, y) == width * height
  {
    RowStartIndex(width, y);
    MulMonotone(y + 1, height, width);
  }

  /** Distinct in-bounds coordinates have distinct positions. */
  lemma IndexInjective(width: int, height: int, p: Coord, q: Coord)
    requires InBounds(width, height, p) && InBounds(width, height, q)
    ensures Index(width, p) == Index(width, q) ==> p == q
  {
    if Index(width, p) == Index(width, q) && p.y != q.y {
      var lo, hi := if p.y < q.y then p else q, if p.y < q.y then q else p;
      assert hi.y * width - lo.y * width == (hi.y - lo.y) * width;
      MulMonotone(1, hi.y - lo.y, width);
      assert false;
    }
  }

  /**
   * The coordinate stored at a position of a row-major buffer: (pos % width,
   * pos / width), written as a walk down the rows so that the solver only
   * unfolds it on demand.
   */
  function CoordAt(width: int, pos: int): Coord
    requires width > 0
    decreases pos
  {
    if pos < width then Coord(pos, 0)
    else var c := CoordAt(width, pos - width); Coord(c.x, c.y + 1)
  }

  lemma {:induction false} CoordAtRow(width: int, pos: nat)
    requires width > 0
    ensures var c := CoordAt(width, pos); 0 <= c.x < width && 0 <= c.y && Index(width, c) == pos
    decreases pos
  {
    if pos >= width {
      CoordAtRow(width, pos - width);
      var c := CoordAt(width, pos - width);
      assert (c.y + 1) * width == c.y * width + width;
    }
  }

  lemma CoordAtIndex(width: int, height: int, pos: int)
    requires width > 0 && 0 <= pos < width * height
    ensures InBounds(width, height, CoordAt(width, pos))
    ensures Index(width, CoordAt(width, pos)) == pos
  {
    var p := CoordAt(width, pos);
    CoordAtRow(width, pos);
    if p.y >= height {
      MulMonotone(height, p.y, width);
      assert false;
    }
  }

  /** Reading back the coordinate of an in-bounds coordinate's position gives it back. */
  lemma {:induction false} CoordAtOfIndex(width: int, height: int, p: Coord)
    requires InBounds(width, height, p)
    ensures CoordAt(width, Index(width, p)) == p
    decreases p.y
  {
    if p.y > 0 {
      var q := Coord(p.x, p.y - 1);
      CoordAtOfIndex(width, height, q);
      assert Index(width, p) == Index(width, q) + width;
      MulMonotone(0, q.y, width);
    }
  }

  function Abs(v: int): nat
  {
    if v < 0 then -v else v
  }

  /** sgn: -1, 0 or 1 as v is negative, zero or positive. */
  function Sgn(v: int): (s: int)
    ensures s == -1 || s == 0 || s == 1
    ensures s * v == Abs(v) && s * Abs(v) == v
    ensures s == 0 <==> v == 0
  {
    (if 0 < v then 1 else 0) - (if v < 0 then 1 else 0)
  }

  /**
   * Integer division as C++ `/` computes it: the quotient is rounded toward zero.
   * (Dafny's `/` rounds so that the remainder is non-negative.)
   */
  function TruncDiv(a: int, b: int): int
    requires b != 0
  {
    if (a >= 0) == (b > 0) then Abs(a) / Abs(b) else -(Abs(a) / Abs(b))
  }

  lemma AbsMul(a: int, b: int)
    ensures Abs(a * b) == Abs(a) * Abs(b)
  {
    if a < 0 && b >= 0 {
      assert a * b == -((-a) * b);
    } else if a >= 0 && b < 0 {
      assert a * b == -(a * (-b));
    } else if a < 0 && b < 0 {
      assert a * b == (-a) * (-b);
    }
  }

  /** q * b is |a| / |b| * |b| carrying the sign of a. */
  lemma TruncDivTimes(a: int, b: int)
    requires b != 0
    ensures TruncDiv(a, b) * b == (if a >= 0 then Abs(a) / Abs(b) * Abs(b) else -(Abs(a) / Abs(b) * Abs(b)))
  {
    var m := Abs(a) / Abs(b);
    if b < 0 {
      assert (-m) * b == m * (-b);
      assert m * b == -(m * (-b));
    }
  }

  lemma SignedRemainder(a: int, qb: int, bb: nat, p: nat)
    requires 0 <= Abs(a) - p < bb
    requires qb == (if a >= 0 then p else -(p as int))
    ensures Abs(qb) <= Abs(a) && Abs(a - qb) < bb && qb * a >= 0
  {
    if a >= 0 {
      MulMonotone(0, a, p);
    } else {
      assert qb * a == p * (-a);
      MulMonotone(0, -a, p);
    }
  }

  /**
   * The C++ division identity: q * b has the sign of a, is at most a in size and
   * is within |b| of a, so q is a / b rounded toward zero.
   */
  lemma TruncDivSpec(a: int, b: int)
    requires b != 0
    ensures var q := TruncDiv(a, b);
      Abs(q * b) <= Abs(a) && Abs(a - q * b) < Abs(b) && (q * b) * a >= 0
  {
    var aa, bb := Abs(a), Abs(b);
    var m := aa / bb;
    DivNotLarger(aa, bb);
    MulMonotone(0, m, bb);
    var p: nat := m * bb;
    assert aa == p + aa % bb;
    TruncDivTimes(a, b);
    SignedRemainder(a, TruncDiv(a, b) * b, bb, p);
  }

  /** |d * m| / |b| is at most |m| when |d| <= |b|. */
  lemma QuotientBound(d: int, m: int, b: int)
    requires b != 0 && Abs(d) <= Abs(b)
    ensures Abs(d * m) / Abs(b) <= Abs(m)
  {
    var k := Abs(d * m) / Abs(b);
    AbsMul(d, m);
    MulMonotone(Abs(d), Abs(b), Abs(m));
    assert k * Abs(b) <= Abs(d * m);
    if k > Abs(m) {
      MulMonotone(Abs(m) + 1, k, Abs(b));
      assert false;
    }
  }

  /** The sign of a product of two integers, d being non-zero. */
  lemma ProductSign(d: int, m: int)
    requires d != 0
    ensures m == 0 ==> d * m == 0
    ensures m > 0 ==> (d * m > 0 <==> d > 0) && d * m != 0
    ensures m < 0 ==> (d * m > 0 <==> d < 0) && d * m != 0
  {
    if d > 0 && m < 0 {
      assert d * m == -(d * (-m));
    } else if d < 0 && m > 0 {
      assert d * m == -((-d) * m);
    } else if d < 0 && m < 0 {
      assert d * m == (-d) * (-m);
    }
  }

  /**
   * When d has the sign of b and |d| <= |b|, the truncated quotient d * m / b lies
   * between 0 and m: the minor coordinate of toggle_line stays between its endpoints.
   */
  lemma TruncDivBetween(d: int, m: int, b: int)
    requires b != 0 && d * b > 0 && Abs(d) <= Abs(b)
    ensures var q := TruncDiv(d * m, b); (0 <= q <= m) || (m <= q <= 0)
  {
    QuotientBound(d, m, b);
    ProductSign(d, b);
    ProductSign(d, m);
    var x := d * m;
    assert d > 0 <==> b > 0;
    QuotientBetween(x, m, b);
  }

  /** The sign bookkeeping of TruncDivBetween, with the product x = d * m named. */
  lemma QuotientBetween(x: int, m: int, b: int)
    requires b != 0 && Abs(x) / Abs(b) <= Abs(m)
    requires m == 0 ==> x == 0
    requires m > 0 ==> x != 0 && (x > 0 <==> b > 0)
    requires m < 0 ==> x != 0 && (x > 0 <==> b < 0)
    ensures var q := TruncDiv(x, b); (0 <= q <= m) || (m <= q <= 0)
  {
    var a := Abs(x) / Abs(b);
    DivNotLarger(Abs(x), Abs(b));
    if m == 0 {
      assert TruncDiv(x, b) == 0;
    } else if m > 0 {
      assert TruncDiv(x, b) == a;
    } else {
      assert TruncDiv(x, b) == -a;
    }
  }

  /**
   * The eight neighbour offsets erase_area_ tries, in order: the four orthogonal
   * neighbours (left, up, right, down), then the four diagonal ones.
   */
  const ERASE_AREA: seq<Coord> := [
    Coord(-1, 0), Coord(0, -1), Coord(1, 0), Coord(0, 1),
    Coord(-1, -1), Coord(1, -1), Coord(1, 1), Coord(-1, 1)
  ]

  function Offset(p: Coord, off: Coord): Coord
  {
    Coord(p.x + off.x, p.y + off.y)
  }
}
