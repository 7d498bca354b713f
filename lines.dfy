/**
 * The edit queue of the worker as a value: toggle_cell records one requested
 * state, toggle_line records the rasterised points of a line segment.
 *
 * The queue is a finite map from coordinates to the requested state (true:
 * make the cell a null obstacle, false: clear it). A write to a key that is
 * already queued replaces the earlier request.
 */
module Lines {
  import opened Bits
  import opened Cells

  // ---------------------------------------------------------------------
  // Recording requests
  // ---------------------------------------------------------------------

  /** toggle_cell: an in-bounds key is (re)set to `on`; any other call changes nothing. */
  function Record(width: int, height: int, m: map<Coord, bool>, p: Coord, on: bool): (r: map<Coord, bool>)
    ensures forall q :: q in r <==> q in m || (q == p && InBounds(width, height, p))
    ensures forall q :: q in r ==> r[q] == (if q == p && InBounds(width, height, p) then on else m[q])
  {
    if InBounds(width, height, p) then m[p := on] else m
  }

  /** The requests of a batch that survive the bounds check. */
  function InBoundsOf(width: int, height: int, pts: seq<Coord>): (s: set<Coord>)
    ensures forall q :: q in s <==> q in pts && InBounds(width, height, q)
  {
    set q | q in pts && InBounds(width, height, q)
  }

  /** The same state requested for every key of `keys`. */
  function Writes(keys: set<Coord>, on: bool): (w: map<Coord, bool>)
    ensures w.Keys == keys
    ensures forall q :: q in w ==> w[q] == on
  {
    map q | q in keys :: on
  }

  /** Recording the points of `pts` one after the other, first to last. */
  function RecordAll(width: int, height: int, m: map<Coord, bool>, pts: seq<Coord>, on: bool): map<Coord, bool>
    decreases |pts|
  {
    if |pts| == 0 then m
    else Record(width, height, RecordAll(width, height, m, pts[..|pts| - 1], on), pts[|pts| - 1], on)
  }

  /** Recording one more point of a batch records it on top of the points before it. */
  lemma RecordAllSnoc(width: int, height: int, m: map<Coord, bool>, pts: seq<Coord>, k: nat, on: bool)
    requires k < |pts|
    ensures RecordAll(width, height, m, pts[..k + 1], on)
         == Record(width, height, RecordAll(width, height, m, pts[..k], on), pts[k], on)
  {
    assert pts[..k + 1][..k] == pts[..k];
  }

  /**
   * Recording a batch overrides exactly its in-bounds points with `on` and leaves
   * every other key as it was.
   */
  lemma {:induction false} RecordAllOverride(width: int, height: int, m: map<Coord, bool>, pts: seq<Coord>, on: bool)
    ensures RecordAll(width, height, m, pts, on) == m + Writes(InBoundsOf(width, height, pts), on)
    decreases |pts|
  {
    if |pts| == 0 {
      assert InBoundsOf(width, height, pts) == {};
    } else {
      var pre, last := pts[..|pts| - 1], pts[|pts| - 1];
      RecordAllOverride(width, height, m, pre, on);
      assert pts == pre + [last];
      var keys := InBoundsOf(width, height, pre);
      if InBounds(width, height, last) {
        assert InBoundsOf(width, height, pts) == keys + {last};
        OverrideInsert(m, keys, last, on);
      } else {
        assert InBoundsOf(width, height, pts) == keys;
      }
    }
  }

  lemma OverrideInsert(m: map<Coord, bool>, keys: set<Coord>, p: Coord, on: bool)
    ensures (m + Writes(keys, on))[p := on] == m + Writes(keys + {p}, on)
  {
  }

  /** Of two requests for the same key, the later one wins. */
  lemma RecordLastWins(width: int, height: int, m: map<Coord, bool>, p: Coord, first: bool, second: bool)
    ensures Record(width, height, Record(width, height, m, p, first), p, second)
         == Record(width, height, m, p, second)
  {
  }

  // ---------------------------------------------------------------------
  // Rasterising a line
  // ---------------------------------------------------------------------

  /**
   * One step of the loop along the major axis: major coordinate a1 + d, minor
   * coordinate b1 + d * db / da with the quotient rounded toward zero.
   */
  function Step(a1: int, b1: int, da: int, db: int, d: int): (int, int)
    requires da != 0
  {
    (a1 + d, b1 + TruncDiv(d * db, da))
  }

  /** The line steps along x when |dx| > |dy|, along y otherwise. */
  predicate XMajor(dx: int, dy: int)
  {
    Abs(dx) > Abs(dy)
  }

  /** The delta along the major axis; non-zero unless both deltas are. */
  function MajorDelta(dx: int, dy: int): (m: int)
    ensures m == 0 <==> dx == 0 && dy == 0
    ensures Abs(dx) <= Abs(m) && Abs(dy) <= Abs(m)
  {
    if XMajor(dx, dy) then dx else dy
  }

  /** The point visited when the loop variable of toggle_line is d. */
  function LinePoint(x1: int, y1: int, dx: int, dy: int, d: int): Coord
    requires dx != 0 || dy != 0
  {
    if XMajor(dx, dy) then
      var (a, b) := Step(x1, y1, dx, dy, d); Coord(a, b)
    else
      var (a, b) := Step(y1, x1, dy, dx, d); Coord(b, a)
  }

  /**
   * The points toggle_line visits strictly between the two endpoints, in loop
   * order: d runs over o, 2o, ..., up to but excluding the major delta, o being
   * its sign.
   */
  function LinePoints(x1: int, y1: int, x2: int, y2: int): seq<Coord>
    requires x2 - x1 != 0 || y2 - y1 != 0
  {
    var dx, dy := x2 - x1, y2 - y1;
    var m := MajorDelta(dx, dy);
    seq(Abs(m) - 1, k requires 0 <= k < Abs(m) - 1 => LinePoint(x1, y1, dx, dy, Sgn(m) * (k + 1)))
  }

  /** The k-th intermediate point is the one the loop computes on its (k + 1)-th pass, with d = (k + 1) times the sign. */
  lemma LinePointAt(x1: int, y1: int, x2: int, y2: int, k: nat, d: int)
    requires x2 - x1 != 0 || y2 - y1 != 0
    requires k < |LinePoints(x1, y1, x2, y2)|
    requires d == if MajorDelta(x2 - x1, y2 - y1) > 0 then k + 1 else -(k + 1)
    ensures LinePoints(x1, y1, x2, y2)[k] == LinePoint(x1, y1, x2 - x1, y2 - y1, d)
  {
    var m := MajorDelta(x2 - x1, y2 - y1);
    assert d == Sgn(m) * (k + 1) by { if m > 0 { } else { } }
  }

  /** Every point toggle_line considers: the intermediate ones, then the end point. */
  function LinePath(x1: int, y1: int, x2: int, y2: int): seq<Coord>
    requires x2 - x1 != 0 || y2 - y1 != 0
  {
    LinePoints(x1, y1, x2, y2) + [Coord(x2, y2)]
  }

  /** The keys toggle_line writes: the in-bounds points of its path, none for a zero-length line. */
  function LineKeys(width: int, height: int, x1: int, y1: int, x2: int, y2: int): (s: set<Coord>)
    ensures forall q :: q in s ==> InBounds(width, height, q)
  {
    if x2 - x1 == 0 && y2 - y1 == 0 then {} else InBoundsOf(width, height, LinePath(x1, y1, x2, y2))
  }

  /** A line whose two endpoints coincide writes nothing, not even its end point. */
  lemma LineKeysEmpty(width: int, height: int, x: int, y: int)
    ensures LineKeys(width, height, x, y, x, y) == {}
  {
  }

  /** The generic step: the major coordinate moves by d, the minor one stays between 0 and db. */
  lemma StepBetween(a1: int, b1: int, da: int, db: int, k: nat)
    requires da != 0 && 1 <= k <= Abs(da)
    ensures var (a, b) := Step(a1, b1, da, db, Sgn(da) * k);
      a == a1 + Sgn(da) * k && ((b1 <= b <= b1 + db) || (b1 + db <= b <= b1))
  {
    var d := Sgn(da) * k;
    assert d * da == k * Abs(da) by {
      assert d * da == k * (Sgn(da) * da);
    }
    MulMonotone(1, k, Abs(da));
    assert Abs(d) == k by {
      if da < 0 { assert d + k == 0; }
    }
    TruncDivBetween(d, db, da);
  }

  /**
   * toggle_line along the major axis: the k-th intermediate point has major
   * coordinate start + o * (k + 1), so the intermediate points take each major
   * coordinate strictly between the endpoints' exactly once; the minor
   * coordinate stays between the endpoints' minor coordinates.
   */
  lemma LinePointsShape(x1: int, y1: int, x2: int, y2: int)
    requires x2 - x1 != 0 || y2 - y1 != 0
    ensures var dx, dy, pts := x2 - x1, y2 - y1, LinePoints(x1, y1, x2, y2);
      var o := Sgn(MajorDelta(dx, dy));
      && |pts| == Abs(MajorDelta(dx, dy)) - 1
      && (XMajor(dx, dy) ==> forall k :: 0 <= k < |pts| ==>
            pts[k].x == x1 + o * (k + 1) && ((y1 <= pts[k].y <= y2) || (y2 <= pts[k].y <= y1)))
      && (!XMajor(dx, dy) ==> forall k :: 0 <= k < |pts| ==>
            pts[k].y == y1 + o * (k + 1) && ((x1 <= pts[k].x <= x2) || (x2 <= pts[k].x <= x1)))
  {
    var dx, dy, pts := x2 - x1, y2 - y1, LinePoints(x1, y1, x2, y2);
    var m := MajorDelta(dx, dy);
    forall k | 0 <= k < |pts|
      ensures XMajor(dx, dy) ==>
        pts[k].x == x1 + Sgn(m) * (k + 1) && ((y1 <= pts[k].y <= y2) || (y2 <= pts[k].y <= y1))
      ensures !XMajor(dx, dy) ==>
        pts[k].y == y1 + Sgn(m) * (k + 1) && ((x1 <= pts[k].x <= x2) || (x2 <= pts[k].x <= x1))
    {
      assert pts[k] == LinePoint(x1, y1, dx, dy, Sgn(m) * (k + 1));
      if XMajor(dx, dy) {
        StepBetween(x1, y1, dx, dy, k + 1);
      } else {
        assert m == dy;
        StepBetween(y1, x1, dy, dx, k + 1);
        var (a, b) := Step(y1, x1, dy, dx, Sgn(dy) * (k + 1));
        assert pts[k] == Coord(b, a);
      }
    }
  }

  /** The major coordinate of a path point, and that of the start and end points. */
  function MajorOf(dx: int, dy: int, p: Coord): int
  {
    if XMajor(dx, dy) then p.x else p.y
  }

  /** The intermediate points are pairwise distinct and differ from both endpoints. */
  lemma LinePointsDistinct(x1: int, y1: int, x2: int, y2: int)
    requires x2 - x1 != 0 || y2 - y1 != 0
    ensures var pts := LinePoints(x1, y1, x2, y2);
      && Coord(x1, y1) !in pts && Coord(x2, y2) !in pts
      && forall i, j :: 0 <= i < j < |pts| ==> pts[i] != pts[j]
  {
    var dx, dy, pts := x2 - x1, y2 - y1, LinePoints(x1, y1, x2, y2);
    var m := MajorDelta(dx, dy);
    var o := Sgn(m);
    LinePointsShape(x1, y1, x2, y2);
    assert forall k :: 0 <= k < |pts| ==> MajorOf(dx, dy, pts[k]) == MajorOf(dx, dy, Coord(x1, y1)) + o * (k + 1);
    assert MajorOf(dx, dy, Coord(x2, y2)) == MajorOf(dx, dy, Coord(x1, y1)) + o * Abs(m);
    forall k | 0 <= k < |pts|
      ensures pts[k] != Coord(x1, y1) && pts[k] != Coord(x2, y2)
    {
      assert o * (k + 1) != 0 && o * (k + 1) != o * Abs(m);
    }
    forall i, j | 0 <= i < j < |pts|
      ensures pts[i] != pts[j]
    {
      assert o * (i + 1) != o * (j + 1);
    }
  }

  /** toggle_line never writes its start point, which its caller has toggled already. */
  lemma LineKeysExcludeStart(width: int, height: int, x1: int, y1: int, x2: int, y2: int)
    ensures Coord(x1, y1) !in LineKeys(width, height, x1, y1, x2, y2)
  {
    if x2 - x1 != 0 || y2 - y1 != 0 {
      LinePointsDistinct(x1, y1, x2, y2);
    }
  }

  /** A line of non-zero length writes its end point exactly when that point is on the grid. */
  lemma LineKeysEnd(width: int, height: int, x1: int, y1: int, x2: int, y2: int)
    requires x2 - x1 != 0 || y2 - y1 != 0
    ensures Coord(x2, y2) in LineKeys(width, height, x1, y1, x2, y2) <==> InBounds(width, height, Coord(x2, y2))
  {
    assert LinePath(x1, y1, x2, y2)[|LinePath(x1, y1, x2, y2)| - 1] == Coord(x2, y2);
  }

  /** A set drawn from a sequence has at most as many elements as the sequence. */
  lemma {:induction false} SeqSetSize(pts: seq<Coord>)
    ensures |set q | q in pts| <= |pts|
  {
    if |pts| > 0 {
      var rest := pts[1..];
      SeqSetSize(rest);
      assert pts == [pts[0]] + rest;
      assert (set q | q in pts) == (set q | q in rest) + {pts[0]};
    }
  }

  /** toggle_line writes at most max(|dx|, |dy|) keys. */
  lemma LineKeysCount(width: int, height: int, x1: int, y1: int, x2: int, y2: int)
    ensures |LineKeys(width, height, x1, y1, x2, y2)| <= Abs(MajorDelta(x2 - x1, y2 - y1))
  {
    if x2 - x1 != 0 || y2 - y1 != 0 {
      var path := LinePath(x1, y1, x2, y2);
      LinePointsShape(x1, y1, x2, y2);
      SeqSetSize(path);
      assert LineKeys(width, height, x1, y1, x2, y2) <= set q | q in path;
      SubsetSize(LineKeys(width, height, x1, y1, x2, y2), set q | q in path);
    }
  }

  lemma SubsetSize(a: set<Coord>, b: set<Coord>)
    requires a <= b
    ensures |a| <= |b|
  {
    assert b == a + (b - a);
  }
}
