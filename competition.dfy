/**
 * The neighbour competition of one generation (the nested grid loop of
 * Worker::do_work), with the exponential draws supplied from outside.
 *
 * Every non-null cell of the new buffer is the winner of a race among the cell
 * itself, when fertile, and its fertile left, upper, right and lower neighbours
 * that exist. Each competitor draws an exponential variate with its own fitness
 * as rate; a competitor replaces the current winner only when its draw is
 * strictly smaller. A cell that is not fertile starts the race with weight
 * INFINITY. The draws are an oracle `draw(i, rate)`, i counting the draws made
 * so far, because rand_exp and the floating point it uses are not modelled.
 */
module Competition {
  import opened Bits
  import opened Cells

  /** The weight of the current winner: the draw that made it win, or INFINITY. */
  datatype Weight = Infinite | Finite(v: real)

  /** A draw d takes the lead only when it is strictly below the current weight. */
  predicate Beats(d: real, weight: Weight)
  {
    weight.Infinite? || d < weight.v
  }

  /** The state of one race: who leads, with which weight, and how many draws have been made. */
  datatype Race = Race(winner: Cell, weight: Weight, next: nat)

  /** A buffer of a width x height grid. */
  predicate Sized(a: seq<Cell>, width: int, height: int)
  {
    width > 0 && height > 0 && |a| == width * height
  }

  /** The cell at an in-bounds coordinate. */
  function At(a: seq<Cell>, width: int, height: int, q: Coord): Cell
    requires Sized(a, width, height) && InBounds(width, height, q)
  {
    IndexInRange(width, height, q);
    a[Index(width, q)]
  }

  /** The two coordinates are orthogonal neighbours. */
  predicate Orthogonal(p: Coord, q: Coord)
  {
    (q.y == p.y && (q.x == p.x - 1 || q.x == p.x + 1))
    || (q.x == p.x && (q.y == p.y - 1 || q.y == p.y + 1))
  }

  /**
   * The competitors of the race at p, in the order their draws are made: p itself
   * if fertile, then the left, upper, right and lower neighbours, each behind the
   * bounds guard of the source (x > 0, y > 0, x < width - 1, y < height - 1) and
   * only if fertile.
   */
  function Candidates(a: seq<Cell>, width: int, height: int, p: Coord): (cs: seq<Coord>)
    requires Sized(a, width, height) && InBounds(width, height, p)
    ensures |cs| <= 5
    ensures forall i :: 0 <= i < |cs| ==>
      InBounds(width, height, cs[i]) && At(a, width, height, cs[i]).fertile
      && (cs[i] == p || Orthogonal(p, cs[i]))
  {
    var left, up, right, down := Coord(p.x - 1, p.y), Coord(p.x, p.y - 1), Coord(p.x + 1, p.y), Coord(p.x, p.y + 1);
    (if At(a, width, height, p).fertile then [p] else [])
    + ((if p.x > 0 && At(a, width, height, left).fertile then [left] else [])
    + ((if p.y > 0 && At(a, width, height, up).fertile then [up] else [])
    + ((if p.x < width - 1 && At(a, width, height, right).fertile then [right] else [])
    + (if p.y < height - 1 && At(a, width, height, down).fertile then [down] else []))))
  }

  /** The cells of the competitors. */
  function CellsOf(a: seq<Cell>, width: int, height: int, cs: seq<Coord>): (r: seq<Cell>)
    requires Sized(a, width, height)
    requires forall i :: 0 <= i < |cs| ==> InBounds(width, height, cs[i])
    ensures |r| == |cs|
    ensures forall i :: 0 <= i < |cs| ==> r[i] == At(a, width, height, cs[i])
  {
    seq(|cs|, i requires 0 <= i < |cs| => At(a, width, height, cs[i]))
  }

  /** One competitor draws with its own fitness and takes the lead if its draw beats the weight. */
  function Challenge(st: Race, c: Cell, draw: (nat, real) -> real): Race
  {
    var d := draw(st.next, c.fitness);
    if Beats(d, st.weight) then Race(c, Finite(d), st.next + 1) else st.(next := st.next + 1)
  }

  /** The competitors challenge the leader one after the other. */
  function RaceOver(cs: seq<Cell>, draw: (nat, real) -> real, st: Race): Race
    decreases |cs|
  {
    if |cs| == 0 then st
    else Challenge(RaceOver(cs[..|cs| - 1], draw, st), cs[|cs| - 1], draw)
  }

  /** The draws the competitors make, the i-th being the (k + i)-th draw overall. */
  function Draws(cs: seq<Cell>, draw: (nat, real) -> real, k: nat): (ds: seq<real>)
    ensures |ds| == |cs|
    ensures forall i :: 0 <= i < |cs| ==> ds[i] == draw(k + i, cs[i].fitness)
  {
    seq(|cs|, i requires 0 <= i < |cs| => draw(k + i, cs[i].fitness))
  }

  /** ds[j] is the smallest draw, and no earlier draw is as small: ties go to the earlier competitor. */
  predicate FirstMinimum(ds: seq<real>, j: int)
  {
    0 <= j < |ds| && (forall i :: 0 <= i < j ==> ds[j] < ds[i]) && (forall i :: j < i < |ds| ==> ds[j] <= ds[i])
  }

  /** A race consumes one draw per competitor. */
  lemma {:induction false} RaceOverDraws(cs: seq<Cell>, draw: (nat, real) -> real, st: Race)
    ensures RaceOver(cs, draw, st).next == st.next + |cs|
    decreases |cs|
  {
    if |cs| > 0 {
      RaceOverDraws(cs[..|cs| - 1], draw, st);
    }
  }

  /** Appending a draw keeps the first minimum, unless the new draw is strictly smaller. */
  lemma FirstMinimumExtend(pre: seq<real>, d: real, j: int)
    requires FirstMinimum(pre, j)
    ensures d < pre[j] ==> FirstMinimum(pre + [d], |pre|)
    ensures !(d < pre[j]) ==> FirstMinimum(pre + [d], j)
  {
  }

  /** The draws of a race over one more competitor extend the draws of the shorter race. */
  lemma DrawsSnoc(cs: seq<Cell>, draw: (nat, real) -> real, k: nat)
    requires |cs| > 0
    ensures Draws(cs, draw, k) == Draws(cs[..|cs| - 1], draw, k) + [draw(k + |cs| - 1, cs[|cs| - 1].fitness)]
  {
  }

  /** One more challenger, given what the shorter race established. */
  lemma RaceOverStep(cs: seq<Cell>, draw: (nat, real) -> real, st: Race, j: int)
    requires |cs| > 1
    requires var prev := RaceOver(cs[..|cs| - 1], draw, st);
      && prev.next == st.next + |cs| - 1
      && FirstMinimum(Draws(cs[..|cs| - 1], draw, st.next), j)
      && prev.winner == cs[j] && prev.weight == Finite(Draws(cs[..|cs| - 1], draw, st.next)[j])
    ensures var r, ds := RaceOver(cs, draw, st), Draws(cs, draw, st.next);
      exists i :: FirstMinimum(ds, i) && r.winner == cs[i] && r.weight == Finite(ds[i])
  {
    var n, k := |cs|, st.next;
    var prev := RaceOver(cs[..n - 1], draw, st);
    var r := RaceOver(cs, draw, st);
    var dsPre := Draws(cs[..n - 1], draw, k);
    var d := draw(k + n - 1, cs[n - 1].fitness);
    DrawsSnoc(cs, draw, k);
    assert draw(prev.next, cs[n - 1].fitness) == d;
    assert r == Challenge(prev, cs[n - 1], draw);
    FirstMinimumExtend(dsPre, d, j);
    if d < dsPre[j] {
      assert r == Race(cs[n - 1], Finite(d), k + n);
      assert FirstMinimum(Draws(cs, draw, k), n - 1);
    } else {
      assert r.winner == prev.winner && r.weight == prev.weight;
      assert FirstMinimum(Draws(cs, draw, k), j);
    }
  }

  /**
   * A race that starts at weight INFINITY is won by the competitor with the first
   * smallest draw, carrying that draw as its weight; with no competitor the
   * leader stays.
   */
  lemma {:induction false} RaceOverWinner(cs: seq<Cell>, draw: (nat, real) -> real, start: Cell, k: nat)
    ensures var r, ds := RaceOver(cs, draw, Race(start, Infinite, k)), Draws(cs, draw, k);
      && (|cs| == 0 ==> r.winner == start && r.weight == Infinite)
      && (|cs| > 0 ==> exists j :: FirstMinimum(ds, j) && r.winner == cs[j] && r.weight == Finite(ds[j]))
    decreases |cs|
  {
    var n := |cs|;
    var st := Race(start, Infinite, k);
    if n == 1 {
      assert RaceOver(cs, draw, st) == Challenge(st, cs[0], draw);
      assert FirstMinimum(Draws(cs, draw, k), 0);
    } else if n > 1 {
      var pre := cs[..n - 1];
      RaceOverWinner(pre, draw, start, k);
      RaceOverDraws(pre, draw, st);
      var prev := RaceOver(pre, draw, st);
      var j :| FirstMinimum(Draws(pre, draw, k), j) && prev.winner == pre[j] && prev.weight == Finite(Draws(pre, draw, k)[j]);
      assert pre[j] == cs[j];
      RaceOverStep(cs, draw, st, j);
    }
  }

  /** The race of the non-null cell at p, starting with draw number k. */
  function Contest(a: seq<Cell>, width: int, height: int, p: Coord, draw: (nat, real) -> real, k: nat): Race
    requires Sized(a, width, height) && InBounds(width, height, p)
  {
    RaceOver(CellsOf(a, width, height, Candidates(a, width, height, p)), draw, Race(At(a, width, height, p), Infinite, k))
  }

  /**
   * The race at a non-null cell: it makes one draw per competitor; with no
   * competitor the cell keeps its value; otherwise the competitor with the first
   * smallest draw wins, and that is the cell itself or a fertile orthogonal
   * neighbour on the grid.
   */
  lemma ContestOutcome(a: seq<Cell>, width: int, height: int, p: Coord, draw: (nat, real) -> real, k: nat)
    requires Sized(a, width, height) && InBounds(width, height, p)
    ensures var cs, r := Candidates(a, width, height, p), Contest(a, width, height, p, draw, k);
      var cells := CellsOf(a, width, height, cs);
      && r.next == k + |cs|
      && (|cs| == 0 ==> r.winner == At(a, width, height, p))
      && (|cs| > 0 ==> exists j :: FirstMinimum(Draws(cells, draw, k), j) && r.winner == cells[j])
      && (r.winner == At(a, width, height, p)
          || exists q :: Orthogonal(p, q) && InBounds(width, height, q) && At(a, width, height, q).fertile
                         && r.winner == At(a, width, height, q))
  {
    var cs := Candidates(a, width, height, p);
    var cells := CellsOf(a, width, height, cs);
    var start := At(a, width, height, p);
    RaceOverDraws(cells, draw, Race(start, Infinite, k));
    RaceOverWinner(cells, draw, start, k);
    if |cs| > 0 {
      var r := Contest(a, width, height, p, draw, k);
      var j :| FirstMinimum(Draws(cells, draw, k), j) && r.winner == cells[j];
      if cs[j] != p {
        assert Orthogonal(p, cs[j]) && r.winner == At(a, width, height, cs[j]);
      }
    }
  }

  /** The number of draws the scan makes at position i: none for a null cell. */
  function DrawsAt(a: seq<Cell>, width: int, height: int, i: nat): nat
    requires Sized(a, width, height) && i < |a|
  {
    CoordAtIndex(width, height, i);
    if a[i].isNull then 0 else |Candidates(a, width, height, CoordAt(width, i))|
  }

  /** The number of draws the scan makes before reaching position pos. */
  function DrawsBefore(a: seq<Cell>, width: int, height: int, pos: nat): nat
    requires Sized(a, width, height) && pos <= |a|
  {
    if pos == 0 then 0 else DrawsBefore(a, width, height, pos - 1) + DrawsAt(a, width, height, pos - 1)
  }

  /** The new value of position i, its race starting with draw number k. */
  function NextCell(a: seq<Cell>, width: int, height: int, i: nat, draw: (nat, real) -> real, k: nat): Cell
    requires Sized(a, width, height) && i < |a|
  {
    CoordAtIndex(width, height, i);
    if a[i].isNull then a[i] else Contest(a, width, height, CoordAt(width, i), draw, k).winner
  }

  /** The first n cells of the new buffer the scan computes when its first draw is number k0. */
  function NextCellsUpTo(a: seq<Cell>, width: int, height: int, draw: (nat, real) -> real, k0: nat, n: nat): (b: seq<Cell>)
    requires Sized(a, width, height) && n <= |a|
    ensures |b| == n
  {
    if n == 0 then []
    else NextCellsUpTo(a, width, height, draw, k0, n - 1) + [NextCell(a, width, height, n - 1, draw, k0 + DrawsBefore(a, width, height, n - 1))]
  }

  /** The whole new buffer the scan computes when its first draw is number k0. */
  function NextCells(a: seq<Cell>, width: int, height: int, draw: (nat, real) -> real, k0: nat): (b: seq<Cell>)
    requires Sized(a, width, height)
    ensures |b| == |a|
  {
    NextCellsUpTo(a, width, height, draw, k0, |a|)
  }

  /** Position i of the new buffer is the outcome of its race, started after the draws of the positions before it. */
  lemma {:induction false} NextCellsAt(a: seq<Cell>, width: int, height: int, draw: (nat, real) -> real, k0: nat, n: nat, i: nat)
    requires Sized(a, width, height) && i < n <= |a|
    ensures NextCellsUpTo(a, width, height, draw, k0, n)[i] == NextCell(a, width, height, i, draw, k0 + DrawsBefore(a, width, height, i))
    decreases n
  {
    if i < n - 1 {
      NextCellsAt(a, width, height, draw, k0, n - 1, i);
    }
  }

  /**
   * Each cell of the new buffer: a null cell keeps its value, and any other cell
   * becomes its own old value or that of a fertile orthogonal neighbour on the grid.
   */
  lemma NextCellsFrom(a: seq<Cell>, width: int, height: int, draw: (nat, real) -> real, k0: nat, i: nat)
    requires Sized(a, width, height) && i < |a|
    ensures var b, p := NextCells(a, width, height, draw, k0), CoordAt(width, i);
      && (a[i].isNull ==> b[i] == a[i])
      && (b[i] == a[i]
          || exists q :: Orthogonal(p, q) && InBounds(width, height, q) && At(a, width, height, q).fertile
                         && b[i] == At(a, width, height, q))
  {
    CoordAtIndex(width, height, i);
    NextCellsAt(a, width, height, draw, k0, |a|, i);
    var p := CoordAt(width, i);
    if !a[i].isNull {
      ContestOutcome(a, width, height, p, draw, k0 + DrawsBefore(a, width, height, i));
    }
  }

  /** The number of non-null positions of `a` whose cell in `b` has colour c. */
  function Tally(a: seq<Cell>, b: seq<Cell>, c: nat): nat
    requires |a| == |b|
    decreases |a|
  {
    if |a| == 0 then 0
    else Tally(a[..|a| - 1], b[..|b| - 1], c) + (if !a[|a| - 1].isNull && b[|b| - 1].color == c then 1 else 0)
  }

  /** A colour has no occupant exactly when no non-null position holds it. */
  lemma {:induction false} TallyZero(a: seq<Cell>, b: seq<Cell>, c: nat)
    requires |a| == |b|
    ensures Tally(a, b, c) == 0 <==> forall i :: 0 <= i < |a| && !a[i].isNull ==> b[i].color != c
    decreases |a|
  {
    if |a| > 0 {
      var n := |a|;
      TallyZero(a[..n - 1], b[..n - 1], c);
      assert forall i :: 0 <= i < n - 1 ==> a[..n - 1][i] == a[i] && b[..n - 1][i] == b[i];
    }
  }

  /** A tally of a prefix grows by the one position added. */
  lemma TallyPrefix(a: seq<Cell>, b: seq<Cell>, c: nat, pos: nat)
    requires |a| == |b| && pos < |a|
    ensures Tally(a[..pos + 1], b[..pos + 1], c)
         == Tally(a[..pos], b[..pos], c) + (if !a[pos].isNull && b[pos].color == c then 1 else 0)
  {
    assert a[..pos + 1][..pos] == a[..pos];
    assert b[..pos + 1][..pos] == b[..pos];
  }

  /** The first `upto` positions of b hold their new values `want`; the others still hold a copy of a. */
  predicate ScannedUpTo(a: seq<Cell>, want: seq<Cell>, b: seq<Cell>, upto: nat)
    requires |want| == |a| && |b| == |a| && upto <= |a|
  {
    (forall i :: 0 <= i < upto ==> b[i] == want[i])
    && (forall i :: upto <= i < |b| ==> b[i] == a[i])
  }

  /** The counts hold the colour tallies of the first `upto` positions. */
  predicate CountedUpTo(counts: seq<nat>, a: seq<Cell>, b: seq<Cell>, upto: nat)
    requires |b| == |a| && upto <= |a|
  {
    forall c :: 0 <= c < |counts| ==> counts[c] == Tally(a[..upto], b[..upto], c)
  }

  /** Writing the new value of position pos extends the scanned prefix by one, leaving the earlier positions alone. */
  lemma ScanStepCells(a: seq<Cell>, want: seq<Cell>, b0: seq<Cell>, b1: seq<Cell>, pos: nat)
    requires |want| == |a| && |b0| == |a| && pos < |a|
    requires ScannedUpTo(a, want, b0, pos) && b1 == b0[pos := want[pos]]
    ensures |b1| == |a| && ScannedUpTo(a, want, b1, pos + 1) && b1[..pos] == b0[..pos]
  {
  }

  /** The scan finishes with every position holding its new value and every colour counted. */
  lemma ScanDone(a: seq<Cell>, want: seq<Cell>, b: seq<Cell>, counts: seq<nat>)
    requires |want| == |a| && |b| == |a|
    requires ScannedUpTo(a, want, b, |a|) && CountedUpTo(counts, a, b, |a|)
    ensures b == want
    ensures forall c :: 0 <= c < |counts| ==> counts[c] == Tally(a, b, c)
  {
    assert a[..|a|] == a && b[..|a|] == b;
  }

  /** One more position visited extends the tallies. */
  lemma ScanStepCounts(a: seq<Cell>, b0: seq<Cell>, b1: seq<Cell>, counts0: seq<nat>, counts1: seq<nat>, pos: nat)
    requires |b0| == |a| && |b1| == |a| && pos < |a| && b1[..pos] == b0[..pos]
    requires CountedUpTo(counts0, a, b0, pos)
    requires |counts1| == |counts0|
    requires forall c :: 0 <= c < |counts0| ==>
      counts1[c] == counts0[c] + (if !a[pos].isNull && b1[pos].color == c then 1 else 0)
    ensures CountedUpTo(counts1, a, b1, pos + 1)
  {
    forall c | 0 <= c < |counts1|
      ensures counts1[c] == Tally(a[..pos + 1], b1[..pos + 1], c)
    {
      TallyPrefix(a, b1, c, pos);
    }
  }

  /**
   * What the scan does at position pos: a null cell keeps its value and makes no
   * draw; any other cell takes the winner of its race, which starts after the
   * draws of the earlier positions and has a colour below the bound of a.
   */
  lemma VisitStep(a: seq<Cell>, width: int, height: int, draw: (nat, real) -> real, k0: nat, pos: nat, k: nat, colors: nat)
    requires Sized(a, width, height) && pos < |a| && k == k0 + DrawsBefore(a, width, height, pos)
    requires forall i :: 0 <= i < |a| ==> a[i].color < colors
    ensures InBounds(width, height, CoordAt(width, pos))
    ensures a[pos].isNull ==>
      NextCells(a, width, height, draw, k0)[pos] == a[pos] && DrawsBefore(a, width, height, pos + 1) == k - k0
    ensures !a[pos].isNull ==>
      && Contest(a, width, height, CoordAt(width, pos), draw, k).winner == NextCells(a, width, height, draw, k0)[pos]
      && Contest(a, width, height, CoordAt(width, pos), draw, k).next == k0 + DrawsBefore(a, width, height, pos + 1)
      && Contest(a, width, height, CoordAt(width, pos), draw, k).winner.color < colors
  {
    CoordAtIndex(width, height, pos);
    NextCellsAt(a, width, height, draw, k0, |a|, pos);
    assert NextCells(a, width, height, draw, k0)[pos] == NextCell(a, width, height, pos, draw, k);
    assert DrawsBefore(a, width, height, pos + 1) == k - k0 + DrawsAt(a, width, height, pos);
    if !a[pos].isNull {
      var p := CoordAt(width, pos);
      ContestOutcome(a, width, height, p, draw, k);
      ColorBound(a, width, height, pos, draw, k, colors);
    }
  }

  /**
   * The body of the grid loop at position pos, the cell (x, y) with
   * pos == x + y * width: a non-null cell runs its race into b and counts the
   * colour of the winner; a null cell is skipped. `cur` is the contents of a,
   * `want` the buffer the whole scan computes, and k the number of draws made so far.
   */
  method Visit(a: array<Cell>, b: array<Cell>, colorCount: array<nat>, width: int, height: int,
               pos: nat, draw: (nat, real) -> real, k0: nat, k: nat, ghost cur: seq<Cell>, ghost want: seq<Cell>)
    returns (next: nat)
    requires a != b && a[..] == cur && Sized(cur, width, height) && b.Length == a.Length && pos < a.Length
    requires forall i :: 0 <= i < |cur| ==> cur[i].color < colorCount.Length
    requires want == NextCells(cur, width, height, draw, k0)
    requires b[pos] == cur[pos]
    requires k == k0 + DrawsBefore(cur, width, height, pos)
    modifies b, colorCount
    ensures b[..] == old(b[..])[pos := want[pos]]
    ensures next == k0 + DrawsBefore(cur, width, height, pos + 1)
    ensures forall c :: 0 <= c < colorCount.Length ==>
      colorCount[c] == old(colorCount[c]) + (if !cur[pos].isNull && b[pos].color == c then 1 else 0)
  {
    VisitStep(cur, width, height, draw, k0, pos, k, colorCount.Length);
    next := k;
    if !a[pos].isNull {
      var r := Contest(a[..], width, height, CoordAt(width, pos), draw, k);
      b[pos] := r.winner;
      next := r.next;
      colorCount[r.winner.color] := colorCount[r.winner.color] + 1;
    }
  }

  /** The inner loop of the grid scan: the row whose first position is `row`. */
  method ScanRow(a: array<Cell>, b: array<Cell>, colorCount: array<nat>, width: int, height: int,
                 row: nat, draw: (nat, real) -> real, k0: nat, k: nat, ghost cur: seq<Cell>, ghost want: seq<Cell>)
    returns (next: nat)
    requires a != b && a[..] == cur && Sized(cur, width, height) && b.Length == a.Length && row + width <= a.Length
    requires forall i :: 0 <= i < |cur| ==> cur[i].color < colorCount.Length
    requires want == NextCells(cur, width, height, draw, k0)
    requires ScannedUpTo(cur, want, b[..], row)
    requires CountedUpTo(colorCount[..], cur, b[..], row)
    requires k == k0 + DrawsBefore(cur, width, height, row)
    modifies b, colorCount
    ensures ScannedUpTo(cur, want, b[..], row + width)
    ensures CountedUpTo(colorCount[..], cur, b[..], row + width)
    ensures next == k0 + DrawsBefore(cur, width, height, row + width)
  {
    next := k;
    var x := 0;
    ghost var pos: nat := row;
    while x < width
      invariant 0 <= x <= width && pos == row + x && a[..] == cur
      invariant ScannedUpTo(cur, want, b[..], pos)
      invariant CountedUpTo(colorCount[..], cur, b[..], pos)
      invariant next == k0 + DrawsBefore(cur, width, height, pos)
    {
      ghost var b0, counts0 := b[..], colorCount[..];
      next := Visit(a, b, colorCount, width, height, x + row, draw, k0, next, cur, want);
      ScanStepCells(cur, want, b0, b[..], pos);
      ScanStepCounts(cur, b0, b[..], counts0, colorCount[..], pos);
      x, pos := x + 1, pos + 1;
    }
  }

  /** Every row of the grid ends inside the buffer, and the rows fill it. */
  lemma RowFits(a: seq<Cell>, width: int, height: int, y: nat)
    requires Sized(a, width, height) && y <= height
    ensures y < height ==> RowStart(width, y) + width <= |a|
    ensures y == height ==> RowStart(width, y) == |a|
  {
    RowStartBound(width, height, y);
  }

  /** The outer loop of the grid scan, over the rows. */
  method ScanRows(a: array<Cell>, b: array<Cell>, colorCount: array<nat>, width: int, height: int,
                  draw: (nat, real) -> real, k0: nat, ghost cur: seq<Cell>, ghost want: seq<Cell>)
    returns (k: nat)
    requires a != b && a[..] == cur && Sized(cur, width, height) && b.Length == a.Length
    requires forall i :: 0 <= i < |cur| ==> cur[i].color < colorCount.Length
    requires want == NextCells(cur, width, height, draw, k0)
    requires ScannedUpTo(cur, want, b[..], 0)
    requires CountedUpTo(colorCount[..], cur, b[..], 0)
    modifies b, colorCount
    ensures ScannedUpTo(cur, want, b[..], |cur|)
    ensures CountedUpTo(colorCount[..], cur, b[..], |cur|)
    ensures k == k0 + DrawsBefore(cur, width, height, |cur|)
  {
    k := k0;
    var y: nat, row: nat := 0, 0;
    while y < height
      invariant y <= height && row == RowStart(width, y) && a[..] == cur
      invariant row <= |cur|
      invariant ScannedUpTo(cur, want, b[..], row)
      invariant CountedUpTo(colorCount[..], cur, b[..], row)
      invariant k == k0 + DrawsBefore(cur, width, height, row)
    {
      RowFits(cur, width, height, y);
      k := ScanRow(a, b, colorCount, width, height, row, draw, k0, k, cur, want);
      y, row := y + 1, row + width;
    }
    RowFits(cur, width, height, y);
  }

  /**
   * The nested grid loop of do_work: b starts as a copy of a, each non-null
   * position gets the winner of its race, and the colour of every non-null cell
   * of b is counted. Returns the counts and the number of the next draw.
   */
  method Scan(a: array<Cell>, b: array<Cell>, width: int, height: int, colors: nat, draw: (nat, real) -> real, k0: nat)
    returns (counts: seq<nat>, k: nat)
    requires a != b && Sized(a[..], width, height) && b.Length == a.Length
    requires forall i :: 0 <= i < a.Length ==> a[i].color < colors
    modifies b
    ensures b[..] == NextCells(a[..], width, height, draw, k0)
    ensures k == k0 + DrawsBefore(a[..], width, height, a.Length)
    ensures |counts| == colors
    ensures forall c :: 0 <= c < colors ==> counts[c] == Tally(a[..], b[..], c)
  {
    forall i | 0 <= i < b.Length {
      b[i] := a[i];
    }
    ghost var cur := a[..];
    ghost var want := NextCells(cur, width, height, draw, k0);
    var colorCount := new nat[colors](_ => 0);
    k := ScanRows(a, b, colorCount, width, height, draw, k0, cur, want);
    ScanDone(cur, want, b[..], colorCount[..]);
    counts := colorCount[..];
  }

  /** The winner of a race has a colour below the bound every cell of the old buffer keeps. */
  lemma ColorBound(a: seq<Cell>, width: int, height: int, i: nat, draw: (nat, real) -> real, k: nat, colors: nat)
    requires Sized(a, width, height) && i < |a|
    requires forall j :: 0 <= j < |a| ==> a[j].color < colors
    ensures NextCell(a, width, height, i, draw, k).color < colors
  {
    CoordAtIndex(width, height, i);
    var p := CoordAt(width, i);
    if !a[i].isNull {
      ContestOutcome(a, width, height, p, draw, k);
      IndexInRange(width, height, p);
      forall q | InBounds(width, height, q)
        ensures At(a, width, height, q).color < colors
      {
        IndexInRange(width, height, q);
      }
    }
  }
}
