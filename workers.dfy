/**
 * The Worker of worker.cc: two row-major buffers of cells, the generation
 * counter, and the edit queue that the GUI fills and the worker drains between
 * generations.
 *
 * The locks of the source only serialise these updates; they are not modelled.
 * The queue's iteration order is not visible in the source, so the drain takes
 * it as a sequence `order` that lists every queued key once.
 */
module Workers {
  import opened Bits
  import opened Cells
  import opened Lines
  import opened Drain
  import opened Competition
  import opened Mutation

  /** The colour counts of a scanned buffer, one per colour below `colors`. */
  function Counts(a: seq<Cell>, b: seq<Cell>, colors: nat): (counts: seq<nat>)
    requires |a| == |b|
    ensures |counts| == colors
    ensures forall c :: 0 <= c < colors ==> counts[c] == Tally(a, b, c)
  {
    seq(colors, c requires 0 <= c < colors => Tally(a, b, c))
  }

  /**
   * The buffer one generation produces from the live buffer a: the neighbour
   * scan, then the mutation pass seeded with the colours the scan left unused.
   */
  function NextGeneration(a: seq<Cell>, width: int, height: int, colors: nat, alleles: nat,
                          draw: (nat, real) -> real, k0: nat, first: nat, gaps: seq<nat>, raw: nat -> bv64): (b: seq<Cell>)
    requires Sized(a, width, height) && 2 <= alleles <= colors
    ensures |b| == |a|
  {
    var scanned := NextCells(a, width, height, draw, k0);
    Mutations(scanned, first, gaps, raw, 0, EmptyColors(Counts(a, scanned, colors), alleles), alleles)
  }

  /** The scan copies every null cell and keeps every colour below n. */
  lemma NextCellsKeeps(a: seq<Cell>, width: int, height: int, draw: (nat, real) -> real, k0: nat, n: nat)
    requires Sized(a, width, height) && ColorsBelow(a, n)
    ensures var b := NextCells(a, width, height, draw, k0);
      && ColorsBelow(b, n)
      && forall i :: 0 <= i < |a| && a[i].isNull ==> b[i] == a[i]
  {
    var b := NextCells(a, width, height, draw, k0);
    forall i | 0 <= i < |a|
      ensures b[i].color < n
      ensures a[i].isNull ==> b[i] == a[i]
    {
      NextCellsFrom(a, width, height, draw, k0, i);
      NextCellsAt(a, width, height, draw, k0, |a|, i);
      ColorBound(a, width, height, i, draw, k0 + DrawsBefore(a, width, height, i), n);
    }
  }

  /**
   * One generation keeps every colour below the number of alleles, never
   * changes whether a cell is null, and leaves an infertile null cell (an
   * obstacle) exactly as it was.
   */
  lemma NextGenerationKeeps(a: seq<Cell>, width: int, height: int, colors: nat, alleles: nat,
                            draw: (nat, real) -> real, k0: nat, first: nat, gaps: seq<nat>, raw: nat -> bv64)
    requires Sized(a, width, height) && 2 <= alleles <= colors && ColorsBelow(a, alleles)
    ensures var b := NextGeneration(a, width, height, colors, alleles, draw, k0, first, gaps, raw);
      && ColorsBelow(b, alleles)
      && forall i :: 0 <= i < |a| && a[i].isNull && !a[i].fertile ==> b[i] == a[i]
  {
    var scanned := NextCells(a, width, height, draw, k0);
    var counts := Counts(a, scanned, colors);
    var pool := EmptyColors(counts, alleles);
    NextCellsKeeps(a, width, height, draw, k0, alleles);
    EmptyColorsBelowSpec(counts, alleles);
    assert forall i :: 0 <= i < |pool| ==> pool[i] < alleles;
    MutationsColors(scanned, first, gaps, raw, 0, pool, alleles);
    MutationsFrame(scanned, first, gaps, raw, 0, pool, alleles);
  }

  class Worker {
    const width: int
    const height: int
    /** num_colors, the size of the colour counter table, and num_alleles, the colours in use. */
    const colors: nat
    const alleles: nat
    /** The live buffer (pop_a_) and the buffer the next generation is written to (pop_b_). */
    var popA: array<Cell>
    var popB: array<Cell>
    /** gen_, an unsigned 64-bit counter. */
    var gen: Word
    /** toggle_map_: the queued requests; null_cells_: the null cells made through the queue. */
    var toggleMap: map<Coord, bool>
    var nullCells: set<Coord>
    var clearAllNulls: bool

    /** Two distinct buffers of the grid's size; queued keys and recorded null cells lie on the grid. */
    predicate Valid()
      reads this
    {
      && width > 0 && height > 0 && 2 <= alleles <= colors
      && popA.Length == width * height && popB.Length == width * height && popA != popB
      && (forall q :: q in toggleMap ==> InBounds(width, height, q))
      && (forall q :: q in nullCells ==> InBounds(width, height, q))
    }

    /** Both buffers hold width * height copies of the default cell; the queue is empty. */
    constructor (width: int, height: int, colors: nat, alleles: nat, blank: Cell)
      requires width > 0 && height > 0 && 2 <= alleles <= colors
      ensures Valid() && fresh(popA) && fresh(popB)
      ensures this.width == width && this.height == height && this.colors == colors && this.alleles == alleles
      ensures popA[..] == popB[..] == seq(width * height, _ => blank)
      ensures blank.color < alleles ==> ColorsBelow(popA[..], alleles) && ColorsBelow(popB[..], alleles)
      ensures gen == 0 && toggleMap == map[] && nullCells == {} && !clearAllNulls
    {
      this.width, this.height, this.colors, this.alleles := width, height, colors, alleles;
      popA := new Cell[width * height](_ => blank);
      popB := new Cell[width * height](_ => blank);
      gen := 0;
      toggleMap, nullCells, clearAllNulls := map[], {}, false;
    }

    /** is_cell_valid: true exactly for coordinates on the grid, whose positions index the buffers. */
    function IsCellValid(x: int, y: int): (b: bool)
      ensures b <==> InBounds(width, height, Coord(x, y))
      ensures b && width > 0 ==> 0 <= Index(width, Coord(x, y)) < width * height
    {
      if 0 <= x < width && 0 <= y < height then
        IndexInRange(width, height, Coord(x, y));
        true
      else false
    }

    /** toggle_cell: queue `on` for (x, y) if it lies on the grid. */
    method ToggleCell(x: int, y: int, on: bool)
      requires Valid()
      modifies this
      ensures Valid()
      ensures toggleMap == Record(width, height, old(toggleMap), Coord(x, y), on)
      ensures popA == old(popA) && popB == old(popB) && gen == old(gen)
      ensures nullCells == old(nullCells) && clearAllNulls == old(clearAllNulls)
    {
      if IsCellValid(x, y) {
        toggleMap := toggleMap[Coord(x, y) := on];
      }
    }

    /**
     * toggle_line: queue `on` for every on-grid point of the rasterised segment
     * from (x1, y1), excluded, to (x2, y2), included; nothing for a zero-length
     * segment. The previously queued requests for other keys stay.
     */
    method ToggleLine(x1: int, y1: int, x2: int, y2: int, on: bool)
      requires Valid()
      modifies this
      ensures Valid()
      ensures toggleMap == old(toggleMap) + Writes(LineKeys(width, height, x1, y1, x2, y2), on)
      ensures popA == old(popA) && popB == old(popB) && gen == old(gen)
      ensures nullCells == old(nullCells) && clearAllNulls == old(clearAllNulls)
    {
      var dx, dy := x2 - x1, y2 - y1;
      if dx == 0 && dy == 0 {
        assert Writes({}, on) == map[];
        assert toggleMap + map[] == toggleMap;
        return;
      }
      if Abs(dx) > Abs(dy) {
        StepAlongX(x1, y1, x2, y2, on);
      } else {
        StepAlongY(x1, y1, x2, y2, on);
      }
      if IsCellValid(x2, y2) {
        toggleMap := toggleMap[Coord(x2, y2) := on];
      }
      ghost var path := LinePath(x1, y1, x2, y2);
      assert path[..|path| - 1] == LinePoints(x1, y1, x2, y2);
      RecordAllOverride(width, height, old(toggleMap), path, on);
    }

    /** The loop of toggle_line along x: queue `on` for the on-grid intermediate points, in order. */
    method StepAlongX(x1: int, y1: int, x2: int, y2: int, on: bool)
      requires Valid() && XMajor(x2 - x1, y2 - y1) && (x2 - x1 != 0 || y2 - y1 != 0)
      modifies this
      ensures Valid()
      ensures toggleMap == RecordAll(width, height, old(toggleMap), LinePoints(x1, y1, x2, y2), on)
      ensures popA == old(popA) && popB == old(popB) && gen == old(gen)
      ensures nullCells == old(nullCells) && clearAllNulls == old(clearAllNulls)
    {
      var dx, dy := x2 - x1, y2 - y1;
      ghost var pts := LinePoints(x1, y1, x2, y2);
      ghost var k := 0;
      var o := Sgn(dx);
      var d := o;
      while d != dx
        invariant 0 <= k <= |pts| == Abs(dx) - 1
        invariant d == (if dx > 0 then k + 1 else -(k + 1))
        invariant Valid()
        invariant toggleMap == RecordAll(width, height, old(toggleMap), pts[..k], on)
        invariant popA == old(popA) && popB == old(popB) && gen == old(gen)
        invariant nullCells == old(nullCells) && clearAllNulls == old(clearAllNulls)
        decreases |pts| - k
      {
        LinePointAt(x1, y1, x2, y2, k, d);
        var nx := x1 + d;
        var ny := y1 + TruncDiv(d * dy, dx);
        assert pts[k] == Coord(nx, ny);
        if IsCellValid(nx, ny) {
          toggleMap := toggleMap[Coord(nx, ny) := on];
        }
        RecordAllSnoc(width, height, old(toggleMap), pts, k, on);
        d, k := d + o, k + 1;
      }
      assert pts[..k] == pts;
    }

    /** The loop of toggle_line along y: queue `on` for the on-grid intermediate points, in order. */
    method StepAlongY(x1: int, y1: int, x2: int, y2: int, on: bool)
      requires Valid() && !XMajor(x2 - x1, y2 - y1) && (x2 - x1 != 0 || y2 - y1 != 0)
      modifies this
      ensures Valid()
      ensures toggleMap == RecordAll(width, height, old(toggleMap), LinePoints(x1, y1, x2, y2), on)
      ensures popA == old(popA) && popB == old(popB) && gen == old(gen)
      ensures nullCells == old(nullCells) && clearAllNulls == old(clearAllNulls)
    {
      var dx, dy := x2 - x1, y2 - y1;
      ghost var pts := LinePoints(x1, y1, x2, y2);
      ghost var k := 0;
      var o := Sgn(dy);
      var d := o;
      while d != dy
        invariant 0 <= k <= |pts| == Abs(dy) - 1
        invariant d == (if dy > 0 then k + 1 else -(k + 1))
        invariant Valid()
        invariant toggleMap == RecordAll(width, height, old(toggleMap), pts[..k], on)
        invariant popA == old(popA) && popB == old(popB) && gen == old(gen)
        invariant nullCells == old(nullCells) && clearAllNulls == old(clearAllNulls)
        decreases |pts| - k
      {
        LinePointAt(x1, y1, x2, y2, k, d);
        var ny := y1 + d;
        var nx := x1 + TruncDiv(d * dx, dy);
        assert pts[k] == Coord(nx, ny);
        if IsCellValid(nx, ny) {
          toggleMap := toggleMap[Coord(nx, ny) := on];
        }
        RecordAllSnoc(width, height, old(toggleMap), pts, k, on);
        d, k := d + o, k + 1;
      }
      assert pts[..k] == pts;
    }

    /** do_clear_nulls: the next drain clears every recorded null cell instead. */
    method DoClearNulls()
      requires Valid()
      modifies this
      ensures Valid() && clearAllNulls
      ensures toggleMap == old(toggleMap) && nullCells == old(nullCells)
      ensures popA == old(popA) && popB == old(popB) && gen == old(gen)
    {
      clearAllNulls := true;
    }

    /** erase_area_: remove the first of the eight neighbours of key recorded as null, if any. */
    method EraseArea(key: Coord)
      requires Valid() && InBounds(width, height, key) && key !in nullCells
      modifies this, popA
      ensures Valid() && popA == old(popA) && popB == old(popB)
      ensures Grid(popA[..], nullCells) == DrainStep(width, height, old(Grid(popA[..], nullCells)), key, false)
      ensures toggleMap == old(toggleMap) && gen == old(gen) && clearAllNulls == old(clearAllNulls)
    {
      ghost var g := Grid(popA[..], nullCells);
      var j := 0;
      while j < 8
        invariant 0 <= j <= 8
        invariant forall i :: 0 <= i < j ==> Offset(key, ERASE_AREA[i]) !in nullCells
        invariant Grid(popA[..], nullCells) == g
        invariant j <= FirstNull(nullCells, key)
      {
        var q := Offset(key, ERASE_AREA[j]);
        if q in nullCells {
          assert FirstNull(nullCells, key) == j;
          IndexInRange(width, height, q);
          nullCells := nullCells - {q};
          popA[q.x + q.y * width] := ToggleOff(popA[q.x + q.y * width]);
          return;
        }
        j := j + 1;
      }
    }

    /** One pass of the drain loop of apply_toggles: carry out the request `on` queued for key. */
    method DrainKey(key: Coord, on: bool)
      requires Valid() && InBounds(width, height, key)
      modifies this, popA
      ensures Valid() && popA == old(popA) && popB == old(popB) && gen == old(gen)
      ensures toggleMap == old(toggleMap) && clearAllNulls == old(clearAllNulls)
      ensures Grid(popA[..], nullCells) == DrainStep(width, height, old(Grid(popA[..], nullCells)), key, on)
    {
      IndexInRange(width, height, key);
      var pos := key.x + key.y * width;
      if on {
        nullCells := nullCells + {key};
        popA[pos] := ToggleOn(popA[pos]);
      } else if key in nullCells {
        nullCells := nullCells - {key};
        popA[pos] := ToggleOff(popA[pos]);
      } else {
        EraseArea(key);
      }
    }

    /** The "clear all" branch of apply_toggles: every recorded null cell is toggled off. */
    method ClearNulls()
      requires Valid()
      modifies this, popA
      ensures Valid() && popA == old(popA) && popB == old(popB)
      ensures popA[..] == Cleared(width, old(popA[..]), old(nullCells))
      ensures nullCells == {} && toggleMap == map[] && !clearAllNulls && gen == old(gen)
    {
      toggleMap := map[];
      ghost var before := popA[..];
      var rest := nullCells;
      ClearedNone(width, before);
      while rest != {}
        invariant rest <= nullCells && Valid()
        invariant popA[..] == Cleared(width, before, nullCells - rest)
        invariant toggleMap == map[] && popA == old(popA) && popB == old(popB) && gen == old(gen)
        invariant nullCells == old(nullCells)
        decreases rest
      {
        var p :| p in rest;
        ClearedAdd(width, height, before, nullCells - rest, p);
        assert nullCells - (rest - {p}) == (nullCells - rest) + {p};
        popA[p.x + p.y * width] := ToggleOff(popA[p.x + p.y * width]);
        rest := rest - {p};
      }
      nullCells := {};
      clearAllNulls := false;
    }

    /**
     * apply_toggles: with the "clear all" flag set, toggle every recorded null
     * cell off and discard the queue; otherwise drain the queue in the order
     * `order` into the live buffer. Either way the queue ends empty.
     */
    method ApplyToggles(order: seq<Coord>)
      requires Valid()
      requires forall k :: k in toggleMap <==> k in order
      requires forall i, j :: 0 <= i < j < |order| ==> order[i] != order[j]
      modifies this, popA
      ensures Valid() && popA == old(popA) && popB == old(popB) && gen == old(gen)
      ensures toggleMap == map[] && !clearAllNulls
      ensures old(clearAllNulls) ==> popA[..] == Cleared(width, old(popA[..]), old(nullCells)) && nullCells == {}
      ensures !old(clearAllNulls) ==>
        Grid(popA[..], nullCells) == Drain.Drain(width, height, old(Grid(popA[..], nullCells)), old(toggleMap), order)
    {
      if clearAllNulls {
        ClearNulls();
        return;
      }
      DrainQueue(order);
    }

    /** The drain branch of apply_toggles: carry out the queued requests in the order `order`, then empty the queue. */
    method DrainQueue(order: seq<Coord>)
      requires Valid() && !clearAllNulls
      requires forall k :: k in order ==> k in toggleMap
      modifies this, popA
      ensures Valid() && popA == old(popA) && popB == old(popB) && gen == old(gen)
      ensures toggleMap == map[] && !clearAllNulls
      ensures Grid(popA[..], nullCells) == Drain.Drain(width, height, old(Grid(popA[..], nullCells)), old(toggleMap), order)
    {
      ghost var g := Grid(popA[..], nullCells);
      var i := 0;
      while i < |order|
        invariant 0 <= i <= |order| && Valid()
        invariant popA == old(popA) && popB == old(popB) && gen == old(gen) && !clearAllNulls
        invariant toggleMap == old(toggleMap)
        invariant Grid(popA[..], nullCells) == Drain.Drain(width, height, g, toggleMap, order[..i])
      {
        var key := order[i];
        assert order[..i + 1][..i] == order[..i];
        DrainKey(key, toggleMap[key]);
        i := i + 1;
      }
      assert order[..i] == order;
      toggleMap := map[];
    }

    /**
     * swap_buffers: count the generation (modulo 2^64), make the freshly
     * computed buffer the live one and drain the queue into it.
     */
    method SwapBuffers(order: seq<Coord>)
      requires Valid()
      requires forall k :: k in toggleMap <==> k in order
      requires forall i, j :: 0 <= i < j < |order| ==> order[i] != order[j]
      modifies this, popA, popB
      ensures Valid() && popA == old(popB) && popB == old(popA)
      ensures gen == (old(gen) + 1) % MOD
      ensures popB[..] == old(popA[..])
      ensures toggleMap == map[] && !clearAllNulls
      ensures old(clearAllNulls) ==> popA[..] == Cleared(width, old(popB[..]), old(nullCells)) && nullCells == {}
      ensures !old(clearAllNulls) ==>
        Grid(popA[..], nullCells) == Drain.Drain(width, height, Grid(old(popB[..]), old(nullCells)), old(toggleMap), order)
    {
      gen := (gen + 1) % MOD;
      popA, popB := popB, popA;
      ApplyToggles(order);
    }

    /**
     * The integer part of one generation of do_work: popB becomes a copy of the
     * live buffer rewritten by the neighbour scan and the mutation pass. The
     * exponential draws of the scan are draw(k0), draw(k0 + 1), ...; `first` is
     * the first mutation target and `gaps` the following floored draws; the raw
     * 64-bit draws of the mutations are raw(0), raw(1), ....
     */
    method Generation(draw: (nat, real) -> real, k0: nat, first: nat, gaps: seq<nat>, raw: nat -> bv64) returns (k: nat)
      requires Valid() && ColorsBelow(popA[..], alleles)
      requires first + Sum(gaps) >= width * height
      modifies popB
      ensures popB[..] == NextGeneration(popA[..], width, height, colors, alleles, draw, k0, first, gaps, raw)
      ensures k == k0 + DrawsBefore(popA[..], width, height, popA.Length)
      ensures ColorsBelow(popB[..], alleles)
    {
      var counts;
      counts, k := Scan(popA, popB, width, height, colors, draw, k0);
      ghost var scanned := popB[..];
      assert counts == Counts(popA[..], scanned, colors);
      var pool: seq<nat> := [];
      if first < popB.Length {
        pool := CollectEmptyColors(counts, alleles);
      }
      MutationLoop(popB, first, gaps, raw, pool, alleles);
      NextGenerationKeeps(popA[..], width, height, colors, alleles, draw, k0, first, gaps, raw);
    }

    /** One pass of do_work's loop: compute the next generation, then swap_buffers. */
    method DoWorkStep(draw: (nat, real) -> real, k0: nat, first: nat, gaps: seq<nat>, raw: nat -> bv64, order: seq<Coord>)
      returns (k: nat)
      requires Valid() && ColorsBelow(popA[..], alleles)
      requires first + Sum(gaps) >= width * height
      requires forall k :: k in toggleMap <==> k in order
      requires forall i, j :: 0 <= i < j < |order| ==> order[i] != order[j]
      modifies this, popA, popB
      ensures Valid() && popA == old(popB) && popB == old(popA)
      ensures popB[..] == old(popA[..]) && gen == (old(gen) + 1) % MOD
      ensures ColorsBelow(popA[..], alleles)
      ensures toggleMap == map[] && !clearAllNulls
      ensures k == k0 + DrawsBefore(old(popA[..]), width, height, width * height)
      ensures old(clearAllNulls) ==>
        && popA[..] == Cleared(width, NextGeneration(old(popA[..]), width, height, colors, alleles, draw, k0, first, gaps, raw), old(nullCells))
        && nullCells == {}
      ensures !old(clearAllNulls) ==>
        Grid(popA[..], nullCells) == Drain.Drain(width, height,
          Grid(NextGeneration(old(popA[..]), width, height, colors, alleles, draw, k0, first, gaps, raw), old(nullCells)),
          old(toggleMap), order)
    {
      k := Generation(draw, k0, first, gaps, raw);
      ghost var next := popB[..];
      SwapBuffers(order);
      if old(clearAllNulls) {
        ClearedColors(width, next, old(nullCells), alleles);
      } else {
        DrainColors(width, height, Grid(next, old(nullCells)), old(toggleMap), order, alleles);
      }
    }
  }
}
