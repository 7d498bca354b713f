/**
 * apply_toggles as a value: how the queued requests change the live buffer and
 * the set of user-created null cells.
 *
 * A request to make a cell null inserts its coordinate into the set and toggles
 * the cell on. A request to clear a cell removes its own coordinate if the set
 * holds it; otherwise it removes the first of the eight erase_area_ neighbours
 * the set holds, so a slightly inaccurate stroke still erases an obstacle. The
 * "clear all" mode toggles every recorded null cell off instead.
 */
module Drain {
  import opened Bits
  import opened Cells

  /** The live buffer together with the set of null cells created through the queue. */
  datatype Grid = Grid(cells: seq<Cell>, nulls: set<Coord>)

  /** A buffer of the grid's size whose recorded null cells all lie on the grid. */
  predicate ValidGrid(width: int, height: int, g: Grid)
  {
    width > 0 && height > 0 && |g.cells| == width * height
    && forall q :: q in g.nulls ==> InBounds(width, height, q)
  }

  /** The first erase_area_ offset, from the j-th on, whose neighbour of p is in `nulls`; 8 if none. */
  function FirstNullFrom(nulls: set<Coord>, p: Coord, j: nat): (i: nat)
    requires j <= 8
    ensures j <= i <= 8
    ensures i < 8 ==> Offset(p, ERASE_AREA[i]) in nulls
    ensures forall k :: j <= k < i ==> Offset(p, ERASE_AREA[k]) !in nulls
    decreases 8 - j
  {
    if j == 8 then 8
    else if Offset(p, ERASE_AREA[j]) in nulls then j
    else FirstNullFrom(nulls, p, j + 1)
  }

  /** The first erase_area_ neighbour of p held by `nulls`, as an offset index; 8 if none. */
  function FirstNull(nulls: set<Coord>, p: Coord): (i: nat)
    ensures i <= 8
    ensures i < 8 ==> Offset(p, ERASE_AREA[i]) in nulls
    ensures forall k :: 0 <= k < i ==> Offset(p, ERASE_AREA[k]) !in nulls
  {
    FirstNullFrom(nulls, p, 0)
  }

  /** What one queued request does to the set of null cells. */
  datatype Effect = Insert(p: Coord) | Remove(p: Coord) | NoEffect

  /** The effect of the request `on` for `key`, given the current set of null cells. */
  function StepEffect(nulls: set<Coord>, key: Coord, on: bool): (e: Effect)
    ensures on <==> e.Insert?
    ensures e.Insert? ==> e.p == key
    ensures e.Remove? ==> e.p in nulls
    ensures !on && key in nulls ==> e == Remove(key)
    ensures !on && key !in nulls && e.Remove? ==>
      var i := FirstNull(nulls, key); i < 8 && e.p == Offset(key, ERASE_AREA[i])
    ensures !on && key !in nulls ==>
      (e.NoEffect? <==> forall k :: 0 <= k < 8 ==> Offset(key, ERASE_AREA[k]) !in nulls)
  {
    if on then Insert(key)
    else if key in nulls then Remove(key)
    else
      var i := FirstNull(nulls, key);
      if i < 8 then Remove(Offset(key, ERASE_AREA[i])) else NoEffect
  }

  /** Carries out an effect: toggles the one affected cell and updates the set. */
  function Apply(width: int, height: int, g: Grid, e: Effect): (r: Grid)
    requires ValidGrid(width, height, g)
    requires e.Insert? ==> InBounds(width, height, e.p)
    requires e.Remove? ==> e.p in g.nulls
    ensures ValidGrid(width, height, r)
  {
    match e
    case NoEffect => g
    case Insert(p) =>
      IndexInRange(width, height, p);
      var i := Index(width, p);
      Grid(g.cells[i := ToggleOn(g.cells[i])], g.nulls + {p})
    case Remove(p) =>
      IndexInRange(width, height, p);
      var i := Index(width, p);
      Grid(g.cells[i := ToggleOff(g.cells[i])], g.nulls - {p})
  }

  /** One iteration of the drain loop of apply_toggles. */
  function DrainStep(width: int, height: int, g: Grid, key: Coord, on: bool): (r: Grid)
    requires ValidGrid(width, height, g) && InBounds(width, height, key)
    ensures ValidGrid(width, height, r)
  {
    Apply(width, height, g, StepEffect(g.nulls, key, on))
  }

  /** The drain loop over the queued keys, taken in the order `order`. */
  function Drain(width: int, height: int, g: Grid, queue: map<Coord, bool>, order: seq<Coord>): (r: Grid)
    requires ValidGrid(width, height, g)
    requires forall k :: k in order ==> k in queue && InBounds(width, height, k)
    ensures ValidGrid(width, height, r)
    decreases |order|
  {
    if |order| == 0 then g
    else
      var last := order[|order| - 1];
      DrainStep(width, height, Drain(width, height, g, queue, order[..|order| - 1]), last, queue[last])
  }

  /**
   * A request changes at most one cell, at an in-bounds position: the cell of its
   * key toggled on for a request to make it null, the cell of the coordinate it
   * removes toggled off otherwise. Every other position keeps its cell.
   */
  lemma StepChangesOneCell(width: int, height: int, g: Grid, key: Coord, on: bool)
    requires ValidGrid(width, height, g) && InBounds(width, height, key)
    ensures var e, r := StepEffect(g.nulls, key, on), DrainStep(width, height, g, key, on);
      && (!e.NoEffect? ==> 0 <= Index(width, e.p) < |g.cells|)
      && forall i :: 0 <= i < |g.cells| ==>
           r.cells[i] == (if e.Insert? && i == Index(width, key) then ToggleOn(g.cells[i])
                          else if e.Remove? && i == Index(width, e.p) then ToggleOff(g.cells[i])
                          else g.cells[i])
  {
    var e := StepEffect(g.nulls, key, on);
    match e
    case NoEffect =>
    case Insert(p) =>
      IndexInRange(width, height, p);
    case Remove(p) =>
      IndexInRange(width, height, p);
  }

  /**
   * The set of null cells after one request: a request to make a cell null adds
   * exactly its key; a request to clear one removes at most one coordinate and
   * adds none.
   */
  lemma StepNulls(width: int, height: int, g: Grid, key: Coord, on: bool)
    requires ValidGrid(width, height, g) && InBounds(width, height, key)
    ensures var r := DrainStep(width, height, g, key, on);
      && (on ==> r.nulls == g.nulls + {key})
      && (!on ==> r.nulls <= g.nulls && |g.nulls - r.nulls| <= 1)
      && (!on && key in g.nulls ==> r.nulls == g.nulls - {key})
  {
    var e := StepEffect(g.nulls, key, on);
    if e.Remove? {
      assert g.nulls - (g.nulls - {e.p}) == {e.p};
    } else if !on {
      assert g.nulls - g.nulls == {};
    }
  }

  /** After a drain the set holds only coordinates it held before or that some request made null. */
  lemma {:induction false} DrainNullsFrom(width: int, height: int, g: Grid, queue: map<Coord, bool>, order: seq<Coord>)
    requires ValidGrid(width, height, g)
    requires forall k :: k in order ==> k in queue && InBounds(width, height, k)
    ensures Drain(width, height, g, queue, order).nulls <= g.nulls + (set k | k in order && queue[k])
    decreases |order|
  {
    if |order| > 0 {
      var pre, last := order[..|order| - 1], order[|order| - 1];
      DrainNullsFrom(width, height, g, queue, pre);
      var before := Drain(width, height, g, queue, pre);
      StepNulls(width, height, before, last, queue[last]);
      assert forall k :: k in pre ==> k in order;
    }
  }

  /** The "clear all" branch: every recorded null cell is toggled off, every other cell kept. */
  function Cleared(width: int, cells: seq<Cell>, nulls: set<Coord>): (r: seq<Cell>)
    requires width > 0
    ensures |r| == |cells|
  {
    seq(|cells|, i requires 0 <= i < |cells| => if CoordAt(width, i) in nulls then ToggleOff(cells[i]) else cells[i])
  }

  /** Each recorded null cell of a valid grid ends toggled off by the "clear all" branch. */
  lemma ClearedTogglesOff(width: int, height: int, g: Grid, p: Coord)
    requires ValidGrid(width, height, g) && p in g.nulls
    ensures 0 <= Index(width, p) < |g.cells|
    ensures Cleared(width, g.cells, g.nulls)[Index(width, p)] == ToggleOff(g.cells[Index(width, p)])
  {
    IndexInRange(width, height, p);
    CoordAtOfIndex(width, height, p);
  }

  /** A cell the set does not record keeps its value under the "clear all" branch. */
  lemma ClearedKeeps(width: int, height: int, g: Grid, p: Coord)
    requires ValidGrid(width, height, g) && InBounds(width, height, p) && p !in g.nulls
    ensures 0 <= Index(width, p) < |g.cells|
    ensures Cleared(width, g.cells, g.nulls)[Index(width, p)] == g.cells[Index(width, p)]
  {
    IndexInRange(width, height, p);
    CoordAtOfIndex(width, height, p);
  }

  /**
   * The "clear all" branch one recorded coordinate at a time: clearing p on top
   * of the coordinates done so far toggles exactly p's cell off.
   */
  lemma ClearedAdd(width: int, height: int, cells: seq<Cell>, done: set<Coord>, p: Coord)
    requires width > 0 && height > 0 && |cells| == width * height
    requires InBounds(width, height, p) && p !in done
    ensures 0 <= Index(width, p) < |cells|
    ensures Cleared(width, cells, done + {p})
         == Cleared(width, cells, done)[Index(width, p) := ToggleOff(cells[Index(width, p)])]
  {
    IndexInRange(width, height, p);
    CoordAtOfIndex(width, height, p);
    var lhs, rhs := Cleared(width, cells, done + {p}), Cleared(width, cells, done)[Index(width, p) := ToggleOff(cells[Index(width, p)])];
    forall i | 0 <= i < |cells|
      ensures lhs[i] == rhs[i]
    {
      if i != Index(width, p) {
        CoordAtIndex(width, height, i);
      }
    }
  }

  /** Clearing nothing leaves the buffer as it is. */
  lemma ClearedNone(width: int, cells: seq<Cell>)
    requires width > 0
    ensures Cleared(width, cells, {}) == cells
  {
  }

  /** Neither branch of apply_toggles gives a cell a colour outside the allele range. */
  lemma ClearedColors(width: int, cells: seq<Cell>, nulls: set<Coord>, n: nat)
    requires width > 0 && n > 0 && ColorsBelow(cells, n)
    ensures ColorsBelow(Cleared(width, cells, nulls), n)
  {
  }

  lemma {:induction false} DrainColors(width: int, height: int, g: Grid, queue: map<Coord, bool>, order: seq<Coord>, n: nat)
    requires ValidGrid(width, height, g) && n > 0 && ColorsBelow(g.cells, n)
    requires forall k :: k in order ==> k in queue && InBounds(width, height, k)
    ensures ColorsBelow(Drain(width, height, g, queue, order).cells, n)
    decreases |order|
  {
    if |order| > 0 {
      var pre, last := order[..|order| - 1], order[|order| - 1];
      assert forall k :: k in pre ==> k in order;
      DrainColors(width, height, g, queue, pre, n);
      StepChangesOneCell(width, height, Drain(width, height, g, queue, pre), last, queue[last]);
    }
  }
}
