/**
 * The mutation pass of one generation (the second half of Worker::do_work),
 * on integers only.
 *
 * Mutation targets are visited at positions spaced by floored exponential
 * draws; those gaps are supplied as a finite sequence. At a fertile target one
 * raw 64-bit draw is taken from the generator (supplied as `raw(j)` for the
 * j-th mutation): its top seven bits select a fitness multiplier from a fixed
 * 128-entry table, and its low 57 bits choose the new colour, from the pool of
 * colours nobody holds when that pool is not empty, and otherwise by adding
 * `r % (alleles - 1)` to the parent's colour modulo `alleles`.
 */
module Mutation {
  import opened Bits
  import opened Cells

  /** The fitness multipliers: large gains first, a few losses, then 106 neutral entries. */
  const MUTATION: seq<real> := [
    2.0, 1.5, 1.2, 1.2, 1.2, 1.1, 1.1, 1.1, 1.1, 1.1, 1.1, 0.999, 0.999, 0.99, 0.99, 0.99,
    0.95, 0.95, 0.95, 0.9, 0.9, 0.9, 1.0, 1.0, 1.0, 1.0, 1.0, 1.0, 1.0, 1.0, 1.0, 1.0,
    1.0, 1.0, 1.0, 1.0, 1.0, 1.0, 1.0, 1.0, 1.0, 1.0, 1.0, 1.0, 1.0, 1.0, 1.0, 1.0,
    1.0, 1.0, 1.0, 1.0, 1.0, 1.0, 1.0, 1.0, 1.0, 1.0, 1.0, 1.0, 1.0, 1.0, 1.0, 1.0,
    1.0, 1.0, 1.0, 1.0, 1.0, 1.0, 1.0, 1.0, 1.0, 1.0, 1.0, 1.0, 1.0, 1.0, 1.0, 1.0,
    1.0, 1.0, 1.0, 1.0, 1.0, 1.0, 1.0, 1.0, 1.0, 1.0, 1.0, 1.0, 1.0, 1.0, 1.0, 1.0,
    1.0, 1.0, 1.0, 1.0, 1.0, 1.0, 1.0, 1.0, 1.0, 1.0, 1.0, 1.0, 1.0, 1.0, 1.0, 1.0,
    1.0, 1.0, 1.0, 1.0, 1.0, 1.0, 1.0, 1.0, 1.0, 1.0, 1.0, 1.0, 1.0, 1.0, 1.0, 1.0
  ]

  /** Mask keeping the low 57 bits of a draw, the ones left after the table index is taken. */
  const LOW57: bv64 := 0x01FF_FFFF_FFFF_FFFF

  /** The index into the table: the top seven bits of a draw, always a valid index. */
  function MutationIndex(r: bv64): (i: nat)
    ensures i < 128 && i < |MUTATION|
  {
    var top := r >> 57;
    assert top <= 127;
    top as nat
  }

  /** The bits of a draw that choose the colour. */
  function ColorBits(r: bv64): nat
  {
    (r & LOW57) as nat
  }

  // ---------------------------------------------------------------------
  // The pool of empty colours
  // ---------------------------------------------------------------------

  /** The colours below n whose count is zero, in ascending order. */
  function EmptyColorsBelow(counts: seq<nat>, n: nat): seq<nat>
    requires n <= |counts|
  {
    if n == 0 then []
    else EmptyColorsBelow(counts, n - 1) + (if counts[n - 1] == 0 then [n - 1] else [])
  }

  /** The pool get built before the first mutation: the allele colours nobody holds. */
  function EmptyColors(counts: seq<nat>, alleles: nat): seq<nat>
    requires alleles <= |counts|
  {
    EmptyColorsBelow(counts, alleles)
  }

  /** Strictly ascending, hence without repetition. */
  predicate Ascending(s: seq<nat>)
  {
    forall i, j :: 0 <= i < j < |s| ==> s[i] < s[j]
  }

  /** The pool lists exactly the zero-count colours below n, each once, in ascending order. */
  lemma {:induction false} EmptyColorsBelowSpec(counts: seq<nat>, n: nat)
    requires n <= |counts|
    ensures var pool := EmptyColorsBelow(counts, n);
      && Ascending(pool)
      && (forall i :: 0 <= i < |pool| ==> pool[i] < n)
      && (forall c: nat :: c in pool <==> c < n && counts[c] == 0)
    decreases n
  {
    if n > 0 {
      EmptyColorsBelowSpec(counts, n - 1);
    }
  }

  /** Collects the pool by scanning the allele colours in order. */
  method CollectEmptyColors(counts: seq<nat>, alleles: nat) returns (pool: seq<nat>)
    requires alleles <= |counts|
    ensures pool == EmptyColors(counts, alleles)
    ensures Ascending(pool) && forall c: nat :: c in pool <==> c < alleles && counts[c] == 0
  {
    pool := [];
    var color := 0;
    while color < alleles
      invariant 0 <= color <= alleles
      invariant pool == EmptyColorsBelow(counts, color)
    {
      if counts[color] == 0 {
        pool := pool + [color];
      }
      color := color + 1;
    }
    EmptyColorsBelowSpec(counts, alleles);
  }

  /** The pool with its i-th entry erased. */
  function RemoveAt(pool: seq<nat>, i: nat): (r: seq<nat>)
    requires i < |pool|
    ensures |r| == |pool| - 1
  {
    pool[..i] + pool[i + 1..]
  }

  /** Erasing from an ascending pool keeps it ascending and drops exactly the erased colour. */
  lemma RemoveAtSpec(pool: seq<nat>, i: nat)
    requires i < |pool| && Ascending(pool)
    ensures var r := RemoveAt(pool, i);
      && Ascending(r)
      && (forall c :: c in r <==> c in pool && c != pool[i])
  {
    var r := RemoveAt(pool, i);
    assert forall k :: 0 <= k < |r| ==> r[k] == (if k < i then pool[k] else pool[k + 1]);
    forall c | c in pool && c != pool[i]
      ensures c in r
    {
      var k :| 0 <= k < |pool| && pool[k] == c;
      if k < i {
        assert r[k] == c;
      } else {
        assert r[k - 1] == c;
      }
    }
  }

  // ---------------------------------------------------------------------
  // The colour of a mutant
  // ---------------------------------------------------------------------

  /**
   * The colour given to a mutant of colour `parent`: an entry of the pool chosen
   * by `bits`, or, with an empty pool, the parent's colour shifted by
   * bits % (alleles - 1) modulo alleles.
   */
  function MutantColor(parent: nat, bits: nat, alleles: nat, pool: seq<nat>): (c: nat)
    requires alleles >= 2
    ensures |pool| == 0 ==> c < alleles
    ensures |pool| > 0 ==> c in pool
  {
    if |pool| == 0 then (parent + bits % (alleles - 1)) % alleles else pool[bits % |pool|]
  }

  /**
   * With an empty pool the mutant keeps its parent's colour exactly when
   * bits % (alleles - 1) is 0, so the shift does not always change the colour.
   */
  lemma MutantColorKeepsParent(parent: nat, bits: nat, alleles: nat)
    requires alleles >= 2 && parent < alleles
    ensures MutantColor(parent, bits, alleles, []) == parent <==> bits % (alleles - 1) == 0
  {
    var m := bits % (alleles - 1);
    if parent + m < alleles {
      assert (parent + m) % alleles == parent + m;
    } else {
      DivUnique(parent + m, alleles, 1);
      assert (parent + m) % alleles == parent + m - alleles;
    }
  }

  /**
   * Illustration only, the general fact being MutantColorKeepsParent: with 5
   * alleles, parent colour 3 and colour bits 8 the "mutant" keeps colour 3.
   */
  lemma MutantColorSameExample()
    ensures MutantColor(3, 8, 5, []) == 3
  {
    MutantColorKeepsParent(3, 8, 5);
  }

  // ---------------------------------------------------------------------
  // The mutation loop
  // ---------------------------------------------------------------------

  /** A cell after mutation with the draw r and the chosen colour. */
  function Mutant(c: Cell, r: bv64, color: nat): (m: Cell)
    ensures m.isNull == c.isNull && m.fertile == c.fertile && m.color == color
  {
    c.(fitness := c.fitness * MUTATION[MutationIndex(r)], color := color)
  }

  /**
   * The buffer after the mutation loop reaches position pos with the gaps still
   * to be drawn, j mutations already done and the given pool. A target is
   * mutated only if fertile; the next target is pos plus the next gap; a pool
   * colour is erased only when another target follows on the grid.
   */
  function Mutations(cells: seq<Cell>, pos: nat, gaps: seq<nat>, raw: nat -> bv64, j: nat, pool: seq<nat>, alleles: nat): (r: seq<Cell>)
    requires alleles >= 2
    ensures |r| == |cells|
    decreases |gaps|
  {
    if pos >= |cells| || |gaps| == 0 then cells
    else
      var next := pos + gaps[0];
      if !cells[pos].fertile then Mutations(cells, next, gaps[1..], raw, j, pool, alleles)
      else
        var r := raw(j);
        var bits := ColorBits(r);
        var color := MutantColor(cells[pos].color, bits, alleles, pool);
        var rest := if |pool| > 0 && next < |cells| then RemoveAt(pool, bits % |pool|) else pool;
        Mutations(cells[pos := Mutant(cells[pos], r, color)], next, gaps[1..], raw, j + 1, rest, alleles)
  }

  /** The positions the loop visits from pos on: pos itself, then those from pos plus the next gap. */
  function Targets(n: nat, pos: nat, gaps: seq<nat>): set<nat>
    decreases |gaps|
  {
    if pos >= n || |gaps| == 0 then {} else {pos} + Targets(n, pos + gaps[0], gaps[1..])
  }

  /**
   * The mutation loop changes only the colour and fitness of fertile cells at the
   * positions it visits: every other cell, every flag and the null state stay.
   */
  lemma {:induction false} MutationsFrame(cells: seq<Cell>, pos: nat, gaps: seq<nat>, raw: nat -> bv64, j: nat, pool: seq<nat>, alleles: nat)
    requires alleles >= 2
    ensures var r := Mutations(cells, pos, gaps, raw, j, pool, alleles);
      forall i :: 0 <= i < |cells| ==>
        && r[i].isNull == cells[i].isNull && r[i].fertile == cells[i].fertile
        && (!cells[i].fertile || i !in Targets(|cells|, pos, gaps) ==> r[i] == cells[i])
    decreases |gaps|
  {
    if pos < |cells| && |gaps| > 0 {
      var next := pos + gaps[0];
      if !cells[pos].fertile {
        MutationsFrame(cells, next, gaps[1..], raw, j, pool, alleles);
      } else {
        var r := raw(j);
        var bits := ColorBits(r);
        var color := MutantColor(cells[pos].color, bits, alleles, pool);
        var rest := if |pool| > 0 && next < |cells| then RemoveAt(pool, bits % |pool|) else pool;
        MutationsFrame(cells[pos := Mutant(cells[pos], r, color)], next, gaps[1..], raw, j + 1, rest, alleles);
      }
    }
  }

  /**
   * Every colour stays below the number of alleles, provided the buffer and the
   * pool start that way.
   */
  lemma {:induction false} MutationsColors(cells: seq<Cell>, pos: nat, gaps: seq<nat>, raw: nat -> bv64, j: nat, pool: seq<nat>, alleles: nat)
    requires alleles >= 2
    requires forall i :: 0 <= i < |cells| ==> cells[i].color < alleles
    requires forall i :: 0 <= i < |pool| ==> pool[i] < alleles
    ensures forall i :: 0 <= i < |cells| ==> Mutations(cells, pos, gaps, raw, j, pool, alleles)[i].color < alleles
    decreases |gaps|
  {
    if pos < |cells| && |gaps| > 0 {
      var next := pos + gaps[0];
      if !cells[pos].fertile {
        assert Mutations(cells, pos, gaps, raw, j, pool, alleles) == Mutations(cells, next, gaps[1..], raw, j, pool, alleles);
        MutationsColors(cells, next, gaps[1..], raw, j, pool, alleles);
      } else {
        var r := raw(j);
        var bits := ColorBits(r);
        var color := MutantColor(cells[pos].color, bits, alleles, pool);
        var rest := if |pool| > 0 && next < |cells| then RemoveAt(pool, bits % |pool|) else pool;
        assert forall i :: 0 <= i < |rest| ==> rest[i] in pool;
        var mutated := cells[pos := Mutant(cells[pos], r, color)];
        assert Mutations(cells, pos, gaps, raw, j, pool, alleles) == Mutations(mutated, next, gaps[1..], raw, j + 1, rest, alleles);
        MutationsColors(mutated, next, gaps[1..], raw, j + 1, rest, alleles);
      }
    }
  }

  /** The sum of the gaps. */
  function Sum(gaps: seq<nat>): nat
  {
    if |gaps| == 0 then 0 else Sum(gaps[..|gaps| - 1]) + gaps[|gaps| - 1]
  }

  lemma SumPrefix(gaps: seq<nat>, i: nat)
    requires i < |gaps|
    ensures Sum(gaps[..i + 1]) == Sum(gaps[..i]) + gaps[i]
  {
    assert gaps[..i + 1][..i] == gaps[..i];
  }

  /**
   * The mutation loop of do_work over b, starting at target pos0. The supplied
   * gaps must carry the position past the end of the grid, which the source
   * relies on its exponential draws to do.
   */
  method MutationLoop(b: array<Cell>, pos0: nat, gaps: seq<nat>, raw: nat -> bv64, pool0: seq<nat>, alleles: nat)
    requires alleles >= 2 && pos0 + Sum(gaps) >= b.Length
    modifies b
    ensures b[..] == Mutations(old(b[..]), pos0, gaps, raw, 0, pool0, alleles)
  {
    var pos, i, j, pool := pos0, 0, 0, pool0;
    assert gaps[..0] == [] && gaps[..|gaps|] == gaps;
    while pos < b.Length
      invariant 0 <= i <= |gaps| && pos == pos0 + Sum(gaps[..i])
      invariant Mutations(b[..], pos, gaps[i..], raw, j, pool, alleles) == Mutations(old(b[..]), pos0, gaps, raw, 0, pool0, alleles)
      decreases |gaps| - i
    {
      SumPrefix(gaps, i);
      var opos := pos;
      pos := pos + gaps[i];
      i := i + 1;
      assert gaps[i - 1..][1..] == gaps[i..];
      if !b[opos].fertile {
        continue;
      }
      var r := raw(j);
      j := j + 1;
      var bits := ColorBits(r);
      var color: nat;
      if |pool| == 0 {
        color := (b[opos].color + bits % (alleles - 1)) % alleles;
      } else {
        var col := bits % |pool|;
        color := pool[col];
        if pos < b.Length {
          pool := RemoveAt(pool, col);
        }
      }
      b[opos] := Mutant(b[opos], r, color);
    }
    assert Mutations(b[..], pos, gaps[i..], raw, j, pool, alleles) == b[..];
  }
}
