/**
 The lattice positions of a 3×3×3 cube, as `CUBE_POSITIONS` computes them once
 at module start: three nested counting loops, x outermost and z innermost,
 each running from -1 to 1 and pushing `[x, y, z]` onto an array.

 The reference definition is the closed form of that order: the cell
 (x, y, z) sits at index 9*(x+1) + 3*(y+1) + (z+1).
 */
module CubePositions {

  /** One lattice position, the `[x, y, z]` triple the generator pushes. */
  type Cell = (int, int, int)

  /** Number of cells in the cube: three values on each of three axes. */
  const CellCount: nat := 27

  /** The range every loop counter runs over while its body executes. */
  predicate InAxis(v: int) {
    -1 <= v <= 1
  }

  predicate InCube(c: Cell) {
    InAxis(c.0) && InAxis(c.1) && InAxis(c.2)
  }

  /** Index of (x, y, z) in the x-outer, y-middle, z-inner enumeration. Also
      meaningful for a loop counter that has just passed its bound (value 2):
      it then counts the cells pushed before the loop resumed. */
  function Rank(x: int, y: int, z: int): int {
    9 * (x + 1) + 3 * (y + 1) + (z + 1)
  }

  function IndexOf(c: Cell): (i: nat)
    requires InCube(c)
    ensures i < CellCount
  {
    Rank(c.0, c.1, c.2)
  }

  /** The cell at a given index: the index read as three base-3 digits,
      most significant first, each shifted down by one. */
  function CellAt(i: nat): (c: Cell)
    requires i < CellCount
    ensures InCube(c)
  {
    var a := if i < 9 then 0 else if i < 18 then 1 else 2;
    var r := i - 9 * a;
    var b := if r < 3 then 0 else if r < 6 then 1 else 2;
    (a - 1, b - 1, r - 3 * b - 1)
  }

  lemma CellAtIndexOf(c: Cell)
    requires InCube(c)
    ensures CellAt(IndexOf(c)) == c
  {
  }

  lemma IndexOfCellAt(i: nat)
    requires i < CellCount
    ensures IndexOf(CellAt(i)) == i
  {
  }

  /** The reference enumeration: index i holds the cell whose rank is i. */
  function Enumeration(): (s: seq<Cell>)
    ensures |s| == CellCount
    ensures forall i :: 0 <= i < |s| ==> InCube(s[i]) && IndexOf(s[i]) == i
  {
    var s := seq(CellCount, i requires 0 <= i < CellCount => CellAt(i));
    assert forall i :: 0 <= i < |s| ==> IndexOf(s[i]) == i by {
      forall i | 0 <= i < |s| {
        IndexOfCellAt(i);
      }
    }
    s
  }

  /** `CUBE_POSITIONS`: the triple-nested loop, appending one cell per
      innermost iteration. It takes no input, so every run yields the same
      sequence, the reference enumeration. */
  method Generate() returns (positions: seq<Cell>)
    ensures positions == Enumeration()
  {
    positions := [];
    var x := -1;
    while x <= 1
      invariant -1 <= x <= 2
      invariant |positions| == Rank(x, -1, -1)
      invariant positions == Enumeration()[..|positions|]
    {
      var y := -1;
      while y <= 1
        invariant -1 <= y <= 2
        invariant |positions| == Rank(x, y, -1)
        invariant positions == Enumeration()[..|positions|]
      {
        var z := -1;
        while z <= 1
          invariant -1 <= z <= 2
          invariant |positions| == Rank(x, y, z)
          invariant positions == Enumeration()[..|positions|]
        {
          CellAtIndexOf((x, y, z));
          assert Enumeration()[..|positions| + 1] == positions + [(x, y, z)];
          positions := positions + [(x, y, z)];
          z := z + 1;
        }
        y := y + 1;
      }
      x := x + 1;
    }
  }

  /** Exactly the cells of the cube occur in the enumeration, each at its rank. */
  lemma Coverage(c: Cell)
    ensures c in Enumeration() <==> InCube(c)
    ensures InCube(c) ==> Enumeration()[IndexOf(c)] == c
  {
    if InCube(c) {
      CellAtIndexOf(c);
      assert Enumeration()[IndexOf(c)] == c;
    }
  }

  /** No cell occurs twice. */
  lemma Distinct()
    ensures forall i, j :: 0 <= i < |Enumeration()| && 0 <= j < |Enumeration()| && i != j ==>
      Enumeration()[i] != Enumeration()[j]
  {
  }

  /** Strict lexicographic order on triples: x first, then y, then z. */
  predicate LexLess(a: Cell, b: Cell) {
    a.0 < b.0 || (a.0 == b.0 && (a.1 < b.1 || (a.1 == b.1 && a.2 < b.2)))
  }

  /** Within the cube, lexicographic order is rank order. */
  lemma LexLessIsRankOrder(a: Cell, b: Cell)
    requires InCube(a) && InCube(b)
    ensures LexLess(a, b) <==> IndexOf(a) < IndexOf(b)
  {
  }

  /** x varies slowest and z fastest: the enumeration strictly increases. */
  lemma StrictlyIncreasing()
    ensures forall i, j :: 0 <= i < j < |Enumeration()| ==> LexLess(Enumeration()[i], Enumeration()[j])
  {
    var s := Enumeration();
    forall i, j | 0 <= i < j < |s|
      ensures LexLess(s[i], s[j])
    {
      LexLessIsRankOrder(s[i], s[j]);
    }
  }

  /** First, centre and last cells. */
  lemma Landmarks()
    ensures Enumeration()[0] == (-1, -1, -1)
    ensures Enumeration()[13] == (0, 0, 0)
    ensures Enumeration()[26] == (1, 1, 1)
  {
  }
}
