/** The mine field: its grid of cells, its dimensions and mine count, the
    read-only queries, and the invariant every operation keeps. */
module Fields {
  import opened Optional
  import opened Cells
  import opened Geometry

  /** The grid is indexed [row][column], that is [y][x]. */
  datatype Field = Field(cells: seq<seq<Cell>>, width: nat, height: nat, minesCount: nat)

  /** What a state-changing operation hands back: the new field and the
      classification it reports, None when the cell does not exist. */
  datatype MoveResult = MoveResult(field: Field, state: Option<CellType>)

  /** The grid has exactly height rows of width cells. */
  predicate WellFormed(f: Field) {
    && |f.cells| == f.height
    && forall y :: 0 <= y < |f.cells| ==> |f.cells[y]| == f.width
  }

  predicate InRange(f: Field, p: Pos) {
    InBounds(f.width, f.height, p)
  }

  function At(f: Field, p: Pos): Cell
    requires WellFormed(f) && InRange(f, p)
  {
    f.cells[p.y][p.x]
  }

  /** Replace the cell at p; every other cell keeps its value. */
  function Update(f: Field, p: Pos, c: Cell): (r: Field)
    requires WellFormed(f) && InRange(f, p)
    ensures WellFormed(r)
    ensures r.width == f.width && r.height == f.height && r.minesCount == f.minesCount
    ensures At(r, p) == c
    ensures forall q :: InRange(f, q) && q != p ==> At(r, q) == At(f, q)
  {
    f.(cells := f.cells[p.y := f.cells[p.y][p.x := c]])
  }

  predicate SameShape(f: Field, r: Field) {
    r.width == f.width && r.height == f.height && r.minesCount == f.minesCount
  }

  /** Every position of the field. */
  function Board(f: Field): (b: set<Pos>)
    ensures forall q :: q in b <==> InRange(f, q)
  {
    var b := set x: nat, y: nat | x < f.width && y < f.height :: Pos(x, y);
    assert forall q :: InRange(f, q) ==> Pos(q.x, q.y) in b;
    b
  }

  /** The positions that hold a mine. */
  ghost function MineSet(f: Field): set<Pos>
    requires WellFormed(f)
  {
    set q | q in Board(f) && At(f, q).isMine
  }

  /** The brute-force reference for a neighbour count: every in-range
      position adjacent to p that holds a mine. */
  ghost function AdjacentMineSet(f: Field, p: Pos): set<Pos>
    requires WellFormed(f)
  {
    set q | q in Board(f) && Adjacent(p, q) && At(f, q).isMine
  }

  /** The number of mines among the listed positions, summed in order. */
  function MinesAmong(f: Field, s: seq<Pos>): (n: nat)
    requires WellFormed(f)
    requires forall q :: q in s ==> InRange(f, q)
    ensures n <= |s|
  {
    if |s| == 0 then 0
    else MinesAmong(f, s[..|s| - 1]) + (if At(f, s[|s| - 1]).isMine then 1 else 0)
  }

  /** The neighbour count the field stores: one for every mine among the
      in-range neighbours, each direction checked by its own edge test. */
  function MinesAround(f: Field, p: Pos): nat
    requires WellFormed(f) && InRange(f, p)
  {
    NeighboursExact(f.width, f.height, p);
    MinesAmong(f, Neighbours(f.width, f.height, p))
  }

  lemma {:induction false} MinesAmongDistinct(f: Field, s: seq<Pos>)
    requires WellFormed(f)
    requires forall q :: q in s ==> InRange(f, q)
    requires Distinct(s)
    ensures MinesAmong(f, s) == |set q | q in s && InRange(f, q) && At(f, q).isMine|
  {
    if |s| > 0 {
      var t, e := s[..|s| - 1], s[|s| - 1];
      assert s == t + [e];
      assert Distinct(t);
      MinesAmongDistinct(f, t);
      MinesAppend(f, t, e);
    }
  }

  /** Appending a position not listed yet adds one to the mine set exactly
      when that position holds a mine. */
  lemma MinesAppend(f: Field, t: seq<Pos>, e: Pos)
    requires WellFormed(f) && InRange(f, e)
    requires forall q :: q in t ==> InRange(f, q)
    requires e !in t
    ensures |set q | q in t + [e] && InRange(f, q) && At(f, q).isMine| ==
            |set q | q in t && InRange(f, q) && At(f, q).isMine| + (if At(f, e).isMine then 1 else 0)
  {
    var before := set q | q in t && InRange(f, q) && At(f, q).isMine;
    var after := set q | q in t + [e] && InRange(f, q) && At(f, q).isMine;
    assert e !in before;
    if At(f, e).isMine {
      assert after == before + {e};
    } else {
      assert after == before;
    }
  }

  /** No adjacent mine exactly when the brute-force set is empty. */
  lemma AdjacentMineSetEmpty(f: Field, p: Pos)
    requires WellFormed(f)
    ensures |AdjacentMineSet(f, p)| == 0 <==>
              forall q :: InRange(f, q) && Adjacent(p, q) ==> !At(f, q).isMine
  {
    if |AdjacentMineSet(f, p)| != 0 {
      var q :| q in AdjacentMineSet(f, p);
      assert InRange(f, q) && Adjacent(p, q) && At(f, q).isMine;
    } else {
      var s := AdjacentMineSet(f, p);
      forall q | InRange(f, q) && Adjacent(p, q)
        ensures !At(f, q).isMine
      {
        assert At(f, q).isMine ==> q in s;
      }
    }
  }

  /** The stored count agrees with the brute-force count over the whole
      board; hence it is at most 8, and it is 0 exactly when no in-range
      neighbour is a mine. */
  lemma MinesAroundIsBruteForce(f: Field, p: Pos)
    requires WellFormed(f) && InRange(f, p)
    ensures MinesAround(f, p) == |AdjacentMineSet(f, p)|
    ensures MinesAround(f, p) <= 8
    ensures MinesAround(f, p) == 0 <==>
              forall q :: InRange(f, q) && Adjacent(p, q) ==> !At(f, q).isMine
  {
    var ns := Neighbours(f.width, f.height, p);
    NeighboursExact(f.width, f.height, p);
    NeighboursDistinct(f.width, f.height, p);
    MinesAmongDistinct(f, ns);
    assert (set q | q in ns && InRange(f, q) && At(f, q).isMine) == AdjacentMineSet(f, p);
    AdjacentMineSetEmpty(f, p);
  }

  // ---------------------------------------------------------------- invariant

  /** The parameters after clamping: both sides at least 10, and between 2
      mines and all cells but two. */
  predicate Configured(f: Field) {
    && WellFormed(f)
    && f.width >= 10 && f.height >= 10
    && 2 <= f.minesCount <= f.width * f.height - 2
  }

  /** Every cell records its own coordinates. */
  ghost predicate PositionsAgree(f: Field)
    requires WellFormed(f)
  {
    forall p :: InRange(f, p) ==> At(f, p).x == p.x && At(f, p).y == p.y
  }

  ghost predicate LabelsConsistent(f: Field)
    requires WellFormed(f)
  {
    forall p :: InRange(f, p) ==> Consistent(At(f, p))
  }

  /** Every stored neighbour count equals the brute-force count. */
  ghost predicate CountsCorrect(f: Field)
    requires WellFormed(f)
  {
    forall p :: InRange(f, p) ==> At(f, p).minesAround == |AdjacentMineSet(f, p)|
  }

  /** The field holds exactly as many mines as it reports. */
  ghost predicate MinesExact(f: Field)
    requires WellFormed(f)
  {
    |MineSet(f)| == f.minesCount
  }

  ghost predicate Valid(f: Field) {
    && Configured(f)
    && PositionsAgree(f)
    && LabelsConsistent(f)
    && CountsCorrect(f)
    && MinesExact(f)
  }

  /** Two grids of the same dimensions with a mine at the same places. */
  ghost predicate SameMines(f: Field, r: Field) {
    && WellFormed(f) && WellFormed(r)
    && r.width == f.width && r.height == f.height
    && forall p :: InRange(f, p) ==> At(r, p).isMine == At(f, p).isMine
  }

  /** The mine set and every brute-force neighbour count depend on the mine
      layout alone. */
  lemma SameMinesSameSets(f: Field, r: Field)
    requires SameMines(f, r)
    ensures MineSet(r) == MineSet(f)
    ensures forall p :: AdjacentMineSet(r, p) == AdjacentMineSet(f, p)
  {
    assert Board(r) == Board(f);
    forall p
      ensures AdjacentMineSet(r, p) == AdjacentMineSet(f, p)
    {
    }
  }

  /** Two fields of the same shape whose cells differ at most in their
      opened and label bits. */
  ghost predicate SameTerrain(f: Field, r: Field) {
    && WellFormed(f) && WellFormed(r) && SameShape(f, r)
    && forall p :: InRange(f, p) ==>
         && At(r, p).isMine == At(f, p).isMine
         && At(r, p).minesAround == At(f, p).minesAround
         && At(r, p).x == At(f, p).x && At(r, p).y == At(f, p).y
  }

  /** Changing only opened and label bits keeps the mine layout, the counts
      and the coordinates, so every part of the invariant but the labels
      carries over. */
  lemma SameTerrainKeepsInvariant(f: Field, r: Field)
    requires SameTerrain(f, r)
    ensures MineSet(r) == MineSet(f)
    ensures forall p :: AdjacentMineSet(r, p) == AdjacentMineSet(f, p)
    ensures Valid(f) && LabelsConsistent(r) ==> Valid(r)
  {
    SameMinesSameSets(f, r);
  }

  // ------------------------------------------------------------------ queries

  /** A copy of the cell at (x, y), or None when there is no such cell. In a
      valid field the copy carries the coordinates it was asked for. */
  function GetCell(f: Field, x: nat, y: nat): (r: Option<Cell>)
    requires WellFormed(f)
    ensures r.None? <==> x >= f.width || y >= f.height
    ensures r.Some? ==> r.value == At(f, Pos(x, y))
    ensures r.Some? && Valid(f) ==> r.value.x == x && r.value.y == y && Consistent(r.value)
  {
    if x >= f.width || y >= f.height then None else Some(f.cells[y][x])
  }

  /** The dimensions, as clamped: in a valid field both are at least 10.
      They bound exactly the coordinates get_cell answers for. */
  function GetFieldSize(f: Field): (r: (nat, nat))
    ensures WellFormed(f) ==> forall x: nat, y: nat :: GetCell(f, x, y).Some? <==> x < r.0 && y < r.1
    ensures Configured(f) ==> r.0 >= 10 && r.1 >= 10
    ensures Configured(f) ==> r.0 * r.1 >= f.minesCount + 2
  {
    (f.width, f.height)
  }

  /** The mine count, as clamped: in a valid field it is the number of cells
      that hold a mine. */
  function GetMinesCount(f: Field): (r: nat)
    ensures Configured(f) ==> 2 <= r <= f.width * f.height - 2
    ensures Valid(f) ==> r == |MineSet(f)|
  {
    f.minesCount
  }
}
