/** Opening a cell (open_cell) and the recursive flood fill behind it
    (open_cell_with_neighbours), with its termination measure, its frame,
    and the characterisation of the cells it opens. */
module Opening {
  import opened Optional
  import opened Cells
  import opened Geometry
  import opened Fields
  import opened Labels

  /** The positions whose cell is still closed; every call of the flood fill
      that does not return at once removes one of them. */
  ghost function ClosedCells(f: Field): set<Pos>
    requires WellFormed(f)
  {
    set q | q in Board(f) && !At(f, q).isOpened
  }

  lemma OpeningShrinks(f: Field, p: Pos)
    requires WellFormed(f) && InRange(f, p) && !At(f, p).isOpened
    ensures ClosedCells(Update(f, p, Opened(At(f, p)))) == ClosedCells(f) - {p}
    ensures p in ClosedCells(f)
  {
  }

  /** open_cell_with_neighbours(p): an opened cell stops the fill. Otherwise
      the cell is opened with its labels cleared, and when none of its
      neighbours is a mine the fill continues into every in-range neighbour,
      in the order open_cell_with_neighbours uses. */
  function FloodOpen(f: Field, p: Pos): (r: Field)
    requires WellFormed(f) && InRange(f, p)
    ensures WellFormed(r) && SameShape(f, r)
    ensures ClosedCells(r) <= ClosedCells(f)
    decreases ClosedCells(f), 0
  {
    var c := At(f, p);
    if c.isOpened then f
    else
      var g := Update(f, p, Opened(c));
      OpeningShrinks(f, p);
      if c.minesAround == 0 then
        NeighboursExact(f.width, f.height, p);
        FloodList(g, Neighbours(f.width, f.height, p))
      else g
  }

  /** The recursive calls of one level of the fill, one after another. */
  function FloodList(f: Field, ps: seq<Pos>): (r: Field)
    requires WellFormed(f)
    requires forall q :: q in ps ==> InRange(f, q)
    ensures WellFormed(r) && SameShape(f, r)
    ensures ClosedCells(r) <= ClosedCells(f)
    decreases ClosedCells(f), 1, |ps|
  {
    if |ps| == 0 then f
    else FloodList(FloodOpen(f, ps[0]), ps[1..])
  }

  // -------------------------------------------------------------------- frame

  /** r follows f in the fill: same shape, and every cell either unchanged
      or a formerly closed cell that is now opened with its labels cleared.
      So opened cells stay opened and mines, counts and coordinates never
      change. */
  ghost predicate Evolves(f: Field, r: Field) {
    && WellFormed(f) && WellFormed(r) && SameShape(f, r)
    && forall p :: InRange(f, p) ==>
         At(r, p) == At(f, p) || (!At(f, p).isOpened && At(r, p) == Opened(At(f, p)))
  }

  lemma EvolvesTransitive(a: Field, b: Field, c: Field)
    requires Evolves(a, b) && Evolves(b, c)
    ensures Evolves(a, c)
  {
  }

  lemma EvolvesKeepsTerrain(f: Field, r: Field)
    requires Evolves(f, r)
    ensures SameTerrain(f, r)
    ensures forall p :: InRange(f, p) && At(f, p).isOpened ==> At(r, p) == At(f, p)
    ensures forall p :: InRange(f, p) && !At(r, p).isOpened ==> At(r, p) == At(f, p)
  {
  }

  /** The fill only opens cells, and the cell it starts from ends up opened. */
  lemma {:induction false} FloodOpenEvolves(f: Field, p: Pos)
    requires WellFormed(f) && InRange(f, p)
    ensures Evolves(f, FloodOpen(f, p))
    ensures At(FloodOpen(f, p), p).isOpened
    decreases ClosedCells(f), 0
  {
    var c := At(f, p);
    if !c.isOpened {
      var g := Update(f, p, Opened(c));
      OpeningShrinks(f, p);
      assert Evolves(f, g);
      if c.minesAround == 0 {
        var ns := Neighbours(f.width, f.height, p);
        NeighboursExact(f.width, f.height, p);
        FloodListEvolves(g, ns);
        EvolvesTransitive(f, g, FloodOpen(f, p));
      }
    }
  }

  /** One level of the fill only opens cells, and every listed cell ends up
      opened. */
  lemma {:induction false} FloodListEvolves(f: Field, ps: seq<Pos>)
    requires WellFormed(f)
    requires forall q :: q in ps ==> InRange(f, q)
    ensures Evolves(f, FloodList(f, ps))
    ensures forall q :: q in ps ==> At(FloodList(f, ps), q).isOpened
    decreases ClosedCells(f), 1, |ps|
  {
    if |ps| > 0 {
      var g := FloodOpen(f, ps[0]);
      FloodOpenEvolves(f, ps[0]);
      FloodListEvolves(g, ps[1..]);
      var r := FloodList(f, ps);
      EvolvesTransitive(f, g, r);
      forall q | q in ps
        ensures At(r, q).isOpened
      {
        if q != ps[0] {
          assert q in ps[1..];
        }
      }
    }
  }

  // ------------------------------------------------------------------ closure

  /** Every cell the fill newly opened whose count is 0 has all its in-range
      neighbours opened. */
  ghost predicate ZeroCellsClosed(f: Field, r: Field)
    requires WellFormed(f) && WellFormed(r) && SameShape(f, r)
  {
    forall p, n ::
      && InRange(f, p) && !At(f, p).isOpened && At(r, p).isOpened && At(r, p).minesAround == 0
      && InRange(f, n) && Adjacent(p, n)
      ==> At(r, n).isOpened
  }

  lemma {:induction false} FloodOpenClosed(f: Field, p: Pos)
    requires WellFormed(f) && InRange(f, p)
    ensures ZeroCellsClosed(f, FloodOpen(f, p))
    decreases ClosedCells(f), 0
  {
    var c := At(f, p);
    var r := FloodOpen(f, p);
    if !c.isOpened {
      var g := Update(f, p, Opened(c));
      OpeningShrinks(f, p);
      if c.minesAround == 0 {
        var ns := Neighbours(f.width, f.height, p);
        NeighboursExact(f.width, f.height, p);
        FloodListClosed(g, ns);
        FloodListEvolves(g, ns);
        forall a, n |
          && InRange(f, a) && !At(f, a).isOpened && At(r, a).isOpened && At(r, a).minesAround == 0
          && InRange(f, n) && Adjacent(a, n)
          ensures At(r, n).isOpened
        {
          if a == p {
            assert n in ns;
          } else {
            assert !At(g, a).isOpened;
          }
        }
      }
    }
  }

  lemma {:induction false} FloodListClosed(f: Field, ps: seq<Pos>)
    requires WellFormed(f)
    requires forall q :: q in ps ==> InRange(f, q)
    ensures ZeroCellsClosed(f, FloodList(f, ps))
    decreases ClosedCells(f), 1, |ps|
  {
    if |ps| > 0 {
      var g := FloodOpen(f, ps[0]);
      var r := FloodList(f, ps);
      FloodOpenClosed(f, ps[0]);
      FloodListClosed(g, ps[1..]);
      FloodListEvolves(g, ps[1..]);
      EvolvesKeepsTerrain(g, r);
      forall a, n |
        && InRange(f, a) && !At(f, a).isOpened && At(r, a).isOpened && At(r, a).minesAround == 0
        && InRange(f, n) && Adjacent(a, n)
        ensures At(r, n).isOpened
      {
        if At(g, a).isOpened {
          assert At(g, a) == At(r, a);
          assert At(g, n).isOpened;
        }
      }
    }
  }

  // ------------------------------------------------------------- reachability

  /** A walk the fill can take: it starts anywhere, steps between adjacent
      cells, only crosses closed cells whose count is 0, and ends on a closed
      cell. */
  ghost predicate ZeroPath(f: Field, path: seq<Pos>)
    requires WellFormed(f)
  {
    && |path| >= 1
    && forall i :: 0 <= i < |path| ==>
         && InRange(f, path[i]) && !At(f, path[i]).isOpened
         && (i + 1 < |path| ==> Adjacent(path[i], path[i + 1]) && At(f, path[i]).minesAround == 0)
  }

  /** b can be reached from a along such a walk. */
  ghost predicate Reaches(f: Field, a: Pos, b: Pos)
    requires WellFormed(f)
  {
    exists path :: ZeroPath(f, path) && path[0] == a && path[|path| - 1] == b
  }

  lemma ReachesItself(f: Field, a: Pos)
    requires WellFormed(f) && InRange(f, a) && !At(f, a).isOpened
    ensures Reaches(f, a, a)
  {
    assert ZeroPath(f, [a]);
  }

  /** A walk over cells still closed later was a walk earlier too. */
  lemma ReachesFromEarlier(f: Field, g: Field, a: Pos, b: Pos)
    requires Evolves(f, g) && Reaches(g, a, b)
    ensures Reaches(f, a, b)
  {
    var path :| ZeroPath(g, path) && path[0] == a && path[|path| - 1] == b;
    assert ZeroPath(f, path);
  }

  /** A closed cell with count 0 extends a walk that starts next to it. */
  lemma ReachesPrepend(f: Field, q: Pos, n: Pos, b: Pos)
    requires WellFormed(f) && InRange(f, q) && !At(f, q).isOpened && At(f, q).minesAround == 0
    requires Adjacent(q, n) && Reaches(f, n, b)
    ensures Reaches(f, q, b)
  {
    var path :| ZeroPath(f, path) && path[0] == n && path[|path| - 1] == b;
    var longer := [q] + path;
    assert forall i :: 1 <= i < |longer| ==> longer[i] == path[i - 1];
    assert ZeroPath(f, longer);
  }

  /** Every cell the fill newly opens is reachable from where it started. */
  lemma {:induction false} FloodOpenSound(f: Field, q: Pos)
    requires WellFormed(f) && InRange(f, q)
    ensures forall p :: InRange(f, p) && !At(f, p).isOpened && At(FloodOpen(f, q), p).isOpened ==>
              Reaches(f, q, p)
    decreases ClosedCells(f), 0
  {
    var c := At(f, q);
    var r := FloodOpen(f, q);
    if !c.isOpened {
      var g := Update(f, q, Opened(c));
      OpeningShrinks(f, q);
      assert Evolves(f, g);
      ReachesItself(f, q);
      if c.minesAround == 0 {
        var ns := Neighbours(f.width, f.height, q);
        NeighboursExact(f.width, f.height, q);
        FloodListSound(g, ns);
        forall p | InRange(f, p) && !At(f, p).isOpened && At(r, p).isOpened
          ensures Reaches(f, q, p)
        {
          if p != q {
            assert !At(g, p).isOpened;
            var i :| 0 <= i < |ns| && Reaches(g, ns[i], p);
            ReachesFromEarlier(f, g, ns[i], p);
            ReachesPrepend(f, q, ns[i], p);
          }
        }
      }
    }
  }

  /** Every cell one level of the fill newly opens is reachable from one of
      the listed cells. */
  lemma {:induction false} FloodListSound(f: Field, ps: seq<Pos>)
    requires WellFormed(f)
    requires forall q :: q in ps ==> InRange(f, q)
    ensures forall p :: InRange(f, p) && !At(f, p).isOpened && At(FloodList(f, ps), p).isOpened ==>
              exists i :: 0 <= i < |ps| && Reaches(f, ps[i], p)
    decreases ClosedCells(f), 1, |ps|
  {
    if |ps| > 0 {
      var g := FloodOpen(f, ps[0]);
      var r := FloodList(f, ps);
      FloodOpenSound(f, ps[0]);
      FloodOpenEvolves(f, ps[0]);
      FloodListSound(g, ps[1..]);
      forall p | InRange(f, p) && !At(f, p).isOpened && At(r, p).isOpened
        ensures exists i :: 0 <= i < |ps| && Reaches(f, ps[i], p)
      {
        if At(g, p).isOpened {
          assert Reaches(f, ps[0], p);
        } else {
          var j :| 0 <= j < |ps| - 1 && Reaches(g, ps[1..][j], p);
          ReachesFromEarlier(f, g, ps[j + 1], p);
        }
      }
    }
  }

  /** Along a walk that starts on an opened cell, the closure property opens
      every later cell. */
  lemma {:induction false} WalkOpened(f: Field, r: Field, path: seq<Pos>, k: nat)
    requires Evolves(f, r) && ZeroCellsClosed(f, r) && ZeroPath(f, path)
    requires At(r, path[0]).isOpened
    requires k < |path|
    ensures At(r, path[k]).isOpened
  {
    if k > 0 {
      WalkOpened(f, r, path, k - 1);
      var a := path[k - 1];
      assert path[k] == path[(k - 1) + 1];
      assert InRange(f, a) && At(f, a).minesAround == 0;
      assert At(r, a) == At(f, a) || At(r, a) == Opened(At(f, a));
    }
  }

  /** Starting on a closed cell, the fill opens exactly the closed cells that
      can be reached from it through closed cells with count 0; nothing else
      that was closed gets opened. */
  lemma FloodOpenCharacterised(f: Field, q: Pos)
    requires WellFormed(f) && InRange(f, q) && !At(f, q).isOpened
    ensures forall p :: InRange(f, p) && !At(f, p).isOpened ==>
              (At(FloodOpen(f, q), p).isOpened <==> Reaches(f, q, p))
  {
    var r := FloodOpen(f, q);
    FloodOpenEvolves(f, q);
    FloodOpenClosed(f, q);
    FloodOpenSound(f, q);
    forall p | InRange(f, p) && !At(f, p).isOpened && Reaches(f, q, p)
      ensures At(r, p).isOpened
    {
      var path :| ZeroPath(f, path) && path[0] == q && path[|path| - 1] == p;
      WalkOpened(f, r, path, |path| - 1);
    }
  }

  /** With correct neighbour counts the fill opens no mine but, possibly,
      the cell it starts from: every other cell it opens was reached through
      a neighbour without adjacent mines. */
  lemma FloodOpenNoOtherMine(f: Field, q: Pos)
    requires WellFormed(f) && InRange(f, q) && CountsCorrect(f)
    ensures forall p :: InRange(f, p) && p != q && !At(f, p).isOpened && At(FloodOpen(f, q), p).isOpened ==>
              !At(f, p).isMine
  {
    var r := FloodOpen(f, q);
    FloodOpenSound(f, q);
    forall p | InRange(f, p) && p != q && !At(f, p).isOpened && At(r, p).isOpened
      ensures !At(f, p).isMine
    {
      var path :| ZeroPath(f, path) && path[0] == q && path[|path| - 1] == p;
      var a := path[|path| - 2];
      assert Adjacent(a, p) && At(f, a).minesAround == 0;
      AdjacentMineSetEmpty(f, a);
    }
  }

  // ---------------------------------------------------------------- open_cell

  /** A cell open_cell will open: closed and carrying no label. */
  predicate Openable(c: Cell) {
    !c.isOpened && !c.isMarked && !c.isFlagged
  }

  /** open_cell(x, y): None for a cell that does not exist. A cell that is
      opened, flagged or marked is left alone and its classification
      reported. Any other cell is opened by the flood fill, and the report
      is its new classification: a mine or an empty opened cell. */
  function OpenCell(f: Field, x: nat, y: nat): (r: MoveResult)
    requires WellFormed(f)
    ensures r.state.None? <==> x >= f.width || y >= f.height
    ensures r.state.None? ==> r.field == f
    ensures r.state.Some? && !Openable(At(f, Pos(x, y))) ==>
              r.field == f && r.state.value == GetState(At(f, Pos(x, y)))
    ensures r.state.Some? && Openable(At(f, Pos(x, y))) ==>
              && r.field == FloodOpen(f, Pos(x, y))
              && r.state.value == (if At(f, Pos(x, y)).isMine then OpenedMine else OpenedEmpty)
  {
    if x >= f.width || y >= f.height then
      MoveResult(f, None)
    else
      var p := Pos(x, y);
      var c := At(f, p);
      if Openable(c) then
        var g := FloodOpen(f, p);
        FloodOpenEvolves(f, p);
        MoveResult(g, Some(GetState(At(g, p))))
      else
        MoveResult(f, Some(GetState(c)))
  }

  /** open_cell keeps the field invariant, and it removes a flag exactly
      from the flagged cells it opens. */
  lemma OpenCellKeepsValid(f: Field, x: nat, y: nat)
    requires WellFormed(f)
    ensures Evolves(f, OpenCell(f, x, y).field)
    ensures Valid(f) ==> Valid(OpenCell(f, x, y).field)
    ensures FlaggedCells(OpenCell(f, x, y).field) ==
              set q | q in FlaggedCells(f) && !At(OpenCell(f, x, y).field, q).isOpened
  {
    var r := OpenCell(f, x, y);
    if r.field != f {
      FloodOpenEvolves(f, Pos(x, y));
    }
    EvolvesKeepsTerrain(f, r.field);
    assert LabelsConsistent(f) ==> LabelsConsistent(r.field);
    SameTerrainKeepsInvariant(f, r.field);
    assert Board(r.field) == Board(f);
  }
}
