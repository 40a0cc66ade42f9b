/** The label state machine of closed cells (change_state) and the count of
    flags shown on the field (get_count_of_flags). */
module Labels {
  import opened Optional
  import opened Cells
  import opened Geometry
  import opened Fields

  /** A cell that shows a flag: closed and flagged. */
  predicate ShowsFlag(c: Cell) {
    !c.isOpened && c.isFlagged
  }

  /** The positions whose cell shows a flag. */
  ghost function FlaggedCells(f: Field): set<Pos>
    requires WellFormed(f)
  {
    set q | q in Board(f) && ShowsFlag(At(f, q))
  }

  /** change_state(x, y): move a closed cell one step along the label
      rotation and report its new classification; an opened cell is left as
      it is and its classification reported; a cell that does not exist
      yields None. Only the label bits of the one cell change. */
  function ChangeState(f: Field, x: nat, y: nat): (r: MoveResult)
    requires WellFormed(f)
    ensures r.state.None? <==> x >= f.width || y >= f.height
    ensures r.state.None? ==> r.field == f
    ensures SameTerrain(f, r.field)
    ensures r.state.Some? && At(f, Pos(x, y)).isOpened ==>
              r.field == f && r.state.value == GetState(At(f, Pos(x, y)))
    ensures r.state.Some? && !At(f, Pos(x, y)).isOpened ==>
              && r.state.value == NextLabel(GetState(At(f, Pos(x, y))))
              && r.state.value == GetState(At(r.field, Pos(x, y)))
    ensures forall q :: InRange(f, q) && q != Pos(x, y) ==> At(r.field, q) == At(f, q)
    ensures forall q :: InRange(f, q) ==> At(r.field, q).isOpened == At(f, q).isOpened
  {
    if x >= f.width || y >= f.height then
      MoveResult(f, None)
    else
      var p := Pos(x, y);
      if At(f, p).isOpened then
        MoveResult(f, Some(GetState(At(f, p))))
      else
      var c := CycleLabel(At(f, p));
      var g := Update(f, p, c);
      MoveResult(g, Some(GetState(c)))
  }

  /** change_state keeps the field invariant. */
  lemma ChangeStateKeepsValid(f: Field, x: nat, y: nat)
    requires Valid(f)
    ensures Valid(ChangeState(f, x, y).field)
  {
    var g := ChangeState(f, x, y).field;
    assert LabelsConsistent(g);
    SameTerrainKeepsInvariant(f, g);
  }

  /** Three label changes on a consistent closed cell give back the field
      it started from. */
  lemma ChangeStateThrice(f: Field, x: nat, y: nat)
    requires WellFormed(f) && InRange(f, Pos(x, y))
    requires !At(f, Pos(x, y)).isOpened && Consistent(At(f, Pos(x, y)))
    ensures ChangeState(ChangeState(ChangeState(f, x, y).field, x, y).field, x, y).field == f
  {
    var p := Pos(x, y);
    var c := At(f, p);
    var f1 := ChangeState(f, x, y).field;
    var f2 := ChangeState(f1, x, y).field;
    var f3 := ChangeState(f2, x, y).field;
    CycleLabelThrice(c);
    assert At(f3, p) == At(f, p);
    assert f3.cells[y] == f.cells[y];
    assert f3.cells == f.cells;
  }

  /** How change_state moves the flag count: a flag appears on an
      unlabelled cell, disappears when it turns into a mark, and nothing
      changes otherwise. */
  lemma ChangeStateFlags(f: Field, x: nat, y: nat)
    requires WellFormed(f) && InRange(f, Pos(x, y))
    ensures var before := GetState(At(f, Pos(x, y)));
            var after := FlaggedCells(ChangeState(f, x, y).field);
            && (before == ClosedEmpty ==>
                  after == FlaggedCells(f) + {Pos(x, y)} && |after| == |FlaggedCells(f)| + 1)
            && (before == ClosedFlagged ==>
                  after == FlaggedCells(f) - {Pos(x, y)} && |after| == |FlaggedCells(f)| - 1)
            && (before != ClosedEmpty && before != ClosedFlagged ==> after == FlaggedCells(f))
  {
    var p := Pos(x, y);
    var g := ChangeState(f, x, y).field;
    FlaggedAfterPointChange(f, g, p);
    var was, now := ShowsFlag(At(f, p)), ShowsFlag(At(g, p));
    assert p in FlaggedCells(f) <==> was;
    PointUpdate(FlaggedCells(f), p, was, now, FlaggedCells(g));
  }

  /** A set that may change only in p: how it relates to the old one,
      according to whether p was and is in it. */
  lemma PointUpdate<T>(s: set<T>, p: T, was: bool, now: bool, t: set<T>)
    requires (p in s) == was
    requires t == (s - {p}) + (if now then {p} else {})
    ensures !was && now ==> t == s + {p} && |t| == |s| + 1
    ensures was && !now ==> t == s - {p} && |t| == |s| - 1
    ensures was == now ==> t == s
  {
  }

  /** When only the cell at p may differ, the flagged set differs at most in
      p, which is in it exactly when the new cell shows a flag. */
  lemma FlaggedAfterPointChange(f: Field, g: Field, p: Pos)
    requires WellFormed(f) && WellFormed(g) && SameShape(f, g) && InRange(f, p)
    requires forall q :: InRange(f, q) && q != p ==> At(g, q) == At(f, q)
    ensures FlaggedCells(g) == (FlaggedCells(f) - {p}) + (if ShowsFlag(At(g, p)) then {p} else {})
  {
    assert Board(g) == Board(f);
  }

  /** The flags among the cells before (x, y) in row-major order. */
  ghost function FlaggedBefore(f: Field, y: nat, x: nat): set<Pos>
    requires WellFormed(f)
  {
    set q | q in Board(f) && (q.y < y || (q.y == y && q.x < x)) && ShowsFlag(At(f, q))
  }

  /** One more cell of the scan adds one to the count exactly when it shows
      a flag. */
  lemma FlaggedStep(f: Field, y: nat, x: nat)
    requires WellFormed(f) && y < f.height && x < f.width
    ensures |FlaggedBefore(f, y, x + 1)| ==
            |FlaggedBefore(f, y, x)| + (if ShowsFlag(At(f, Pos(x, y))) then 1 else 0)
  {
    var p := Pos(x, y);
    var before, after := FlaggedBefore(f, y, x), FlaggedBefore(f, y, x + 1);
    assert p !in before;
    if ShowsFlag(At(f, p)) {
      assert after == before + {p};
    } else {
      assert after == before;
    }
  }

  /** The end of a row is the start of the next one. */
  lemma FlaggedRowEnd(f: Field, y: nat)
    requires WellFormed(f)
    ensures FlaggedBefore(f, y, f.width) == FlaggedBefore(f, y + 1, 0)
  {
  }

  /** Past the last row, the scan has seen every flagged cell. */
  lemma FlaggedAll(f: Field)
    requires WellFormed(f)
    ensures FlaggedBefore(f, f.height, 0) == FlaggedCells(f)
  {
  }

  /** get_count_of_flags: walk the rows and the cells of each row, counting
      the cells that are flagged and not opened. The result is the number of
      positions that show a flag. */
  method CountOfFlags(f: Field) returns (count: nat)
    requires WellFormed(f)
    ensures count == |FlaggedCells(f)|
  {
    count := 0;
    var y := 0;
    while y < f.height
      invariant y <= f.height
      invariant count == |FlaggedBefore(f, y, 0)|
    {
      var row := f.cells[y];
      var x := 0;
      while x < |row|
        invariant x <= |row| == f.width
        invariant count == |FlaggedBefore(f, y, x)|
      {
        var cell := row[x];
        FlaggedStep(f, y, x);
        if !cell.isOpened && cell.isFlagged {
          count := count + 1;
        }
        x := x + 1;
      }
      FlaggedRowEnd(f, y);
      y := y + 1;
    }
    FlaggedAll(f);
  }
}
