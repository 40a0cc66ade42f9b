/** One position of the mine field and its derived display classification. */
module Cells {

  /** The five display classifications of a cell: three for a cell that is
      still closed (no label, flag, mark) and two for an opened one. */
  datatype CellType = ClosedEmpty | ClosedFlagged | ClosedMarked | OpenedEmpty | OpenedMine

  /** A cell: its four status bits, its own coordinates and the number of
      mines among its neighbours. */
  datatype Cell = Cell(
    isOpened: bool,
    isFlagged: bool,
    isMarked: bool,
    isMine: bool,
    x: nat,
    y: nat,
    minesAround: nat)

  /** The cell the constructor builds: closed, unlabelled, no mine, at (0, 0).
      The neighbour count is left uninitialised there; it is written as 0
      here and always overwritten before the field is handed out. */
  const DefaultCell: Cell := Cell(false, false, false, false, 0, 0, 0)

  /** The classification of a cell, a pure function of its status bits.
      An opened cell shows whether it is a mine; a closed one shows its
      label, a flag taking precedence over a mark. */
  function GetState(c: Cell): (t: CellType)
    ensures t == OpenedMine <==> c.isOpened && c.isMine
    ensures t == OpenedEmpty <==> c.isOpened && !c.isMine
    ensures t == ClosedFlagged <==> !c.isOpened && c.isFlagged
    ensures t == ClosedMarked <==> !c.isOpened && !c.isFlagged && c.isMarked
    ensures t == ClosedEmpty <==> !c.isOpened && !c.isFlagged && !c.isMarked
  {
    if c.isOpened then
      if c.isMine then OpenedMine else OpenedEmpty
    else if c.isFlagged then ClosedFlagged
    else if c.isMarked then ClosedMarked
    else ClosedEmpty
  }

  predicate IsOpenedType(t: CellType) {
    t == OpenedEmpty || t == OpenedMine
  }

  /** Every one of the five classifications is the state of some cell, so
      none of them is dead. */
  lemma EveryStateOccurs(t: CellType)
    ensures exists c :: GetState(c) == t
  {
    match t
    case ClosedEmpty => assert GetState(DefaultCell) == t;
    case ClosedFlagged => assert GetState(DefaultCell.(isFlagged := true)) == t;
    case ClosedMarked => assert GetState(DefaultCell.(isMarked := true)) == t;
    case OpenedEmpty => assert GetState(DefaultCell.(isOpened := true)) == t;
    case OpenedMine => assert GetState(DefaultCell.(isOpened := true, isMine := true)) == t;
  }

  /** The label rotation of a closed cell: no label -> flag -> mark -> no label. */
  function NextLabel(t: CellType): CellType
  {
    match t
    case ClosedEmpty => ClosedFlagged
    case ClosedFlagged => ClosedMarked
    case ClosedMarked => ClosedEmpty
    case OpenedEmpty => OpenedEmpty
    case OpenedMine => OpenedMine
  }

  /** The label bits a cell may carry: never a flag and a mark together, and
      neither once the cell is opened. */
  predicate Consistent(c: Cell) {
    && !(c.isFlagged && c.isMarked)
    && (c.isOpened ==> !c.isFlagged && !c.isMarked)
  }

  /** The change the flood fill makes to a cell it opens. */
  function Opened(c: Cell): (r: Cell)
    ensures GetState(r) == (if c.isMine then OpenedMine else OpenedEmpty)
    ensures Consistent(r)
    ensures r.isMine == c.isMine && r.minesAround == c.minesAround
    ensures r.x == c.x && r.y == c.y
  {
    c.(isOpened := true, isFlagged := false, isMarked := false)
  }

  /** The label change of change_state applied to one cell. An opened cell
      is left alone; a closed one moves one step along the label rotation,
      keeping everything but its label bits. */
  function CycleLabel(c: Cell): (r: Cell)
    ensures c.isOpened ==> r == c
    ensures !c.isOpened ==> GetState(r) == NextLabel(GetState(c))
    ensures !c.isOpened ==> Consistent(r)
    ensures r.isOpened == c.isOpened && r.isMine == c.isMine
    ensures r.minesAround == c.minesAround && r.x == c.x && r.y == c.y
  {
    if c.isOpened then c
    else if c.isFlagged then c.(isMarked := true, isFlagged := false)
    else if c.isMarked then c.(isMarked := false)
    else c.(isFlagged := true)
  }

  /** Three label changes bring a consistent closed cell back to where it
      started. */
  lemma CycleLabelThrice(c: Cell)
    requires !c.isOpened && Consistent(c)
    ensures CycleLabel(CycleLabel(CycleLabel(c))) == c
  {
  }
}
