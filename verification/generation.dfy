/** Field generation: clamping the parameters, allocating the grid, placing
    the mines and computing every cell's neighbour count (the two restart
    overloads and the constructor that calls the first). */
module Generation {
  import opened Cells
  import opened Geometry
  import opened Fields

  /** The largest value of the signed int in which width * height - 2 is
      computed. */
  const IntMax: int := 0x7FFF_FFFF

  /** A side below the minimum of 10 is raised to 10; any other is kept. */
  function ClampDim(d: nat): (r: nat)
    ensures r >= 10
    ensures d >= 10 ==> r == d
    ensures d < 10 ==> r == 10
  {
    if d > 10 then d else 10
  }

  /** The mine count is first capped at all cells but two and then raised
      to at least 2. */
  function ClampMines(m: nat, w: nat, h: nat): (r: nat)
    requires w * h >= 4
    ensures 2 <= r <= w * h - 2
    ensures 2 <= m <= w * h - 2 ==> r == m
    ensures m > w * h - 2 ==> r == w * h - 2
    ensures m < 2 ==> r == 2
  {
    var capped := if m > w * h - 2 then w * h - 2 else m;
    if capped > 2 then capped else 2
  }

  /** A freshly allocated grid: h rows of w default cells. */
  function FreshCells(w: nat, h: nat): (g: seq<seq<Cell>>)
    ensures |g| == h
    ensures forall y :: 0 <= y < h ==> |g[y]| == w
    ensures forall y, x :: 0 <= y < h && 0 <= x < w ==>
              GetState(g[y][x]) == ClosedEmpty && !g[y][x].isMine
  {
    seq(h, _ => seq(w, _ => DefaultCell))
  }

  /** The field restart(w, h, m) allocates before generating it. */
  function Fresh(w: nat, h: nat, m: nat): (f: Field)
    ensures WellFormed(f) && f.width == w && f.height == h && f.minesCount == m
    ensures MineSet(f) == {}
    ensures forall p :: InRange(f, p) ==> !At(f, p).isOpened && !At(f, p).isFlagged && !At(f, p).isMarked
  {
    Field(FreshCells(w, h), w, h, m)
  }

  /** Removing one entry from a list keeps only entries of the list, and a
      distinct list loses exactly that entry. */
  lemma RemoveAt(pool: seq<Pos>, k: nat)
    requires k < |pool|
    ensures forall q :: q in pool[..k] + pool[k + 1..] ==> q in pool
    ensures Distinct(pool) ==> Distinct(pool[..k] + pool[k + 1..]) && pool[k] !in pool[..k] + pool[k + 1..]
  {
    var rest := pool[..k] + pool[k + 1..];
    forall q | q in rest
      ensures q in pool
    {
      var i :| 0 <= i < |rest| && rest[i] == q;
      if i < k { assert q == pool[i]; } else { assert q == pool[i + 1]; }
    }
    if Distinct(pool) {
      forall i, j | 0 <= i < j < |rest|
        ensures rest[i] != rest[j]
      {
        var i' := if i < k then i else i + 1;
        var j' := if j < k then j else j + 1;
        assert rest[i] == pool[i'] && rest[j] == pool[j'];
      }
      forall i | 0 <= i < |rest|
        ensures rest[i] != pool[k]
      {
        if i < k { assert rest[i] == pool[i]; } else { assert rest[i] == pool[i + 1]; }
      }
    }
  }

  lemma DistinctCons(a: Pos, s: seq<Pos>)
    ensures Distinct(s) && a !in s ==> Distinct([a] + s)
  {
    if Distinct(s) && a !in s {
      DistinctConcat([a], s);
    }
  }

  /** The coordinates the placement loop turns into mines, in order. Each
      round shuffles the remaining list and pops its last entry; the shuffle
      is supplied by the caller as draw, round i moving the entry at index
      draw(i) mod (length) to the back. */
  function Picks(pool: seq<Pos>, draw: nat -> nat, count: nat, round: nat): (r: seq<Pos>)
    requires count <= |pool|
    ensures |r| == count
    ensures forall q :: q in r ==> q in pool
    ensures Distinct(pool) ==> Distinct(r)
    decreases count
  {
    if count == 0 then []
    else
      var k := draw(round) % |pool|;
      var rest := pool[..k] + pool[k + 1..];
      RemoveAt(pool, k);
      var later := Picks(rest, draw, count - 1, round + 1);
      assert Distinct(pool) ==> pool[k] !in later;
      DistinctCons(pool[k], later);
      [pool[k]] + later
  }

  /** The positions the placement loop of a configured field marks as mines. */
  ghost function DrawnMines(f: Field, draw: nat -> nat): set<Pos>
    requires Configured(f)
  {
    Elements(Picks(Coordinates(f.width, f.height), draw, f.minesCount, 0))
  }

  /** The draws depend only on the dimensions and the mine count. */
  lemma DrawnMinesShape(f: Field, g: Field, draw: nat -> nat)
    requires Configured(f) && Configured(g) && SameShape(f, g)
    ensures DrawnMines(f, draw) == DrawnMines(g, draw)
  {
  }

  /** The draws are minesCount distinct cells of the board. */
  lemma DrawnMinesCount(f: Field, draw: nat -> nat)
    requires Configured(f)
    ensures |DrawnMines(f, draw)| == f.minesCount
    ensures DrawnMines(f, draw) <= Board(f)
  {
    var picks := Picks(Coordinates(f.width, f.height), draw, f.minesCount, 0);
    DistinctCard(picks);
  }

  /** The counting pass: every cell gets the number of mines among its
      in-range neighbours. */
  function CountNeighbours(mined: Field): (r: Field)
    requires WellFormed(mined)
    ensures WellFormed(r) && SameShape(mined, r)
    ensures SameMines(mined, r)
    ensures CountsCorrect(r)
    ensures forall p :: InRange(r, p) ==> At(r, p) == At(mined, p).(minesAround := At(r, p).minesAround)
  {
    var w, h := mined.width, mined.height;
    var r := mined.(cells := seq(h, y requires 0 <= y < h => seq(w, x requires 0 <= x < w =>
               mined.cells[y][x].(minesAround := MinesAround(mined, Pos(x, y))))));
    assert SameMines(mined, r);
    SameMinesSameSets(mined, r);
    assert forall p :: InRange(r, p) ==> At(r, p).minesAround == MinesAround(mined, p);
    forall p | InRange(r, p)
      ensures At(r, p).minesAround == |AdjacentMineSet(r, p)|
    {
      MinesAroundIsBruteForce(mined, p);
    }
    r
  }

  /** The coordinate pass and the placement loop: every cell records its
      own coordinates, and every picked cell becomes a mine (mines already
      present stay). Nothing else changes. */
  function PlaceMines(f: Field, picks: seq<Pos>): (r: Field)
    requires WellFormed(f)
    ensures WellFormed(r) && SameShape(f, r)
    ensures PositionsAgree(r)
    ensures forall p :: InRange(f, p) ==> At(r, p).isMine == (At(f, p).isMine || p in picks)
    ensures forall p :: InRange(f, p) ==>
              && At(r, p).isOpened == At(f, p).isOpened
              && At(r, p).isFlagged == At(f, p).isFlagged
              && At(r, p).isMarked == At(f, p).isMarked
  {
    var w, h := f.width, f.height;
    f.(cells := seq(h, y requires 0 <= y < h => seq(w, x requires 0 <= x < w =>
      var c := f.cells[y][x];
      c.(x := x, y := y, isMine := c.isMine || Pos(x, y) in picks))))
  }

  lemma PlaceMinesSet(f: Field, picks: seq<Pos>)
    requires WellFormed(f)
    requires forall q :: q in picks ==> InRange(f, q)
    ensures MineSet(PlaceMines(f, picks)) == MineSet(f) + Elements(picks)
  {
  }

  /** restart(): regenerate the field with its current parameters. Every
      cell gets its coordinates, the drawn cells become mines and every
      neighbour count is recomputed. As Field::restart() does, nothing else is
      reset: opened and label bits stay, and mines of an earlier layout stay
      mines. */
  function Regenerate(f: Field, draw: nat -> nat): (r: Field)
    requires Configured(f)
    ensures Configured(r) && SameShape(f, r)
    ensures PositionsAgree(r)
    ensures CountsCorrect(r)
    ensures MineSet(r) == MineSet(f) + DrawnMines(f, draw)
    ensures forall p :: InRange(f, p) ==>
              && At(r, p).isOpened == At(f, p).isOpened
              && At(r, p).isFlagged == At(f, p).isFlagged
              && At(r, p).isMarked == At(f, p).isMarked
  {
    var picks := Picks(Coordinates(f.width, f.height), draw, f.minesCount, 0);
    var mined := PlaceMines(f, picks);
    PlaceMinesSet(f, picks);
    var r := CountNeighbours(mined);
    SameMinesSameSets(mined, r);
    r
  }

  /** restart() as evidently intended: the previous game's state is
      discarded first, so the field holds exactly the drawn mines, every cell
      is closed and unlabelled, and the whole invariant holds. */
  function RegenerateCleared(f: Field, draw: nat -> nat): (r: Field)
    requires Configured(f)
    ensures Valid(r) && SameShape(f, r)
    ensures MineSet(r) == DrawnMines(f, draw)
    ensures forall p :: InRange(r, p) ==> GetState(At(r, p)) == ClosedEmpty
  {
    var blank := Fresh(f.width, f.height, f.minesCount);
    var r := Regenerate(blank, draw);
    DrawnMinesCount(f, draw);
    DrawnMinesShape(blank, f, draw);
    assert MineSet(r) == DrawnMines(f, draw);
    forall p | InRange(r, p)
      ensures GetState(At(r, p)) == ClosedEmpty && Consistent(At(r, p))
    {
      assert InRange(blank, p);
      var c := At(r, p);
      assert !c.isOpened && !c.isFlagged && !c.isMarked;
    }
    assert Configured(r);
    assert PositionsAgree(r);
    assert LabelsConsistent(r);
    assert CountsCorrect(r);
    assert MinesExact(r);
    r
  }

  /** restart(w, h, m), which the constructor also calls: clamp the
      parameters, allocate a fresh grid and regenerate it. The product of
      the clamped sides must fit the signed int Field::restart(w, h, m)
      computes it in. */
  function Restart(w: nat, h: nat, m: nat, draw: nat -> nat): (r: Field)
    requires w < 0x1_0000 && h < 0x1_0000 && m < 0x1_0000_0000
    requires ClampDim(w) * ClampDim(h) - 2 <= IntMax
    ensures GetFieldSize(r) == (ClampDim(w), ClampDim(h))
    ensures GetMinesCount(r) == ClampMines(m, r.width, r.height)
    ensures Valid(r)
    ensures forall p :: InRange(r, p) ==> GetState(At(r, p)) == ClosedEmpty
    ensures MineSet(r) == DrawnMines(r, draw)
  {
    var width, height := ClampDim(w), ClampDim(h);
    assert width * height >= 100;
    var mines := ClampMines(m, width, height);
    var blank := Fresh(width, height, mines);
    var r := Regenerate(blank, draw);
    assert r == RegenerateCleared(blank, draw);
    DrawnMinesShape(blank, r, draw);
    r
  }

  /** Every cell closed, unlabelled and free of mines, as on the grid
      restart(w, h, m) allocates. */
  ghost predicate Blank(f: Field)
    requires WellFormed(f)
  {
    forall p :: InRange(f, p) ==>
      !At(f, p).isOpened && !At(f, p).isFlagged && !At(f, p).isMarked && !At(f, p).isMine
  }

  /** When restart() as written is right: on a blank grid it produces exactly
      what the corrected regeneration does, whatever coordinates and counts
      the cells held before. */
  lemma RegenerateOnBlank(f: Field, draw: nat -> nat)
    requires Configured(f) && Blank(f)
    ensures Regenerate(f, draw) == RegenerateCleared(f, draw)
  {
    var blank := Fresh(f.width, f.height, f.minesCount);
    var picks := Picks(Coordinates(f.width, f.height), draw, f.minesCount, 0);
    var m1, m2 := PlaceMines(f, picks), PlaceMines(blank, picks);
    PlacedAlike(f, blank, picks);
    CountedAlike(m1, m2);
    assert Regenerate(f, draw) == CountNeighbours(m1);
    assert RegenerateCleared(f, draw) == Regenerate(blank, draw) == CountNeighbours(m2);
  }

  /** Placing the same mines on two blank grids of one shape gives cells
      that differ at most in their stale counts. */
  lemma PlacedAlike(f: Field, g: Field, picks: seq<Pos>)
    requires WellFormed(f) && WellFormed(g) && SameShape(f, g) && Blank(f) && Blank(g)
    ensures forall p :: InRange(f, p) ==>
              At(PlaceMines(f, picks), p).(minesAround := 0) == At(PlaceMines(g, picks), p).(minesAround := 0)
  {
  }

  /** The counting pass ignores the counts it overwrites: grids that agree
      in everything else end up equal. */
  lemma CountedAlike(m1: Field, m2: Field)
    requires WellFormed(m1) && WellFormed(m2) && SameShape(m1, m2)
    requires forall p :: InRange(m1, p) ==> At(m1, p).(minesAround := 0) == At(m2, p).(minesAround := 0)
    ensures CountNeighbours(m1) == CountNeighbours(m2)
  {
    var r1, r2 := CountNeighbours(m1), CountNeighbours(m2);
    assert SameMines(m1, m2);
    SameMinesSameSets(m1, m2);
    SameMinesSameSets(m1, r1);
    SameMinesSameSets(m2, r2);
    forall p | InRange(m1, p)
      ensures At(r1, p) == At(r2, p)
    {
      assert At(r1, p).minesAround == At(r2, p).minesAround;
    }
    forall y | 0 <= y < m1.height
      ensures r1.cells[y] == r2.cells[y]
    {
      forall x | 0 <= x < m1.width
        ensures r1.cells[y][x] == r2.cells[y][x]
      {
        assert At(r1, Pos(x, y)) == At(r2, Pos(x, y));
      }
    }
  }

  // ------------------------------------------ restart() on a field in play

  /** restart() on a field in play: opened cells stay opened, and a mine of
      the previous layout that is not drawn again is kept on top of the
      minesCount new ones, so the field holds more mines than it reports. */
  lemma RegenerateOvercounts(f: Field, draw: nat -> nat, stale: Pos)
    requires Valid(f)
    requires stale in MineSet(f) && stale !in DrawnMines(f, draw)
    ensures |MineSet(Regenerate(f, draw))| > GetMinesCount(Regenerate(f, draw))
  {
    var r := Regenerate(f, draw);
    var drawn, mines := DrawnMines(f, draw), MineSet(r);
    DrawnMinesCount(f, draw);
    assert mines == MineSet(f) + drawn;
    LargerSet(drawn, stale, mines);
  }

  /** A set that holds all of a and one element outside a is larger. */
  lemma LargerSet<T>(a: set<T>, e: T, b: set<T>)
    requires a <= b && e in b && e !in a
    ensures |b| > |a|
  {
    SubsetCard(a + {e}, b);
  }

  lemma {:induction false} SubsetCard<T>(a: set<T>, b: set<T>)
    requires a <= b
    ensures |a| <= |b|
    decreases b
  {
    if a != {} {
      var e :| e in a;
      SubsetCard(a - {e}, b - {e});
    }
  }

  /** Where the coordinate list puts a position: the entries of column
      w - 1 come after all earlier columns. */
  lemma {:induction false} CoordinatesAt(w: nat, h: nat, i: nat, v: nat)
    requires v < w && v * h <= i < (v + 1) * h
    ensures Coordinates(w, h)[i] == Pos(v, i - v * h)
    decreases w
  {
    var left := Coordinates(w - 1, h);
    assert |left| == (w - 1) * h;
    assert Coordinates(w, h) == left + seq(h, y requires 0 <= y < h => Pos(w - 1, y));
    if v < w - 1 {
      MulMono(v + 1, w - 1, h);
      CoordinatesAt(w - 1, h, i, v);
      assert Coordinates(w, h)[i] == left[i];
    } else {
      assert (w - 1) * h == v * h;
      assert Coordinates(w, h)[i] == Pos(w - 1, i - |left|);
    }
  }

  lemma MulMono(a: nat, b: nat, h: nat)
    requires a <= b
    ensures a * h <= b * h
  {
    assert b * h == a * h + (b - a) * h;
  }

  /** One round of the placement loop whose draw is a valid index k picks
      the entry at k. */
  lemma OnePick(pool: seq<Pos>, draw: nat -> nat, count: nat, round: nat, k: nat)
    requires 0 < count <= |pool| && k < |pool| && draw(round) == k
    ensures Picks(pool, draw, count, round) ==
              [pool[k]] + Picks(pool[..k] + pool[k + 1..], draw, count - 1, round + 1)
  {
    SmallMod(draw(round), |pool|);
  }

  /** A draw below the list length indexes the list directly. */
  lemma SmallMod(d: nat, n: nat)
    requires d < n
    ensures d % n == d
  {
  }

  /** Rounds that keep drawing the same index k pick a run of consecutive
      entries starting at k. */
  lemma {:induction false} ConstantDraws(pool: seq<Pos>, draw: nat -> nat, count: nat, round: nat, k: nat)
    requires k + count <= |pool|
    requires forall j :: round <= j < round + count ==> draw(j) == k
    ensures Picks(pool, draw, count, round) == pool[k..k + count]
    decreases count
  {
    if count > 0 {
      var rest := pool[..k] + pool[k + 1..];
      OnePick(pool, draw, count, round, k);
      ConstantDraws(rest, draw, count - 1, round + 1, k);
      RemoveAtRun(pool, k, count);
    }
  }

  /** After removing entry k, the run that started at k continues with the
      entries that followed it. */
  lemma RemoveAtRun(pool: seq<Pos>, k: nat, count: nat)
    requires 0 < count && k + count <= |pool|
    ensures [pool[k]] + (pool[..k] + pool[k + 1..])[k..k + count - 1] == pool[k..k + count]
  {
    var rest := pool[..k] + pool[k + 1..];
    assert rest[k..k + count - 1] == pool[k + 1..k + count];
  }

  /** Two rounds that both draw index k, where k and k + 1 are the entries
      of rows row and row + 1 of one column, pick those two cells. */
  lemma {:induction false} TwoInColumn(w: nat, h: nat, draw: nat -> nat, k: nat, column: nat, row: nat)
    requires column < w && row + 1 < h && k == column * h + row
    requires draw(0) == k && draw(1) == k
    ensures 2 <= w * h
    ensures Picks(Coordinates(w, h), draw, 2, 0) == [Pos(column, row), Pos(column, row + 1)]
  {
    var pool := Coordinates(w, h);
    MulMono(column + 1, w, h);
    assert (column + 1) * h == column * h + h;
    CoordinatesAt(w, h, k, column);
    CoordinatesAt(w, h, k + 1, column);
    ConstantDraws(pool, draw, 2, 0, k);
    var run := pool[k..k + 2];
    assert run[0] == pool[k] && run[1] == pool[k + 1];
    assert run == [pool[k], pool[k + 1]];
  }

  /** On a field with 2 mines, the drawn mines of such draws. */
  lemma ConstantDrawnMines(f: Field, draw: nat -> nat, k: nat, a: Pos, b: Pos)
    requires Configured(f) && f.minesCount == 2
    requires draw(0) == k && draw(1) == k
    requires a.x == b.x && b.y == a.y + 1
    requires a.x < f.width && b.y < f.height && k == a.x * f.height + a.y
    ensures DrawnMines(f, draw) == {a, b}
  {
    var column, row := a.x, a.y;
    assert a == Pos(column, row) && b == Pos(column, row + 1);
    TwoInColumn(f.width, f.height, draw, k, column, row);
    var picks := Picks(Coordinates(f.width, f.height), draw, 2, 0);
    assert picks == [a, b];
    ElementsOfPair(a, b);
    assert DrawnMines(f, draw) == Elements(picks);
  }

  /** A 10 x 10 field with 2 mines that holds just the mines of draws
      picking (0, 0) and (0, 1). */
  lemma FirstRound(first: Field, firstDraw: nat -> nat)
    requires Configured(first) && first.width == 10 && first.height == 10 && first.minesCount == 2
    requires MineSet(first) == DrawnMines(first, firstDraw)
    requires firstDraw(0) == 0 && firstDraw(1) == 0
    ensures MineSet(first) == {Pos(0, 0), Pos(0, 1)}
  {
    ConstantDrawnMines(first, firstDraw, 0, Pos(0, 0), Pos(0, 1));
    SameSet(MineSet(first), DrawnMines(first, firstDraw), {Pos(0, 0), Pos(0, 1)});
  }

  lemma SameSet<T>(a: set<T>, b: set<T>, c: set<T>)
    requires a == b && b == c
    ensures a == c
  {
  }

  /** A restart of that field with draws that pick (5, 0) and (5, 1), when
      (0, 0) and (0, 1) are mines already. */
  lemma SecondRound(first: Field, secondDraw: nat -> nat)
    requires Configured(first) && first.width == 10 && first.height == 10 && first.minesCount == 2
    requires MineSet(first) == {Pos(0, 0), Pos(0, 1)}
    requires secondDraw(0) == 50 && secondDraw(1) == 50
    ensures MineSet(Regenerate(first, secondDraw)) == {Pos(0, 0), Pos(0, 1), Pos(5, 0), Pos(5, 1)}
  {
    ConstantDrawnMines(first, secondDraw, 50, Pos(5, 0), Pos(5, 1));
    var before, drawn := MineSet(first), DrawnMines(first, secondDraw);
    PairsUnion(before, drawn, Pos(0, 0), Pos(0, 1), Pos(5, 0), Pos(5, 1));
    RegenerateMineSet(first, secondDraw, before + drawn);
  }

  /** The mine set restart() leaves, given the one it started from. */
  lemma RegenerateMineSet(f: Field, draw: nat -> nat, mines: set<Pos>)
    requires Configured(f) && mines == MineSet(f) + DrawnMines(f, draw)
    ensures MineSet(Regenerate(f, draw)) == mines
  {
  }

  lemma PairsUnion<T>(s: set<T>, t: set<T>, a: T, b: T, c: T, d: T)
    requires s == {a, b} && t == {c, d}
    ensures s + t == {a, b, c, d}
  {
  }

  /** A concrete instance: a 10 x 10 field with 2 mines whose draws picked
      (0, 0) and (0, 1), restarted with draws that pick (5, 0) and (5, 1),
      holds 4 mines while it reports 2. */
  lemma StaleRestartExample(w: nat, h: nat, m: nat, firstDraw: nat -> nat, secondDraw: nat -> nat,
                            first: Field, second: Field)
    requires w == 10 && h == 10 && m == 2
    requires firstDraw(0) == 0 && firstDraw(1) == 0
    requires secondDraw(0) == 50 && secondDraw(1) == 50
    requires first == Restart(w, h, m, firstDraw)
    requires second == Regenerate(first, secondDraw)
    ensures GetMinesCount(second) == 2
    ensures MineSet(second) == {Pos(0, 0), Pos(0, 1), Pos(5, 0), Pos(5, 1)}
  {
    assert GetFieldSize(first) == (10, 10);
    assert first.width * first.height == 100;
    assert first.minesCount == ClampMines(m, first.width, first.height) == 2;
    FirstRound(first, firstDraw);
    SecondRound(first, secondDraw);
  }
}
