/** Grid coordinates, the 8-neighbourhood with explicit edge handling, and
    the coordinate list that mine placement draws from. */
module Geometry {

  /** A column/row pair; the field is indexed [y][x]. */
  datatype Pos = Pos(x: nat, y: nat)

  predicate InBounds(w: nat, h: nat, p: Pos) {
    p.x < w && p.y < h
  }

  function Gap(a: nat, b: nat): nat {
    if a <= b then b - a else a - b
  }

  /** Two distinct positions that touch, along an edge or at a corner. */
  predicate Adjacent(p: Pos, q: Pos) {
    p != q && Gap(p.x, q.x) <= 1 && Gap(p.y, q.y) <= 1
  }

  /** No element occurs twice. */
  ghost predicate Distinct<T>(s: seq<T>) {
    forall i, j :: 0 <= i < j < |s| ==> s[i] != s[j]
  }

  lemma DistinctConcat<T>(a: seq<T>, b: seq<T>)
    requires Distinct(a) && Distinct(b)
    requires forall e :: e in a ==> e !in b
    ensures Distinct(a + b)
  {
    forall i, j | 0 <= i < j < |a + b|
      ensures (a + b)[i] != (a + b)[j]
    {
      if j < |a| {
      } else if i < |a| {
        assert (a + b)[i] in a;
        assert (a + b)[j] == b[j - |a|];
      } else {
        assert (a + b)[i] == b[i - |a|] && (a + b)[j] == b[j - |a|];
      }
    }
  }

  /** The set of elements of a sequence. */
  ghost function Elements<T>(s: seq<T>): set<T> {
    set e | e in s
  }

  /** A distinct sequence has as many distinct elements as it is long. */
  lemma {:induction false} DistinctCard<T>(s: seq<T>)
    requires Distinct(s)
    ensures |Elements(s)| == |s|
  {
    if |s| > 0 {
      var t := s[..|s| - 1];
      assert Distinct(t);
      DistinctCard(t);
      assert Elements(s) == Elements(t) + {s[|s| - 1]};
      assert s[|s| - 1] !in t;
    }
  }

  lemma ElementsOfPair<T>(a: T, b: T)
    ensures Elements([a, b]) == {a, b}
  {
  }

  /** The in-range neighbours of p on a w x h grid, in the order
      Field::restart() and open_cell_with_neighbours visit them: the column
      to the left top to bottom, then the cells above and below, then the
      column to the right top to bottom. Each direction is
      guarded by its own edge test; there is no wrap-around. */
  function Neighbours(w: nat, h: nat, p: Pos): seq<Pos>
    requires InBounds(w, h, p)
  {
    LeftColumn(h, p) + MiddleColumn(h, p) + RightColumn(w, h, p)
  }

  function LeftColumn(h: nat, p: Pos): seq<Pos> {
    var x, y := p.x, p.y;
    (if x > 0 && y > 0 then [Pos(x - 1, y - 1)] else [])
    + (if x > 0 then [Pos(x - 1, y)] else [])
    + (if x > 0 && y < h - 1 then [Pos(x - 1, y + 1)] else [])
  }

  function MiddleColumn(h: nat, p: Pos): seq<Pos> {
    var x, y := p.x, p.y;
    (if y > 0 then [Pos(x, y - 1)] else [])
    + (if y < h - 1 then [Pos(x, y + 1)] else [])
  }

  function RightColumn(w: nat, h: nat, p: Pos): seq<Pos> {
    var x, y := p.x, p.y;
    (if x < w - 1 && y > 0 then [Pos(x + 1, y - 1)] else [])
    + (if x < w - 1 then [Pos(x + 1, y)] else [])
    + (if x < w - 1 && y < h - 1 then [Pos(x + 1, y + 1)] else [])
  }

  /** The neighbour list holds exactly the in-range positions adjacent to p. */
  lemma NeighboursExact(w: nat, h: nat, p: Pos)
    requires InBounds(w, h, p)
    ensures forall q :: q in Neighbours(w, h, p) <==> InBounds(w, h, q) && Adjacent(p, q)
  {
    forall q
      ensures q in Neighbours(w, h, p) <==> InBounds(w, h, q) && Adjacent(p, q)
    {
      LeftColumnExact(h, p, q);
      MiddleColumnExact(h, p, q);
      RightColumnExact(w, h, p, q);
    }
  }

  /** The left column holds the in-range positions one column to the left
      and at most one row away. */
  lemma LeftColumnExact(h: nat, p: Pos, q: Pos)
    requires p.y < h
    ensures q in LeftColumn(h, p) <==> q.x + 1 == p.x && q.y < h && Gap(p.y, q.y) <= 1
  {
    var x, y := p.x, p.y;
    if q.x + 1 == x && q.y < h && Gap(y, q.y) <= 1 {
      if q.y + 1 == y { assert q == Pos(x - 1, y - 1); }
      else if q.y == y { assert q == Pos(x - 1, y); }
      else { assert q == Pos(x - 1, y + 1); }
    }
  }

  /** The middle entries are the in-range positions directly above and
      below. */
  lemma MiddleColumnExact(h: nat, p: Pos, q: Pos)
    requires p.y < h
    ensures q in MiddleColumn(h, p) <==> q.x == p.x && q.y < h && Gap(p.y, q.y) == 1
  {
    var x, y := p.x, p.y;
    if q.x == x && q.y < h && Gap(y, q.y) == 1 {
      if q.y + 1 == y { assert q == Pos(x, y - 1); }
      else { assert q == Pos(x, y + 1); }
    }
  }

  /** The right column holds the in-range positions one column to the right
      and at most one row away. */
  lemma RightColumnExact(w: nat, h: nat, p: Pos, q: Pos)
    requires p.x < w && p.y < h
    ensures q in RightColumn(w, h, p) <==> q.x == p.x + 1 && q.x < w && q.y < h && Gap(p.y, q.y) <= 1
  {
    var x, y := p.x, p.y;
    if q.x == x + 1 && q.x < w && q.y < h && Gap(y, q.y) <= 1 {
      if q.y + 1 == y { assert q == Pos(x + 1, y - 1); }
      else if q.y == y { assert q == Pos(x + 1, y); }
      else { assert q == Pos(x + 1, y + 1); }
    }
  }

  /** Up to three optional entries with pairwise different positions form a
      distinct sequence. */
  lemma DistinctOptionals(a: seq<Pos>, b: seq<Pos>, c: seq<Pos>)
    requires |a| <= 1 && |b| <= 1 && |c| <= 1
    requires forall q, r :: q in a && r in b ==> q != r
    requires forall q, r :: q in a && r in c ==> q != r
    requires forall q, r :: q in b && r in c ==> q != r
    ensures Distinct(a + b + c)
  {
    DistinctConcat(a, b);
    DistinctConcat(a + b, c);
  }

  lemma LeftColumnDistinct(h: nat, p: Pos)
    ensures Distinct(LeftColumn(h, p)) && |LeftColumn(h, p)| <= 3
    ensures forall q :: q in LeftColumn(h, p) ==> q.x + 1 == p.x
  {
    var x, y := p.x, p.y;
    DistinctOptionals(
      (if x > 0 && y > 0 then [Pos(x - 1, y - 1)] else []),
      (if x > 0 then [Pos(x - 1, y)] else []),
      (if x > 0 && y < h - 1 then [Pos(x - 1, y + 1)] else []));
  }

  lemma MiddleColumnDistinct(h: nat, p: Pos)
    ensures Distinct(MiddleColumn(h, p)) && |MiddleColumn(h, p)| <= 2
    ensures forall q :: q in MiddleColumn(h, p) ==> q.x == p.x
  {
    var x, y := p.x, p.y;
    DistinctConcat(
      (if y > 0 then [Pos(x, y - 1)] else []),
      (if y < h - 1 then [Pos(x, y + 1)] else []));
  }

  lemma RightColumnDistinct(w: nat, h: nat, p: Pos)
    ensures Distinct(RightColumn(w, h, p)) && |RightColumn(w, h, p)| <= 3
    ensures forall q :: q in RightColumn(w, h, p) ==> q.x == p.x + 1
  {
    var x, y := p.x, p.y;
    DistinctOptionals(
      (if x < w - 1 && y > 0 then [Pos(x + 1, y - 1)] else []),
      (if x < w - 1 then [Pos(x + 1, y)] else []),
      (if x < w - 1 && y < h - 1 then [Pos(x + 1, y + 1)] else []));
  }

  /** No neighbour is listed twice, and there are at most eight. */
  lemma NeighboursDistinct(w: nat, h: nat, p: Pos)
    requires InBounds(w, h, p)
    ensures Distinct(Neighbours(w, h, p))
    ensures |Neighbours(w, h, p)| <= 8
  {
    var left, middle, right := LeftColumn(h, p), MiddleColumn(h, p), RightColumn(w, h, p);
    LeftColumnDistinct(h, p);
    MiddleColumnDistinct(h, p);
    RightColumnDistinct(w, h, p);
    DistinctConcat(left, middle);
    DistinctConcat(left + middle, right);
  }

  /** The coordinate list built before mine placement: columns left to
      right, each column top to bottom. It holds every position of the grid
      exactly once. */
  function Coordinates(w: nat, h: nat): (r: seq<Pos>)
    ensures |r| == w * h
    ensures forall q :: q in r <==> InBounds(w, h, q)
    ensures Distinct(r)
  {
    if w == 0 then []
    else
      var column := seq(h, y requires 0 <= y < h => Pos(w - 1, y));
      var left := Coordinates(w - 1, h);
      assert forall q :: q in column ==> q.x == w - 1 && q.y < h;
      assert forall q :: InBounds(w, h, q) && q.x == w - 1 ==> q == column[q.y];
      DistinctConcat(left, column);
      left + column
  }
}
