/**
 * Board geometry shared by every component: the fixed 20 x 14 grid, the
 * object-type and direction enumerations, cell coordinates, and the
 * neighbour relation that `BoardView::initNextTable` tabulates.
 */
module Grid {

  const MAP_W: int := 20
  const MAP_H: int := 14
  const MAP_SIZE: int := MAP_W * MAP_H

  datatype Option<T> = None | Some(value: T)

  /** `ObjectType`, in the declaration order of the C++ enum (its `_ALL` count is left out). */
  datatype ObjectType =
    | Empty | Wall | Ice | Fire | Recycler | IceGold | Magician
    | Unimplemented | ArUp | ArDown | ArLeft | ArRight | Dispenser | Unknown
  {
    /** The value `static_cast<int>` gives this enumerator. */
    function Ordinal(): nat
    {
      match this
      case Empty => 0
      case Wall => 1
      case Ice => 2
      case Fire => 3
      case Recycler => 4
      case IceGold => 5
      case Magician => 6
      case Unimplemented => 7
      case ArUp => 8
      case ArDown => 9
      case ArLeft => 10
      case ArRight => 11
      case Dispenser => 12
      case Unknown => 13
    }
  }

  /** `Direction`, in the declaration order of the C++ enum. */
  datatype Direction = Up | Down | Left | Right
  {
    /** The value `static_cast<int>` gives this enumerator: the row of `moveDest`, the column of `next`. */
    function Index(): nat
    {
      match this
      case Up => 0
      case Down => 1
      case Left => 2
      case Right => 3
    }

    predicate Horizontal()
    {
      this == Left || this == Right
    }

    function Opposite(): Direction
    {
      match this
      case Up => Down
      case Down => Up
      case Left => Right
      case Right => Left
    }

    /** The change of cell index for one step in this direction. */
    function Delta(): int
    {
      match this
      case Up => -MAP_W
      case Down => MAP_W
      case Left => -1
      case Right => 1
    }
  }

  predicate InBoard(p: int)
  {
    0 <= p < MAP_SIZE
  }

  function Row(p: int): int
  {
    p / MAP_W
  }

  function Col(p: int): int
  {
    p % MAP_W
  }

  /** The cell at row `r`, column `c` has exactly those coordinates. */
  lemma CoordsOf(r: int, c: int)
    requires 0 <= c < MAP_W
    ensures Row(r * MAP_W + c) == r && Col(r * MAP_W + c) == c
  {
    var p := r * MAP_W + c;
    assert p == MAP_W * Row(p) + Col(p) && 0 <= Col(p) < MAP_W;
  }

  /** A cell is determined by its coordinates. */
  lemma CoordsDetermine(a: int, b: int)
    requires Row(a) == Row(b) && Col(a) == Col(b)
    ensures a == b
  {
    assert a == MAP_W * Row(a) + Col(a);
    assert b == MAP_W * Row(b) + Col(b);
  }

  lemma InBoardCoords(p: int)
    requires InBoard(p)
    ensures 0 <= Row(p) < MAP_H && 0 <= Col(p) < MAP_W
  {
    assert p == MAP_W * Row(p) + Col(p);
  }

  /**
   * The neighbour of `p` one step in direction `d`, or -1 when that step
   * leaves the board: the value `initNextTable` stores in `next[p][d]`.
   * A neighbour is a board cell one step of `d.Delta()` away.
   */
  function Neighbor(p: int, d: Direction): (q: int)
    requires InBoard(p)
    ensures q == -1 || (InBoard(q) && q == p + d.Delta())
  {
    match d
    case Up => if Row(p) != 0 then p - MAP_W else -1
    case Down => if Row(p) != MAP_H - 1 then p + MAP_W else -1
    case Left => if Col(p) != 0 then p - 1 else -1
    case Right => if Col(p) != MAP_W - 1 then p + 1 else -1
  }

  /** `a` and `b` lie on one line of direction `d`: one row for LEFT/RIGHT, one column for UP/DOWN. */
  predicate SameLine(d: Direction, a: int, b: int)
  {
    if d.Horizontal() then Row(a) == Row(b) else Col(a) == Col(b)
  }

  /** `a` lies strictly further than `b` in direction `d` (on a common line, the cell index order). */
  predicate Ahead(d: Direction, a: int, b: int)
  {
    if d.Delta() < 0 then a < b else a > b
  }

  /** The number of steps from `p` to the board edge in direction `d`. */
  function EdgeDist(d: Direction, p: int): int
  {
    match d
    case Up => Row(p)
    case Down => MAP_H - 1 - Row(p)
    case Left => Col(p)
    case Right => MAP_W - 1 - Col(p)
  }

  /**
   * A step in direction `d` stays on the board exactly when it does not
   * cross the edge; it then moves by `d.Delta()` along `p`'s line, one step
   * closer to the edge.
   */
  lemma NeighborStep(p: int, d: Direction)
    requires InBoard(p)
    ensures EdgeDist(d, p) >= 0
    ensures Neighbor(p, d) == -1 <==> EdgeDist(d, p) == 0
    ensures Neighbor(p, d) != -1 ==>
      var q := Neighbor(p, d);
      && q == p + d.Delta() && InBoard(q)
      && SameLine(d, q, p) && Ahead(d, q, p)
      && EdgeDist(d, q) == EdgeDist(d, p) - 1
  {
    InBoardCoords(p);
    var r, c := Row(p), Col(p);
    assert p == r * MAP_W + c;
    match d
    case Up =>
      if r != 0 { CoordsOf(r - 1, c); assert p - MAP_W == (r - 1) * MAP_W + c; }
    case Down =>
      if r != MAP_H - 1 { CoordsOf(r + 1, c); assert p + MAP_W == (r + 1) * MAP_W + c; }
    case Left =>
      if c != 0 { CoordsOf(r, c - 1); }
    case Right =>
      if c != MAP_W - 1 { CoordsOf(r, c + 1); }
  }

  /** Every entry of the neighbour table other than -1 is a cell of the board on `p`'s line. */
  lemma NeighborInRange(p: int, d: Direction)
    requires InBoard(p)
    ensures Neighbor(p, d) != -1 ==> InBoard(Neighbor(p, d)) && SameLine(d, Neighbor(p, d), p)
  {
    NeighborStep(p, d);
  }

  /** Opposite directions undo each other: `next[next[p][d]][opposite d] == p`. */
  lemma NeighborInverse(p: int, d: Direction)
    requires InBoard(p) && Neighbor(p, d) != -1
    ensures Neighbor(Neighbor(p, d), d.Opposite()) == p
  {
    InBoardCoords(p);
    var r, c := Row(p), Col(p);
    assert p == r * MAP_W + c;
    match d
    case Up => CoordsOf(r - 1, c); assert p - MAP_W == (r - 1) * MAP_W + c;
    case Down => CoordsOf(r + 1, c); assert p + MAP_W == (r + 1) * MAP_W + c;
    case Left => CoordsOf(r, c - 1);
    case Right => CoordsOf(r, c + 1);
  }

  /**
   * On a common line, a cell strictly ahead of `p` in direction `d` is
   * either `p`'s neighbour or strictly ahead of that neighbour.
   */
  lemma AheadOnLine(d: Direction, x: int, p: int)
    requires InBoard(p) && InBoard(x) && SameLine(d, x, p) && Ahead(d, x, p)
    ensures Neighbor(p, d) != -1
    ensures x == Neighbor(p, d) || Ahead(d, x, Neighbor(p, d))
    ensures EdgeDist(d, x) < EdgeDist(d, p)
  {
    InBoardCoords(p);
    InBoardCoords(x);
    assert x == MAP_W * Row(x) + Col(x);
    assert p == MAP_W * Row(p) + Col(p);
    if d.Horizontal() {
      assert x - p == Col(x) - Col(p);
    } else {
      assert x - p == MAP_W * (Row(x) - Row(p));
      if d == Up { assert Row(x) < Row(p); } else { assert Row(x) > Row(p); }
    }
    NeighborStep(p, d);
  }
}
