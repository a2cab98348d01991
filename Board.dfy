/**
 * The static board configuration (`BoardConfigration`) and its
 * preprocessing: the fire-index table and the per-direction slide
 * destinations.
 */
module Board {
  import opened Grid

  /** The value a signed `char` holds after `i` is stored into it (two's complement wrap-around). */
  function SignedChar(i: int): (r: int)
    ensures -128 <= r < 128
    ensures -128 <= i < 128 ==> r == i
  {
    (i + 128) % 256 - 128
  }

  /** The last index at which `p` occurs in `s`, if any. */
  function LastIndex(s: seq<int>, p: int): (r: Option<nat>)
    ensures r.None? <==> p !in s
    ensures r.Some? ==> r.value < |s| && s[r.value] == p && forall j :: r.value < j < |s| ==> s[j] != p
  {
    if |s| == 0 then None
    else if s[|s| - 1] == p then Some(|s| - 1)
    else
      assert s == s[..|s| - 1] + [s[|s| - 1]];
      LastIndex(s[..|s| - 1], p)
  }

  /**
   * What `computeFireToIndex` leaves in `fireToIndex[p]`: -1 for a cell
   * that is not a fire, otherwise the (char-wrapped) index of the last
   * entry of `fires` naming it. With at most 128 fires no index wraps, so
   * the entry of a fire cell is the position of its last occurrence.
   */
  function FireIndex(fires: seq<int>, p: int): (r: int)
    ensures -128 <= r < 128
    ensures p !in fires ==> r == -1
    ensures p in fires && |fires| <= 128 ==>
      0 <= r < |fires| && fires[r] == p && forall j :: r < j < |fires| ==> fires[j] != p
  {
    match LastIndex(fires, p)
    case None => -1
    case Some(i) => SignedChar(i)
  }

  /**
   * For a fire list without repetitions and of at most 128 entries the
   * table inverts the list: each fire maps to its own index, every other
   * cell to -1.
   */
  lemma FireIndexInverts(fires: seq<int>, i: int, p: int)
    requires forall a, b :: 0 <= a < b < |fires| ==> fires[a] != fires[b]
    requires |fires| <= 128
    ensures 0 <= i < |fires| ==> FireIndex(fires, fires[i]) == i
    ensures p !in fires ==> FireIndex(fires, p) == -1
  {
  }

  // ---------------------------------------------------------------- slides

  /** A slide from `p` in direction `d` cannot take even one step: the edge or a wall is next. */
  predicate Blocked(m: seq<ObjectType>, d: Direction, p: int)
    requires |m| == MAP_SIZE && InBoard(p)
  {
    NeighborInRange(p, d);
    Neighbor(p, d) == -1 || m[Neighbor(p, d)] == Wall
  }

  /**
   * The cell where a slide from `p` in direction `d` over the static map
   * first stops: the nearest non-empty, non-wall cell, or the last cell
   * before a wall or the edge.
   */
  function Slide(m: seq<ObjectType>, d: Direction, p: int): (r: int)
    requires |m| == MAP_SIZE && InBoard(p)
    ensures InBoard(r) && SameLine(d, r, p) && (r == p || Ahead(d, r, p))
    ensures r != p ==> m[r] != Wall
    ensures m[p] != Wall ==> m[r] != Wall
    decreases EdgeDist(d, p)
  {
    NeighborStep(p, d);
    var q := Neighbor(p, d);
    if q == -1 || m[q] == Wall then p
    else if m[q] != Empty then q
    else Slide(m, d, q)
  }

  /** Every cell strictly between `p` and the end of its slide is EMPTY. */
  lemma {:induction false} SlideGap(m: seq<ObjectType>, d: Direction, p: int, x: int)
    requires |m| == MAP_SIZE && InBoard(p) && InBoard(x)
    requires SameLine(d, x, p) && Ahead(d, x, p) && Ahead(d, Slide(m, d, p), x)
    ensures m[x] == Empty
    decreases EdgeDist(d, p)
  {
    NeighborStep(p, d);
    var q := Neighbor(p, d);
    AheadOnLine(d, x, p);
    if x != q {
      SlideGap(m, d, q, x);
    }
  }

  /**
   * A slide stays put exactly when it is blocked at once; otherwise it ends
   * on a non-empty static cell or just before a wall or the edge.
   */
  lemma {:induction false} SlideStop(m: seq<ObjectType>, d: Direction, p: int)
    requires |m| == MAP_SIZE && InBoard(p)
    ensures Slide(m, d, p) == p <==> Blocked(m, d, p)
    ensures var r := Slide(m, d, p);
      r != p ==> (m[r] != Empty && m[r] != Wall) || Blocked(m, d, r)
    decreases EdgeDist(d, p)
  {
    NeighborStep(p, d);
    var q := Neighbor(p, d);
    if q != -1 && m[q] == Empty {
      SlideStop(m, d, q);
    }
  }

  /**
   * The entry `computeMoveDest` stores in `moveDest[d][p]`: -1 on a wall,
   * else the slide's stop, a non-wall board cell on `p`'s line at or
   * beyond `p`.
   */
  function MoveDestOf(m: seq<ObjectType>, d: Direction, p: int): (r: int)
    requires |m| == MAP_SIZE && InBoard(p)
    ensures r == -1 <==> m[p] == Wall
    ensures r != -1 ==> InBoard(r) && m[r] != Wall && SameLine(d, r, p) && (r == p || Ahead(d, r, p))
  {
    if m[p] == Wall then -1 else Slide(m, d, p)
  }

  /**
   * The table's meaning: -1 exactly at walls; elsewhere a cell on `p`'s
   * line, at or beyond `p` in direction `d`, with only EMPTY cells strictly
   * between the two.
   */
  lemma MoveDestMeaning(m: seq<ObjectType>, d: Direction, p: int, x: int)
    requires |m| == MAP_SIZE && InBoard(p)
    ensures MoveDestOf(m, d, p) == -1 <==> m[p] == Wall
    ensures m[p] != Wall ==>
      var r := MoveDestOf(m, d, p);
      && InBoard(r) && m[r] != Wall && SameLine(d, r, p) && (r == p || Ahead(d, r, p))
      && (InBoard(x) && SameLine(d, x, p) && Ahead(d, x, p) && Ahead(d, r, x) ==> m[x] == Empty)
  {
    if m[p] != Wall && InBoard(x) && SameLine(d, x, p) && Ahead(d, x, p) && Ahead(d, Slide(m, d, p), x) {
      SlideGap(m, d, p, x);
    }
  }

  // ------------------------------------------------------------ scan lines

  /** The number of scan lines for direction `d` (rows for LEFT/RIGHT, columns for UP/DOWN). */
  function LineCount(d: Direction): int
  {
    if d.Horizontal() then MAP_H else MAP_W
  }

  function LineLen(d: Direction): int
  {
    if d.Horizontal() then MAP_W else MAP_H
  }

  /** The scan line of direction `d` through `p`. */
  function LineOf(d: Direction, p: int): int
  {
    if d.Horizontal() then Row(p) else Col(p)
  }

  /**
   * The `j`-th cell `computeMoveDest` visits on a scan line: the scan starts
   * at the edge the slide runs toward and walks against direction `d`.
   */
  function LineCell(d: Direction, line: int, j: int): int
  {
    match d
    case Left => line * MAP_W + j
    case Right => line * MAP_W + (MAP_W - 1 - j)
    case Up => j * MAP_W + line
    case Down => (MAP_H - 1 - j) * MAP_W + line
  }

  lemma LineCellFacts(d: Direction, line: int, j: int)
    requires 0 <= line < LineCount(d) && 0 <= j < LineLen(d)
    ensures var c := LineCell(d, line, j);
      && InBoard(c) && LineOf(d, c) == line && EdgeDist(d, c) == j
      && (j == 0 ==> Neighbor(c, d) == -1)
      && (j > 0 ==> Neighbor(c, d) == LineCell(d, line, j - 1))
      && c - d.Delta() == LineCell(d, line, j + 1)
  {
    match d
    case Left => CoordsOf(line, j);
    case Right => CoordsOf(line, MAP_W - 1 - j);
    case Up => CoordsOf(j, line);
    case Down => CoordsOf(MAP_H - 1 - j, line);
  }

  /**
   * A slide from the `j+1`-th cell of a scan line first meets the `j`-th
   * cell: it stops before it if it is a wall, at it if it is any other
   * non-empty cell, and otherwise goes on as a slide from it.
   */
  lemma SlideFromNext(m: seq<ObjectType>, d: Direction, line: int, j: int)
    requires |m| == MAP_SIZE && 0 <= line < LineCount(d) && 0 <= j && j + 1 < LineLen(d)
    ensures var pos := LineCell(d, line, j);
      var q := LineCell(d, line, j + 1);
      && InBoard(pos) && InBoard(q) && q == pos - d.Delta()
      && Slide(m, d, q) == if m[pos] == Wall then q else if m[pos] != Empty then pos else Slide(m, d, pos)
  {
    LineCellFacts(d, line, j);
    LineCellFacts(d, line, j + 1);
  }

  /** The cells of one scan line are distinct cells of the board, on that line, at their scan distance from the edge. */
  lemma LineCells(d: Direction, line: int)
    requires 0 <= line < LineCount(d)
    ensures forall j :: 0 <= j < LineLen(d) ==>
      InBoard(LineCell(d, line, j)) && LineOf(d, LineCell(d, line, j)) == line && EdgeDist(d, LineCell(d, line, j)) == j
  {
    forall j | 0 <= j < LineLen(d)
      ensures InBoard(LineCell(d, line, j)) && LineOf(d, LineCell(d, line, j)) == line && EdgeDist(d, LineCell(d, line, j)) == j
    {
      LineCellFacts(d, line, j);
    }
  }

  lemma LineCellOnto(d: Direction, p: int)
    requires InBoard(p)
    ensures 0 <= LineOf(d, p) < LineCount(d) && 0 <= EdgeDist(d, p) < LineLen(d)
    ensures LineCell(d, LineOf(d, p), EdgeDist(d, p)) == p
  {
    InBoardCoords(p);
    var c := LineCell(d, LineOf(d, p), EdgeDist(d, p));
    LineCellFacts(d, LineOf(d, p), EdgeDist(d, p));
    assert Row(c) == Row(p) && Col(c) == Col(p) by {
      match d
      case Left => CoordsOf(Row(p), Col(p));
      case Right => CoordsOf(Row(p), Col(p));
      case Up => CoordsOf(Row(p), Col(p));
      case Down => CoordsOf(Row(p), Col(p));
    }
    CoordsDetermine(c, p);
  }

  /**
   * The offsets visited by `for (offs = start; offs > stop; offs -= step)`,
   * the loop header of the RIGHT and DOWN scans as written.
   */
  function LoopOffsets(start: int, step: int, stop: int): (r: seq<int>)
    requires step > 0
    ensures forall k :: 0 <= k < |r| ==> stop < r[k] <= start
    ensures start > stop ==> |r| > 0 && r[0] == start
    decreases start - stop
  {
    if start <= stop then [] else [start] + LoopOffsets(start - step, step, stop)
  }

  /** As written, the RIGHT scan of a row never visits offset 0, the row's first column. */
  lemma RightScanSkipsColumnZero()
    ensures 0 !in LoopOffsets(MAP_W - 1, 1, 0)
  {
  }

  /**
   * As written, the DOWN scan of column `base` first visits `base + MAP_SIZE`,
   * a cell off the board, and never visits offset 0, the column's top cell.
   */
  lemma DownScanStartsOffBoard(base: int)
    requires 0 <= base < MAP_W
    ensures var offs := LoopOffsets(MAP_SIZE, MAP_W, 0);
      |offs| > 0 && !InBoard(base + offs[0]) && 0 !in offs
  {
  }

  // ----------------------------------------------------------------- class

  /** `BoardConfigration`: the static level data and its preprocessed tables. */
  class BoardConfiguration {
    var fires: seq<int>
    var iceType: seq<int>
    const cells: array<ObjectType>  // `map` in the source
    const fireToIndex: array<int>
    const moveDest: array2<int>

    ghost predicate Shaped()
      reads this
    {
      cells.Length == MAP_SIZE && fireToIndex.Length == MAP_SIZE
      && moveDest.Length0 == 4 && moveDest.Length1 == MAP_SIZE
    }

    /** `fireToIndex` holds what `computeFireToIndex` computes from `fires`. */
    ghost predicate FireIndexed()
      requires Shaped()
      reads this, fireToIndex
    {
      forall p :: 0 <= p < MAP_SIZE ==> fireToIndex[p] == FireIndex(fires, p)
    }

    /** `moveDest` holds what `computeMoveDest` computes from `map`. */
    ghost predicate MoveDestComputed()
      requires Shaped()
      reads this, cells, moveDest
    {
      forall d: Direction, p :: 0 <= p < MAP_SIZE ==> moveDest[d.Index(), p] == MoveDestOf(cells[..], d, p)
    }

    /** `BoardConfigration board {}`: empty lists and all-zero tables (an all-EMPTY map). */
    constructor ()
      ensures Shaped() && fires == [] && iceType == []
      ensures fresh(cells) && fresh(fireToIndex) && fresh(moveDest)
      ensures forall p :: 0 <= p < MAP_SIZE ==> cells[p] == Empty && fireToIndex[p] == 0
      ensures forall k, p :: 0 <= k < 4 && 0 <= p < MAP_SIZE ==> moveDest[k, p] == 0
    {
      fires := [];
      iceType := [];
      cells := new ObjectType[MAP_SIZE](_ => Empty);
      fireToIndex := new int[MAP_SIZE](_ => 0);
      moveDest := new int[4, MAP_SIZE]((_, _) => 0);
    }

    /** `preprocess`: both tables, from the loaded `fires` and `map`. */
    method Preprocess()
      requires Shaped()
      requires forall i :: 0 <= i < |fires| ==> InBoard(fires[i])
      modifies fireToIndex, moveDest
      ensures FireIndexed() && MoveDestComputed()
    {
      ComputeFireToIndex();
      ComputeMoveDest();
    }

    /** `computeFireToIndex`: clear the table, then record the index of every fire. */
    method ComputeFireToIndex()
      requires Shaped()
      requires forall i :: 0 <= i < |fires| ==> InBoard(fires[i])
      modifies fireToIndex
      ensures FireIndexed()
    {
      for i := 0 to MAP_SIZE
        invariant forall p :: 0 <= p < i ==> fireToIndex[p] == -1
      {
        fireToIndex[i] := -1;
      }
      for i := 0 to |fires|
        invariant forall p :: 0 <= p < MAP_SIZE ==> fireToIndex[p] == FireIndex(fires[..i], p)
      {
        assert fires[..i + 1][..i] == fires[..i];
        fireToIndex[fires[i]] := SignedChar(i);
      }
      assert fires[..|fires|] == fires;
    }

    /** `computeMoveDest`: the LEFT, RIGHT, UP and DOWN scans, in that order. */
    method ComputeMoveDest()
      requires Shaped()
      modifies moveDest
      ensures MoveDestComputed()
    {
      FillDirection(Left);
      FillDirection(Right);
      FillDirection(Up);
      FillDirection(Down);
    }

    /** The outer loop of one scan: every line of direction `d`. */
    method FillDirection(d: Direction)
      requires Shaped()
      modifies moveDest
      ensures forall p :: 0 <= p < MAP_SIZE ==> moveDest[d.Index(), p] == MoveDestOf(cells[..], d, p)
      ensures forall k, p :: 0 <= k < 4 && k != d.Index() && 0 <= p < MAP_SIZE ==>
        moveDest[k, p] == old(moveDest[k, p])
    {
      for line := 0 to LineCount(d)
        invariant forall p :: 0 <= p < MAP_SIZE && LineOf(d, p) < line ==>
          moveDest[d.Index(), p] == MoveDestOf(cells[..], d, p)
        invariant forall k, p :: 0 <= k < 4 && 0 <= p < MAP_SIZE && !(k == d.Index() && LineOf(d, p) < line) ==>
          moveDest[k, p] == old(moveDest[k, p])
      {
        FillLine(d, line);
      }
      forall p | 0 <= p < MAP_SIZE
        ensures moveDest[d.Index(), p] == MoveDestOf(cells[..], d, p)
      {
        LineCellOnto(d, p);
      }
    }

    /**
     * The inner loop of one scan, `LOOP_BODY` on each cell of the line in
     * scan order: `bound` is where a slide into the cells seen so far stops.
     * A wall gets -1 and moves `bound` to the cell after it; any other cell
     * gets `bound`, and a non-empty one becomes the new `bound`.
     */
    method FillLine(d: Direction, line: int)
      requires Shaped() && 0 <= line < LineCount(d)
      modifies moveDest
      ensures forall p :: 0 <= p < MAP_SIZE && LineOf(d, p) == line ==>
        moveDest[d.Index(), p] == MoveDestOf(cells[..], d, p)
      ensures forall k, p :: 0 <= k < 4 && 0 <= p < MAP_SIZE && !(k == d.Index() && LineOf(d, p) == line) ==>
        moveDest[k, p] == old(moveDest[k, p])
    {
      FillCells(d, line);
      forall p | 0 <= p < MAP_SIZE && LineOf(d, p) == line
        ensures moveDest[d.Index(), p] == MoveDestOf(cells[..], d, p)
      {
        LineCellOnto(d, p);
      }
    }

    /** The loop of `FillLine`, cell by cell in scan order. */
    method FillCells(d: Direction, line: int)
      requires Shaped() && 0 <= line < LineCount(d)
      modifies moveDest
      ensures LineFilled(d, line, LineLen(d))
      ensures forall k, p :: 0 <= k < 4 && 0 <= p < MAP_SIZE && !(k == d.Index() && LineOf(d, p) == line) ==>
        moveDest[k, p] == old(moveDest[k, p])
    {
      ghost var m := cells[..];
      LineCells(d, line);
      var bound := LineCell(d, line, 0);
      for j := 0 to LineLen(d)
        invariant j < LineLen(d) ==> bound == Slide(m, d, LineCell(d, line, j))
        invariant LineFilled(d, line, j)
        invariant forall k, p ::
          (0 <= k < 4 && 0 <= p < MAP_SIZE && !(k == d.Index() && LineOf(d, p) == line && EdgeDist(d, p) < j)) ==>
          moveDest[k, p] == old(moveDest[k, p])
      {
        LineCellFacts(d, line, j);
        bound := LoopBody(d, line, j, bound);
      }
    }

    /** The first `j` cells of the scan line hold their stops. */
    ghost predicate LineFilled(d: Direction, line: int, j: int)
      requires Shaped() && 0 <= line < LineCount(d) && j <= LineLen(d)
      reads this, cells, moveDest
    {
      forall i :: 0 <= i < j ==>
        (LineCellFacts(d, line, i);
         moveDest[d.Index(), LineCell(d, line, i)] == MoveDestOf(cells[..], d, LineCell(d, line, i)))
    }

    /**
     * `LOOP_BODY` for the `j`-th cell of the line: store the stop of a slide
     * from that cell and move `bound` on to the stop for the next cell.
     */
    method LoopBody(d: Direction, line: int, j: int, bound: int) returns (next: int)
      requires Shaped() && 0 <= line < LineCount(d) && 0 <= j < LineLen(d)
      requires bound == Slide(cells[..], d, LineCell(d, line, j))
      requires LineFilled(d, line, j)
      modifies moveDest
      ensures LineFilled(d, line, j + 1)
      ensures forall k, p :: 0 <= k < 4 && 0 <= p < MAP_SIZE && !(k == d.Index() && p == LineCell(d, line, j)) ==>
        moveDest[k, p] == old(moveDest[k, p])
      ensures j + 1 < LineLen(d) ==> next == Slide(cells[..], d, LineCell(d, line, j + 1))
    {
      var step := -d.Delta();
      var pos := LineCell(d, line, j);
      LineCellFacts(d, line, j);
      LineCells(d, line);
      if j + 1 < LineLen(d) {
        SlideFromNext(cells[..], d, line, j);
      }
      if cells[pos] == Wall {
        moveDest[d.Index(), pos] := -1;
        next := pos + step;
      } else {
        moveDest[d.Index(), pos] := bound;
        next := if cells[pos] != Empty then pos else bound;
      }
    }
  }
}
