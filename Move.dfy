/**
 * `moveToward`: where a pushed ice block stops. The slide follows
 * `moveDest`, passes through fires that are already cleared, and is then
 * cut short by the nearest other ice block in its way.
 */
module Move {
  import opened Grid
  import opened Board
  import opened StateChain

  /** Cell `p` holds a fire whose index is in `cleared`, read through `fireToIndex` as the source does. */
  predicate ClearedFireAt(board: BoardConfiguration, cleared: set<nat>, p: int)
    requires board.Shaped() && InBoard(p)
    reads board, board.fireToIndex
  {
    board.fireToIndex[p] >= 0 && board.fireToIndex[p] as nat in cleared
  }

  /** A slide may run over `p`: an empty static cell or a cleared fire. */
  predicate Passable(board: BoardConfiguration, cleared: set<nat>, p: int)
    requires board.Shaped() && InBoard(p)
    reads board, board.cells, board.fireToIndex
  {
    board.cells[p] == Empty || ClearedFireAt(board, cleared, p)
  }

  /**
   * `c` is where the first loop of `moveToward` leaves a slide from `o`:
   * on `o`'s line at or beyond it, every cell strictly between is passable,
   * and `c` is blocked (a wall or the edge next) or is a non-empty cell other
   * than a cleared fire.
   */
  ghost predicate ThroughStop(board: BoardConfiguration, cleared: set<nat>, d: Direction, o: int, c: int)
    requires board.Shaped() && InBoard(o)
    reads board, board.cells, board.fireToIndex
  {
    && InBoard(c) && board.cells[c] != Wall
    && SameLine(d, c, o) && (c == o || Ahead(d, c, o))
    && (forall x :: InBoard(x) && SameLine(d, x, o) && Ahead(d, x, o) && Ahead(d, c, x) ==>
          Passable(board, cleared, x))
    && (Blocked(board.cells[..], d, c) || (c != o && board.cells[c] != Empty && !ClearedFireAt(board, cleared, c)))
  }

  /**
   * The first loop of `moveToward`: follow `moveDest` from `o` for as long
   * as the slide ends on a cleared fire.
   */
  method PassThrough(board: BoardConfiguration, cleared: set<nat>, d: Direction, o: int) returns (c: int)
    requires board.Shaped() && board.MoveDestComputed()
    requires InBoard(o) && board.cells[o] != Wall
    ensures ThroughStop(board, cleared, d, o, c)
  {
    ghost var m := board.cells[..];
    c := o;
    while true
      invariant InBoard(c) && m[c] != Wall
      invariant SameLine(d, c, o) && (c == o || Ahead(d, c, o))
      invariant c == o || ClearedFireAt(board, cleared, c)
      invariant forall x :: InBoard(x) && SameLine(d, x, o) && Ahead(d, x, o) && Ahead(d, c, x) ==>
        Passable(board, cleared, x)
      decreases EdgeDist(d, c)
    {
      var newPos := board.moveDest[d.Index(), c];
      assert newPos == Slide(m, d, c);
      SlideStop(m, d, c);
      if newPos == c {
        assert ThroughStop(board, cleared, d, o, c);
        break;
      }
      ghost var prev := c;
      AheadOnLine(d, newPos, prev);
      forall x | InBoard(x) && SameLine(d, x, o) && Ahead(d, x, o) && Ahead(d, newPos, x)
        ensures Passable(board, cleared, x)
      {
        if Ahead(d, prev, x) {
        } else if x == prev {
        } else {
          SlideGap(m, d, prev, x);
        }
      }
      c := newPos;
      var fidx := board.fireToIndex[c];
      if !(fidx >= 0 && fidx as nat in cleared) {
        assert ThroughStop(board, cleared, d, o, c);
        break;
      }
    }
  }

  /**
   * The second loop of `moveToward`: every other ice block on the line
   * between the candidate `c0` and the start `o` pulls the candidate back to
   * the cell just behind it. The result is the cell behind the nearest such
   * block (or `c0` when there is none); an ice block on `c0` itself counts
   * (`b >= posCand`, where the source tests `b > posCand`). The four
   * direction branches of the source differ only in the line test and the
   * sign of the step and are one loop here.
   */
  method LimitByIces(ices: seq<int>, d: Direction, c0: int, o: int) returns (r: int)
    requires InBoard(o) && InBoard(c0) && SameLine(d, c0, o) && (c0 == o || Ahead(d, c0, o))
    ensures InBoard(r) && SameLine(d, r, o) && (r == o || Ahead(d, r, o))
    ensures r == c0 || Ahead(d, c0, r)
    ensures forall j :: 0 <= j < |ices| && SameLine(d, ices[j], o) && Ahead(d, ices[j], o) ==> Ahead(d, ices[j], r)
    ensures r == c0 || exists j :: 0 <= j < |ices| && ices[j] == r + d.Delta()
  {
    r := c0;
    for k := 0 to |ices|
      invariant InBoard(r) && SameLine(d, r, o) && (r == o || Ahead(d, r, o))
      invariant r == c0 || Ahead(d, c0, r)
      invariant forall j ::
        (0 <= j < k && SameLine(d, ices[j], o) && Ahead(d, ices[j], o)
         && (ices[j] == c0 || Ahead(d, c0, ices[j]))) ==> Ahead(d, ices[j], r)
      invariant r == c0 || exists j :: 0 <= j < k && ices[j] == r + d.Delta()
    {
      var b := ices[k];
      var limits := if d.Delta() < 0 then r <= b < o else o < b <= r;
      if SameLine(d, b, c0) && limits {
        LimitStep(d, b, r, o);
        r := b - d.Delta();
      }
    }
  }

  /**
   * `moveToward(board, s, idx, d)`: the cell ice `idx` reaches when pushed
   * in direction `d`, over the latest-move layout of the chain. The ghost
   * result `stop` is the candidate before the other ice blocks are taken
   * into account: the slide ends at `stop` (`ThroughStop`), the result lies
   * between the start and `stop`, no other ice block stands on the result
   * or between it and the start, and unless the result is `stop` an ice
   * block stands on the next cell.
   */
  method MoveToward(board: BoardConfiguration, s: State, idx: nat, d: Direction) returns (posCand: int, ghost stop: int)
    requires board.Shaped() && board.MoveDestComputed()
    requires WellFormed(s) && idx < IceCount(s)
    requires InBoard(IcePositionsLatest(s)[idx]) && board.cells[IcePositionsLatest(s)[idx]] != Wall
    ensures var ices := IcePositionsLatest(s);
      var o := ices[idx];
      && InBoard(posCand) && SameLine(d, posCand, o) && (posCand == o || Ahead(d, posCand, o))
      && (forall j :: 0 <= j < |ices| && SameLine(d, ices[j], o) && Ahead(d, ices[j], o) ==>
            ices[j] != posCand && !Ahead(d, posCand, ices[j]))
    ensures var o := IcePositionsLatest(s)[idx];
      && ThroughStop(board, s.clearedFires, d, o, stop)
      && (posCand == stop || Ahead(d, stop, posCand))
      && (posCand == stop || exists j :: 0 <= j < |IcePositionsLatest(s)| && IcePositionsLatest(s)[j] == posCand + d.Delta())
  {
    var ices := IcePositionsLatest(s);
    var posOrig := ices[idx];
    var c0 := PassThrough(board, s.clearedFires, d, posOrig);
    stop := c0;
    posCand := LimitByIces(ices, d, c0, posOrig);
  }

  /** Stepping back from an ice block `b` that stands between `c` and `o` keeps the candidate on the span. */
  lemma LimitStep(d: Direction, b: int, c: int, o: int)
    requires InBoard(o) && InBoard(c) && SameLine(d, c, o) && SameLine(d, b, c) && (c == o || Ahead(d, c, o))
    requires if d.Delta() < 0 then c <= b < o else o < b <= c
    ensures var q := b - d.Delta();
      SameLine(d, q, o) && (q == o || Ahead(d, q, o)) && Ahead(d, b, q)
  {
    var e := d.Opposite();
    assert e.Horizontal() == d.Horizontal() && e.Delta() == -d.Delta();
    assert InBoard(b) by {
      if d.Horizontal() {
        InBoardCoords(o);
        assert b == MAP_W * Row(b) + Col(b);
      }
    }
    assert SameLine(e, o, b) && Ahead(e, o, b);
    AheadOnLine(e, o, b);
    NeighborStep(b, e);
  }

  /**
   * The limiting loop as written, with the strict test `b > posCand`
   * (`b < posCand` for RIGHT and DOWN): the candidate left after folding the
   * ices in order. Like the corrected loop it leaves `c0` or the cell just
   * behind one of the ices, but not necessarily the nearest one.
   */
  function LimitAsWritten(d: Direction, ices: seq<int>, c0: int, o: int): (r: int)
    ensures r == c0 || exists j :: 0 <= j < |ices| && ices[j] == r + d.Delta()
  {
    if |ices| == 0 then c0
    else
      var p := LimitAsWritten(d, ices[..|ices| - 1], c0, o);
      var b := ices[|ices| - 1];
      var limits := if d.Delta() < 0 then p < b < o else o < b < p;
      if SameLine(d, b, c0) && limits then b - d.Delta() else p
  }

  /**
   * Pushing ice 0 from cell 5 to the LEFT along an empty top row (candidate
   * cell 0): as written, an ice on cell 0 is ignored, and with ices on
   * cells 2 and 3 the result depends on their order and can be an occupied
   * cell. The nearest blocking ice is at 0, resp. 3, so the intended stops
   * are 1 and 4.
   */
  lemma LimitAsWrittenOverlapsIce()
    ensures LimitAsWritten(Left, [5, 0], 0, 5) == 0
    ensures LimitAsWritten(Left, [5, 2, 3], 0, 5) == 3
    ensures LimitAsWritten(Left, [5, 3, 2], 0, 5) == 4
  {
    assert [5, 0][..1] == [5];
    assert [5, 2, 3][..2] == [5, 2];
    assert [5, 3, 2][..2] == [5, 3];
    assert [5, 2][..1] == [5];
    assert [5, 3][..1] == [5];
    assert [5][..0] == [];
  }
}
