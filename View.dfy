/**
 * `BoardView`: the per-search scratch state of one board. It holds the
 * ice and fire index tables, the visit stamps of the reachability sweep
 * with their current time stamp, and the position hash. The static
 * neighbour table `next` is the class `NextTable`, shared by every view.
 */
module View {
  import opened Grid
  import opened Board

  /** The range of a C++ `unsigned int`. */
  const UINT_MOD: int := 0x1_0000_0000

  /** `TS_MAX = 1 << 28`: the largest time stamp before the stamps are reset. */
  const TS_MAX: int := 0x1000_0000

  /** `WALL = -1024` and `MARKED = -1023`, stored in an `unsigned int`. */
  const WALL: int := UINT_MOD - 1024
  const MARKED: int := UINT_MOD - 1023

  /** Both sentinels are valid stamps, distinct, and above every time stamp. */
  lemma SentinelsAboveTimeStamps()
    ensures 0 <= WALL < UINT_MOD && 0 <= MARKED < UINT_MOD && WALL != MARKED
    ensures WALL >= TS_MAX && MARKED >= TS_MAX
  {
  }

  // ------------------------------------------------------------ tick

  /** The time stamp after `tick`: from any stamp in range it moves to one in `1..TS_MAX`. */
  function NextTs(ts: int): (r: int)
    ensures 0 <= ts <= TS_MAX ==> 1 <= r <= TS_MAX
  {
    if ts < TS_MAX then ts + 1 else 1
  }

  /**
   * A stamp after the reset branch of `tick`, as written: it is cleared or
   * kept, a sentinel is kept, and no stamp below `TS_MAX` other than 0 is left.
   */
  function ResetStamp(v: int): (r: int)
    ensures r == 0 || r == v
    ensures !Stamp(v) ==> r == v
    ensures r < TS_MAX ==> r == 0
  {
    if v < TS_MAX then 0 else v
  }

  /**
   * A stamp after the reset branch of `tick`, corrected: as above, but no
   * stamp up to `TS_MAX` other than 0 is left.
   */
  function ResetStampFixed(v: int): (r: int)
    ensures r == 0 || r == v
    ensures !Stamp(v) ==> r == v
    ensures r <= TS_MAX ==> r == 0
  {
    if v <= TS_MAX then 0 else v
  }

  /**
   * All visit stamps after `tick`, as written: unchanged while the time
   * stamp counts on; at the reset every stamp is cleared to 0 or kept, and
   * every wall and marked cell is kept.
   */
  function Ticked(vis: seq<int>, ts: int): (r: seq<int>)
    ensures |r| == |vis|
    ensures ts < TS_MAX ==> r == vis
    ensures forall i :: 0 <= i < |vis| ==> r[i] == 0 || r[i] == vis[i]
    ensures forall i :: 0 <= i < |vis| && !Stamp(vis[i]) ==> r[i] == vis[i]
  {
    if ts < TS_MAX then vis else seq(|vis|, i requires 0 <= i < |vis| => ResetStamp(vis[i]))
  }

  /** All visit stamps after the corrected `tick`, with the same guarantees as `Ticked`. */
  function TickedFixed(vis: seq<int>, ts: int): (r: seq<int>)
    ensures |r| == |vis|
    ensures ts < TS_MAX ==> r == vis
    ensures forall i :: 0 <= i < |vis| ==> r[i] == 0 || r[i] == vis[i]
    ensures forall i :: 0 <= i < |vis| && !Stamp(vis[i]) ==> r[i] == vis[i]
  {
    if ts < TS_MAX then vis else seq(|vis|, i requires 0 <= i < |vis| => ResetStampFixed(vis[i]))
  }

  /** A stamp other than the two sentinels. */
  predicate Stamp(v: int)
  {
    v != WALL && v != MARKED
  }

  /**
   * The corrected `tick` starts a fresh sweep: if no ordinary stamp was
   * beyond the time stamp, every ordinary stamp is below the new one, so no
   * cell counts as visited yet.
   */
  lemma TickFixedStartsSweep(vis: seq<int>, ts: int)
    requires 0 <= ts <= TS_MAX
    requires forall i :: 0 <= i < |vis| && Stamp(vis[i]) ==> 0 <= vis[i] <= ts
    ensures forall i :: 0 <= i < |vis| && Stamp(TickedFixed(vis, ts)[i]) ==> TickedFixed(vis, ts)[i] < NextTs(ts)
  {
    var r := TickedFixed(vis, ts);
    forall i | 0 <= i < |vis| && Stamp(r[i])
      ensures r[i] < NextTs(ts)
    {
    }
  }

  /**
   * As written, a cell stamped in the last sweep before the reset
   * (`vis == ts == TS_MAX`) keeps its stamp, which is above the new time
   * stamp 1: the cell counts as visited in every later sweep.
   */
  lemma StaleStampSurvivesReset(vis: seq<int>, i: int)
    requires 0 <= i < |vis| && vis[i] == TS_MAX
    ensures Stamp(vis[i])
    ensures Ticked(vis, TS_MAX)[i] == TS_MAX > NextTs(TS_MAX)
    ensures TickedFixed(vis, TS_MAX)[i] == 0 < NextTs(TS_MAX)
  {
    SentinelsAboveTimeStamps();
  }

  // ------------------------------------------------------------ hash

  /** The object types `updateHash` accepts; any other reaches `__builtin_unreachable`. */
  predicate Hashed(t: ObjectType)
  {
    t == Ice || t == Fire || t == IceGold || t == Magician
  }

  /** The row of `ZOBRIST_VALUES` that `updateHash` uses for `t`. */
  function ZobristRow(t: ObjectType): (k: nat)
    requires Hashed(t)
    ensures k < 4
  {
    match t
    case Ice => 0
    case Fire => 1
    case IceGold => 2
    case Magician => 3
  }

  /** A `uint64_t`, as its 64 bits. */
  type Word = w: seq<bool> | |w| == 64 witness seq(64, _ => false)

  /** The word 0. */
  const ZERO: Word := seq(64, _ => false)

  /** `a ^ b`: bitwise exclusive or. */
  function Xor(a: Word, b: Word): (r: Word)
    ensures forall i :: 0 <= i < 64 ==> r[i] == (a[i] != b[i])
  {
    seq(64, i requires 0 <= i < 64 => a[i] != b[i])
  }

  /** `ZOBRIST_VALUES`: four rows of `MAP_SIZE` 64-bit keys. */
  predicate ZobristShaped(z: seq<seq<Word>>)
  {
    |z| == 4 && forall k :: 0 <= k < 4 ==> |z[k]| == MAP_SIZE
  }

  /** The key of `t` on `pos`. */
  function Key(z: seq<seq<Word>>, pos: int, t: ObjectType): Word
    requires ZobristShaped(z) && InBoard(pos) && Hashed(t)
  {
    z[ZobristRow(t)][pos]
  }

  /** The hash after `updateHash(pos, t)`. */
  function Toggled(z: seq<seq<Word>>, h: Word, pos: int, t: ObjectType): Word
    requires ZobristShaped(z) && InBoard(pos) && Hashed(t)
  {
    Xor(h, Key(z, pos, t))
  }

  /** Toggling the same `(pos, t)` twice restores the hash. */
  lemma ToggleTwice(z: seq<seq<Word>>, h: Word, pos: int, t: ObjectType)
    requires ZobristShaped(z) && InBoard(pos) && Hashed(t)
    ensures Toggled(z, Toggled(z, h, pos, t), pos, t) == h
  {
    var k := Key(z, pos, t);
    assert forall i :: 0 <= i < 64 ==> Xor(Xor(h, k), k)[i] == h[i];
  }

  /** Two toggles give the same hash in either order. */
  lemma ToggleCommute(z: seq<seq<Word>>, h: Word, p1: int, t1: ObjectType, p2: int, t2: ObjectType)
    requires ZobristShaped(z) && InBoard(p1) && Hashed(t1) && InBoard(p2) && Hashed(t2)
    ensures Toggled(z, Toggled(z, h, p1, t1), p2, t2) == Toggled(z, Toggled(z, h, p2, t2), p1, t1)
  {
    var k1, k2 := Key(z, p1, t1), Key(z, p2, t2);
    assert forall i :: 0 <= i < 64 ==> Xor(Xor(h, k1), k2)[i] == Xor(Xor(h, k2), k1)[i];
  }

  /** One hash update: a cell and the object type entering or leaving it. */
  datatype Update = Update(pos: int, t: ObjectType)

  predicate UpdatesValid(us: seq<Update>)
  {
    forall k :: 0 <= k < |us| ==> InBoard(us[k].pos) && Hashed(us[k].t)
  }

  /** The hash after applying `us` in order. */
  function ToggledAll(z: seq<seq<Word>>, h: Word, us: seq<Update>): Word
    requires ZobristShaped(z) && UpdatesValid(us)
    decreases |us|
  {
    if |us| == 0 then h else ToggledAll(z, Toggled(z, h, us[0].pos, us[0].t), us[1..])
  }

  /** A toggle can be moved from the front of a run of updates to its end. */
  lemma {:induction false} ToggledAllShift(z: seq<seq<Word>>, h: Word, us: seq<Update>, pos: int, t: ObjectType)
    requires ZobristShaped(z) && UpdatesValid(us) && InBoard(pos) && Hashed(t)
    ensures ToggledAll(z, Toggled(z, h, pos, t), us) == Toggled(z, ToggledAll(z, h, us), pos, t)
    decreases |us|
  {
    if |us| > 0 {
      ToggleCommute(z, h, pos, t, us[0].pos, us[0].t);
      ToggledAllShift(z, Toggled(z, h, us[0].pos, us[0].t), us[1..], pos, t);
    }
  }

  /** Applying a run of updates and then the same run again restores the hash (apply, then unapply). */
  lemma {:induction false} ToggledAllTwice(z: seq<seq<Word>>, h: Word, us: seq<Update>)
    requires ZobristShaped(z) && UpdatesValid(us)
    ensures ToggledAll(z, ToggledAll(z, h, us), us) == h
    decreases |us|
  {
    if |us| > 0 {
      var u := us[0];
      var h1 := Toggled(z, h, u.pos, u.t);
      // ToggledAll(h, us) == ToggledAll(h1, us[1..])
      calc {
        ToggledAll(z, ToggledAll(z, h, us), us);
        ToggledAll(z, Toggled(z, ToggledAll(z, h1, us[1..]), u.pos, u.t), us[1..]);
        { ToggledAllShift(z, ToggledAll(z, h1, us[1..]), us[1..], u.pos, u.t); }
        Toggled(z, ToggledAll(z, ToggledAll(z, h1, us[1..]), us[1..]), u.pos, u.t);
        { ToggledAllTwice(z, h1, us[1..]); }
        Toggled(z, h1, u.pos, u.t);
        { ToggleTwice(z, h, u.pos, u.t); }
        h;
      }
    }
  }

  // ------------------------------------------------------------ next table

  /** The static table `BoardView::next` with its flag `nextInited`. */
  class NextTable {
    const next: array2<int>
    var inited: bool

    /** Every entry holds the neighbour of its cell in its direction, or -1 at the edge. */
    ghost predicate Filled()
      requires next.Length0 == MAP_SIZE && next.Length1 == 4
      reads this, next
    {
      forall p, d: Direction :: 0 <= p < MAP_SIZE ==> next[p, d.Index()] == Neighbor(p, d)
    }

    ghost predicate Valid()
      reads this, next
    {
      next.Length0 == MAP_SIZE && next.Length1 == 4 && (inited ==> Filled())
    }

    /** The zero-initialised static storage, not yet filled. */
    constructor ()
      ensures Valid() && !inited && fresh(next)
      ensures forall p, k :: 0 <= p < MAP_SIZE && 0 <= k < 4 ==> next[p, k] == 0
    {
      next := new int[MAP_SIZE, 4]((_, _) => 0);
      inited := false;
    }

    /** `initNextTable`: fill the table row by row, then set the flag. */
    method InitNextTable()
      requires Valid()
      modifies this, next
      ensures Valid() && inited && Filled()
    {
      for i := 0 to MAP_H
        invariant forall p, d: Direction :: 0 <= p < i * MAP_W ==> next[p, d.Index()] == Neighbor(p, d)
      {
        InitRow(i);
      }
      inited := true;
    }

    /** One row `i` of `initNextTable`'s outer loop. */
    method InitRow(i: int)
      requires next.Length0 == MAP_SIZE && next.Length1 == 4 && 0 <= i < MAP_H
      modifies next
      ensures forall p, d: Direction :: 0 <= p < MAP_SIZE && Row(p) == i ==> next[p, d.Index()] == Neighbor(p, d)
      ensures forall p, k :: 0 <= p < MAP_SIZE && Row(p) != i && 0 <= k < 4 ==> next[p, k] == old(next[p, k])
    {
      for j := 0 to MAP_W
        invariant forall p, d: Direction :: 0 <= p < MAP_SIZE && Row(p) == i && Col(p) < j ==> next[p, d.Index()] == Neighbor(p, d)
        invariant forall p, k :: 0 <= p < MAP_SIZE && !(Row(p) == i && Col(p) < j) && 0 <= k < 4 ==> next[p, k] == old(next[p, k])
      {
        var p := i * MAP_W + j;
        CoordsOf(i, j);
        next[p, Up.Index()] := if i != 0 then p - MAP_W else -1;
        next[p, Down.Index()] := if i != MAP_H - 1 then p + MAP_W else -1;
        next[p, Left.Index()] := if j != 0 then p - 1 else -1;
        next[p, Right.Index()] := if j != MAP_W - 1 then p + 1 else -1;
        forall q | 0 <= q < MAP_SIZE && Row(q) == i && Col(q) == j
          ensures q == p
        {
          CoordsDetermine(q, p);
        }
      }
      forall p | 0 <= p < MAP_SIZE && Row(p) == i
        ensures Col(p) < MAP_W
      {
        InBoardCoords(p);
      }
    }
  }

  // ------------------------------------------------------------ view

  class BoardView {
    const config: BoardConfiguration
    const table: NextTable
    /** `ZOBRIST_VALUES`, the generated key table. */
    const zobrist: seq<seq<Word>>
    const iceToIndex: array<int>
    const fireToIndex: array<int>
    const vis: array<int>
    var ts: int
    var magicianPos: int
    var hash: Word

    ghost predicate Valid()
      reads this, table, table.next, vis
    {
      && iceToIndex.Length == MAP_SIZE && fireToIndex.Length == MAP_SIZE && vis.Length == MAP_SIZE
      && iceToIndex != fireToIndex && vis != iceToIndex && vis != fireToIndex
      && table.Valid() && table.inited
      && ZobristShaped(zobrist)
      && 0 <= ts <= TS_MAX
      && forall i :: 0 <= i < MAP_SIZE ==> 0 <= vis[i] < UINT_MOD
    }

    /**
     * The constructor: zero stamps, time stamp and hash, the neighbour table
     * filled if it was not yet, and no ice or fire on any cell.
     * `magicianPos` is left as the source leaves it.
     */
    constructor (config: BoardConfiguration, table: NextTable, zobrist: seq<seq<Word>>)
      requires table.Valid() && ZobristShaped(zobrist)
      modifies table, table.next
      ensures Valid() && this.config == config && this.table == table && this.zobrist == zobrist
      ensures fresh(iceToIndex) && fresh(fireToIndex) && fresh(vis)
      ensures forall p :: 0 <= p < MAP_SIZE ==> iceToIndex[p] == -1 && fireToIndex[p] == -1 && vis[p] == 0
      ensures ts == 0 && hash == ZERO
    {
      this.config := config;
      this.table := table;
      this.zobrist := zobrist;
      vis := new int[MAP_SIZE](_ => 0);
      ts := 0;
      hash := ZERO;
      if !table.inited {
        table.InitNextTable();
      }
      var ice := new int[MAP_SIZE];
      var fire := new int[MAP_SIZE];
      for i := 0 to MAP_SIZE
        modifies ice, fire
        invariant forall p :: 0 <= p < i ==> ice[p] == -1 && fire[p] == -1
      {
        ice[i] := -1;
        fire[i] := -1;
      }
      iceToIndex := ice;
      fireToIndex := fire;
    }

    /** A wall cell: never marked, and never below the time stamp, so never visited or fresh. */
    predicate IsWall(pos: int)
      requires Valid() && InBoard(pos)
      reads this, table, table.next, vis
      ensures IsWall(pos) ==> vis[pos] != MARKED && vis[pos] >= ts
    {
      vis[pos] == WALL
    }

    /** A marked cell: never a wall, and never below the time stamp, so never visited or fresh. */
    predicate IsMarked(pos: int)
      requires Valid() && InBoard(pos)
      reads this, table, table.next, vis
      ensures IsMarked(pos) ==> vis[pos] != WALL && vis[pos] >= ts
    {
      vis[pos] == MARKED
    }

    /**
     * No ice block on `pos`, and not yet stamped in the current sweep. A
     * fresh cell is neither a wall nor marked, since both sentinels lie above
     * every time stamp.
     */
    predicate IsFresh(pos: int)
      requires Valid() && InBoard(pos)
      reads this, table, table.next, vis, iceToIndex
      ensures IsFresh(pos) ==> vis[pos] != WALL && vis[pos] != MARKED
    {
      iceToIndex[pos] < 0 && vis[pos] < ts
    }

    /** `tick`, as written: count on, or at `TS_MAX` clear the stamps below `TS_MAX` and restart at 1. */
    method Tick()
      requires Valid()
      modifies this, vis
      ensures Valid() && unchanged(this`hash, this`magicianPos)
      ensures ts == NextTs(old(ts)) && 1 <= ts
      ensures vis[..] == Ticked(old(vis[..]), old(ts))
    {
      if ts < TS_MAX {
        ts := ts + 1;
      } else {
        ResetStamps(false);
        ts := 1;
      }
    }

    /** `tick` with the corrected reset test `vis[i] <= TS_MAX`; it starts a sweep in which no ordinary cell is visited. */
    method TickFixed()
      requires Valid()
      modifies this, vis
      ensures Valid() && unchanged(this`hash, this`magicianPos)
      ensures ts == NextTs(old(ts)) && 1 <= ts
      ensures vis[..] == TickedFixed(old(vis[..]), old(ts))
      ensures (forall i :: 0 <= i < MAP_SIZE && Stamp(old(vis[i])) ==> old(vis[i]) <= old(ts)) ==>
        forall i :: 0 <= i < MAP_SIZE && Stamp(vis[i]) ==> vis[i] < ts
    {
      ghost var before := vis[..];
      if ts < TS_MAX {
        ts := ts + 1;
      } else {
        ResetStamps(true);
        ts := 1;
      }
      if forall i :: 0 <= i < MAP_SIZE && Stamp(before[i]) ==> before[i] <= old(ts) {
        TickFixedStartsSweep(before, old(ts));
      }
    }

    /** The reset loop of `tick`: clear every stamp below `TS_MAX` (up to `TS_MAX` when `fixed`). */
    method ResetStamps(fixed: bool)
      requires Valid()
      modifies vis
      ensures Valid()
      ensures vis[..] == if fixed then TickedFixed(old(vis[..]), TS_MAX) else Ticked(old(vis[..]), TS_MAX)
    {
      for i := 0 to MAP_SIZE
        invariant Valid()
        invariant forall k :: 0 <= k < i ==> vis[k] == if fixed then ResetStampFixed(old(vis[k])) else ResetStamp(old(vis[k]))
        invariant forall k :: i <= k < MAP_SIZE ==> vis[k] == old(vis[k])
      {
        if (if fixed then vis[i] <= TS_MAX else vis[i] < TS_MAX) {
          vis[i] := 0;
        }
      }
    }

    /**
     * `canPushTo(pos, d)`: the neighbour the ice block on `pos` can be
     * pushed onto in direction `d`, or -1. It reads the table and the
     * stamps and changes nothing.
     */
    method CanPushTo(pos: int, d: Direction) returns (r: int)
      requires Valid() && InBoard(pos)
      ensures iceToIndex[pos] < 0 ==> r == -1
      ensures r == -1 || r == Neighbor(pos, d)
      ensures r != -1 <==>
        && iceToIndex[pos] >= 0
        && 0 < Neighbor(pos, d) < MAP_SIZE
        && vis[Neighbor(pos, d)] != WALL
        && iceToIndex[Neighbor(pos, d)] < 0
      ensures r != -1 ==> r > 0 && SameLine(d, r, pos) && r == pos + d.Delta()
    {
      if iceToIndex[pos] < 0 {
        return -1;
      }
      var peek := table.next[pos, d.Index()];
      NeighborStep(pos, d);
      if peek > 0 && !IsWall(peek) && iceToIndex[peek] < 0 {
        return peek;
      }
      return -1;
    }

    /** `updateHash(pos, t)`: XOR the key of `t` on `pos` into the hash; nothing else changes. */
    method UpdateHash(pos: int, t: ObjectType)
      requires Valid() && InBoard(pos) && Hashed(t)
      modifies this
      ensures Valid() && unchanged(this`ts, this`magicianPos)
      ensures hash == Toggled(zobrist, old(hash), pos, t)
    {
      var blk: seq<Word>;
      match t {
        case Ice => blk := zobrist[0];
        case Fire => blk := zobrist[1];
        case IceGold => blk := zobrist[2];
        case Magician => blk := zobrist[3];
      }
      assert blk[pos] == Key(zobrist, pos, t);
      hash := Xor(hash, blk[pos]);
    }
  }
}
