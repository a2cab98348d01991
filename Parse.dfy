/**
 * `readFloorFileFromStdin`: load a level from its text form. The input
 * stream is a character sequence here. Line `i` of the text is row `i` of
 * the board; its first 20 characters are the cells of that row and the rest
 * of the line is skipped unread; missing lines and short lines leave the
 * remaining cells untouched.
 */
module Parse {
  import opened Grid
  import opened Symbols
  import opened Board
  import opened StateChain

  // ------------------------------------------------------------ the text

  /** The first line break at or after `k`, or the end of the input. */
  function NextNewline(s: seq<char>, k: nat): (r: nat)
    requires k <= |s|
    ensures k <= r <= |s|
    ensures r == |s| || s[r] == '\n'
    ensures forall j :: k <= j < r ==> s[j] != '\n'
    decreases |s| - k
  {
    if k == |s| || s[k] == '\n' then k else NextNewline(s, k + 1)
  }

  /** Where line `i` starts: just after the `i`-th line break, or the end of the input when there are fewer. */
  function LineStart(s: seq<char>, i: nat): (r: nat)
    ensures r <= |s|
  {
    if i == 0 then 0
    else
      var e := NextNewline(s, LineStart(s, i - 1));
      if e < |s| then e + 1 else |s|
  }

  /** The character the loader reads for cell `p`, if its line reaches that far. */
  function CellChar(s: seq<char>, p: int): (r: Option<char>)
    requires InBoard(p)
  {
    var st := LineStart(s, Row(p));
    var e := NextNewline(s, st);
    if st + Col(p) < e then Some(s[st + Col(p)]) else None
  }

  /** The characters of all cells, in reading (row-major) order. */
  function CellChars(s: seq<char>): (g: seq<Option<char>>)
    ensures |g| == MAP_SIZE
    ensures forall p :: 0 <= p < MAP_SIZE ==> g[p] == CellChar(s, p)
  {
    seq(MAP_SIZE, p requires 0 <= p < MAP_SIZE => CellChar(s, p))
  }

  /** The cell table of a level: one optional character per cell. */
  type Cells = g: seq<Option<char>> | |g| == MAP_SIZE witness seq(MAP_SIZE, _ => None)

  /** The row of cells that starts at `base` holds the characters of the line that starts at `st`. */
  predicate RowIs(g: Cells, s: seq<char>, st: nat, base: int)
    requires st <= |s| && 0 <= base <= MAP_SIZE - MAP_W
  {
    forall p :: base <= p < base + MAP_W ==> g[p] == LineChar(s, st, p - base)
  }

  /** Cell `p` holds a character the loader refuses (unknown, or an unimplemented element). */
  predicate Refused(g: Cells, p: int)
    requires InBoard(p)
  {
    g[p].Some? && g[p].value !in ImplementedSymbols
  }

  /** No cell below `n` (in reading order) is refused. */
  predicate AcceptedBelow(g: Cells, n: int)
    requires n <= MAP_SIZE
  {
    forall p :: 0 <= p < n ==> !Refused(g, p)
  }

  /** The first refused cell, or `MAP_SIZE` when every cell is accepted: how far loading gets. */
  function LoadEnd(g: Cells, p: nat): (r: nat)
    requires p <= MAP_SIZE
    ensures p <= r <= MAP_SIZE
    ensures forall q :: p <= q < r ==> !Refused(g, q)
    ensures r < MAP_SIZE ==> Refused(g, r)
    decreases MAP_SIZE - p
  {
    if p == MAP_SIZE then p
    else if Refused(g, p) then p
    else LoadEnd(g, p + 1)
  }

  // ------------------------------------------------------------ effects of loading the cells below n

  const FireSymbols: set<char> := {'*'}
  const IceSymbols: set<char> := {'%', '$'}
  const StaticSymbols: set<char> := {'#', '*', '-'}

  /** The cells below `n` whose character is in `cs`, in reading order. */
  function CellsWith(g: Cells, cs: set<char>, n: int): (r: seq<int>)
    requires n <= MAP_SIZE
    ensures forall k :: 0 <= k < |r| ==> 0 <= r[k] < n
    decreases n
  {
    if n <= 0 then []
    else
      var c := g[n - 1];
      CellsWith(g, cs, n - 1) + if c.Some? && c.value in cs then [n - 1] else []
  }

  /** The `iceType` entries pushed for the cells below `n`: 0 for '%', 1 for '$'. */
  function IceTypes(g: Cells, n: int): seq<int>
    requires n <= MAP_SIZE
    decreases n
  {
    if n <= 0 then []
    else
      var c := g[n - 1];
      IceTypes(g, n - 1) + if c == Some('%') then [0] else if c == Some('$') then [1] else []
  }

  /** The magician position after the cells below `n`: the last '@', or `dflt`. */
  function LastMagician(g: Cells, n: int, dflt: int): int
    requires n <= MAP_SIZE
    decreases n
  {
    if n <= 0 then dflt
    else if g[n - 1] == Some('@') then n - 1
    else LastMagician(g, n - 1, dflt)
  }

  /** The `map` entry of `p` after the cells below `n`: written for walls, fires and recyclers only. */
  function StaticAfter(g: Cells, n: int, p: int, before: ObjectType): ObjectType
    requires InBoard(p)
  {
    var c := g[p];
    if p < n && c.Some? && c.value in StaticSymbols then ReprToObjectType(c.value) else before
  }

  // ------------------------------------------------------------ the loader

  /**
   * The loader's state after the cells below `n` have been read, starting
   * from lists `fires0`, `types0`, `ices0`, map `cells0` and magician `m0`.
   */
  ghost predicate Loaded(board: BoardConfiguration, g: Cells, n: int,
                         fires0: seq<int>, types0: seq<int>, cells0: seq<ObjectType>, ices0: seq<int>, m0: int,
                         ices: seq<int>, mag: int)
    reads board, board.cells
  {
    && board.Shaped() && |cells0| == MAP_SIZE && 0 <= n <= MAP_SIZE
    && AcceptedBelow(g, n)
    && board.fires == fires0 + CellsWith(g, FireSymbols, n)
    && board.iceType == types0 + IceTypes(g, n)
    && ices == ices0 + CellsWith(g, IceSymbols, n)
    && mag == LastMagician(g, n, m0)
    && forall p :: 0 <= p < MAP_SIZE ==> board.cells[p] == StaticAfter(g, n, p, cells0[p])
  }

  /**
   * `readFloorFileFromStdin`. Loading stops at the first refused cell
   * (`LoadEnd`) and reports failure there; everything read before it has
   * already been stored, as in the source. The state arguments the source
   * updates through references are passed in and returned.
   */
  method ReadFloor(board: BoardConfiguration, input: seq<char>, init: InitialState, magician: int)
      returns (ok: bool, initOut: InitialState, magicianOut: int)
    requires board.Shaped()
    modifies board, board.cells
    ensures board.Shaped()
    ensures var g := CellChars(input);
      var n := LoadEnd(g, 0);
      && (ok <==> n == MAP_SIZE)
      && board.fires == old(board.fires) + CellsWith(g, FireSymbols, n)
      && board.iceType == old(board.iceType) + IceTypes(g, n)
      && initOut.icePositions == init.icePositions + CellsWith(g, IceSymbols, n)
      && magicianOut == LastMagician(g, n, magician)
      && forall p :: 0 <= p < MAP_SIZE ==> board.cells[p] == StaticAfter(g, n, p, old(board.cells[p]))
  {
    ghost var g := CellChars(input);
    AllRows(input);
    ok, initOut, magicianOut := ReadRows(board, input, g, init, magician);
  }

  /** The two loops of `readFloorFileFromStdin`, over the rows and, within each row, over its line. */
  method ReadRows(board: BoardConfiguration, input: seq<char>, ghost g: Cells, init: InitialState, magician: int)
      returns (ok: bool, initOut: InitialState, magicianOut: int)
    requires board.Shaped()
    requires forall i :: 0 <= i < MAP_H ==> RowIs(g, input, LineStart(input, i), i * MAP_W)
    modifies board, board.cells
    ensures Loaded(board, g, LoadEnd(g, 0), old(board.fires), old(board.iceType), old(board.cells[..]),
                   init.icePositions, magician, initOut.icePositions, magicianOut)
    ensures ok <==> LoadEnd(g, 0) == MAP_SIZE
  {
    ghost var fires0, types0, cells0 := board.fires, board.iceType, board.cells[..];
    initOut, magicianOut := init, magician;
    var k := 0;
    var i := 0;
    ok := true;
    while ok && i < MAP_H
      invariant 0 <= i <= MAP_H
      invariant ok ==> k == LineStart(input, i)
      invariant ok ==> Loaded(board, g, i * MAP_W, fires0, types0, cells0, init.icePositions, magician, initOut.icePositions, magicianOut)
      invariant !ok ==> (LoadEnd(g, 0) < MAP_SIZE &&
        Loaded(board, g, LoadEnd(g, 0), fires0, types0, cells0, init.icePositions, magician, initOut.icePositions, magicianOut))
      decreases MAP_H - i, ok
    {
      var ices;
      ok, k, ices, magicianOut := ReadRow(board, input, g, i * MAP_W, k, initOut.icePositions, magicianOut,
                                          fires0, types0, cells0, init.icePositions, magician);
      initOut := InitialState(ices);
      assert i * MAP_W + MAP_W == (i + 1) * MAP_W;
      i := i + 1;
    }
    ghost var n := LoadEnd(g, 0);
    assert ok ==> n == MAP_SIZE;
  }

  /** Column `j` of the line that starts at `st`, if that line is long enough. */
  function LineChar(s: seq<char>, st: nat, j: int): Option<char>
    requires st <= |s| && 0 <= j
  {
    if st + j < NextNewline(s, st) then Some(s[st + j]) else None
  }

  /** Where the line after the one that starts at `st` starts. */
  function NextLineStart(s: seq<char>, st: nat): nat
    requires st <= |s|
  {
    var e := NextNewline(s, st);
    if e < |s| then e + 1 else |s|
  }

  /**
   * One pass of the outer loop of `readFloorFileFromStdin`: read the line
   * that starts at `k0` up to its line break (or the end of the input),
   * storing its first 20 characters as the row that starts at cell
   * `idxBase` and skipping the rest.
   */
  method ReadRow(board: BoardConfiguration, input: seq<char>, ghost g: Cells, idxBase: int, k0: int,
                 ices: seq<int>, mag: int,
                 ghost fires0: seq<int>, ghost types0: seq<int>, ghost cells0: seq<ObjectType>,
                 ghost ices0: seq<int>, ghost m0: int)
      returns (ok: bool, k: int, icesOut: seq<int>, magOut: int)
    requires 0 <= idxBase <= MAP_SIZE - MAP_W && 0 <= k0 <= |input|
    requires RowIs(g, input, k0, idxBase)
    requires Loaded(board, g, idxBase, fires0, types0, cells0, ices0, m0, ices, mag)
    modifies board, board.cells
    ensures ok ==> (k == NextLineStart(input, k0) &&
      Loaded(board, g, idxBase + MAP_W, fires0, types0, cells0, ices0, m0, icesOut, magOut))
    ensures !ok ==> (LoadEnd(g, 0) < MAP_SIZE &&
      Loaded(board, g, LoadEnd(g, 0), fires0, types0, cells0, ices0, m0, icesOut, magOut))
  {
    var idx;
    ok, k, idx, icesOut, magOut := ScanLine(board, input, g, idxBase, k0, ices, mag, fires0, types0, cells0, ices0, m0);
    if !ok {
      return;
    }
    // The rest of a short row has no characters.
    assert forall p :: idx <= p < idxBase + MAP_W ==> g[p] == None;
    LoadedSkip(board, g, idx, idxBase + MAP_W, fires0, types0, cells0, ices0, m0, icesOut, magOut);
    if k < |input| {
      k := k + 1;
    }
  }

  /**
   * The character loop of `ReadRow`: it stops at the line break (or the end
   * of the input), or at the first refused character.
   */
  method ScanLine(board: BoardConfiguration, input: seq<char>, ghost g: Cells, idxBase: int, k0: int,
                  ices: seq<int>, mag: int,
                  ghost fires0: seq<int>, ghost types0: seq<int>, ghost cells0: seq<ObjectType>,
                  ghost ices0: seq<int>, ghost m0: int)
      returns (ok: bool, k: int, idx: int, icesOut: seq<int>, magOut: int)
    requires 0 <= idxBase <= MAP_SIZE - MAP_W && 0 <= k0 <= |input|
    requires RowIs(g, input, k0, idxBase)
    requires Loaded(board, g, idxBase, fires0, types0, cells0, ices0, m0, ices, mag)
    modifies board, board.cells
    ensures ok ==> (k == NextNewline(input, k0) && idxBase <= idx <= idxBase + MAP_W
      && (idx < idxBase + MAP_W ==> idx - idxBase == k - k0)
      && Loaded(board, g, idx, fires0, types0, cells0, ices0, m0, icesOut, magOut))
    ensures !ok ==> (LoadEnd(g, 0) < MAP_SIZE &&
      Loaded(board, g, LoadEnd(g, 0), fires0, types0, cells0, ices0, m0, icesOut, magOut))
  {
    k, icesOut, magOut := k0, ices, mag;
    idx := idxBase;
    while k < |input| && input[k] != '\n'
      invariant k0 <= k <= |input| && NextNewline(input, k) == NextNewline(input, k0)
      invariant idx == idxBase + if k - k0 < MAP_W then k - k0 else MAP_W
      invariant Loaded(board, g, idx, fires0, types0, cells0, ices0, m0, icesOut, magOut)
    {
      var accepted;
      accepted, idx, icesOut, magOut := ScanChar(board, input, g, idxBase, k0, k, idx, icesOut, magOut,
                                                 fires0, types0, cells0, ices0, m0);
      k := k + 1;
      if !accepted {
        return false, k, idx, icesOut, magOut;
      }
    }
    ok := true;
  }

  /** One character of the line: stored when it falls within the row's 20 columns, skipped after them. */
  method ScanChar(board: BoardConfiguration, input: seq<char>, ghost g: Cells, idxBase: int, k0: int, k: int,
                  idx: int, ices: seq<int>, mag: int,
                  ghost fires0: seq<int>, ghost types0: seq<int>, ghost cells0: seq<ObjectType>,
                  ghost ices0: seq<int>, ghost m0: int)
      returns (accepted: bool, idxOut: int, icesOut: seq<int>, magOut: int)
    requires 0 <= idxBase <= MAP_SIZE - MAP_W && 0 <= k0 <= k < |input| && input[k] != '\n'
    requires NextNewline(input, k) == NextNewline(input, k0)
    requires RowIs(g, input, k0, idxBase)
    requires idx == idxBase + if k - k0 < MAP_W then k - k0 else MAP_W
    requires Loaded(board, g, idx, fires0, types0, cells0, ices0, m0, ices, mag)
    modifies board, board.cells
    ensures accepted ==> (idxOut == idxBase + (if k + 1 - k0 < MAP_W then k + 1 - k0 else MAP_W) &&
      Loaded(board, g, idxOut, fires0, types0, cells0, ices0, m0, icesOut, magOut))
    ensures !accepted ==> (LoadEnd(g, 0) < MAP_SIZE &&
      Loaded(board, g, LoadEnd(g, 0), fires0, types0, cells0, ices0, m0, icesOut, magOut))
  {
    if idx - idxBase == MAP_W {
      return true, idx, ices, mag;
    }
    assert g[idx] == Some(input[k]);
    accepted, icesOut, magOut := ReadCell(board, g, idx, input[k], ices, mag, fires0, types0, cells0, ices0, m0);
    idxOut := idx + 1;
  }

  /** A refused cell after only accepted ones is where loading stops. */
  lemma LoadEndAt(g: Cells, n: int)
    requires 0 <= n < MAP_SIZE && AcceptedBelow(g, n) && Refused(g, n)
    ensures LoadEnd(g, 0) == n
  {
  }

  /** The cells of each row are the characters of the line of the same number. */
  lemma AllRows(s: seq<char>)
    ensures forall i :: 0 <= i < MAP_H ==> RowIs(CellChars(s), s, LineStart(s, i), i * MAP_W)
  {
    forall i | 0 <= i < MAP_H
      ensures RowIs(CellChars(s), s, LineStart(s, i), i * MAP_W)
    {
      forall p | i * MAP_W <= p < i * MAP_W + MAP_W
        ensures CellChars(s)[p] == LineChar(s, LineStart(s, i), p - i * MAP_W)
      {
        CoordsOf(i, p - i * MAP_W);
      }
    }
  }

  /**
   * The body of the character loop for a cell within the row: refuse an
   * unknown character or an unimplemented element, otherwise store it.
   */
  method ReadCell(board: BoardConfiguration, ghost g: Cells, idx: int, c: char, ices: seq<int>, mag: int,
                  ghost fires0: seq<int>, ghost types0: seq<int>, ghost cells0: seq<ObjectType>,
                  ghost ices0: seq<int>, ghost m0: int)
      returns (accepted: bool, icesOut: seq<int>, magOut: int)
    requires 0 <= idx < MAP_SIZE && g[idx] == Some(c)
    requires Loaded(board, g, idx, fires0, types0, cells0, ices0, m0, ices, mag)
    modifies board, board.cells
    ensures accepted ==> Loaded(board, g, idx + 1, fires0, types0, cells0, ices0, m0, icesOut, magOut)
    ensures !accepted ==> LoadEnd(g, 0) == idx && Loaded(board, g, idx, fires0, types0, cells0, ices0, m0, icesOut, magOut)
  {
    var tp := ReprToObjectType(c);
    if tp == Unknown || tp.Ordinal() > Unimplemented.Ordinal() {
      LoadEndAt(g, idx);
      return false, ices, mag;
    }
    icesOut, magOut := StoreCell(board, g, idx, tp, ices, mag, fires0, types0, cells0, ices0, m0);
    accepted := true;
  }

  /** The body of the character loop for an accepted cell: store it in the map or push it on its list. */
  method StoreCell(board: BoardConfiguration, ghost g: Cells, idx: int, tp: ObjectType, ices: seq<int>, mag: int,
                   ghost fires0: seq<int>, ghost types0: seq<int>, ghost cells0: seq<ObjectType>,
                   ghost ices0: seq<int>, ghost m0: int)
      returns (icesOut: seq<int>, magOut: int)
    requires 0 <= idx < MAP_SIZE && g[idx].Some? && g[idx].value in ImplementedSymbols
    requires tp == ReprToObjectType(g[idx].value)
    requires Loaded(board, g, idx, fires0, types0, cells0, ices0, m0, ices, mag)
    modifies board, board.cells
    ensures Loaded(board, g, idx + 1, fires0, types0, cells0, ices0, m0, icesOut, magOut)
  {
    StepEffects(g, idx, cells0, m0);
    icesOut, magOut := ices, mag;
    if tp == Wall || tp == Fire || tp == Recycler {
      board.cells[idx] := tp;
    }
    match tp {
      case Magician =>
        magOut := idx;
      case Fire =>
        board.fires := board.fires + [idx];
      case Ice =>
        board.iceType := board.iceType + [0];
        icesOut := icesOut + [idx];
      case IceGold =>
        board.iceType := board.iceType + [1];
        icesOut := icesOut + [idx];
      case _ =>
    }
  }

  /** What reading one accepted cell adds to each list, in terms of its object type. */
  lemma StepEffects(g: Cells, idx: int, cells0: seq<ObjectType>, m0: int)
    requires 0 <= idx < MAP_SIZE && g[idx].Some? && g[idx].value in ImplementedSymbols && |cells0| == MAP_SIZE
    ensures var tp := ReprToObjectType(g[idx].value);
      && (AcceptedBelow(g, idx) ==> AcceptedBelow(g, idx + 1))
      && CellsWith(g, FireSymbols, idx + 1) == CellsWith(g, FireSymbols, idx) + (if tp == Fire then [idx] else [])
      && CellsWith(g, IceSymbols, idx + 1) == CellsWith(g, IceSymbols, idx) + (if tp == Ice || tp == IceGold then [idx] else [])
      && IceTypes(g, idx + 1) == IceTypes(g, idx) + (if tp == Ice then [0] else if tp == IceGold then [1] else [])
      && LastMagician(g, idx + 1, m0) == (if tp == Magician then idx else LastMagician(g, idx, m0))
      && StaticAfter(g, idx + 1, idx, cells0[idx]) == (if tp in {Wall, Fire, Recycler} then tp else cells0[idx])
      && forall p :: 0 <= p < MAP_SIZE && p != idx ==> StaticAfter(g, idx + 1, p, cells0[p]) == StaticAfter(g, idx, p, cells0[p])
  {
    var c := g[idx].value;
    assert c == ' ' || c == '#' || c == '%' || c == '*' || c == '-' || c == '$' || c == '@';
  }

  /** Cells without characters leave the loader's state as it is. */
  lemma LoadedSkip(board: BoardConfiguration, g: Cells, a: int, b: int,
                   fires0: seq<int>, types0: seq<int>, cells0: seq<ObjectType>, ices0: seq<int>, m0: int,
                   ices: seq<int>, mag: int)
    requires 0 <= a <= b <= MAP_SIZE && forall p :: a <= p < b ==> g[p] == None
    requires Loaded(board, g, a, fires0, types0, cells0, ices0, m0, ices, mag)
    ensures Loaded(board, g, b, fires0, types0, cells0, ices0, m0, ices, mag)
  {
    NoCharsKeep(g, a, b, cells0, m0);
  }

  /** Cells without characters add no effect. */
  lemma {:induction false} NoCharsKeep(g: Cells, a: int, b: int, cells0: seq<ObjectType>, magician: int)
    requires 0 <= a <= b <= MAP_SIZE && |cells0| == MAP_SIZE
    requires forall p :: a <= p < b ==> g[p] == None
    ensures AcceptedBelow(g, a) ==> AcceptedBelow(g, b)
    ensures CellsWith(g, FireSymbols, b) == CellsWith(g, FireSymbols, a)
    ensures CellsWith(g, IceSymbols, b) == CellsWith(g, IceSymbols, a)
    ensures IceTypes(g, b) == IceTypes(g, a)
    ensures LastMagician(g, b, magician) == LastMagician(g, a, magician)
    ensures forall p :: 0 <= p < MAP_SIZE ==> StaticAfter(g, b, p, cells0[p]) == StaticAfter(g, a, p, cells0[p])
    decreases b - a
  {
    if a < b {
      NoCharsKeep(g, a, b - 1, cells0, magician);
    }
  }

  // ------------------------------------------------------------ properties

  /** The cells collected for a symbol set are in strictly increasing order, and are exactly the cells below `n` holding such a symbol. */
  lemma {:induction false} CellsWithExact(g: Cells, cs: set<char>, n: int, p: int)
    requires n <= MAP_SIZE
    ensures forall a, b :: 0 <= a < b < |CellsWith(g, cs, n)| ==> CellsWith(g, cs, n)[a] < CellsWith(g, cs, n)[b]
    ensures p in CellsWith(g, cs, n) <==> 0 <= p < n && g[p].Some? && g[p].value in cs
    decreases n
  {
    if n > 0 {
      CellsWithExact(g, cs, n - 1, p);
    }
  }

  /** One `iceType` entry per ice block, 1 exactly for the golden ones. */
  lemma {:induction false} IceTypesMatch(g: Cells, n: int)
    requires n <= MAP_SIZE
    ensures |IceTypes(g, n)| == |CellsWith(g, IceSymbols, n)|
    ensures forall k :: 0 <= k < |IceTypes(g, n)| ==>
      IceTypes(g, n)[k] == if g[CellsWith(g, IceSymbols, n)[k]] == Some('$') then 1 else 0
    decreases n
  {
    if n > 0 {
      IceTypesMatch(g, n - 1);
      var c := g[n - 1];
      var ts, cs := IceTypes(g, n - 1), CellsWith(g, IceSymbols, n - 1);
      var x: seq<int> := if c == Some('%') then [0] else if c == Some('$') then [1] else [];
      var y: seq<int> := if c.Some? && c.value in IceSymbols then [n - 1] else [];
      assert |x| == |y|;
      assert IceTypes(g, n) == ts + x;
      assert CellsWith(g, IceSymbols, n) == cs + y;
      forall k | 0 <= k < |ts + x|
        ensures (ts + x)[k] == if g[(cs + y)[k]] == Some('$') then 1 else 0
      {
        if k < |ts| {
          assert (ts + x)[k] == ts[k] && (cs + y)[k] == cs[k];
        }
      }
    }
  }

  /** The magician is placed at the last '@' read, and the default stays when there is none. */
  lemma {:induction false} LastMagicianIsLast(g: Cells, n: int, dflt: int)
    requires 0 <= n <= MAP_SIZE
    ensures var m := LastMagician(g, n, dflt);
      (m == dflt && forall p :: 0 <= p < n ==> g[p] != Some('@'))
      || (0 <= m < n && g[m] == Some('@') && forall p :: m < p < n ==> g[p] != Some('@'))
    decreases n
  {
    if n > 0 {
      LastMagicianIsLast(g, n - 1, dflt);
    }
  }

  /** Loading the whole level succeeds exactly when every cell's character is one the solver implements. */
  lemma LoadEndAll(g: Cells)
    ensures LoadEnd(g, 0) == MAP_SIZE <==> AcceptedBelow(g, MAP_SIZE)
  {
  }
}
