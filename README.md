# qits core, modelled in Dafny

qits is a solver for a fixed-size (20 x 14) ice-pushing puzzle. The
magician pushes ice blocks, which slide until something stops them, and
puts out fires with them. This project models the parts of the solver
that load and preprocess a level, plus the Python script that dumps
binary floor files. It proves properties of that model:

- **Board preprocessing** (`Board.dfy`). `BoardConfiguration` is a class
  over arrays: the static `map`, `fireToIndex` and the four `moveDest`
  tables. Its methods fill those arrays.
  - `computeFireToIndex` is proved to invert the fire list.
  - `computeMoveDest` is proved against `Slide`, a recursive definition of
    where a slide stops.
- **Move history** (`StateChain.dfy`). `State` is a datatype with a root case
  and a move case. `icePositionsAtState` is proved to do exactly what it
  does: it collects the chain newest first and replays it in that order.
- **Pushing an ice block** (`Move.dfy`). `moveToward` follows `moveDest`,
  passes through cleared fires, and then stops in front of the nearest
  other ice block.
- **Level text** (`Symbols.dfy`, `Parse.dfy`). These cover the symbol
  mapping both ways and `readFloorFileFromStdin`, with the input given as
  a character sequence. The loader's effect on every list and on the map is
  stated exactly, including where it stops on a bad character.
- **`BoardView`** (`View.dfy`):
  - the shared neighbour table `next`, as a class with its `nextInited` flag;
  - the visit stamps, with `tick` and the `WALL`/`MARKED` sentinels;
  - `canPushTo`;
  - the Zobrist hash update, with 64-bit words as sequences of 64 bits.
- **`scripts/dump.py`** (`Dump.dfy`):
  - header validation;
  - `ctype_array_to_bytes`;
  - the per-floor decode with its difficulty;
  - hiding floors that hold a dispenser;
  - the ending of the listing.

`Grid.dfy` holds what the components share: the board constants, the
`ObjectType` and `Direction` enumerations, cell coordinates, and the
neighbour relation.

Where the code does something its authors evidently did not intend, the
model contains both halves. One member follows the code as written, with
a lemma showing the discrepancy. A second member holds the corrected
behaviour and its proof, and the rest of the model uses the corrected one.
See "## Findings".

## Model

| member | source | states |
|---|---|---|
| Grid.NeighborStep | board_view.h:32-43 | a step leaves the board exactly at the edge; otherwise it moves by the direction's delta along the cell's line, one step closer to the edge |
| Grid.Neighbor | board_view.h:36-39 | an entry of the neighbour table is -1 or a board cell one step of the direction's delta away |
| Grid.NeighborInRange | board_view.h:36-39 | every neighbour-table entry other than -1 is a board cell on the same row (LEFT/RIGHT) or column (UP/DOWN) |
| Grid.NeighborInverse | board_view.h:36-39 | opposite directions undo each other: `next[next[p][d]][opposite d] == p` |
| Grid.AheadOnLine | board_view.h:36-39 | a cell strictly ahead of `p` on its line is `p`'s neighbour or ahead of it, and closer to the edge |
| Symbols.ReprToObjectType | qits.cpp:143-159 | UNKNOWN exactly for characters outside the twelve symbols; never `_UNIMPLEMENTED`; below `_UNIMPLEMENTED` exactly for the seven loadable symbols |
| Symbols.ObjectTypeToRepr | qits.cpp:161-164 | as written, the two placeholder types render as '?' and every other type as one of the twelve level symbols |
| Symbols.ObjectTypeToReprFixed | qits.cpp:161-164 | with the corrected table, the same: '?' exactly for the placeholders, a level symbol otherwise |
| Symbols.ReprRoundTrip | qits.cpp:143-164 | rendering then reading gives back EMPTY..MAGICIAN and DISPENSER |
| Symbols.ArrowReprMismatch | qits.cpp:30-33 | with the table as written, each arrow reads back as another arrow (UP as LEFT, DOWN as RIGHT, LEFT as UP, RIGHT as DOWN) |
| Symbols.ReprRoundTripFixed | qits.cpp:143-164 | with the arrows in enumeration order, the two mappings are inverse on all twelve symbols, both ways |
| Board.SignedChar | qits.cpp:52 | storing into a `char` gives a value in -128..127, unchanged when it already fits |
| Board.LastIndex | qits.cpp:65-67 | the last position of a value in a list, or none exactly when it is absent |
| Board.FireIndex | qits.cpp:61-68 | `fireToIndex[p]` is a `char` value; -1 on a cell that is no fire; with at most 128 fires, the position of the cell's last entry in the fire list |
| Board.FireIndexInverts | qits.cpp:61-68 | for at most 128 distinct fires, `fireToIndex[fires[i]] == i`, and -1 on every other cell |
| Board.Slide | qits.cpp:70-88 | a slide's stop is a board cell on the start's line, at or beyond the start; it is not a wall unless the slide stays on its start, and never a wall when the start is not one |
| Board.SlideGap | qits.cpp:71-75 | every cell strictly between the start and the stop of a slide is EMPTY |
| Board.SlideStop | qits.cpp:71-75 | a slide stays put exactly when the edge or a wall is next; otherwise it stops on a non-empty non-wall cell, or where the edge or a wall is next |
| Board.MoveDestOf | qits.cpp:77-116 | `moveDest[d][p]` is -1 exactly on a wall; otherwise a non-wall board cell on `p`'s line, at or beyond `p` |
| Board.MoveDestMeaning | qits.cpp:77-116 | `moveDest[d][p]` is -1 exactly at walls; otherwise it is a non-wall cell on `p`'s line, at or beyond `p`, with only EMPTY cells between |
| Board.SlideFromNext | qits.cpp:77-88 | the scan recurrence behind `bound`: a slide from the next scanned cell stops before a wall, on a non-empty cell, or goes on as the current cell's slide |
| Board.LineCellFacts | qits.cpp:90-116 | the `j`-th cell a scan visits is on its line at distance `j` from the edge, and its neighbour is the previous cell visited |
| Board.LineCells | qits.cpp:90-116 | all the cells of one scan line lie on that line, at their scan distance |
| Board.LineCellOnto | qits.cpp:90-116 | every board cell is visited by the scan of its own line |
| Board.LoopOffsets | qits.cpp:99 | the offsets a `for (offs = start; offs > stop; offs -= step)` header visits all lie in `stop+1..start`, starting at `start` |
| Board.RightScanSkipsColumnZero | qits.cpp:99 | as written, the RIGHT scan never visits offset 0 |
| Board.DownScanStartsOffBoard | qits.cpp:113 | as written, the DOWN scan starts at an offset off the board and never visits offset 0 |
| Board.BoardConfiguration.constructor | qits.cpp:330 | `BoardConfigration board {}`: empty lists, an all-EMPTY map and all-zero tables |
| Board.BoardConfiguration.Preprocess | qits.cpp:55-58 | after `preprocess`, both tables hold what their definitions compute from `fires` and `map` |
| Board.BoardConfiguration.ComputeFireToIndex | qits.cpp:61-68 | every `fireToIndex` entry is -1 for a non-fire, otherwise the char-wrapped index of the last list entry naming the cell |
| Board.BoardConfiguration.ComputeMoveDest | qits.cpp:70-119 | every `moveDest[d][p]` equals `MoveDestOf(map, d, p)`, for all four directions (RIGHT and DOWN with the intended bounds) |
| Board.BoardConfiguration.FillDirection | qits.cpp:90-116 | one scan fills its direction's table with `MoveDestOf` and leaves the other three unchanged; the RIGHT and DOWN lines are scanned with the intended bounds |
| Board.BoardConfiguration.FillLine | qits.cpp:90-95 | one scan line gets its slide stops; every other entry is unchanged |
| Board.BoardConfiguration.FillCells | qits.cpp:92-94 | the inner loop leaves every cell of the line with its stop, and changes nothing off it |
| Board.BoardConfiguration.LoopBody | qits.cpp:77-88 | `LOOP_BODY` stores the current cell's stop, changes only that entry, and moves `bound` to the next cell's stop |
| StateChain.OldestMove | qits.cpp:166-184 | no oldest move exactly when the ice block is never moved on the chain |
| StateChain.LatestMove | qits.cpp:126-140 | no latest move exactly when never moved; a move of the ice in the newest state is its latest |
| StateChain.Chain | qits.cpp:167-174 | `slist` has `age` entries, all of them move states |
| StateChain.ChainIndices | qits.cpp:179-181 | on a well-formed chain every `movedIceIndex` is a valid index of `poss` |
| StateChain.WriteOfAppend | qits.cpp:179-181 | replaying `a + b` is replaying `a` then `b` |
| StateChain.WriteOfChain | qits.cpp:171-181 | replaying the chain newest first leaves in each slot the target of the oldest move |
| StateChain.IcePositionsAtState | qits.cpp:166-184 | the result has one entry per ice block: the oldest move's target on the chain, else the initial position |
| StateChain.CollectChain | qits.cpp:167-176 | the first loop collects exactly the chain, newest first, and reaches the root's initial state |
| StateChain.Replay | qits.cpp:177-181 | the second loop leaves each slot as the in-order replay of `slist` over the initial value |
| StateChain.IcePositionsLatest | qits.cpp:166-184 | the intended layout: each ice block at its most recent move's target, else its initial position |
| StateChain.RootLayout | qits.cpp:166-184 | a root state (age 0) yields the initial layout, under both replays |
| StateChain.UntouchedIceStays | qits.cpp:166-184 | an ice block no move names keeps its initial position, under both replays |
| StateChain.OldestMoveWins | qits.cpp:171-181 | two moves of one ice block (to 6, then 7): as written 6 remains, the latest layout has 7 |
| Move.PassThrough | qits.cpp:226-238 | the first loop ends on the start's line, at or beyond it, with every cell between passable, at a blocked cell or a non-empty cell that is not a cleared fire |
| Move.LimitByIces | qits.cpp:242-270 | the limited cell is between the start and the candidate and behind every other ice block ahead of the start; unless it is the candidate, an ice block stands right in front of it (with the non-strict test `b >= posCand`) |
| Move.MoveToward | qits.cpp:220-273 | the pushed block ends between its start and the slide's stop, on no other block and with none between; when it stops short, an ice block stands next to it |
| Move.LimitStep | qits.cpp:248-269 | stepping back from a blocking ice block keeps the candidate between start and block |
| Move.LimitAsWritten | qits.cpp:246-270 | as written, the limiting loop leaves the candidate or the cell just behind one of the ice blocks (not always the nearest, as the next row shows) |
| Move.LimitAsWrittenOverlapsIce | qits.cpp:246-251 | with the strict test as written, an ice block on the candidate cell is ignored, and the result depends on the order of the ice list |
| Parse.NextNewline | qits.cpp:281 | the first line break at or after `k`, or the end of the input |
| Parse.LineStart | qits.cpp:276-281 | a line start is a position within the input |
| Parse.LoadEnd | qits.cpp:285-295 | the first refused cell in reading order, or `MAP_SIZE` when none is refused |
| Parse.CellsWith | qits.cpp:308-317 | the collected positions are all below `n` |
| Parse.ReadFloor | qits.cpp:275-327 | result true exactly when every cell is accepted; `fires`, `iceType`, `icePositions`, the magician and `map` hold exactly the effects of the cells before the first refused one |
| Parse.ReadRows | qits.cpp:276-324 | the row loop leaves the loader's state after the cells before the first refused one, and succeeds exactly when there is none |
| Parse.ReadRow | qits.cpp:277-323 | one line fills its row (short lines leave the rest untouched) and the next read starts after its line break |
| Parse.ScanLine | qits.cpp:281-323 | the character loop stops at the line break, counting only the first 20 characters, or at the first refused one |
| Parse.ScanChar | qits.cpp:282-284 | a character past column 20 is skipped unchecked; one within it is read |
| Parse.ReadCell | qits.cpp:285-295 | an unknown character or an unimplemented element stops loading at that cell; any other is stored |
| Parse.StoreCell | qits.cpp:297-320 | storing an accepted cell adds exactly its effect to the loader's state |
| Parse.StepEffects | qits.cpp:297-320 | one accepted cell: a fire is appended to `fires`, an ice block to both ice lists (type 0 or 1), '@' moves the magician, and only WALL, FIRE, RECYCLER are written to `map` |
| Parse.LoadEndAt | qits.cpp:285-295 | a refused cell after only accepted ones is where loading stops |
| Parse.AllRows | qits.cpp:276-281 | row `i` of the cells is line `i` of the text |
| Parse.LoadedSkip | qits.cpp:281 | cells without a character leave the loader's state as it is |
| Parse.NoCharsKeep | qits.cpp:281 | cells without a character add nothing to any list or to the map |
| Parse.CellsWithExact | qits.cpp:308-317 | `fires` and `icePositions` list exactly the cells holding their symbols, in strictly increasing reading order |
| Parse.IceTypesMatch | qits.cpp:311-318 | `iceType` and `icePositions` have equal length, and `iceType` is 1 exactly for '$' |
| Parse.LastMagicianIsLast | qits.cpp:305-307 | the magician is the last '@' read, or keeps its value when there is none |
| Parse.LoadEndAll | qits.cpp:285-295 | loading the whole level succeeds exactly when no cell holds an unknown or unimplemented symbol; a cell that a short or missing line leaves without a character does not stop it |
| View.SentinelsAboveTimeStamps | board_view.h:15-17 | `WALL` and `MARKED` are distinct `unsigned int` values, both at least `TS_MAX` |
| View.NextTs | board_view.cpp:19-30 | from a time stamp in 0..`TS_MAX`, `tick` moves to one in 1..`TS_MAX` |
| View.ResetStamp | board_view.cpp:23-27 | as written, the reset clears a stamp to 0 or keeps it, keeps WALL and MARKED, and leaves no nonzero stamp below `TS_MAX` |
| View.ResetStampFixed | board_view.cpp:23-27 | corrected, the same, but no nonzero stamp up to `TS_MAX` is left |
| View.Ticked | board_view.cpp:19-30 | as written, the stamps are unchanged while `ts` counts on; at the reset each stamp is cleared to 0 or kept, and every WALL and MARKED cell is kept |
| View.TickedFixed | board_view.cpp:19-30 | the corrected `tick` keeps the same guarantees: stamps unchanged while counting on, each cleared or kept at the reset, sentinels kept |
| View.TickFixedStartsSweep | board_view.cpp:19-30 | with the corrected test, when no ordinary stamp exceeds `ts`, every ordinary stamp is below the new `ts` afterwards |
| View.StaleStampSurvivesReset | board_view.cpp:24 | as written, a stamp equal to `TS_MAX` survives the reset and stays above the new `ts`; the corrected test clears it |
| View.ToggleTwice | board_view.cpp:87-102 | two updates with the same cell and type restore the hash |
| View.ToggleCommute | board_view.cpp:87-102 | two updates give the same hash in either order |
| View.ToggledAllShift | board_view.cpp:87-102 | an update can move from the front of a run of updates to its end |
| View.ToggledAllTwice | board_view.cpp:87-102 | applying a run of updates twice (apply, then unapply) restores the hash |
| View.NextTable.constructor | board_view.cpp:4-5 | the static table starts with every entry 0 and `nextInited` false |
| View.NextTable.InitNextTable | board_view.h:32-43 | every entry is the neighbour of its cell in its direction, or -1 at the edge, and the flag is set |
| View.NextTable.InitRow | board_view.h:34-40 | one row of cells gets its four neighbours; the other rows are unchanged |
| View.BoardView.constructor | board_view.cpp:7-17 | every cell has no ice, no fire and stamp 0; `ts == 0`, `hash == 0`; the neighbour table is filled |
| View.BoardView.IsWall | board_view.h:23 | a wall cell is not marked and its stamp is not below `ts` |
| View.BoardView.IsMarked | board_view.h:24 | a marked cell is not a wall and its stamp is not below `ts` |
| View.BoardView.IsFresh | board_view.h:25 | a fresh cell is neither a wall nor marked |
| View.BoardView.Tick | board_view.cpp:19-30 | `ts` counts on, or resets to 1 at `TS_MAX` with the stamps below `TS_MAX` cleared; hash and magician unchanged |
| View.BoardView.TickFixed | board_view.cpp:19-30 | the corrected `tick`; afterwards no ordinary cell counts as visited in the new sweep |
| View.BoardView.ResetStamps | board_view.cpp:23-27 | the reset loop clears exactly the stamps below `TS_MAX` (up to `TS_MAX` when corrected) |
| View.BoardView.CanPushTo | board_view.cpp:74-85 | -1 without ice on `pos`; otherwise the neighbour, exactly when it is a cell above 0, not a wall and without ice; changes nothing |
| View.BoardView.UpdateHash | board_view.cpp:87-102 | the hash becomes the old hash XOR the key of the type on the cell; nothing else changes |
| Dump.CtypeArrayToBytes | scripts/dump.py:45-46 | succeeds exactly when every element is in 0..255, and then keeps every value; otherwise raises |
| Dump.SignedByte | scripts/dump.py:13 | a `c_byte` is the byte in -128..127, equal modulo 256 |
| Dump.SignedView | scripts/dump.py:13 | the signature field read as `c_byte`s, element by element; `ctype_array_to_bytes` of it succeeds exactly when no byte is 128 or more |
| Dump.Int32LE | scripts/dump.py:15-16 | a `c_int` lies in the signed 32-bit range |
| Dump.Int32RoundTrip | scripts/dump.py:15-16 | reading back the four little-endian bytes of a 32-bit value gives the value |
| Dump.Int32BytesRoundTrip | scripts/dump.py:15-16 | encoding the value read from four bytes gives the bytes back, so a `c_int` read is a bijection on 4-byte strings |
| Dump.RStripNul | scripts/dump.py:62 | `rstrip(b'\0')`: a prefix not ending in NUL, with only NULs cut off |
| Dump.UnsignedBytesPass | scripts/dump.py:62 | the comment's unsigned bytes always pass `ctype_array_to_bytes` unchanged |
| Dump.ReadHeader | scripts/dump.py:49-62 | malformed exactly when short; then out-of-range exactly for a signature byte of 128 or more; accepted exactly for the right signature and version 1, with the NUL-stripped comment and the floor count |
| Dump.FloorRepr | scripts/dump.py:25-39 | difficulty -1..5, 5 exactly for the dispenser byte 8, and '?' exactly for bytes missing from the table |
| Dump.DiffOf | scripts/dump.py:77-86 | a floor's difficulty is in 0..5 |
| Dump.DiffOfMaximum | scripts/dump.py:77-86 | the difficulty bounds every cell's table difficulty, is 0 or attained, and is 5 exactly when a dispenser is present |
| Dump.RenderedLayout | scripts/dump.py:81-89 | a rendered floor is 14 lines of 20 cell characters, each ending in '\n' |
| Dump.DecodeFloor | scripts/dump.py:75-89 | the decode loops give the rendered text and the floor's difficulty |
| Dump.DecodeRow | scripts/dump.py:82-88 | one row appends its 20 characters and folds in their difficulties |
| Dump.HiddenIffDispenser | scripts/dump.py:91-92 | a floor is hidden exactly when it holds a dispenser; a shown floor has difficulty 0..4 |
| Dump.FloorOuts | scripts/dump.py:68-96 | one output per floor, in file order, each from that floor's 280 bytes |
| Dump.DumpFloor | scripts/dump.py:71-92 | a floor read is complete exactly when 280 bytes remain, and is then decoded and filtered |
| Dump.Dump | scripts/dump.py:49-100 | a bad header rejects the file; otherwise the header is reported and the floors listed up to the floor count or a truncated floor, then the trailing bytes |
| Dump.ListFloors | scripts/dump.py:68-100 | the floor loop yields the listing for the floor count: all complete floors up to it, truncated exactly when the file ends first |
| Dump.ListingStops | scripts/dump.py:68-100 | the two ways the floor loop ends are both listings |

## Left out

- Printing (`printConfiguration`, `BoardView::print`, the `eprintf` diagnostics) and `main`. These are text output and the entry point. Where output is a result, it is modelled as a value: `Outcome` in `Dump.dfy`, the `ok` flag of `ReadFloor`.
- `scanf` and stdin. `ReadFloor` takes the whole input as a `seq<char>`.
- Opening and reading the floor file in `scripts/dump.py`. `Dump` takes its bytes; `c_int` is read as little-endian 32-bit.
- `scripts/gen_zobrist_values.py` and `zobrist_values.h`. The key table is random data, so it is the `zobrist` parameter of `BoardView`: four rows of 280 words.
- Dump.Dump: when a floor is truncated, the script prints that floor's banner before raising 'Unexpected end of file'. The model's `Truncated` ending stands for both.
- Board.BoardConfiguration.ComputeMoveDest: RIGHT and DOWN are filled with the intended loop bounds. The bounds as written never visit column 0 (RIGHT). For DOWN they never visit the top row and start off the board, which reads and writes out of range. The as-written headers are modelled by `LoopOffsets`, with lemmas; see "## Findings".
- Board.BoardConfiguration.FillDirection: it scans the RIGHT and DOWN lines with the intended loop bounds, as ComputeMoveDest does; the bounds as written are in `LoopOffsets` and "## Findings".
- Move.LimitByIces: it uses the non-strict test `b >= posCand` (`b <= posCand` for RIGHT and DOWN) where the source tests strictly; the loop as written is `LimitAsWritten`, see "## Findings".
- Move.MoveToward: it computes over `IcePositionsLatest`, the layout with the latest move of each ice block. Its last loop uses the non-strict test. Both correct the code as written; see "## Findings".
- Move.MoveToward: it requires a valid ice index and a start cell that is on the board and not a wall. Otherwise the source reads out of range (`ices[idx]`, or `fireToIndex[-1]` after `moveDest` returns -1).
- `clearedFires` (a `bitset<256>`) is a `set<nat>` of fire indices. The `unsigned int` age is the chain's length, with no wrap-around.
- `fireToIndex` (in both structures) and `iceToIndex` are `char` arrays in the source. `BoardConfiguration`'s table is modelled with the wrap of `SignedChar`. `BoardView`'s tables are `int` arrays, since the view only ever stores -1 in them here.
- View.BoardView.constructor: `magicianPos` is left unconstrained, as the source leaves it uninitialised.
- View.BoardView.CanPushTo: `peek > 0` also rejects cell 0, the top-left corner. The contract states this as written.
- 64-bit words (`uint64_t`) are sequences of 64 bits with a bitwise `Xor`. Arithmetic on them is not needed, and none is modelled.
- qits.h is not part of this model. Its declarations duplicate qits.cpp:13-53, and the model declares them once, in `Grid.dfy`.

## Findings

| source | as written | input that shows it | evidently intended | confidence | as-written member | corrected member |
|---|---|---|---|---|---|---|
| qits.cpp:99 | RIGHT scan loop `for (offs = MAP_W - 1; offs > 0; ...)` | any row: offset 0 (column 0) is never visited, so `moveDest[RIGHT]` of column 0 is never written | `offs >= 0`, visiting all 20 columns | high (not executed) | Board.RightScanSkipsColumnZero | Board.BoardConfiguration.ComputeMoveDest |
| qits.cpp:113 | DOWN scan loop `for (offs = MAP_SIZE; offs > 0; ...)` | column 0: first offset 280 gives cell 280, off the board, and offset 0 (row 0) is never visited | `offs = MAP_SIZE - MAP_W; offs >= 0` | high (not executed) | Board.DownScanStartsOffBoard | Board.BoardConfiguration.ComputeMoveDest |
| qits.cpp:171-181 | the chain is collected newest first and replayed in that order | ice 0 at 5, moved to 6 and then to 7: the result is 6 | replay oldest first, so the latest move wins | high (not executed) | StateChain.IcePositionsAtState, StateChain.OldestMoveWins | StateChain.IcePositionsLatest |
| qits.cpp:248 | limit test `b > posCand` (and `b < posCand` for RIGHT/DOWN) | LEFT from 5 along an empty top row, candidate 0: an ice on 0 is ignored (result 0, occupied); ices [5, 2, 3] give 3, occupied, while [5, 3, 2] give 4 | `b >= posCand`, stopping behind the nearest blocking ice in any order | high (not executed) | Move.LimitAsWritten, Move.LimitAsWrittenOverlapsIce | Move.LimitByIces |
| qits.cpp:162 | `idx2repr = " #%*-$@?<>^v+?"` | AR_UP renders as '<', which reads back as AR_LEFT | `" #%*-$@?^v<>+?"`, the enumeration order | high (not executed) | Symbols.ObjectTypeToRepr, Symbols.ArrowReprMismatch | Symbols.ObjectTypeToReprFixed, Symbols.ReprRoundTripFixed |
| board_view.cpp:24 | reset test `vis[i] < TS_MAX` | `ts == TS_MAX` and a cell stamped in that sweep (`vis == TS_MAX`): after `tick` it keeps `TS_MAX > ts == 1` and never looks fresh again | `vis[i] <= TS_MAX`, clearing every ordinary stamp | medium (not executed) | View.BoardView.Tick, View.StaleStampSurvivesReset | View.BoardView.TickFixed, View.TickFixedStartsSweep |
