/**
 * The history of moves: `InitialState`, the `State` chain and
 * `icePositionsAtState`, which replays the chain onto the initial layout.
 */
module StateChain {
  import opened Grid

  /** `InitialState`: the starting cell of every ice block, by ice index. */
  datatype InitialState = InitialState(icePositions: seq<int>)

  /**
   * `State`. The source keeps `initial` (when `age == 0`) and `previous`
   * (otherwise) in one union; here they are the two constructors, and the
   * age is the length of the chain down to the root.
   */
  datatype State =
    | Root(initial: InitialState, magicianPos: int, clearedFires: set<nat>)
    | Move(previous: State, magicianPos: int, movedIceIndex: nat, newPosition: int, clearedFires: set<nat>)

  function Age(s: State): nat
  {
    match s
    case Root(_, _, _) => 0
    case Move(prev, _, _, _, _) => Age(prev) + 1
  }

  function InitialOf(s: State): InitialState
  {
    match s
    case Root(init, _, _) => init
    case Move(prev, _, _, _, _) => InitialOf(prev)
  }

  function IceCount(s: State): nat
  {
    |InitialOf(s).icePositions|
  }

  /** Every move on the chain names an existing ice block. */
  predicate WellFormed(s: State)
  {
    match s
    case Root(_, _, _) => true
    case Move(prev, _, idx, _, _) => WellFormed(prev) && idx < IceCount(prev)
  }

  /** Ice block `i` is moved somewhere on the chain. */
  predicate MovedIn(s: State, i: int)
  {
    match s
    case Root(_, _, _) => false
    case Move(prev, _, idx, _, _) => idx == i || MovedIn(prev, i)
  }

  /** The target of the oldest move of ice `i` on the chain. */
  function OldestMove(s: State, i: int): (r: Option<int>)
    ensures r.None? <==> !MovedIn(s, i)
  {
    match s
    case Root(_, _, _) => None
    case Move(prev, _, idx, np, _) =>
      var older := OldestMove(prev, i);
      if older.Some? then older else if idx == i then Some(np) else None
  }

  /** The target of the most recent move of ice `i` on the chain. */
  function LatestMove(s: State, i: int): (r: Option<int>)
    ensures r.None? <==> !MovedIn(s, i)
    ensures s.Move? && s.movedIceIndex == i ==> r == Some(s.newPosition)
  {
    match s
    case Root(_, _, _) => None
    case Move(prev, _, idx, np, _) => if idx == i then Some(np) else LatestMove(prev, i)
  }

  /** The move states from `s` back to the root, newest first: the `slist` the source collects. */
  function Chain(s: State): (r: seq<State>)
    ensures |r| == Age(s)
    ensures forall k :: 0 <= k < |r| ==> r[k].Move?
  {
    match s
    case Root(_, _, _) => []
    case Move(prev, _, _, _, _) => [s] + Chain(prev)
  }

  lemma {:induction false} ChainIndices(s: State)
    requires WellFormed(s)
    ensures forall k :: 0 <= k < |Chain(s)| ==> Chain(s)[k].movedIceIndex < IceCount(s)
  {
    if s.Move? {
      ChainIndices(s.previous);
    }
  }

  /** The value slot `i` holds after `for (sp : ms) poss[sp->movedIceIndex] = sp->newPosition`, starting from `dflt`. */
  function WriteOf(ms: seq<State>, i: int, dflt: int): int
    requires forall k :: 0 <= k < |ms| ==> ms[k].Move?
  {
    if |ms| == 0 then dflt
    else if ms[|ms| - 1].movedIceIndex == i then ms[|ms| - 1].newPosition
    else WriteOf(ms[..|ms| - 1], i, dflt)
  }

  lemma {:induction false} WriteOfAppend(a: seq<State>, b: seq<State>, i: int, dflt: int)
    requires forall k :: 0 <= k < |a| ==> a[k].Move?
    requires forall k :: 0 <= k < |b| ==> b[k].Move?
    ensures WriteOf(a + b, i, dflt) == WriteOf(b, i, WriteOf(a, i, dflt))
    decreases |b|
  {
    if |b| == 0 {
      assert a + b == a;
    } else {
      assert (a + b)[..|a + b| - 1] == a + b[..|b| - 1];
      WriteOfAppend(a, b[..|b| - 1], i, dflt);
    }
  }

  /** Replaying the chain newest first leaves, in each slot, the oldest move's target. */
  lemma {:induction false} WriteOfChain(s: State, i: int, dflt: int)
    ensures WriteOf(Chain(s), i, dflt) == match OldestMove(s, i) case Some(v) => v case None => dflt
  {
    match s
    case Root(_, _, _) =>
    case Move(prev, _, idx, np, _) =>
      var d1 := if idx == i then np else dflt;
      assert WriteOf([s], i, dflt) == d1 by {
        assert [s][..0] == [];
      }
      WriteOfAppend([s], Chain(prev), i, dflt);
      WriteOfChain(prev, i, d1);
  }

  /**
   * `icePositionsAtState`, as written: collect the chain newest first, then
   * overwrite the initial layout in that order, so that for an ice block
   * moved more than once the OLDEST move's target is what remains.
   */
  method IcePositionsAtState(state: State) returns (poss: seq<int>)
    requires WellFormed(state)
    ensures |poss| == IceCount(state)
    ensures forall i :: 0 <= i < |poss| ==>
      poss[i] == match OldestMove(state, i) case Some(v) => v case None => InitialOf(state).icePositions[i]
  {
    var slist, init := CollectChain(state);
    ChainIndices(state);
    poss := Replay(slist, init.icePositions);
    forall i | 0 <= i < |poss|
      ensures poss[i] == match OldestMove(state, i) case Some(v) => v case None => InitialOf(state).icePositions[i]
    {
      WriteOfChain(state, i, init.icePositions[i]);
    }
  }

  /** The first loop of `icePositionsAtState`: walk back to the root, collecting the move states newest first. */
  method CollectChain(state: State) returns (slist: seq<State>, init: InitialState)
    ensures slist == Chain(state) && init == InitialOf(state)
  {
    slist := [];
    var s := state;
    while s.Move?
      invariant slist + Chain(s) == Chain(state)
      invariant InitialOf(s) == InitialOf(state)
      decreases Age(s)
    {
      slist := slist + [s];
      s := s.previous;
    }
    assert slist == Chain(state);
    init := s.initial;
  }

  /** The second loop of `icePositionsAtState`: `poss[sp->movedIceIndex] = sp->newPosition` for each state in `slist`, in order. */
  method Replay(slist: seq<State>, start: seq<int>) returns (poss: seq<int>)
    requires forall k :: 0 <= k < |slist| ==> slist[k].Move? && slist[k].movedIceIndex < |start|
    ensures |poss| == |start|
    ensures forall i :: 0 <= i < |poss| ==> poss[i] == WriteOf(slist, i, start[i])
  {
    poss := start;
    for k := 0 to |slist|
      invariant |poss| == |start|
      invariant forall i :: 0 <= i < |poss| ==> poss[i] == WriteOf(slist[..k], i, start[i])
    {
      assert slist[..k + 1][..k] == slist[..k];
      poss := poss[slist[k].movedIceIndex := slist[k].newPosition];
    }
    assert slist[..|slist|] == slist;
  }

  /** The layout the chain evidently stands for: each ice block at the target of its most recent move. */
  function IcePositionsLatest(s: State): (r: seq<int>)
    requires WellFormed(s)
    ensures |r| == IceCount(s)
    ensures forall i :: 0 <= i < |r| ==>
      r[i] == match LatestMove(s, i) case Some(v) => v case None => InitialOf(s).icePositions[i]
  {
    match s
    case Root(init, _, _) => init.icePositions
    case Move(prev, _, idx, np, _) => IcePositionsLatest(prev)[idx := np]
  }

  /** A root state (age 0) yields the initial layout, under both replays. */
  lemma RootLayout(s: State, i: int)
    requires Age(s) == 0
    ensures WellFormed(s) && IcePositionsLatest(s) == InitialOf(s).icePositions
    ensures OldestMove(s, i) == None
  {
  }

  /** An ice block that no move on the chain names keeps its initial cell, under both replays. */
  lemma UntouchedIceStays(s: State, i: int)
    requires WellFormed(s) && 0 <= i < IceCount(s) && !MovedIn(s, i)
    ensures OldestMove(s, i) == None
    ensures IcePositionsLatest(s)[i] == InitialOf(s).icePositions[i]
  {
  }

  /** Two moves of ice 0 (to 6, then to 7): the as-written replay keeps 6, the latest layout has 7. */
  lemma OldestMoveWins()
    ensures var root := Root(InitialState([5]), 0, {});
      var s := Move(Move(root, 0, 0, 6, {}), 0, 0, 7, {});
      && WellFormed(s)
      && OldestMove(s, 0) == Some(6)
      && IcePositionsLatest(s) == [7]
  {
  }
}
