/**
 * The step engine of ExtendedGameOfLife.java: one evolve call (tile
 * modifiers, interactions, decisions into a temporary map, simultaneous
 * commit, snapshot of the next generation) and the two run loops, proved
 * against the board-level functions of StepSpec.
 */
module Engine {
  import opened CellRules
  import opened StepSpec
  import opened CellModel
  import opened BoardModel
  import opened GameModel

  /** The exceptions the engine can raise. */
  datatype Error =
    | NullArgument   // a required argument is null (Objects.requireNonNull)
    | IllegalState   // a generation without board or game, or an empty tile
    | NullCell       // an event unrolled on an empty tile

  datatype Result<T> = Ok(value: T) | Err(error: Error)

  // ---------------------------------------------------------------------
  // The phases of evolve
  // ---------------------------------------------------------------------

  /** Every tile adds its modifier to its occupant's lifepoints, in tile
      order, stopping at the first empty tile. */
  method ApplyTileModifiers(b: Board) returns (ok: bool)
    requires b.Valid()
    modifies b.CellSet()
    ensures ok <==> b.Full()
    ensures ok ==> b.States() == WithModifiers(old(b.States()), b.modifiers)
    ensures !ok ==> forall i :: 0 <= i < |b.tiles| && b.tiles[i] != null ==>
      b.tiles[i].State() == if i < b.FirstEmpty()
                            then old(b.tiles[i].State()).(lifepoints := old(b.tiles[i].lifepoints) + b.modifiers[i])
                            else old(b.tiles[i].State())
  {
    var i := 0;
    while i < |b.tiles|
      invariant 0 <= i <= |b.tiles|
      invariant forall j :: 0 <= j < i ==> b.tiles[j] != null
      invariant forall j :: 0 <= j < |b.tiles| && b.tiles[j] != null ==>
        b.tiles[j].State() == if j < i
                              then old(b.tiles[j].State()).(lifepoints := old(b.tiles[j].lifepoints) + b.modifiers[j])
                              else old(b.tiles[j].State())
    {
      var cell := b.tiles[i];
      if cell == null {
        return false;
      }
      cell.lifepoints := cell.lifepoints + b.modifiers[i];
      i := i + 1;
    }
    return true;
  }

  /** The cell on tile t, when alive, interacts with the live cells of its
      neighbour tiles, in neighbour order. */
  method InteractNeighbors(b: Board, t: nat)
    requires b.Valid() && b.Full() && t < |b.tiles|
    modifies b.CellSet()
    ensures b.States() == InteractWith(old(b.States()), t, b.neighbors[t])
  {
    ghost var s0 := b.States();
    var ns := b.neighbors[t];
    var cell := b.tiles[t];
    if !cell.isAlive {
      InteractWithDeadIsIdentity(s0, t, ns);
      return;
    }
    var k := 0;
    while k < |ns|
      invariant 0 <= k <= |ns|
      invariant b.States() == InteractWith(s0, t, ns[..k])
    {
      var j := ns[k];
      var neighbor := b.tiles[j];
      ghost var before := b.States();
      ghost var p := Interacted(before[t], before[j]);
      assert ns[..k + 1][..k] == ns[..k];
      if neighbor.isAlive {
        cell.Interact(neighbor);
        forall i | 0 <= i < |b.tiles|
          ensures b.States()[i] == before[t := p.0][j := p.1][i]
        {
          if i != t && i != j {
            assert b.tiles[i] != cell && b.tiles[i] != neighbor;
          }
        }
      } else {
        InteractNeedsTwoLiveCells(before[t], before[j]);
      }
      assert b.States() == before[t := p.0][j := p.1];
      k := k + 1;
    }
    assert ns[..k] == ns;
  }

  /** The interaction phase: tiles in row-major order. */
  method InteractionPhase(b: Board)
    requires b.Valid() && b.Full()
    modifies b.CellSet()
    ensures b.States() == InteractAll(old(b.States()), b.neighbors)
  {
    ghost var s0 := b.States();
    var t := 0;
    while t < |b.tiles|
      invariant 0 <= t <= |b.tiles|
      invariant b.States() == InteractTiles(s0, b.neighbors, t)
    {
      InteractNeighbors(b, t);
      t := t + 1;
    }
  }

  /** The decision phase: every cell's next alive flag, computed from the
      alive flags as they stand after the interaction phase and stored in a
      map; no alive flag is written. The cells' other fields take what their
      own evolve call writes (nothing, for a dead cell after a famine). */
  method DecisionPhase(b: Board, famine: bool) returns (nextStates: map<Cell, bool>)
    requires b.Valid() && b.Full()
    modifies b.CellSet()
    ensures nextStates.Keys == b.CellSet()
    ensures forall i :: 0 <= i < |b.tiles| ==>
      && nextStates[b.tiles[i]] == Decided(old(b.States()), b.neighbors, famine, i).willLive
      && b.tiles[i].State() == Decided(old(b.States()), b.neighbors, famine, i).cell
  {
    ghost var s0 := b.States();
    nextStates := map[];
    var i := 0;
    while i < |b.tiles|
      invariant 0 <= i <= |b.tiles|
      invariant nextStates.Keys <= b.CellSet()
      invariant forall j :: 0 <= j < |b.tiles| ==> b.tiles[j].isAlive == s0[j].alive
      invariant forall j :: 0 <= j < i ==>
        && b.tiles[j] in nextStates
        && nextStates[b.tiles[j]] == Decided(s0, b.neighbors, famine, j).willLive
        && b.tiles[j].State() == Decided(s0, b.neighbors, famine, j).cell
      invariant forall j :: i <= j < |b.tiles| ==> b.tiles[j].State() == s0[j]
    {
      var cell := b.tiles[i];
      assert b.AliveFlags() == AliveOf(s0);
      var aliveNeighbors := b.CountAliveNeighbors(i);
      var nextState;
      if famine && !cell.isAlive {
        nextState := false;
      } else {
        EvolveKeepsAliveAndType(cell.State(), aliveNeighbors);
        nextState := cell.Evolve(aliveNeighbors);
      }
      nextStates := nextStates[cell := nextState];
      i := i + 1;
    }
    forall c | c in b.CellSet()
      ensures c in nextStates
    {
      var j :| 0 <= j < |b.tiles| && b.tiles[j] == c;
    }
  }

  /** The commit phase: every cell takes its decision as its alive flag,
      whatever order the map is walked in. */
  method CommitPhase(b: Board, nextStates: map<Cell, bool>)
    requires nextStates.Keys == b.CellSet()
    modifies b.CellSet()
    ensures forall c :: c in b.CellSet() ==> c.State() == old(c.State()).(alive := nextStates[c])
  {
    var todo := nextStates.Keys;
    while todo != {}
      invariant todo <= b.CellSet()
      invariant forall c :: c in b.CellSet() ==>
        c.State() == if c in todo then old(c.State()) else old(c.State()).(alive := nextStates[c])
      decreases |todo|
    {
      var cell :| cell in todo;
      cell.isAlive := nextStates[cell];
      todo := todo - {cell};
    }
  }

  /** The interaction and decision phases together: the decisions, and the
      cells' states before the commit, are those of Decisions on the
      interacted board. */
  method InteractAndDecide(b: Board, famine: bool) returns (nextStates: map<Cell, bool>)
    requires b.Valid() && b.Full()
    modifies b.CellSet()
    ensures nextStates.Keys == b.CellSet()
    ensures var ts := Decisions(InteractAll(old(b.States()), b.neighbors), b.neighbors, famine);
      forall i :: 0 <= i < |b.tiles| ==> nextStates[b.tiles[i]] == ts[i].willLive && b.tiles[i].State() == ts[i].cell
  {
    InteractionPhase(b);
    nextStates := DecisionPhase(b, famine);
  }

  /** Committing the decisions of the interacted board gives StepCells. */
  method CommitDecisions(b: Board, nextStates: map<Cell, bool>, ghost s0: seq<CellState>, famine: bool)
    requires b.Valid() && b.Full() && Shape(s0, b.neighbors, b.modifiers)
    requires nextStates.Keys == b.CellSet()
    requires var ts := Decisions(InteractAll(WithModifiers(s0, b.modifiers), b.neighbors), b.neighbors, famine);
      forall i :: 0 <= i < |b.tiles| ==> nextStates[b.tiles[i]] == ts[i].willLive && b.tiles[i].State() == ts[i].cell
    modifies b.CellSet()
    ensures b.States() == StepCells(s0, b.neighbors, b.modifiers, famine)
  {
    ghost var ts := Decisions(InteractAll(WithModifiers(s0, b.modifiers), b.neighbors), b.neighbors, famine);
    CommitPhase(b, nextStates);
    forall i | 0 <= i < |b.tiles|
      ensures b.States()[i] == Committed(ts)[i]
    {
      assert b.tiles[i] in b.CellSet();
    }
  }

  // ---------------------------------------------------------------------
  // evolve
  // ---------------------------------------------------------------------

  /** Generation.createNextGeneration: a fresh generation one step later on
      the same board, with no event, appended to the game. */
  method CreateNextGeneration(current: Generation) returns (next: Generation)
    requires current.game != null
    modifies current.game`generations
    ensures fresh(next)
    ensures next.step == current.step + 1 && next.board == current.board && next.game == current.game
    ensures next.event == None && next.snapshot == map[]
    ensures current.game.generations == old(current.game.generations) + [next]
  {
    next := new Generation(current.step + 1, current.board, null, None);
    current.game.AddGeneration(next);
  }

  /** ExtendedGameOfLife.evolve: rejects a null generation, and one without
      board or game, before changing anything; fails on the first empty tile
      after the earlier tiles have applied their modifiers; otherwise moves
      the board one step (StepCells, with the famine check reading the
      current generation's event), appends the next generation to the game
      and snapshots it. */
  method Evolve(current: Generation?) returns (r: Result<Generation>)
    requires current != null && current.board != null ==> current.board.Valid()
    modifies if current != null && current.board != null then current.board.CellSet() else {}
    modifies if current != null && current.game != null then {current.game} else {}
    ensures current == null ==> r == Err(NullArgument)
    ensures current != null && (current.board == null || current.game == null) ==>
      && r == Err(IllegalState)
      && (current.board != null ==> unchanged(current.board.CellSet()))
      && (current.game != null ==> unchanged(current.game))
    ensures current != null && current.game != null ==>
      && current.game.board == old(current.game.board)
      && current.game.eventSchedule == old(current.game.eventSchedule)
      && current.game.bloodMoonActive == old(current.game.bloodMoonActive)
      && current.game.sanctuaryActive == old(current.game.sanctuaryActive)
    ensures current != null && current.board != null && current.game != null && !current.board.Full() ==>
      && r == Err(IllegalState)
      && current.game.generations == old(current.game.generations)
      && forall i :: 0 <= i < |current.board.tiles| && current.board.tiles[i] != null ==>
           current.board.tiles[i].State()
             == if i < current.board.FirstEmpty()
                then old(current.board.tiles[i].State()).(lifepoints := old(current.board.tiles[i].lifepoints) + current.board.modifiers[i])
                else old(current.board.tiles[i].State())
    ensures current != null && current.board != null && current.game != null && current.board.Full() ==>
      && r.Ok?
      && current.board.States()
           == StepCells(old(current.board.States()), current.board.neighbors, current.board.modifiers,
                        current.event == Some(Famine))
      && fresh(r.value)
      && r.value.step == current.step + 1 && r.value.board == current.board && r.value.game == current.game
      && r.value.event == None
      && r.value.snapshot == SnapshotOf(current.board)
      && current.game.generations == old(current.game.generations) + [r.value]
  {
    if current == null {
      return Err(NullArgument);
    }
    var board := current.board;
    var game := current.game;
    if board == null || game == null {
      return Err(IllegalState);
    }
    ghost var s0 := if board.Full() then board.States() else [];

    // Step 0: tile modifiers
    var ok := ApplyTileModifiers(board);
    if !ok {
      return Err(IllegalState);
    }

    var nextGen := FinishEvolve(current, s0);
    return Ok(nextGen);
  }

  /** The rest of evolve once every tile has applied its modifier: the
      interaction and decision phases, the next generation, the commit and
      the snapshot. */
  method FinishEvolve(current: Generation, ghost s0: seq<CellState>) returns (nextGen: Generation)
    requires current.board != null && current.game != null
    requires current.board.Valid() && current.board.Full()
    requires Shape(s0, current.board.neighbors, current.board.modifiers)
    requires current.board.States() == WithModifiers(s0, current.board.modifiers)
    modifies current.board.CellSet(), current.game`generations
    ensures current.board.States()
      == StepCells(s0, current.board.neighbors, current.board.modifiers, current.event == Some(Famine))
    ensures fresh(nextGen)
    ensures nextGen.step == current.step + 1 && nextGen.board == current.board && nextGen.game == current.game
    ensures nextGen.event == None
    ensures nextGen.snapshot == SnapshotOf(current.board)
    ensures current.game.generations == old(current.game.generations) + [nextGen]
  {
    var board := current.board;
    // Steps 0.1 and 1: interactions, then decisions into a temporary map
    var prevEvent := current.event;
    var nextStates := InteractAndDecide(board, prevEvent == Some(Famine));

    // Step 2: the next generation
    nextGen := CreateNextGeneration(current);

    // Steps 3 and 4: simultaneous commit, then the snapshot
    CommitAndSnap(board, nextStates, s0, prevEvent == Some(Famine), nextGen);
  }

  method CommitAndSnap(b: Board, nextStates: map<Cell, bool>, ghost s0: seq<CellState>, famine: bool, nextGen: Generation)
    requires b.Valid() && b.Full() && Shape(s0, b.neighbors, b.modifiers) && nextGen.board == b
    requires nextStates.Keys == b.CellSet()
    requires var ts := Decisions(InteractAll(WithModifiers(s0, b.modifiers), b.neighbors), b.neighbors, famine);
      forall i :: 0 <= i < |b.tiles| ==> nextStates[b.tiles[i]] == ts[i].willLive && b.tiles[i].State() == ts[i].cell
    modifies b.CellSet(), nextGen`snapshot
    ensures b.States() == StepCells(s0, b.neighbors, b.modifiers, famine)
    ensures nextGen.snapshot == SnapshotOf(b)
  {
    CommitDecisions(b, nextStates, s0, famine);
    nextGen.SnapCells();
  }
}

module EngineRun {
  import opened CellRules
  import opened StepSpec
  import opened CellModel
  import opened BoardModel
  import opened GameModel
  import opened Engine

  /** evolve on a generation of a valid game, as the run loops call it: the
      game stays valid and gains the next generation. */
  method EvolveInGame(game: Game, current: Generation) returns (r: Result<Generation>)
    requires game.Valid() && current.board == game.board && current.game == game
    modifies game, game.board.CellSet()
    ensures game.board == old(game.board) && game.eventSchedule == old(game.eventSchedule)
    ensures game.bloodMoonActive == old(game.bloodMoonActive) && game.sanctuaryActive == old(game.sanctuaryActive)
    ensures r.Ok? <==> game.board.Full()
    ensures r.Ok? ==>
      && game.board.States()
           == StepCells(old(game.board.States()), game.board.neighbors, game.board.modifiers, current.event == Some(Famine))
      && fresh(r.value)
      && r.value.step == current.step + 1 && r.value.board == game.board && r.value.game == game
      && r.value.event == None
      && game.generations == old(game.generations) + [r.value]
      && game.Valid()
  {
    r := Evolve(current);
  }

  // ---------------------------------------------------------------------
  // run without events
  // ---------------------------------------------------------------------

  /** The state of run(game, steps) after i iterations: the game is valid
      and unchanged apart from its cells and i appended generations, the
      k-th of which has step number start.step + k + 1 and no event, the
      current generation is the last of them (the start one when i == 0),
      and the cells are EvolveSteps of the initial ones. */
  ghost predicate Running(game: Game, b: Board, start: Generation, current: Generation, s0: seq<CellState>,
                          startEvent: Option<EventType>, gens0: seq<Generation>,
                          sched0: map<int, EventType>, bm0: bool, sa0: bool, i: nat)
    reads game, game.generations, b.CellSet(), start, current
  {
    && game.Valid() && game.board == b
    && game.eventSchedule == sched0 && game.bloodMoonActive == bm0 && game.sanctuaryActive == sa0
    && current.board == b && current.game == game
    && start.event == startEvent
    && current.event == (if i == 0 then startEvent else None)
    && |game.generations| == |gens0| + i && game.generations[..|gens0|] == gens0
    && current == (if i == 0 then start else game.generations[|gens0| + i - 1])
    && (forall j :: |gens0| <= j < |gens0| + i ==>
          game.generations[j].step == start.step + (j - |gens0|) + 1 && game.generations[j].event == None)
    && (i > 0 ==> b.Full())
    && (b.Full() ==> Shape(s0, b.neighbors, b.modifiers) && b.States() == EvolveSteps(s0, b.neighbors, b.modifiers, startEvent, i))
  }

  /** One iteration of run(game, steps). */
  method RunIteration(game: Game, b: Board, start: Generation, current: Generation, ghost s0: seq<CellState>,
                      ghost startEvent: Option<EventType>, ghost gens0: seq<Generation>,
                      ghost sched0: map<int, EventType>, ghost bm0: bool, ghost sa0: bool, ghost i: nat)
    returns (r: Result<Generation>)
    requires current in game.generations
    requires Running(game, b, start, current, s0, startEvent, gens0, sched0, bm0, sa0, i)
    modifies game, b.CellSet()
    ensures game.board == b && game.eventSchedule == sched0 && game.bloodMoonActive == bm0 && game.sanctuaryActive == sa0
    ensures r.Ok? <==> b.Full()
    ensures r.Ok? ==> fresh(r.value) && Running(game, b, start, r.value, s0, startEvent, gens0, sched0, bm0, sa0, i + 1)
    ensures r.Ok? ==> r.value in game.generations
  {
    r := EvolveInGame(game, current);
    if r.Ok? {
      assert game.generations[|gens0| + i] == r.value;
    }
  }

  /** ExtendedGameOfLife.run(game, steps): a null game is an error;
      otherwise `steps` calls of evolve from the start generation (none when
      steps <= 0), each on the generation the previous one returned. */
  method Run(game: Game?, steps: int) returns (r: Result<Game>)
    requires game != null ==> game.Valid()
    modifies if game != null then {game} + game.board.CellSet() else {}
    ensures game == null ==> r == Err(NullArgument)
    ensures game != null ==>
      && game.board == old(game.board) && game.eventSchedule == old(game.eventSchedule)
      && game.bloodMoonActive == old(game.bloodMoonActive) && game.sanctuaryActive == old(game.sanctuaryActive)
      && (r.Ok? <==> steps <= 0 || game.board.Full())
    ensures game != null && steps <= 0 ==>
      r.Ok? && r.value == game && game.generations == old(game.generations) && unchanged(game.board.CellSet())
    ensures game != null && r.Ok? ==>
      && r.value == game && game.Valid()
      && |game.generations| == |old(game.generations)| + (if steps > 0 then steps else 0)
      && game.generations[..|old(game.generations)|] == old(game.generations)
      && forall j :: |old(game.generations)| <= j < |game.generations| ==>
           && game.generations[j].step == game.generations[0].step + (j - |old(game.generations)|) + 1
           && game.generations[j].event == None
    ensures game != null && r.Ok? && steps > 0 ==>
      game.board.States()
        == EvolveSteps(old(game.board.States()), game.board.neighbors, game.board.modifiers,
                       old(game.generations[0].event), steps)
  {
    if game == null {
      return Err(NullArgument);
    }
    var b := game.board;
    ghost var s0 := if b.Full() then b.States() else [];
    ghost var startEvent := game.generations[0].event;
    ghost var gens0 := game.generations;
    var current := game.GetStart();
    ghost var last;
    r, last := RunLoop(game, b, current, steps, s0, startEvent, gens0, game.eventSchedule, game.bloodMoonActive, game.sanctuaryActive);
  }

  /** The loop of run(game, steps). */
  method RunLoop(game: Game, b: Board, start: Generation, steps: int, ghost s0: seq<CellState>,
                 ghost startEvent: Option<EventType>, ghost gens0: seq<Generation>,
                 ghost sched0: map<int, EventType>, ghost bm0: bool, ghost sa0: bool)
    returns (r: Result<Game>, ghost last: Generation)
    requires start in game.generations
    requires Running(game, b, start, start, s0, startEvent, gens0, sched0, bm0, sa0, 0)
    modifies game, b.CellSet()
    ensures game.board == b && game.eventSchedule == sched0 && game.bloodMoonActive == bm0 && game.sanctuaryActive == sa0
    ensures r.Ok? <==> steps <= 0 || b.Full()
    ensures steps <= 0 ==> r == Ok(game) && game.generations == old(game.generations) && unchanged(b.CellSet())
    ensures r.Ok? ==>
      && r.value == game
      && Running(game, b, start, last, s0, startEvent, gens0, sched0, bm0, sa0, if steps > 0 then steps else 0)
  {
    var current := start;
    var i := 0;
    while i < steps
      invariant 0 <= i && (i <= steps || i == 0)
      invariant current in game.generations
      invariant Running(game, b, start, current, s0, startEvent, gens0, sched0, bm0, sa0, i)
      invariant i == 0 ==> unchanged(b.CellSet()) && game.generations == old(game.generations)
    {
      var next := RunIteration(game, b, start, current, s0, startEvent, gens0, sched0, bm0, sa0, i);
      if next.Err? {
        return Err(next.error), current;
      }
      current := next.value;
      i := i + 1;
    }
    return Ok(game), current;
  }

  // ---------------------------------------------------------------------
  // run with an event map
  // ---------------------------------------------------------------------

  /** The cells of the game's board and its two flags. */
  ghost function WorldOf(g: Game): World
    requires g.board != null && g.board.Full()
    reads g, g.board.CellSet()
  {
    World(g.board.States(), g.bloodMoonActive, g.sanctuaryActive)
  }

  /** A missing event map is an empty one. */
  function ScheduleOf(eventMap: Option<map<int, EventType>>): map<int, EventType>
  {
    if eventMap.Some? then eventMap.value else map[]
  }

  /** unrollEvent on every tile's cell, in tile order, stopping at the first
      empty tile. */
  method UnrollOnBoard(game: Game, b: Board, event: EventType) returns (ok: bool)
    requires b.Valid()
    modifies game`bloodMoonActive, game`sanctuaryActive, b.CellSet()
    ensures ok <==> b.Full()
    ensures ok ==>
      && b.States() == EventAll(old(b.States()), event)
      && game.bloodMoonActive == (old(game.bloodMoonActive) || (event == BloodMoon && AnyAlive(old(b.States()))))
      && game.sanctuaryActive == (old(game.sanctuaryActive) || (event == Sanctuary && AnyAlive(old(b.States()))))
  {
    var i := 0;
    while i < |b.tiles|
      invariant 0 <= i <= |b.tiles|
      invariant forall j :: 0 <= j < i ==> b.tiles[j] != null
      invariant forall j :: 0 <= j < |b.tiles| && b.tiles[j] != null ==>
        b.tiles[j].State() == if j < i then EventEffect(event, old(b.tiles[j].State())) else old(b.tiles[j].State())
      invariant game.bloodMoonActive
        == (old(game.bloodMoonActive) || (event == BloodMoon && exists j :: 0 <= j < i && old(b.tiles[j].isAlive)))
      invariant game.sanctuaryActive
        == (old(game.sanctuaryActive) || (event == Sanctuary && exists j :: 0 <= j < i && old(b.tiles[j].isAlive)))
    {
      var cell := b.tiles[i];
      if cell == null {
        return false;
      }
      game.UnrollEvent(event, cell);
      i := i + 1;
    }
    return true;
  }

  /** The sanctuary effect on the current generation, on the whole board. */
  method SanctuaryStage(game: Game, current: Generation)
    requires current.board != null
    modifies game`sanctuaryActive, current.board.CellSet()
    ensures current.board.Full() ==> current.board.States() == if old(game.sanctuaryActive) then SanctuaryAll(old(current.board.States())) else old(current.board.States())
    ensures !game.sanctuaryActive
    ensures !old(game.sanctuaryActive) ==> unchanged(current.board.CellSet())
  {
    game.SanctuaryEffect(current);
    forall i | 0 <= i < |current.board.tiles| && current.board.tiles[i] != null
      ensures current.board.tiles[i] in current.board.CellSet()
    {
    }
  }

  /** The blood-moon effect on the next generation, on the whole board. */
  method BloodMoonStage(game: Game, next: Generation)
    requires next.board != null && next.board.Valid() && next.board.Full()
    modifies game`bloodMoonActive, next.board.CellSet()
    ensures next.board.States()
      == if old(game.bloodMoonActive) then BloodMoonAll(old(next.board.States()), next.board.neighbors) else old(next.board.States())
    ensures !game.bloodMoonActive
  {
    next.board.FlagsOfStates();
    game.BloodMoonEffects(next);
  }

  /** The event stage of one iteration: a scheduled event is unrolled on
      every tile's cell, recorded on the current generation and written into
      the game's schedule. */
  method EventStage(game: Game, current: Generation, i: int, schedule: map<int, EventType>) returns (ok: bool)
    requires game.Valid() && current.board == game.board && current.game == game
    modifies game`bloodMoonActive, game`sanctuaryActive, game`eventSchedule, game.board.CellSet(), current`event
    ensures ok <==> i !in schedule || game.board.Full()
    ensures i !in schedule ==> unchanged(game, current) && unchanged(game.board.CellSet())
    ensures ok && game.board.Full() ==> WorldOf(game) == AfterEvent(old(WorldOf(game)), EventAt(schedule, i))
    ensures ok ==> current.event == if i in schedule then Some(schedule[i]) else old(current.event)
    ensures ok ==> game.eventSchedule == if i in schedule then old(game.eventSchedule)[i := schedule[i]] else old(game.eventSchedule)
  {
    if i in schedule {
      var event := schedule[i];
      ok := UnrollOnBoard(game, game.board, event);
      if !ok {
        return;
      }
      current.event := Some(event);
      game.ScheduleEvent(i, event);
    } else {
      ok := true;
    }
  }

  /** The part of one iteration of run(game, steps, eventMap) before
      evolve: the event stage, the snapshot of the current generation, and
      the sanctuary effect on it. */
  method PrepareStep(game: Game, current: Generation, i: int, schedule: map<int, EventType>) returns (ok: bool)
    requires game.Valid() && current.board == game.board && current.game == game
    modifies game`bloodMoonActive, game`sanctuaryActive, game`eventSchedule, game.board.CellSet(), current`event, current`snapshot
    ensures ok <==> i !in schedule || game.board.Full()
    ensures game.Valid()
    ensures ok && game.board.Full() ==> WorldOf(game) == AfterSanctuary(AfterEvent(old(WorldOf(game)), EventAt(schedule, i)))
    ensures ok ==> current.event == if i in schedule then Some(schedule[i]) else old(current.event)
    ensures ok ==> game.eventSchedule == if i in schedule then old(game.eventSchedule)[i := schedule[i]] else old(game.eventSchedule)
    ensures ok && game.board.Full() ==>
      && current.snapshot.Keys == game.board.CellSet()
      && forall j :: 0 <= j < |game.board.tiles| ==>
           var c := AfterEvent(old(WorldOf(game)), EventAt(schedule, i)).cells[j];
           current.snapshot[game.board.tiles[j]] == Snap(c.alive, c.lifepoints)
  {
    ok := EventStage(game, current, i, schedule);
    if !ok {
      return;
    }
    current.SnapCells();
    SanctuaryStage(game, current);
  }

  /** The part of one iteration from evolve on: evolve, then the blood-moon
      effect on the generation it returns. */
  method FinishStep(game: Game, current: Generation) returns (r: Result<Generation>)
    requires game.Valid() && current.board == game.board && current.game == game
    modifies game, game.board.CellSet()
    ensures game.board == old(game.board) && game.eventSchedule == old(game.eventSchedule)
    ensures r.Ok? <==> game.board.Full()
    ensures r.Ok? ==>
      && fresh(r.value)
      && r.value.step == current.step + 1 && r.value.board == game.board && r.value.game == game
      && r.value.event == None
      && game.generations == old(game.generations) + [r.value]
      && game.Valid()
      && WorldOf(game)
           == AfterBloodMoon(World(StepCells(old(game.board.States()), game.board.neighbors, game.board.modifiers,
                                             current.event == Some(Famine)),
                                   old(game.bloodMoonActive), old(game.sanctuaryActive)),
                             game.board.neighbors)
  {
    r := EvolveInGame(game, current);
    if r.Err? {
      return;
    }
    BloodMoonStage(game, r.value);
  }

  /** One iteration of run(game, steps, eventMap): the event stage, the
      snapshot of the current generation, the sanctuary effect on it,
      evolve, and the blood-moon effect on the generation evolve returns. */
  method RunStep(game: Game, current: Generation, i: int, schedule: map<int, EventType>) returns (r: Result<Generation>)
    requires game.Valid() && current.board == game.board && current.game == game
    modifies game, game.board.CellSet(), current`event, current`snapshot
    ensures game.board == old(game.board)
    ensures r.Ok? <==> game.board.Full()
    ensures r.Ok? ==>
      && fresh(r.value)
      && r.value.step == current.step + 1 && r.value.board == game.board && r.value.game == game
      && r.value.event == None
      && game.generations == old(game.generations) + [r.value]
      && game.Valid()
    ensures r.Ok? ==>
      WorldOf(game) == Iterate(old(WorldOf(game)), game.board.neighbors, game.board.modifiers, EventAt(schedule, i), old(current.event))
    ensures r.Ok? ==> current.event == if i in schedule then Some(schedule[i]) else old(current.event)
    ensures r.Ok? ==>
      game.eventSchedule == if i in schedule then old(game.eventSchedule)[i := schedule[i]] else old(game.eventSchedule)
    ensures r.Ok? ==>
      && current.snapshot.Keys == game.board.CellSet()
      && forall j :: 0 <= j < |game.board.tiles| ==>
           var c := AfterEvent(old(WorldOf(game)), EventAt(schedule, i)).cells[j];
           current.snapshot[game.board.tiles[j]] == Snap(c.alive, c.lifepoints)
  {
    var ok := PrepareStep(game, current, i, schedule);
    if !ok {
      return Err(NullCell);
    }
    r := FinishStep(game, current);
  }

  /** The state of run(game, steps, eventMap) after i iterations: the game
      is valid, has i more generations and the scheduled entries below i in
      its schedule, and its cells and flags are RunSteps of the initial
      ones. The k-th appended generation is new, has step number
      start.step + k + 1, and, once it has been the current generation of
      iteration k + 1, records that iteration's scheduled event; the start
      generation records the event of iteration 0. */
  ghost predicate RunningEvents(game: Game, b: Board, start: Generation, current: Generation, w0: World,
                                schedule: map<int, EventType>, startEvent: Option<EventType>,
                                gens0: seq<Generation>, sched0: map<int, EventType>, i: nat)
    reads game, game.generations, b.CellSet(), start, current
  {
    && game.Valid() && game.board == b
    && current.board == b && current.game == game
    && start in gens0
    && start.event == (if i == 0 then startEvent else if 0 in schedule then Some(schedule[0]) else startEvent)
    && current.event == (if i == 0 then startEvent else None)
    && |game.generations| == |gens0| + i && game.generations[..|gens0|] == gens0
    && current == (if i == 0 then start else game.generations[|gens0| + i - 1])
    && (forall j :: |gens0| <= j < |gens0| + i ==>
          game.generations[j].step == start.step + (j - |gens0|) + 1 && game.generations[j] !in gens0)
    && (forall j, j' :: |gens0| <= j < j' < |gens0| + i ==> game.generations[j] != game.generations[j'])
    && (forall j :: |gens0| <= j < |gens0| + i - 1 ==> game.generations[j].event == EventAt(schedule, j - |gens0| + 1))
    && game.eventSchedule == Recorded(sched0, schedule, i)
    && (i > 0 ==> b.Full())
    && (b.Full() ==> Shape(w0.cells, b.neighbors, b.modifiers)
                     && WorldOf(game) == RunSteps(w0, b.neighbors, b.modifiers, schedule, startEvent, i))
  }

  /** One iteration of run(game, steps, eventMap), as the loop sees it. */
  method RunEventsIteration(game: Game, b: Board, start: Generation, current: Generation, i: nat, schedule: map<int, EventType>,
                            ghost w0: World, ghost startEvent: Option<EventType>,
                            ghost gens0: seq<Generation>, ghost sched0: map<int, EventType>)
    returns (r: Result<Generation>)
    requires RunningEvents(game, b, start, current, w0, schedule, startEvent, gens0, sched0, i)
    modifies game, b.CellSet(), current`event, current`snapshot
    ensures game.board == b
    ensures r.Ok? <==> b.Full()
    ensures r.Ok? ==> fresh(r.value) && RunningEvents(game, b, start, r.value, w0, schedule, startEvent, gens0, sched0, i + 1)
  {
    r := RunStep(game, current, i, schedule);
    if r.Ok? {
      assert game.generations[|gens0| + i] == r.value;
    }
  }

  /** The loop of run(game, steps, eventMap). */
  method RunEventsLoop(game: Game, b: Board, start: Generation, steps: int, schedule: map<int, EventType>,
                       ghost w0: World, ghost startEvent: Option<EventType>,
                       ghost gens0: seq<Generation>, ghost sched0: map<int, EventType>)
    returns (r: Result<Game>, ghost last: Generation)
    requires RunningEvents(game, b, start, start, w0, schedule, startEvent, gens0, sched0, 0)
    modifies game, b.CellSet(), start
    ensures game.board == b
    ensures r.Ok? <==> steps <= 0 || b.Full()
    ensures steps <= 0 ==> r == Ok(game) && unchanged(game, start) && unchanged(b.CellSet())
    ensures r.Ok? ==>
      && r.value == game
      && RunningEvents(game, b, start, last, w0, schedule, startEvent, gens0, sched0, if steps > 0 then steps else 0)
  {
    var current := start;
    var i := 0;
    while i < steps
      invariant 0 <= i && (i <= steps || i == 0)
      invariant current == start || fresh(current)
      invariant RunningEvents(game, b, start, current, w0, schedule, startEvent, gens0, sched0, i)
      invariant i == 0 ==> unchanged(game, start) && unchanged(b.CellSet())
    {
      var next := RunEventsIteration(game, b, start, current, i, schedule, w0, startEvent, gens0, sched0);
      if next.Err? {
        return Err(next.error), current;
      }
      current := next.value;
      i := i + 1;
    }
    return Ok(game), current;
  }

  /** ExtendedGameOfLife.run(game, steps, eventMap): rejects a null game;
      returns at once when steps < 0; otherwise runs `steps` iterations from
      the start generation, a missing map acting as an empty one. */
  method RunWithEvents(game: Game?, steps: int, eventMap: Option<map<int, EventType>>) returns (r: Result<Game>)
    requires game != null ==> game.Valid()
    modifies if game != null then {game, game.generations[0]} + game.board.CellSet() else {}
    ensures game == null ==> r == Err(NullArgument)
    ensures game != null ==> game.board == old(game.board) && (r.Ok? <==> steps <= 0 || game.board.Full())
    ensures game != null && steps <= 0 ==>
      r.Ok? && r.value == game && unchanged(game) && unchanged(game.generations[0]) && unchanged(game.board.CellSet())
    ensures game != null && steps > 0 && r.Ok? ==>
      && r.value == game && game.Valid()
      && WorldOf(game)
           == RunSteps(old(WorldOf(game)), game.board.neighbors, game.board.modifiers, ScheduleOf(eventMap),
                       old(game.generations[0].event), steps)
      && game.eventSchedule == Recorded(old(game.eventSchedule), ScheduleOf(eventMap), steps)
      && |game.generations| == |old(game.generations)| + steps
      && game.generations[..|old(game.generations)|] == old(game.generations)
      && (forall j :: |old(game.generations)| <= j < |game.generations| ==>
            game.generations[j].step == game.generations[0].step + (j - |old(game.generations)|) + 1)
      && game.generations[0].event == (if 0 in ScheduleOf(eventMap) then Some(ScheduleOf(eventMap)[0]) else old(game.generations[0].event))
      && (forall j :: |old(game.generations)| <= j < |game.generations| - 1 ==>
            game.generations[j].event == EventAt(ScheduleOf(eventMap), j - |old(game.generations)| + 1))
      && game.generations[|game.generations| - 1].event == None
  {
    if game == null {
      return Err(NullArgument);
    }
    var currentGen := game.GetStart();
    if steps < 0 {
      return Ok(game);
    }
    var schedule := ScheduleOf(eventMap);
    var b := game.board;
    ghost var w0 := if b.Full() then WorldOf(game) else World([], false, false);
    ghost var last;
    r, last := RunEventsLoop(game, b, currentGen, steps, schedule, w0, currentGen.event, game.generations, game.eventSchedule);
  }
}
