/**
 * Board-level specification of one generation step and of the run loop,
 * over the cells of a board as a row-major sequence of values.
 *
 * A board of n tiles is described by its cell states `s` (|s| == n), its
 * neighbour table `nbrs` (nbrs[i] lists the tile indices adjacent to tile i,
 * in the tile's fixed order) and its per-tile lifepoint modifiers `mods`.
 */
module StepSpec {
  import opened CellRules

  datatype Option<T> = None | Some(value: T)

  /** Every neighbour index names a tile of the board other than the tile itself. */
  predicate NeighborsWellFormed(nbrs: seq<seq<nat>>)
  {
    forall i, k :: 0 <= i < |nbrs| && 0 <= k < |nbrs[i]| ==> nbrs[i][k] < |nbrs| && nbrs[i][k] != i
  }

  /** A board description the step functions accept. */
  predicate Shape(s: seq<CellState>, nbrs: seq<seq<nat>>, mods: seq<int>)
  {
    |nbrs| == |s| && |mods| == |s| && NeighborsWellFormed(nbrs)
  }

  // ---------------------------------------------------------------------
  // Counting live neighbours (Cell.countAliveNeighbors)
  // ---------------------------------------------------------------------

  /** The alive flag of every tile. */
  function AliveOf(s: seq<CellState>): (f: seq<bool>)
    ensures |f| == |s| && forall i :: 0 <= i < |s| ==> f[i] == s[i].alive
  {
    seq(|s|, i requires 0 <= i < |s| => s[i].alive)
  }

  /** The number of entries of ns that index a true flag. */
  function CountAlive(flags: seq<bool>, ns: seq<nat>): (r: nat)
    ensures r <= |ns|
    ensures r == 0 <== forall k :: 0 <= k < |ns| ==> !(ns[k] < |flags| && flags[ns[k]])
  {
    if ns == [] then 0
    else
      var last := ns[|ns| - 1];
      CountAlive(flags, ns[..|ns| - 1]) + if last < |flags| && flags[last] then 1 else 0
  }

  /** The count depends only on the flags the entries of ns point at. */
  lemma {:induction false} CountAliveCongruent(f: seq<bool>, g: seq<bool>, ns: seq<nat>)
    requires forall k :: 0 <= k < |ns| ==> (ns[k] < |f| && f[ns[k]]) == (ns[k] < |g| && g[ns[k]])
    ensures CountAlive(f, ns) == CountAlive(g, ns)
  {
    if ns != [] {
      CountAliveCongruent(f, g, ns[..|ns| - 1]);
    }
  }

  /** The number of true flags. */
  function CountTrue(f: seq<bool>): (r: nat)
    ensures r <= |f|
  {
    if f == [] then 0 else CountTrue(f[..|f| - 1]) + if f[|f| - 1] then 1 else 0
  }

  // ---------------------------------------------------------------------
  // Phase 0: tile modifiers
  // ---------------------------------------------------------------------

  /** Every occupant receives its tile's lifepoint modifier. */
  function WithModifiers(s: seq<CellState>, mods: seq<int>): (r: seq<CellState>)
    requires |mods| == |s|
    ensures |r| == |s|
    ensures forall i :: 0 <= i < |s| ==> r[i] == s[i].(lifepoints := s[i].lifepoints + mods[i])
  {
    seq(|s|, i requires 0 <= i < |s| => s[i].(lifepoints := s[i].lifepoints + mods[i]))
  }

  // ---------------------------------------------------------------------
  // Phase 1: interactions, tile by tile in row-major order, and for each
  // tile neighbour by neighbour in the tile's order
  // ---------------------------------------------------------------------

  predicate NeighborsOf(n: nat, i: nat, ns: seq<nat>)
  {
    i < n && forall k :: 0 <= k < |ns| ==> ns[k] < n && ns[k] != i
  }

  /** Cell i interacts with the cells ns[0], ns[1], ... in that order. */
  function InteractWith(s: seq<CellState>, i: nat, ns: seq<nat>): (r: seq<CellState>)
    requires NeighborsOf(|s|, i, ns)
    ensures |r| == |s|
    decreases |ns|
  {
    if ns == [] then s
    else
      var t := InteractWith(s, i, ns[..|ns| - 1]);
      var j := ns[|ns| - 1];
      var p := Interacted(t[i], t[j]);
      t[i := p.0][j := p.1]
  }

  /** Tiles 0 .. k-1 have run their interactions. */
  function InteractTiles(s: seq<CellState>, nbrs: seq<seq<nat>>, k: nat): (r: seq<CellState>)
    requires |nbrs| == |s| && NeighborsWellFormed(nbrs) && k <= |s|
    ensures |r| == |s|
    decreases k
  {
    if k == 0 then s else InteractWith(InteractTiles(s, nbrs, k - 1), k - 1, nbrs[k - 1])
  }

  /** The whole interaction phase. */
  function InteractAll(s: seq<CellState>, nbrs: seq<seq<nat>>): (r: seq<CellState>)
    requires |nbrs| == |s| && NeighborsWellFormed(nbrs)
    ensures |r| == |s|
  {
    InteractTiles(s, nbrs, |s|)
  }

  /** Interactions never change an alive flag, a mood, an archetype or a
      death count. */
  predicate SameExceptEnergy(a: CellState, b: CellState)
  {
    a.alive == b.alive && a.mood == b.mood && a.cellType == b.cellType && a.deathCount == b.deathCount
  }

  lemma {:induction false} InteractWithKeepsIdentity(s: seq<CellState>, i: nat, ns: seq<nat>)
    requires NeighborsOf(|s|, i, ns)
    ensures forall j :: 0 <= j < |s| ==> SameExceptEnergy(InteractWith(s, i, ns)[j], s[j])
    decreases |ns|
  {
    if ns != [] {
      InteractWithKeepsIdentity(s, i, ns[..|ns| - 1]);
    }
  }

  lemma {:induction false} InteractTilesKeepsIdentity(s: seq<CellState>, nbrs: seq<seq<nat>>, k: nat)
    requires |nbrs| == |s| && NeighborsWellFormed(nbrs) && k <= |s|
    ensures forall j :: 0 <= j < |s| ==> SameExceptEnergy(InteractTiles(s, nbrs, k)[j], s[j])
    decreases k
  {
    if k > 0 {
      InteractTilesKeepsIdentity(s, nbrs, k - 1);
      InteractWithKeepsIdentity(InteractTiles(s, nbrs, k - 1), k - 1, nbrs[k - 1]);
    }
  }

  /** The interaction phase leaves every alive flag as it was, so the
      decisions that follow see the alive flags of the step's start. */
  lemma InteractAllKeepsAlive(s: seq<CellState>, nbrs: seq<seq<nat>>)
    requires |nbrs| == |s| && NeighborsWellFormed(nbrs)
    ensures AliveOf(InteractAll(s, nbrs)) == AliveOf(s)
    ensures forall j :: 0 <= j < |s| ==> SameExceptEnergy(InteractAll(s, nbrs)[j], s[j])
  {
    InteractTilesKeepsIdentity(s, nbrs, |s|);
  }

  /** A dead cell's row of interactions changes nothing (the engine skips it). */
  lemma {:induction false} InteractWithDeadIsIdentity(s: seq<CellState>, i: nat, ns: seq<nat>)
    requires NeighborsOf(|s|, i, ns) && !s[i].alive
    ensures InteractWith(s, i, ns) == s
    decreases |ns|
  {
    if ns != [] {
      InteractWithDeadIsIdentity(s, i, ns[..|ns| - 1]);
      var j := ns[|ns| - 1];
      InteractNeedsTwoLiveCells(s[i], s[j]);
      assert s[i := s[i]][j := s[j]] == s;
    }
  }

  // ---------------------------------------------------------------------
  // Phase 2: decisions, from the alive flags after the interaction phase
  // ---------------------------------------------------------------------

  /** The decision for tile i. After a FAMINE generation a dead cell stays
      dead and its evolve is not called. */
  function Decided(s: seq<CellState>, nbrs: seq<seq<nat>>, famine: bool, i: nat): (t: Transition)
    requires |nbrs| == |s| && i < |s|
  {
    if famine && !s[i].alive then Transition(s[i], false)
    else Evolved(s[i], CountAlive(AliveOf(s), nbrs[i]))
  }

  function Decisions(s: seq<CellState>, nbrs: seq<seq<nat>>, famine: bool): (ts: seq<Transition>)
    requires |nbrs| == |s|
    ensures |ts| == |s| && forall i :: 0 <= i < |s| ==> ts[i] == Decided(s, nbrs, famine, i)
  {
    seq(|s|, i requires 0 <= i < |s| => Decided(s, nbrs, famine, i))
  }

  /** Phase 3: every cell takes its own decision as its alive flag. */
  function Committed(ts: seq<Transition>): (r: seq<CellState>)
    ensures |r| == |ts|
    ensures forall i :: 0 <= i < |ts| ==> r[i] == ts[i].cell.(alive := ts[i].willLive)
  {
    seq(|ts|, i requires 0 <= i < |ts| => ts[i].cell.(alive := ts[i].willLive))
  }

  /** One call of ExtendedGameOfLife.evolve on the cells of the board. */
  function StepCells(s: seq<CellState>, nbrs: seq<seq<nat>>, mods: seq<int>, famine: bool): (r: seq<CellState>)
    requires Shape(s, nbrs, mods)
    ensures |r| == |s|
  {
    Committed(Decisions(InteractAll(WithModifiers(s, mods), nbrs), nbrs, famine))
  }

  /** Simultaneous update: a decision depends only on the cell itself and on
      the alive flags of the board, not on any other field of another cell. */
  lemma DecisionIsLocal(s: seq<CellState>, t: seq<CellState>, nbrs: seq<seq<nat>>, famine: bool, i: nat)
    requires |nbrs| == |s| == |t| && i < |s|
    requires s[i] == t[i] && AliveOf(s) == AliveOf(t)
    ensures Decided(s, nbrs, famine, i) == Decided(t, nbrs, famine, i)
  {
  }

  /** Simultaneous update over the whole step: each cell's new alive flag is
      its decision on the live-neighbour count taken on the alive flags of
      the step's start. Neither the tile modifiers, nor the interactions, nor
      the other tiles' decisions move those flags before they are read. */
  lemma StepReadsStartFlags(s: seq<CellState>, nbrs: seq<seq<nat>>, mods: seq<int>, famine: bool, i: nat)
    requires Shape(s, nbrs, mods) && i < |s|
    ensures var c := InteractAll(WithModifiers(s, mods), nbrs)[i];
      StepCells(s, nbrs, mods, famine)[i].alive
        == (!(famine && !s[i].alive) && Evolved(c, CountAlive(AliveOf(s), nbrs[i])).willLive)
  {
    var s1 := WithModifiers(s, mods);
    assert AliveOf(s1) == AliveOf(s);
    InteractAllKeepsAlive(s1, nbrs);
  }

  lemma {:induction false} CountTrueCommitted(ts: seq<Transition>)
    ensures CountTrue(AliveOf(Committed(ts))) == CountTrue(seq(|ts|, i requires 0 <= i < |ts| => ts[i].willLive))
  {
    var ds := seq(|ts|, i requires 0 <= i < |ts| => ts[i].willLive);
    if ts != [] {
      var p := ts[..|ts| - 1];
      CountTrueCommitted(p);
      assert AliveOf(Committed(ts))[..|ts| - 1] == AliveOf(Committed(p));
      assert ds[..|ts| - 1] == seq(|p|, i requires 0 <= i < |p| => p[i].willLive);
    }
  }

  /** After a step, the number of live cells is the number of true decisions. */
  lemma StepAliveCountIsTrueDecisions(s: seq<CellState>, nbrs: seq<seq<nat>>, mods: seq<int>, famine: bool)
    requires Shape(s, nbrs, mods)
    ensures var ts := Decisions(InteractAll(WithModifiers(s, mods), nbrs), nbrs, famine);
      CountTrue(AliveOf(StepCells(s, nbrs, mods, famine)))
        == CountTrue(seq(|ts|, i requires 0 <= i < |ts| => ts[i].willLive))
  {
    CountTrueCommitted(Decisions(InteractAll(WithModifiers(s, mods), nbrs), nbrs, famine));
  }

  /** FAMINE suppression: in a step that follows a FAMINE generation, a cell
      that is dead after the interaction phase stays dead with its
      lifepoints, mood and bite flag as they were. */
  lemma FamineSuppressesRespawn(s: seq<CellState>, nbrs: seq<seq<nat>>, mods: seq<int>, i: nat)
    requires Shape(s, nbrs, mods) && i < |s| && !s[i].alive
    ensures StepCells(s, nbrs, mods, true)[i] == s[i].(lifepoints := s[i].lifepoints + mods[i])
  {
    var s1 := WithModifiers(s, mods);
    InteractAllKeepsAlive(s1, nbrs);
    InteractTilesDeadKeep(s1, nbrs, |s|, i);
  }

  /** A dead cell's state survives the interaction phase, except for the bite
      flag, which a dead cell cannot receive either. */
  lemma {:induction false} InteractTilesDeadKeep(s: seq<CellState>, nbrs: seq<seq<nat>>, k: nat, i: nat)
    requires |nbrs| == |s| && NeighborsWellFormed(nbrs) && k <= |s| && i < |s| && !s[i].alive
    ensures InteractTiles(s, nbrs, k)[i] == s[i]
    decreases k
  {
    if k > 0 {
      var t := InteractTiles(s, nbrs, k - 1);
      InteractTilesDeadKeep(s, nbrs, k - 1, i);
      InteractWithDeadKeep(t, k - 1, nbrs[k - 1], i);
    }
  }

  lemma {:induction false} InteractWithDeadKeep(s: seq<CellState>, a: nat, ns: seq<nat>, i: nat)
    requires NeighborsOf(|s|, a, ns) && i < |s| && !s[i].alive
    ensures InteractWith(s, a, ns)[i] == s[i]
    decreases |ns|
  {
    if ns != [] {
      var t := InteractWith(s, a, ns[..|ns| - 1]);
      InteractWithDeadKeep(s, a, ns[..|ns| - 1], i);
      InteractWithKeepsIdentity(s, a, ns[..|ns| - 1]);
      var j := ns[|ns| - 1];
      if i == a || i == j {
        InteractNeedsTwoLiveCells(t[a], t[j]);
      }
    }
  }

  // ---------------------------------------------------------------------
  // Board-wide event effects
  // ---------------------------------------------------------------------

  /** unrollEvent applied to every tile's cell. */
  function EventAll(s: seq<CellState>, e: EventType): (r: seq<CellState>)
    ensures |r| == |s| && forall i :: 0 <= i < |s| ==> r[i] == EventEffect(e, s[i])
  {
    seq(|s|, i requires 0 <= i < |s| => EventEffect(e, s[i]))
  }

  /** Some cell of the board is alive. */
  predicate AnyAlive(s: seq<CellState>)
  {
    exists i :: 0 <= i < |s| && s[i].alive
  }

  /** The sanctuary effect on every cell. */
  function SanctuaryAll(s: seq<CellState>): (r: seq<CellState>)
    ensures |r| == |s| && forall i :: 0 <= i < |s| ==> r[i] == SanctuaryCell(s[i])
  {
    seq(|s|, i requires 0 <= i < |s| => SanctuaryCell(s[i]))
  }

  /** The tiles holding a live vampire. */
  function VampiresOf(s: seq<CellState>): (f: seq<bool>)
    ensures |f| == |s| && forall i :: 0 <= i < |s| ==> f[i] == (s[i].alive && s[i].mood == Vampire)
  {
    seq(|s|, i requires 0 <= i < |s| => s[i].alive && s[i].mood == Vampire)
  }

  /** Tile h is a neighbour of some tile flagged in vamps. */
  predicate NextToVampire(vamps: seq<bool>, nbrs: seq<seq<nat>>, h: nat)
  {
    exists v :: 0 <= v < |vamps| && v < |nbrs| && vamps[v] && h in nbrs[v]
  }

  /** The blood-moon effect: the live healers next to a live vampire of the
      board as it was before the effect become vampires. */
  function BloodMoonAll(s: seq<CellState>, nbrs: seq<seq<nat>>): (r: seq<CellState>)
    ensures |r| == |s|
    ensures forall h :: 0 <= h < |s| ==> r[h] == MoonCell(s[h], NextToVampire(VampiresOf(s), nbrs, h))
  {
    seq(|s|, h requires 0 <= h < |s| => MoonCell(s[h], NextToVampire(VampiresOf(s), nbrs, h)))
  }

  /** Blood moon converts exactly the live healers adjacent to a vampire that
      was alive at the start, changes no lifepoints and does not spread from
      the healers it converts. */
  lemma BloodMoonConverts(s: seq<CellState>, nbrs: seq<seq<nat>>, h: nat)
    requires h < |s|
    ensures var r := BloodMoonAll(s, nbrs);
      && r[h].lifepoints == s[h].lifepoints
      && (r[h].mood == Vampire && s[h].mood != Vampire <==>
            s[h].alive && s[h].mood == Healer
            && exists v :: 0 <= v < |s| && v < |nbrs| && s[v].alive && s[v].mood == Vampire && h in nbrs[v])
      && r[h] == s[h].(mood := r[h].mood)
  {
    var vs := VampiresOf(s);
    if NextToVampire(vs, nbrs, h) {
      var v :| 0 <= v < |vs| && v < |nbrs| && vs[v] && h in nbrs[v];
      assert s[v].alive && s[v].mood == Vampire;
    }
  }

  // ---------------------------------------------------------------------
  // The run loop (ExtendedGameOfLife.run with an event map)
  // ---------------------------------------------------------------------

  /** The cells of the board and the game's two deferred-effect flags. */
  datatype World = World(cells: seq<CellState>, bloodMoon: bool, sanctuary: bool)

  function EventAt(schedule: map<int, EventType>, i: int): Option<EventType>
  {
    if i in schedule then Some(schedule[i]) else None
  }

  /** The scheduled event (if any) unrolled on every cell: each cell takes
      its immediate effect and a deferred event arms its flag when some cell
      is alive. */
  function AfterEvent(w: World, scheduled: Option<EventType>): (r: World)
    ensures |r.cells| == |w.cells|
  {
    if scheduled.None? then w
    else World(EventAll(w.cells, scheduled.value),
               w.bloodMoon || (scheduled.value == BloodMoon && AnyAlive(w.cells)),
               w.sanctuary || (scheduled.value == Sanctuary && AnyAlive(w.cells)))
  }

  /** The game's schedule after the first k iterations: every entry of
      `schedule` below k written over `base`, in step order. */
  function Recorded(base: map<int, EventType>, schedule: map<int, EventType>, k: nat): map<int, EventType>
    decreases k
  {
    if k == 0 then base
    else
      var m := Recorded(base, schedule, k - 1);
      if k - 1 in schedule then m[k - 1 := schedule[k - 1]] else m
  }

  /** After k iterations the game's schedule holds the entries of `schedule`
      at steps 0 .. k-1 and, at every other step, what it held before. */
  lemma {:induction false} RecordedEntries(base: map<int, EventType>, schedule: map<int, EventType>, k: nat)
    ensures forall j :: j in Recorded(base, schedule, k) <==> (0 <= j < k && j in schedule) || j in base
    ensures forall j :: 0 <= j < k && j in schedule ==> Recorded(base, schedule, k)[j] == schedule[j]
    ensures forall j :: !(0 <= j < k && j in schedule) && j in base ==> Recorded(base, schedule, k)[j] == base[j]
    decreases k
  {
    if k > 0 {
      RecordedEntries(base, schedule, k - 1);
    }
  }

  /** One iteration of the loop: the scheduled event (if any) on every cell,
      then the sanctuary effect, the step, and the blood-moon effect. The
      step's FAMINE check reads the event recorded on the current generation:
      the scheduled one, or else the one it already carried. */
  function Iterate(w: World, nbrs: seq<seq<nat>>, mods: seq<int>,
                   scheduled: Option<EventType>, carried: Option<EventType>): (r: World)
    requires Shape(w.cells, nbrs, mods)
    ensures |r.cells| == |w.cells|
  {
    var w1 := AfterEvent(w, scheduled);
    var recorded := if scheduled.Some? then scheduled else carried;
    var w2 := AfterSanctuary(w1);
    AfterBloodMoon(World(StepCells(w2.cells, nbrs, mods, recorded == Some(Famine)), w2.bloodMoon, w2.sanctuary), nbrs)
  }

  /** The sanctuary effect when its flag is up, consuming the flag. */
  function AfterSanctuary(w: World): (r: World)
    ensures |r.cells| == |w.cells|
  {
    if w.sanctuary then World(SanctuaryAll(w.cells), w.bloodMoon, false) else w
  }

  /** The blood-moon effect when its flag is up, consuming the flag. */
  function AfterBloodMoon(w: World, nbrs: seq<seq<nat>>): (r: World)
    ensures |r.cells| == |w.cells|
  {
    if w.bloodMoon then World(BloodMoonAll(w.cells, nbrs), false, w.sanctuary) else w
  }

  /** The world after the first k iterations; the start generation carries
      `startEvent`, every later generation none. */
  function RunSteps(w: World, nbrs: seq<seq<nat>>, mods: seq<int>, schedule: map<int, EventType>,
                    startEvent: Option<EventType>, k: nat): (r: World)
    requires Shape(w.cells, nbrs, mods)
    ensures |r.cells| == |w.cells|
    decreases k
  {
    if k == 0 then w
    else
      Iterate(RunSteps(w, nbrs, mods, schedule, startEvent, k - 1), nbrs, mods,
              EventAt(schedule, k - 1), if k - 1 == 0 then startEvent else None)
  }

  /** The cells after k calls of evolve without events. */
  function EvolveSteps(s: seq<CellState>, nbrs: seq<seq<nat>>, mods: seq<int>,
                       startEvent: Option<EventType>, k: nat): (r: seq<CellState>)
    requires Shape(s, nbrs, mods)
    ensures |r| == |s|
    decreases k
  {
    if k == 0 then s
    else
      StepCells(EvolveSteps(s, nbrs, mods, startEvent, k - 1), nbrs, mods,
                k - 1 == 0 && startEvent == Some(Famine))
  }

  /** With nothing scheduled and both flags down, the run with events moves
      the cells exactly as the run without events does. */
  lemma {:induction false} EmptyScheduleIsPlainRun(s: seq<CellState>, nbrs: seq<seq<nat>>, mods: seq<int>,
                                                   startEvent: Option<EventType>, k: nat)
    requires Shape(s, nbrs, mods)
    ensures RunSteps(World(s, false, false), nbrs, mods, map[], startEvent, k)
      == World(EvolveSteps(s, nbrs, mods, startEvent, k), false, false)
    decreases k
  {
    if k > 0 {
      EmptyScheduleIsPlainRun(s, nbrs, mods, startEvent, k - 1);
    }
  }

  /** A flag armed during an iteration is consumed in the same iteration. */
  lemma FlagsConsumedEachIteration(w: World, nbrs: seq<seq<nat>>, mods: seq<int>,
                                   scheduled: Option<EventType>, carried: Option<EventType>)
    requires Shape(w.cells, nbrs, mods)
    ensures !Iterate(w, nbrs, mods, scheduled, carried).bloodMoon
    ensures !Iterate(w, nbrs, mods, scheduled, carried).sanctuary
  {
  }

  // ---------------------------------------------------------------------
  // An all-dead board stays dead
  // ---------------------------------------------------------------------

  predicate AllDead(s: seq<CellState>)
  {
    forall i :: 0 <= i < |s| ==> !s[i].alive
  }

  predicate ZeroModifiers(mods: seq<int>)
  {
    forall i :: 0 <= i < |mods| ==> mods[i] == 0
  }

  /** A step of an all-dead board leaves every cell dead with its lifepoints
      plus its modifier. */
  lemma StepOfDeadBoard(s: seq<CellState>, nbrs: seq<seq<nat>>, mods: seq<int>, famine: bool)
    requires Shape(s, nbrs, mods) && AllDead(s)
    ensures var r := StepCells(s, nbrs, mods, famine);
      AllDead(r) && forall i :: 0 <= i < |s| ==> r[i].lifepoints == s[i].lifepoints + mods[i]
  {
    var s1 := WithModifiers(s, mods);
    var s2 := InteractAll(s1, nbrs);
    forall i | 0 <= i < |s|
      ensures s2[i] == s1[i]
    {
      InteractTilesDeadKeep(s1, nbrs, |s|, i);
    }
    InteractAllKeepsAlive(s1, nbrs);
    forall i | 0 <= i < |s|
      ensures CountAlive(AliveOf(s2), nbrs[i]) == 0
    {
    }
  }

  /** One iteration of an all-dead board with neutral tiles keeps it dead
      with unchanged lifepoints, whatever event is scheduled. */
  lemma IterateOfDeadBoard(w: World, nbrs: seq<seq<nat>>, mods: seq<int>,
                           scheduled: Option<EventType>, carried: Option<EventType>)
    requires Shape(w.cells, nbrs, mods) && AllDead(w.cells) && ZeroModifiers(mods)
    ensures var r := Iterate(w, nbrs, mods, scheduled, carried);
      AllDead(r.cells) && forall i :: 0 <= i < |w.cells| ==> r.cells[i].lifepoints == w.cells[i].lifepoints
  {
    var c1 := AfterEvent(w, scheduled).cells;
    assert c1 == w.cells;
    assert SanctuaryAll(c1) == c1;
    assert AfterSanctuary(AfterEvent(w, scheduled)).cells == c1;
    var recorded := if scheduled.Some? then scheduled else carried;
    StepOfDeadBoard(c1, nbrs, mods, recorded == Some(Famine));
    var c3 := StepCells(c1, nbrs, mods, recorded == Some(Famine));
    assert BloodMoonAll(c3, nbrs) == c3;
  }

  /** An all-dead board with neutral tiles stays dead with unchanged
      lifepoints through any number of iterations and any schedule of events. */
  lemma {:induction false} DeadBoardStaysDead(w: World, nbrs: seq<seq<nat>>, mods: seq<int>,
                                              schedule: map<int, EventType>, startEvent: Option<EventType>, k: nat)
    requires Shape(w.cells, nbrs, mods) && AllDead(w.cells) && ZeroModifiers(mods)
    ensures var r := RunSteps(w, nbrs, mods, schedule, startEvent, k);
      AllDead(r.cells) && forall i :: 0 <= i < |w.cells| ==> r.cells[i].lifepoints == w.cells[i].lifepoints
    decreases k
  {
    if k > 0 {
      var p := RunSteps(w, nbrs, mods, schedule, startEvent, k - 1);
      DeadBoardStaysDead(w, nbrs, mods, schedule, startEvent, k - 1);
      var carried := if k - 1 == 0 then startEvent else None;
      IterateOfDeadBoard(p, nbrs, mods, EventAt(schedule, k - 1), carried);
      var r := Iterate(p, nbrs, mods, EventAt(schedule, k - 1), carried);
      assert RunSteps(w, nbrs, mods, schedule, startEvent, k) == r;
      forall i | 0 <= i < |w.cells|
        ensures r.cells[i].lifepoints == w.cells[i].lifepoints
      {
        assert r.cells[i].lifepoints == p.cells[i].lifepoints;
      }
    }
  }
}
