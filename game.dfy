/**
 * A game: its board, its ordered generations, the event schedule and the
 * two consume-once flags armed by BLOOD_MOON and SANCTUARY, with the event
 * and deferred-effect operations of Game.java. A generation is the step
 * index, the board and game it belongs to, the event recorded on it and a
 * snapshot of (alive, lifepoints) per cell.
 */
module GameModel {
  import opened CellRules
  import opened StepSpec
  import opened CellModel
  import opened BoardModel

  /** What a snapshot records of one cell. */
  datatype Snap = Snap(alive: bool, lifepoints: int)

  /** The (alive, lifepoints) pair of every cell of the board. */
  function SnapshotOf(b: Board): (m: map<Cell, Snap>)
    reads b.CellSet()
    ensures m.Keys == b.CellSet()
    ensures forall c :: c in b.CellSet() ==> m[c] == Snap(c.isAlive, c.lifepoints)
  {
    map c | c in b.CellSet() :: Snap(c.isAlive, c.lifepoints)
  }

  class Generation {
    const step: int
    const board: Board?
    var game: Game?
    var event: Option<EventType>
    var snapshot: map<Cell, Snap>

    /** A generation with an empty snapshot; the snapshot is taken
        separately by SnapCells. */
    constructor (step: int, board: Board?, game: Game?, event: Option<EventType>)
      ensures this.step == step && this.board == board && this.game == game
      ensures this.event == event && snapshot == map[]
    {
      this.step := step;
      this.board := board;
      this.game := game;
      this.event := event;
      snapshot := map[];
    }

    /** Records the current (alive, lifepoints) of every cell of the board. */
    method SnapCells()
      requires board != null
      modifies this`snapshot
      ensures snapshot.Keys == board.CellSet()
      ensures forall c :: c in board.CellSet() ==> snapshot[c] == Snap(c.isAlive, c.lifepoints)
    {
      snapshot := SnapshotOf(board);
    }
  }

  class Game {
    var board: Board?
    var generations: seq<Generation>
    var eventSchedule: map<int, EventType>
    var bloodMoonActive: bool
    var sanctuaryActive: bool

    /** A new game: no board yet, no generations, nothing scheduled, both
        flags down. */
    constructor ()
      ensures board == null && generations == [] && eventSchedule == map[]
      ensures !bloodMoonActive && !sanctuaryActive
    {
      board := null;
      generations := [];
      eventSchedule := map[];
      bloodMoonActive := false;
      sanctuaryActive := false;
    }

    /** A game set up for running: a valid board and at least the start
        generation, every generation on this board and of this game. */
    ghost predicate Valid()
      reads this, generations
    {
      && board != null && board.Valid()
      && |generations| > 0
      && forall k :: 0 <= k < |generations| ==> generations[k].board == board && generations[k].game == this
    }

    /** Appends a generation at the end of the timeline and points it at
        this game. */
    method AddGeneration(g: Generation)
      modifies this`generations, g`game
      ensures generations == old(generations) + [g]
      ensures g.game == this
    {
      g.game := this;
      generations := generations + [g];
    }

    /** The first generation. */
    method GetStart() returns (g: Generation)
      requires |generations| > 0
      ensures g == generations[0]
    {
      g := generations[0];
    }

    method SetBloodMoonActive(active: bool)
      modifies this`bloodMoonActive
      ensures bloodMoonActive == active
    {
      bloodMoonActive := active;
    }

    method SetSanctuaryActive(active: bool)
      modifies this`sanctuaryActive
      ensures sanctuaryActive == active
    {
      sanctuaryActive := active;
    }

    /** Maps the step to the event, replacing an earlier entry for that step. */
    method ScheduleEvent(step: int, event: EventType)
      modifies this`eventSchedule
      ensures eventSchedule == old(eventSchedule)[step := event]
      ensures step in eventSchedule && eventSchedule[step] == event
      ensures forall j :: j != step ==> (j in eventSchedule <==> j in old(eventSchedule))
      ensures forall j :: j != step && j in eventSchedule ==> eventSchedule[j] == old(eventSchedule)[j]
    {
      eventSchedule := eventSchedule[step := event];
    }

    /** The immediate effect of an event on one cell, and the arming of the
        flag of a deferred event. A dead cell is left alone and arms nothing. */
    method UnrollEvent(event: EventType, cell: Cell)
      modifies this`bloodMoonActive, this`sanctuaryActive, cell
      ensures cell.State() == EventEffect(event, old(cell.State()))
      ensures bloodMoonActive == (old(bloodMoonActive) || ArmsBloodMoon(event, old(cell.State())))
      ensures sanctuaryActive == (old(sanctuaryActive) || ArmsSanctuary(event, old(cell.State())))
    {
      if !cell.isAlive {
        return;
      }
      match event {
        case Cataclysm =>
          cell.lifepoints := 0;
        case Famine =>
          cell.lifepoints := cell.lifepoints - 1;
          if cell.lifepoints < 0 {
            cell.isAlive := false;
          }
        case Bloom =>
          cell.lifepoints := cell.lifepoints + 2;
        case BloodMoon =>
          bloodMoonActive := true;
        case Sanctuary =>
          sanctuaryActive := true;
      }
    }

    /** When the sanctuary flag is up: live healers gain one lifepoint, live
        vampires turn naive, and the flag goes down. Otherwise nothing. */
    method SanctuaryEffect(gen: Generation?)
      requires gen != null && sanctuaryActive ==> gen.board != null
      modifies this`sanctuaryActive, if gen != null && gen.board != null then gen.board.CellSet() else {}
      ensures old(sanctuaryActive) && gen != null ==>
        !sanctuaryActive && forall c :: c in gen.board.CellSet() ==> c.State() == SanctuaryCell(old(c.State()))
      ensures !old(sanctuaryActive) || gen == null ==>
        sanctuaryActive == old(sanctuaryActive)
        && (gen != null && gen.board != null ==> unchanged(gen.board.CellSet()))
    {
      if !sanctuaryActive || gen == null {
        return;
      }
      var b := gen.board;
      var todo := b.CellSet();
      while todo != {}
        invariant todo <= b.CellSet()
        invariant forall c :: c in b.CellSet() && c !in todo ==> c.State() == SanctuaryCell(old(c.State()))
        invariant forall c :: c in todo ==> c.State() == old(c.State())
        decreases |todo|
      {
        var cell :| cell in todo;
        if cell.isAlive && cell.cellMood == Healer {
          cell.lifepoints := cell.lifepoints + 1;
        } else if cell.isAlive && cell.cellMood == Vampire {
          cell.cellMood := Naive;
        }
        todo := todo - {cell};
      }
      sanctuaryActive := false;
    }

    /** When the blood-moon flag is up: every live healer on a tile adjacent
        to a tile whose cell was a live vampire when the call began turns
        vampire, and the flag goes down. Otherwise nothing. */
    method BloodMoonEffects(gen: Generation?)
      requires gen != null && bloodMoonActive ==> gen.board != null && gen.board.Valid()
      modifies this`bloodMoonActive, if gen != null && gen.board != null then gen.board.CellSet() else {}
      ensures old(bloodMoonActive) && gen != null ==>
        && !bloodMoonActive
        && forall h :: 0 <= h < |gen.board.tiles| && gen.board.tiles[h] != null ==>
             gen.board.tiles[h].State()
               == MoonCell(old(gen.board.tiles[h].State()),
                           NextToVampire(old(gen.board.VampireFlags()), gen.board.neighbors, h))
      ensures !old(bloodMoonActive) || gen == null ==>
        bloodMoonActive == old(bloodMoonActive)
        && (gen != null && gen.board != null ==> unchanged(gen.board.CellSet()))
    {
      if !bloodMoonActive || gen == null {
        return;
      }
      var b := gen.board;
      ghost var vamps := b.VampireFlags();
      var healers := CollectBittenHealers(b);
      var rest := healers;
      while rest != {}
        invariant rest <= healers
        invariant forall c :: c in b.CellSet() ==>
          c.State() == if c in healers && c !in rest then old(c.State()).(mood := Vampire) else old(c.State())
        decreases |rest|
      {
        var h :| h in rest;
        h.cellMood := Vampire;
        rest := rest - {h};
      }
      forall h | 0 <= h < |b.tiles| && b.tiles[h] != null
        ensures b.tiles[h].State() == MoonCell(old(b.tiles[h].State()), NextToVampire(vamps, b.neighbors, h))
      {
        assert b.tiles[h] in b.CellSet();
      }
      bloodMoonActive := false;
    }

    /** Sets the mood of the cell on each listed tile; nothing happens
        without a board or a list. */
    method SetMoods(mood: CellMood, coordinates: Option<seq<nat>>)
      requires board != null && coordinates.Some? ==> board.Valid()
      requires board != null && coordinates.Some? ==> forall k :: 0 <= k < |coordinates.value| ==> coordinates.value[k] < |board.tiles|
      modifies if board != null then board.CellSet() else {}
      ensures board == null || coordinates.None? ==> unchanged(if board != null then board.CellSet() else {})
      ensures board != null && coordinates.Some? ==>
        forall i :: 0 <= i < |board.tiles| && board.tiles[i] != null ==>
          board.tiles[i].State()
            == if i in coordinates.value then old(board.tiles[i].State()).(mood := mood) else old(board.tiles[i].State())
    {
      if board == null || coordinates.None? {
        return;
      }
      var b := board;
      var coords := coordinates.value;
      var k := 0;
      while k < |coords|
        invariant 0 <= k <= |coords|
        invariant forall i :: 0 <= i < |b.tiles| && b.tiles[i] != null ==>
          b.tiles[i].State() == if i in coords[..k] then old(b.tiles[i].State()).(mood := mood) else old(b.tiles[i].State())
      {
        var cell := b.tiles[coords[k]];
        if cell != null {
          cell.cellMood := mood;
        }
        assert coords[..k + 1] == coords[..k] + [coords[k]];
        k := k + 1;
      }
      assert coords[..k] == coords;
    }
  }

  /** Whether some tile in `scanned` holds a vampire flag and lists h as a
      neighbour. */
  ghost predicate BittenBy(vamps: seq<bool>, nbrs: seq<seq<nat>>, scanned: set<nat>, h: nat)
  {
    exists v :: v in scanned && v < |vamps| && v < |nbrs| && vamps[v] && h in nbrs[v]
  }

  /** The first pass of bloodMoonEffects: the set of live healers on tiles
      next to a live vampire. Nothing is changed. */
  method CollectBittenHealers(b: Board) returns (healers: set<Cell>)
    requires b.Valid()
    ensures healers <= b.CellSet()
    ensures forall h :: 0 <= h < |b.tiles| && b.tiles[h] != null ==>
      (b.tiles[h] in healers <==>
        b.tiles[h].isAlive && b.tiles[h].cellMood == Healer && NextToVampire(b.VampireFlags(), b.neighbors, h))
  {
    var vamps := b.VampireFlags();
    healers := {};
    var todo: set<nat> := set v: nat | v < |b.tiles| && b.tiles[v] != null;
    ghost var scanned: set<nat> := {};
    while todo != {}
      invariant healers <= b.CellSet()
      invariant forall v :: v in todo ==> v < |b.tiles| && b.tiles[v] != null
      invariant forall v :: 0 <= v < |b.tiles| && b.tiles[v] != null ==> v in todo || v in scanned
      invariant forall v :: v in scanned ==> v < |b.tiles|
      invariant forall h :: 0 <= h < |b.tiles| && b.tiles[h] != null ==>
        (b.tiles[h] in healers <==>
          b.tiles[h].isAlive && b.tiles[h].cellMood == Healer && BittenBy(vamps, b.neighbors, scanned, h))
      decreases |todo|
    {
      var v :| v in todo;
      var vampire := b.tiles[v];
      if vampire.isAlive && vampire.cellMood == Vampire {
        healers := AddNeighborHealers(b, v, healers, scanned);
      } else {
        forall h | 0 <= h < |b.tiles| && b.tiles[h] != null
          ensures BittenBy(vamps, b.neighbors, scanned + {v}, h) == BittenBy(vamps, b.neighbors, scanned, h)
        {
          BittenByExtend(vamps, b.neighbors, scanned, v, h);
        }
      }
      todo := todo - {v};
      scanned := scanned + {v};
    }
    forall h | 0 <= h < |b.tiles| && b.tiles[h] != null
      ensures BittenBy(vamps, b.neighbors, scanned, h) == NextToVampire(vamps, b.neighbors, h)
    {
      if NextToVampire(vamps, b.neighbors, h) {
        var w: nat :| w < |vamps| && w < |b.neighbors| && vamps[w] && h in b.neighbors[w];
        assert w in scanned;
      }
    }
  }

  /** The inner scan of bloodMoonEffects over the neighbours of the live
      vampire on tile v. */
  method AddNeighborHealers(b: Board, v: nat, healers0: set<Cell>, ghost scanned: set<nat>) returns (healers: set<Cell>)
    requires b.Valid() && v < |b.tiles| && b.tiles[v] != null
    requires b.tiles[v].isAlive && b.tiles[v].cellMood == Vampire
    requires healers0 <= b.CellSet()
    requires forall h :: 0 <= h < |b.tiles| && b.tiles[h] != null ==>
      (b.tiles[h] in healers0 <==>
        b.tiles[h].isAlive && b.tiles[h].cellMood == Healer && BittenBy(b.VampireFlags(), b.neighbors, scanned, h))
    ensures healers <= b.CellSet()
    ensures forall h :: 0 <= h < |b.tiles| && b.tiles[h] != null ==>
      (b.tiles[h] in healers <==>
        b.tiles[h].isAlive && b.tiles[h].cellMood == Healer && BittenBy(b.VampireFlags(), b.neighbors, scanned + {v}, h))
  {
    var vamps := b.VampireFlags();
    var ns := b.neighbors[v];
    healers := healers0;
    var k := 0;
    while k < |ns|
      invariant 0 <= k <= |ns|
      invariant healers <= b.CellSet()
      invariant forall h :: 0 <= h < |b.tiles| && b.tiles[h] != null ==>
        (b.tiles[h] in healers <==>
          b.tiles[h].isAlive && b.tiles[h].cellMood == Healer
          && (BittenBy(vamps, b.neighbors, scanned, h) || h in ns[..k]))
    {
      var healer := b.tiles[ns[k]];
      if healer != null && healer.cellMood == Healer && healer.isAlive {
        healers := healers + {healer};
      }
      assert ns[..k + 1] == ns[..k] + [ns[k]];
      k := k + 1;
    }
    assert ns[..k] == ns;
    forall h | 0 <= h < |b.tiles| && b.tiles[h] != null
      ensures BittenBy(vamps, b.neighbors, scanned + {v}, h) == (BittenBy(vamps, b.neighbors, scanned, h) || h in ns)
    {
      BittenByExtend(vamps, b.neighbors, scanned, v, h);
    }
  }

  /** Scanning one more tile v adds the neighbours of v when v holds a
      vampire, and nothing otherwise. */
  lemma BittenByExtend(vamps: seq<bool>, nbrs: seq<seq<nat>>, scanned: set<nat>, v: nat, h: nat)
    requires v < |vamps| && v < |nbrs|
    ensures BittenBy(vamps, nbrs, scanned + {v}, h) == (BittenBy(vamps, nbrs, scanned, h) || (vamps[v] && h in nbrs[v]))
  {
    if BittenBy(vamps, nbrs, scanned + {v}, h) && !(vamps[v] && h in nbrs[v]) {
      var w: nat :| w in scanned + {v} && w < |vamps| && w < |nbrs| && vamps[w] && h in nbrs[w];
      assert w in scanned;
    }
    if vamps[v] && h in nbrs[v] {
      assert v in scanned + {v};
    }
  }
}
