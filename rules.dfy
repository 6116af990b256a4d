/**
 * Value-level rules of the extended Game of Life: the per-cell transition
 * (Cell.evolve), the mood-driven exchange between two cells (Cell.interact),
 * and the per-cell effects of the global events (Game.unrollEvent,
 * Game.sanctuaryEffect, Game.bloodMoonEffects). The classes in the other
 * modules are proved against these functions.
 */
module CellRules {

  datatype CellType = Basic | Highlander | Loner | Social
  datatype CellMood = Naive | Healer | Vampire
  datatype EventType = Cataclysm | Famine | Bloom | BloodMoon | Sanctuary

  /** The fields of a cell that the simulation reads and writes. */
  datatype CellState = CellState(
    alive: bool,
    lifepoints: int,
    cellType: CellType,
    mood: CellMood,
    deathCount: int,
    willBeVampire: bool)

  /** What Cell.evolve leaves in the cell, and the decision it returns. */
  datatype Transition = Transition(cell: CellState, willLive: bool)

  // ---------------------------------------------------------------------
  // Cell.evolve
  // ---------------------------------------------------------------------

  /** A neighbour count that kills a live cell of archetype t (for a
      HIGHLANDER: one that counts towards its death). */
  predicate Lethal(t: CellType, n: int)
  {
    match t
    case Basic => n < 2 || n > 3
    case Highlander => n < 2 || n > 3
    case Loner => n < 1 || n > 3
    case Social => n < 2 || n > 8
  }

  /** A live cell with negative lifepoints starves before its archetype rule. */
  predicate Starving(c: CellState)
  {
    c.alive && c.lifepoints < 0
  }

  /** The cell after the starvation pre-check: dead, one lifepoint less, and
      for a HIGHLANDER a reset death count. */
  function AfterPreCheck(c: CellState): (d: CellState)
  {
    if Starving(c) then
      c.(alive := false, lifepoints := c.lifepoints - 1,
         deathCount := if c.cellType == Highlander then 0 else c.deathCount)
    else c
  }

  /** The archetype rule applied to the cell after the pre-check. The alive
      field of the result carries the decision. */
  function ArchetypeRule(d: CellState, n: int): (e: CellState)
  {
    if !d.alive then
      if n == 3 then
        d.(alive := true, lifepoints := 0,
           deathCount := if d.cellType == Highlander then 0 else d.deathCount)
      else d
    else if !Lethal(d.cellType, n) then
      d.(lifepoints := d.lifepoints + 1,
         deathCount := if d.cellType == Highlander then 0 else d.deathCount)
    else if d.cellType != Highlander then
      d.(alive := false, lifepoints := d.lifepoints - 1)
    else if d.deathCount + 1 >= 3 then
      d.(alive := false, lifepoints := d.lifepoints - 1, deathCount := 0)
    else
      d.(deathCount := d.deathCount + 1)
  }

  /** The whole of Cell.evolve(n) on a cell in state c: the decision is
      returned, never written into the alive field; a pending bite turns the
      mood into VAMPIRE and is consumed. */
  function Evolved(c: CellState, n: int): (t: Transition)
  {
    var e := ArchetypeRule(AfterPreCheck(c), n);
    Transition(
      c.(lifepoints := e.lifepoints,
         deathCount := e.deathCount,
         mood := if c.willBeVampire then Vampire else c.mood,
         willBeVampire := false),
      e.alive)
  }

  // ---------------------------------------------------------------------
  // Cell.interact
  // ---------------------------------------------------------------------

  /** The lifepoint transfer of one interaction of `self` towards `other`,
      and whether `other` is bitten. */
  datatype Exchange = Exchange(toSelf: int, toOther: int, bite: bool)

  function ExchangeOf(self: CellState, other: CellState): Exchange
  {
    if !self.alive || !other.alive then Exchange(0, 0, false)
    else match (self.mood, other.mood)
      case (Healer, Naive) => Exchange(0, 1, false)
      case (Healer, Vampire) => Exchange(-1, 1, false)
      case (Vampire, Naive) =>
        if other.lifepoints >= 0 then Exchange(1, -1, true) else Exchange(0, 0, false)
      case (Vampire, Healer) => Exchange(1, -1, false)
      case _ => Exchange(0, 0, false)
  }

  /** The pair (self, other) after self.interact(other), for two distinct cells. */
  function Interacted(self: CellState, other: CellState): (r: (CellState, CellState))
  {
    var x := ExchangeOf(self, other);
    (self.(lifepoints := self.lifepoints + x.toSelf),
     other.(lifepoints := other.lifepoints + x.toOther,
            willBeVampire := other.willBeVampire || x.bite))
  }

  // ---------------------------------------------------------------------
  // Event effects (Game.unrollEvent, sanctuaryEffect, bloodMoonEffects)
  // ---------------------------------------------------------------------

  /** The immediate effect of an event on one cell. Dead cells are skipped. */
  function EventEffect(e: EventType, c: CellState): (r: CellState)
  {
    if !c.alive then c
    else match e
      case Cataclysm => c.(lifepoints := 0)
      case Famine => c.(lifepoints := c.lifepoints - 1, alive := c.lifepoints - 1 >= 0)
      case Bloom => c.(lifepoints := c.lifepoints + 2)
      case BloodMoon => c
      case Sanctuary => c
  }

  /** Whether unrolling e on c arms the blood-moon flag. */
  predicate ArmsBloodMoon(e: EventType, c: CellState)
  {
    c.alive && e == BloodMoon
  }

  /** Whether unrolling e on c arms the sanctuary flag. */
  predicate ArmsSanctuary(e: EventType, c: CellState)
  {
    c.alive && e == Sanctuary
  }

  /** The deferred sanctuary effect on one cell. */
  function SanctuaryCell(c: CellState): (r: CellState)
  {
    if c.alive && c.mood == Healer then c.(lifepoints := c.lifepoints + 1)
    else if c.alive && c.mood == Vampire then c.(mood := Naive)
    else c
  }

  /** The deferred blood-moon effect on one cell; `bitten` says whether the
      cell is a neighbour of a live vampire. */
  function MoonCell(c: CellState, bitten: bool): (r: CellState)
  {
    if bitten && c.alive && c.mood == Healer then c.(mood := Vampire) else c
  }

  // ---------------------------------------------------------------------
  // Properties of Cell.evolve
  // ---------------------------------------------------------------------

  /** evolve never writes the alive field or the archetype. */
  lemma EvolveKeepsAliveAndType(c: CellState, n: int)
    ensures Evolved(c, n).cell.alive == c.alive
    ensures Evolved(c, n).cell.cellType == c.cellType
  {
  }

  /** A starving live cell is dead before its archetype rule and loses one
      lifepoint (a HIGHLANDER also loses its death count); the respawn branch
      revives it in the same call exactly when n == 3. */
  lemma StarvingCell(c: CellState, n: int)
    requires Starving(c)
    ensures Evolved(c, n).willLive <==> n == 3
    ensures n == 3 ==> Evolved(c, n).cell.lifepoints == 0
    ensures n != 3 ==> Evolved(c, n).cell.lifepoints == c.lifepoints - 1
    ensures c.cellType == Highlander ==> Evolved(c, n).cell.deathCount == 0
  {
  }

  /** The BASIC rule, for a cell that does not starve. */
  lemma BasicRule(c: CellState, n: int)
    requires c.cellType == Basic && !Starving(c)
    ensures var t := Evolved(c, n);
      && (c.alive && (n > 3 || n < 2) ==> !t.willLive && t.cell.lifepoints == c.lifepoints - 1)
      && (c.alive && 2 <= n <= 3 ==> t.willLive && t.cell.lifepoints == c.lifepoints + 1)
      && (!c.alive && n == 3 ==> t.willLive && t.cell.lifepoints == 0)
      && (!c.alive && n != 3 ==> !t.willLive && t.cell.lifepoints == c.lifepoints)
  {
  }

  /** The HIGHLANDER rule, for a cell that does not starve. */
  lemma HighlanderRule(c: CellState, n: int)
    requires c.cellType == Highlander && !Starving(c)
    ensures var t := Evolved(c, n);
      && (c.alive && (n < 2 || n > 3) && c.deathCount + 1 < 3 ==>
            t.willLive && t.cell.deathCount == c.deathCount + 1 && t.cell.lifepoints == c.lifepoints)
      && (c.alive && (n < 2 || n > 3) && c.deathCount + 1 >= 3 ==>
            !t.willLive && t.cell.deathCount == 0 && t.cell.lifepoints == c.lifepoints - 1)
      && (c.alive && 2 <= n <= 3 ==>
            t.willLive && t.cell.deathCount == 0 && t.cell.lifepoints == c.lifepoints + 1)
      && (!c.alive && n == 3 ==>
            t.willLive && t.cell.deathCount == 0 && t.cell.lifepoints == 0)
      && (!c.alive && n != 3 ==> !t.willLive && t.cell == c.(mood := t.cell.mood, willBeVampire := false))
  {
  }

  /** The LONER and SOCIAL rules, for a cell that does not starve: survival
      window 1..3 and 2..8, one lifepoint gained or lost, respawn only at 3. */
  lemma LonerSocialRule(c: CellState, n: int)
    requires (c.cellType == Loner || c.cellType == Social) && !Starving(c)
    ensures var lo := if c.cellType == Loner then 1 else 2;
      var hi := if c.cellType == Loner then 3 else 8;
      var t := Evolved(c, n);
      && (c.alive ==> (t.willLive <==> lo <= n <= hi))
      && (c.alive && lo <= n <= hi ==> t.cell.lifepoints == c.lifepoints + 1)
      && (c.alive && !(lo <= n <= hi) ==> t.cell.lifepoints == c.lifepoints - 1)
      && (!c.alive ==> (t.willLive <==> n == 3))
      && (!c.alive && n == 3 ==> t.cell.lifepoints == 0)
      && (!c.alive && n != 3 ==> t.cell.lifepoints == c.lifepoints)
  {
  }

  /** A pending bite is consumed by evolve whatever the decision; without
      one the mood is left alone. */
  lemma PendingBite(c: CellState, n: int)
    ensures !Evolved(c, n).cell.willBeVampire
    ensures c.willBeVampire ==> Evolved(c, n).cell.mood == Vampire
    ensures !c.willBeVampire ==> Evolved(c, n).cell.mood == c.mood
  {
  }

  /** Three consecutive lethal generations: a healthy HIGHLANDER survives the
      first two (death count 1, then 2) and dies on the third. */
  lemma HighlanderThreeLethalGenerations(c: CellState, n: int)
    requires c.cellType == Highlander && c.alive && c.lifepoints >= 0 && c.deathCount == 0
    requires n < 2 || n > 3
    ensures var t1 := Evolved(c, n);
      var t2 := Evolved(t1.cell, n);
      var t3 := Evolved(t2.cell, n);
      && t1.willLive && t1.cell.deathCount == 1
      && t2.willLive && t2.cell.deathCount == 2
      && !t3.willLive && t3.cell.deathCount == 0 && t3.cell.lifepoints == c.lifepoints - 1
  {
  }

  // ---------------------------------------------------------------------
  // Properties of Cell.interact
  // ---------------------------------------------------------------------

  /** interact changes nothing when either cell is dead. */
  lemma InteractNeedsTwoLiveCells(self: CellState, other: CellState)
    requires !self.alive || !other.alive
    ensures Interacted(self, other) == (self, other)
  {
  }

  /** interact never changes an alive flag, a mood, an archetype or a death
      count; only lifepoints and the other cell's bite flag move. */
  lemma InteractKeepsIdentity(self: CellState, other: CellState)
    ensures var (s, o) := Interacted(self, other);
      && s == self.(lifepoints := s.lifepoints)
      && o == other.(lifepoints := o.lifepoints, willBeVampire := o.willBeVampire)
  {
  }

  /** The transfer table of interact, for two live cells. */
  lemma InteractTransfers(self: CellState, other: CellState)
    requires self.alive && other.alive
    ensures var (s, o) := Interacted(self, other);
      && (self.mood == Healer && other.mood == Naive ==>
            s == self && o == other.(lifepoints := other.lifepoints + 1))
      && (self.mood == Healer && other.mood == Vampire ==>
            s == self.(lifepoints := self.lifepoints - 1) && o == other.(lifepoints := other.lifepoints + 1))
      && (self.mood == Vampire && other.mood == Healer ==>
            s == self.(lifepoints := self.lifepoints + 1) && o == other.(lifepoints := other.lifepoints - 1))
      && (self.mood == Vampire && other.mood == Naive && other.lifepoints >= 0 ==>
            s.lifepoints == self.lifepoints + 1
            && o == other.(lifepoints := other.lifepoints - 1, willBeVampire := true))
      && (self.mood == Vampire && other.mood == Naive && other.lifepoints < 0 ==>
            s == self && o == other)
      && (self.mood == Naive || self.mood == other.mood ==> s == self && o == other)
  {
  }

  /** Between a HEALER and a VAMPIRE the pair's lifepoint total is preserved. */
  lemma InteractHealerVampireConserves(self: CellState, other: CellState)
    requires {self.mood, other.mood} == {Healer, Vampire}
    ensures var (s, o) := Interacted(self, other);
      s.lifepoints + o.lifepoints == self.lifepoints + other.lifepoints
  {
  }

  // ---------------------------------------------------------------------
  // Properties of the event effects
  // ---------------------------------------------------------------------

  /** Dead cells ignore events and arm no flag. */
  lemma DeadCellIgnoresEvents(e: EventType, c: CellState)
    requires !c.alive
    ensures EventEffect(e, c) == c && !ArmsBloodMoon(e, c) && !ArmsSanctuary(e, c)
  {
  }

  /** CATACLYSM zeroes and BLOOM adds 2, neither changes alive; FAMINE takes
      one lifepoint and kills exactly when the result is negative; the two
      flag events leave the cell as it is. */
  lemma ImmediateEvents(e: EventType, c: CellState)
    requires c.alive
    ensures e == Cataclysm ==> EventEffect(e, c) == c.(lifepoints := 0)
    ensures e == Bloom ==> EventEffect(e, c) == c.(lifepoints := c.lifepoints + 2)
    ensures e == Famine ==> var r := EventEffect(e, c);
      r.lifepoints == c.lifepoints - 1 && (r.alive <==> r.lifepoints >= 0)
      && r == c.(lifepoints := r.lifepoints, alive := r.alive)
    ensures e == BloodMoon || e == Sanctuary ==> EventEffect(e, c) == c
    ensures ArmsBloodMoon(e, c) <==> e == BloodMoon
    ensures ArmsSanctuary(e, c) <==> e == Sanctuary
  {
  }
}
