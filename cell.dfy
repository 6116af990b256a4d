/**
 * The mutable simulation unit of Cell.java: its alive flag, lifepoints,
 * archetype, mood, HIGHLANDER death count and pending-bite flag, with the
 * two operations that update them in place, evolve and interact.
 */
module CellModel {
  import opened CellRules

  class Cell {
    var isAlive: bool
    var lifepoints: int
    var cellType: CellType
    var cellMood: CellMood
    var deathCount: int
    var willBeVampire: bool

    /** A fresh cell is dead, BASIC and NAIVE with no lifepoints. */
    constructor ()
      ensures State() == CellState(false, 0, Basic, Naive, 0, false)
    {
      isAlive := false;
      lifepoints := 0;
      cellType := Basic;
      cellMood := Naive;
      deathCount := 0;
      willBeVampire := false;
    }

    /** The cell's fields as a value. */
    function State(): CellState
      reads this
    {
      CellState(isAlive, lifepoints, cellType, cellMood, deathCount, willBeVampire)
    }

    /** Computes the next alive flag from the current state and the number of
        live neighbours, updating lifepoints, death count and mood on the way.
        The decision is returned; the alive field is not written. */
    method Evolve(aliveNeighbors: int) returns (willLive: bool)
      modifies this
      ensures Transition(State(), willLive) == Evolved(old(State()), aliveNeighbors)
    {
      willLive := isAlive;

      if willLive && lifepoints < 0 {
        willLive := false;
        lifepoints := lifepoints - 1;
        if cellType == Highlander {
          deathCount := 0;
        }
      }

      match cellType {
        case Basic =>
          if willLive && aliveNeighbors > 3 {
            willLive := false;
            lifepoints := lifepoints - 1;
          } else if willLive && aliveNeighbors < 2 {
            willLive := false;
            lifepoints := lifepoints - 1;
          } else if !willLive && aliveNeighbors == 3 {
            willLive := true;
            lifepoints := 0;
          } else if willLive && (aliveNeighbors == 2 || aliveNeighbors == 3) {
            lifepoints := lifepoints + 1;
          }
        case Highlander =>
          if willLive {
            if aliveNeighbors < 2 || aliveNeighbors > 3 {
              deathCount := deathCount + 1;
              if deathCount >= 3 {
                willLive := false;
                lifepoints := lifepoints - 1;
                deathCount := 0;
              } else {
                willLive := true;
              }
            } else {
              deathCount := 0;
              lifepoints := lifepoints + 1;
            }
          } else if aliveNeighbors == 3 {
            willLive := true;
            lifepoints := 0;
            deathCount := 0;
          }
        case Loner =>
          if willLive {
            if aliveNeighbors < 1 || aliveNeighbors > 3 {
              willLive := false;
              lifepoints := lifepoints - 1;
            } else {
              lifepoints := lifepoints + 1;
            }
          } else if aliveNeighbors == 3 {
            willLive := true;
            lifepoints := 0;
          }
        case Social =>
          if willLive {
            if aliveNeighbors < 2 || aliveNeighbors > 8 {
              willLive := false;
              lifepoints := lifepoints - 1;
            } else {
              lifepoints := lifepoints + 1;
            }
          } else if aliveNeighbors == 3 {
            willLive := true;
            lifepoints := 0;
          }
      }

      if willBeVampire {
        cellMood := Vampire;
        willBeVampire := false;
      }
    }

    /** Moves lifepoints between this cell and `other` according to this
        cell's mood; a vampire's bite on a naive cell arms that cell's
        pending-bite flag. Nothing happens when `other` is null or either cell
        is dead, and a cell interacting with itself changes nothing. */
    method Interact(other: Cell?)
      modifies this, other
      ensures other == null || other == this ==> State() == old(State())
      ensures other != null && other != this ==>
        (State(), other.State()) == Interacted(old(State()), old(other.State()))
    {
      if other == null || !isAlive || !other.isAlive {
        return;
      }
      match cellMood {
        case Healer =>
          if other.cellMood == Naive {
            other.lifepoints := other.lifepoints + 1;
          } else if other.cellMood == Vampire {
            lifepoints := lifepoints - 1;
            other.lifepoints := other.lifepoints + 1;
          }
        case Vampire =>
          if other.cellMood == Naive && other.lifepoints >= 0 {
            other.lifepoints := other.lifepoints - 1;
            lifepoints := lifepoints + 1;
            other.willBeVampire := true;
          } else if other.cellMood == Healer {
            lifepoints := lifepoints + 1;
            other.lifepoints := other.lifepoints - 1;
          }
        case Naive =>
      }
    }
  }
}
