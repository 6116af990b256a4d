/**
 * Small boards on which the step functions are evaluated: the
 * simultaneous-update barrier on a row of three cells, and both directions
 * of a healer/vampire pair firing in one interaction phase.
 */
module Scenarios {
  import opened CellRules
  import opened StepSpec
  import opened BoardModel

  /** A live BASIC, NAIVE cell with no lifepoints. */
  const Live: CellState := CellState(true, 0, Basic, Naive, 0, false)

  /** The Moore-8 neighbours of a 3 x 1 grid. */
  const RowNeighbors: seq<seq<nat>> := [[1], [0, 2], [1]]

  lemma MooreRowOfThree()
    ensures MooreNeighbors(3, 1) == RowNeighbors
  {
    var m := MooreNeighbors(3, 1);
    assert |m| == 3;
    RowEntry(0, [1]);
    RowEntry(1, [0, 2]);
    RowEntry(2, [1]);
  }

  lemma RowEntry(x: nat, r: seq<nat>)
    requires x < 3 && r == (if x > 0 then [x - 1] else []) + (if x < 2 then [x + 1] else [])
    ensures |MooreNeighbors(3, 1)| == 3 && MooreNeighbors(3, 1)[x] == r
  {
    assert x % 3 == x && x / 3 == 0;
    ClippedInRow(x);
  }

  /** In a grid one row high only the two horizontal offsets stay inside. */
  lemma ClippedInRow(x: nat)
    requires x < 3
    ensures Clipped(3, 1, x, 0, MooreOffsets)
      == (if x > 0 then [x - 1] else []) + (if x < 2 then [x + 1] else [])
  {
    var o := MooreOffsets;
    assert o[5..][1..][1..][1..] == [];
    assert Clipped(3, 1, x, 0, o[5..][1..][1..]) == [];
    assert Clipped(3, 1, x, 0, o[5..][1..]) == [];
    assert Clipped(3, 1, x, 0, o[5..]) == [];
    assert o[4..][1..] == o[5..];
    assert Clipped(3, 1, x, 0, o[4..]) == if x < 2 then [x + 1] else [];
    assert o[3..][1..] == o[4..];
    assert Clipped(3, 1, x, 0, o[3..]) == (if x > 0 then [x - 1] else []) + (if x < 2 then [x + 1] else []);
    assert o[2..][1..] == o[3..] && o[1..][1..] == o[2..] && o[0..] == o;
    assert Clipped(3, 1, x, 0, o[2..]) == Clipped(3, 1, x, 0, o[3..]);
    assert Clipped(3, 1, x, 0, o[1..]) == Clipped(3, 1, x, 0, o[3..]);
  }

  /** The alive flags after committing decisions one tile at a time, each
      tile's count reading the flags already committed: the update the
      decision map of evolve exists to avoid. */
  function SequentialAlive(s: seq<CellState>, nbrs: seq<seq<nat>>, k: nat): (f: seq<bool>)
    requires |nbrs| == |s| && k <= |s|
    ensures |f| == |s|
    decreases k
  {
    if k == 0 then AliveOf(s)
    else
      var f := SequentialAlive(s, nbrs, k - 1);
      f[k - 1 := Evolved(s[k - 1], CountAlive(f, nbrs[k - 1])).willLive]
  }

  /** Three live BASIC cells in a row: under simultaneous update the middle
      one survives with two neighbours and the ends die with one. */
  lemma RowOfThreeSimultaneous()
    ensures AliveOf(StepCells([Live, Live, Live], RowNeighbors, [0, 0, 0], false)) == [false, true, false]
  {
    var s := [Live, Live, Live];
    RowStepIsDecisions(s);
    RowDecisions(s);
  }

  lemma RowStepIsDecisions(s: seq<CellState>)
    requires s == [Live, Live, Live]
    ensures Shape(s, RowNeighbors, [0, 0, 0])
    ensures StepCells(s, RowNeighbors, [0, 0, 0], false) == Committed(Decisions(s, RowNeighbors, false))
  {
    MooreRowOfThree();
    MooreWellFormed(3, 1);
    assert WithModifiers(s, [0, 0, 0]) == s;
    InteractAllIsIdentityForNaive(s, RowNeighbors);
  }

  lemma RowCounts(f: seq<bool>)
    requires f == [true, true, true]
    ensures CountAlive(f, [1]) == 1 && CountAlive(f, [0, 2]) == 2
  {
    assert [0, 2][..1] == [0] && [1][..0] == [] && [0][..0] == [];
  }

  lemma RowDecisions(s: seq<CellState>)
    requires s == [Live, Live, Live]
    ensures AliveOf(Committed(Decisions(s, RowNeighbors, false))) == [false, true, false]
  {
    var f := AliveOf(s);
    assert f == [true, true, true];
    RowCounts(f);
    var ts := Decisions(s, RowNeighbors, false);
    assert ts[0] == Evolved(Live, 1) && ts[1] == Evolved(Live, 2) && ts[2] == Evolved(Live, 1);
    assert !Evolved(Live, 1).willLive && Evolved(Live, 2).willLive;
  }

  /** Committed tile by tile, the same row dies out entirely: the middle
      cell would see only one live neighbour. */
  lemma RowOfThreeSequential()
    ensures SequentialAlive([Live, Live, Live], RowNeighbors, 3) == [false, false, false]
  {
    var s := [Live, Live, Live];
    assert [0, 2][..1] == [0] && [1][..0] == [] && [0][..0] == [];
    var f0 := SequentialAlive(s, RowNeighbors, 0);
    assert f0 == [true, true, true];
    assert CountAlive(f0, [1]) == 1;
    var f1 := SequentialAlive(s, RowNeighbors, 1);
    assert f1 == [false, true, true];
    assert CountAlive(f1, [0, 2]) == 1;
    var f2 := SequentialAlive(s, RowNeighbors, 2);
    assert f2 == [false, false, true];
    assert CountAlive(f2, [1]) == 0;
  }

  /** Between naive cells nothing is exchanged, so the interaction phase
      changes nothing. */
  lemma InteractAllIsIdentityForNaive(s: seq<CellState>, nbrs: seq<seq<nat>>)
    requires |nbrs| == |s| && NeighborsWellFormed(nbrs)
    requires forall i :: 0 <= i < |s| ==> s[i].mood == Naive
    ensures InteractAll(s, nbrs) == s
  {
    InteractTilesNaive(s, nbrs, |s|);
  }

  lemma {:induction false} InteractTilesNaive(s: seq<CellState>, nbrs: seq<seq<nat>>, k: nat)
    requires |nbrs| == |s| && NeighborsWellFormed(nbrs) && k <= |s|
    requires forall i :: 0 <= i < |s| ==> s[i].mood == Naive
    ensures InteractTiles(s, nbrs, k) == s
    decreases k
  {
    if k > 0 {
      InteractTilesNaive(s, nbrs, k - 1);
      InteractWithNaive(s, k - 1, nbrs[k - 1]);
    }
  }

  lemma {:induction false} InteractWithNaive(s: seq<CellState>, i: nat, ns: seq<nat>)
    requires NeighborsOf(|s|, i, ns)
    requires forall j :: 0 <= j < |s| ==> s[j].mood == Naive
    ensures InteractWith(s, i, ns) == s
    decreases |ns|
  {
    if ns != [] {
      InteractWithNaive(s, i, ns[..|ns| - 1]);
    }
  }

  /** A live healer and a live vampire side by side: the healer gives one
      lifepoint as its own interaction and loses one to the vampire's, so it
      ends two lifepoints down and the vampire two up. */
  lemma HealerVampirePairBothFire()
    ensures var h := CellState(true, 5, Basic, Healer, 0, false);
            var v := CellState(true, 5, Basic, Vampire, 0, false);
            InteractAll([h, v], [[1], [0]])
              == [h.(lifepoints := 3), v.(lifepoints := 7)]
  {
    var h := CellState(true, 5, Basic, Healer, 0, false);
    var v := CellState(true, 5, Basic, Vampire, 0, false);
    var nbrs: seq<seq<nat>> := [[1], [0]];
    assert [1][..0] == [] && [0][..0] == [];
    var t1 := InteractTiles([h, v], nbrs, 1);
    assert t1 == [h.(lifepoints := 4), v.(lifepoints := 6)];
  }
}
