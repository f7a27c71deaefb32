/**
  The entropy of a cell, kept abstract.

  CalcCellEntropy computes the Shannon entropy log(S) - (sum of w * log w) / S
  of the weights w of the tiles still possible in a cell, S being their total.
  The generator uses the value only through comparisons: a cell is collapsed
  when its entropy is 0, and the next cell to collapse is one of smallest
  positive entropy. The model therefore takes the entropy as a parameter
  `entropyOf` from a cell's weight vector (the weight of each possible tile,
  0 for the others) to an ordered key, and relies only on the law that
  Shannon entropy obeys: one tile of positive weight gives 0, two or more
  give a positive value.

  The double-precision computation and its NaN case are described by the
  as-written members at the end of the module.
*/
module Entropy {
  import opened Weights

  /** Number of tiles of positive weight. */
  function Positives(ws: seq<nat>): nat {
    if ws == [] then 0 else Positives(ws[..|ws| - 1]) + (if ws[|ws| - 1] > 0 then 1 else 0)
  }

  /** No tile has positive weight iff the total weight is 0. */
  lemma {:induction false} PositivesZero(ws: seq<nat>)
    ensures Positives(ws) == 0 <==> Sum(ws) == 0
  {
    if ws != [] {
      PositivesZero(ws[..|ws| - 1]);
    }
  }

  /** At least one tile has positive weight iff some entry is positive. */
  lemma {:induction false} PositivesSome(ws: seq<nat>)
    ensures Positives(ws) >= 1 <==> exists i :: 0 <= i < |ws| && ws[i] > 0
  {
    if ws != [] {
      var init := ws[..|ws| - 1];
      PositivesSome(init);
      if exists i :: 0 <= i < |init| && init[i] > 0 {
        var i :| 0 <= i < |init| && init[i] > 0;
        assert ws[i] > 0;
      }
      if exists i :: 0 <= i < |ws| && ws[i] > 0 {
        var i :| 0 <= i < |ws| && ws[i] > 0;
        if i < |init| {
          assert init[i] > 0;
        }
      }
    }
  }

  /** At least two tiles have positive weight iff two distinct entries are positive. */
  lemma {:induction false} PositivesTwo(ws: seq<nat>)
    ensures Positives(ws) >= 2 <==> exists i, j :: 0 <= i < j < |ws| && ws[i] > 0 && ws[j] > 0
  {
    if ws != [] {
      var init := ws[..|ws| - 1];
      var last := |ws| - 1;
      PositivesTwo(init);
      PositivesSome(init);
      if exists i, j :: 0 <= i < j < |init| && init[i] > 0 && init[j] > 0 {
        var i, j :| 0 <= i < j < |init| && init[i] > 0 && init[j] > 0;
        assert ws[i] > 0 && ws[j] > 0;
      }
      if Positives(init) >= 1 && ws[last] > 0 {
        var i :| 0 <= i < |init| && init[i] > 0;
        assert ws[i] > 0;
      }
      if exists i, j :: 0 <= i < j < |ws| && ws[i] > 0 && ws[j] > 0 {
        var i, j :| 0 <= i < j < |ws| && ws[i] > 0 && ws[j] > 0;
        assert init[i] > 0;
        if j < last {
          assert init[j] > 0;
        }
      }
    }
  }

  /**
    The law of Shannon entropy the solver relies on: a single remaining tile
    gives entropy 0, two or more give a positive entropy.
  */
  ghost predicate EntropyLaw(entropyOf: seq<nat> -> int) {
    forall ws: seq<nat> {:trigger entropyOf(ws)} ::
      && (Positives(ws) == 1 ==> entropyOf(ws) == 0)
      && (Positives(ws) >= 2 ==> entropyOf(ws) > 0)
  }

  /** Under the law, a cell that still has a tile is collapsed (key at most 0) iff exactly one tile remains. */
  lemma CollapsedIffSingle(entropyOf: seq<nat> -> int, ws: seq<nat>)
    requires EntropyLaw(entropyOf) && Positives(ws) >= 1
    ensures entropyOf(ws) <= 0 <==> Positives(ws) == 1
  {
    assert Positives(ws) == 1 ==> entropyOf(ws) == 0;
    assert Positives(ws) >= 2 ==> entropyOf(ws) > 0;
  }

  /** The number of remaining tiles minus one is an instance of the law, so the law can be met. */
  lemma CountKeyObeysLaw()
    ensures EntropyLaw(ws => Positives(ws) - 1)
  {
  }

  /** A C# double as the entropy comparisons see it: a number or NaN. */
  datatype Double = Finite(value: real) | NaN

  /** IEEE equality: NaN is equal to nothing, itself included. */
  predicate DoubleEq(a: Double, b: Double) {
    a.Finite? && b.Finite? && a.value == b.value
  }

  /** IEEE `>`: false whenever NaN is involved. */
  predicate DoubleGreater(a: Double, b: Double) {
    a.Finite? && b.Finite? && a.value > b.value
  }

  /** IEEE `<`: false whenever NaN is involved. */
  predicate DoubleLess(a: Double, b: Double) {
    a.Finite? && b.Finite? && a.value < b.value
  }

  /**
    CalcCellEntropy as written, for a cell with weight vector ws: with no
    possible tile, log(0) is minus infinity and 0 / 0 is NaN, so the result
    is NaN; otherwise some finite value (its exact value needs logarithms and
    is not modelled).
  */
  function EntropyAsWritten(ws: seq<nat>, finite: real): (e: Double)
    ensures e == NaN <==> Sum(ws) == 0
  {
    if Sum(ws) == 0 then NaN else Finite(finite)
  }

  /** The contradiction guard as written, `entropy == double.NaN`. */
  predicate ThrowsAsWritten(ws: seq<nat>, finite: real) {
    DoubleEq(EntropyAsWritten(ws, finite), NaN)
  }

  /**
    The guard never fires, so an emptied cell is not reported: its NaN
    entropy is not > 0 (IsFullyCollapsed counts it as collapsed) and is not
    < any value (GetLowestEntropyPos never selects it).
  */
  lemma EmptiedCellGoesUnnoticed(ws: seq<nat>, finite: real)
    requires Sum(ws) == 0
    ensures !ThrowsAsWritten(ws, finite)
    ensures !DoubleGreater(EntropyAsWritten(ws, finite), Finite(0.0))
    ensures forall bound :: !DoubleLess(EntropyAsWritten(ws, finite), bound)
  {
  }

  /** Concretely: a cell whose two tiles were both removed. */
  lemma EmptiedTwoTileCell()
    ensures !ThrowsAsWritten([0, 0], 0.0) && EntropyAsWritten([0, 0], 0.0) == NaN
  {
    assert Sum([0, 0]) == 0 by {
      assert [0, 0][..1] == [0];
      assert [0][..0] == [];
    }
    EmptiedCellGoesUnnoticed([0, 0], 0.0);
  }
}
