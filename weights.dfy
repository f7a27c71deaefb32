/**
  Weighted random choice of a tile (PickWeightedRandomTile).

  A cell's candidate tiles carry weights (their frequency in the example, or 0
  when the tile is no longer possible there). A draw r from 1 to the total
  weight selects the first tile whose running total reaches r, so tile i is
  selected by exactly weight(i) of the possible draws.

  The random number generator is a parameter: the method receives an
  arbitrary natural number `roll` and turns it into the draw 1 + roll % total,
  which ranges over 1..total.
*/
module Weights {
  import opened Wrappers

  /** Total of a sequence of weights, accumulated left to right. */
  function Sum(ws: seq<nat>): nat {
    if ws == [] then 0 else Sum(ws[..|ws| - 1]) + ws[|ws| - 1]
  }

  /** Total weight of the first k tiles: the running total after k steps. */
  function Prefix(ws: seq<nat>, k: nat): nat
    requires k <= |ws|
  {
    Sum(ws[..k])
  }

  lemma SumSnoc(ws: seq<nat>, v: nat)
    ensures Sum(ws + [v]) == Sum(ws) + v
  {
    assert (ws + [v])[..|ws|] == ws;
  }

  lemma PrefixStep(ws: seq<nat>, k: nat)
    requires k < |ws|
    ensures Prefix(ws, k + 1) == Prefix(ws, k) + ws[k]
  {
    assert ws[..k + 1][..k] == ws[..k];
  }

  lemma PrefixAll(ws: seq<nat>)
    ensures Prefix(ws, |ws|) == Sum(ws)
  {
    assert ws[..|ws|] == ws;
  }

  /** Running totals never decrease. */
  lemma {:induction false} PrefixMonotone(ws: seq<nat>, i: nat, j: nat)
    requires i <= j <= |ws|
    ensures Prefix(ws, i) <= Prefix(ws, j)
    decreases j - i
  {
    if i < j {
      PrefixMonotone(ws, i, j - 1);
      PrefixStep(ws, j - 1);
    }
  }

  /** Adding one to an entry adds one to the total (the `tileFreqs[index]++` step). */
  lemma {:induction false} SumIncrement(ws: seq<nat>, i: nat)
    requires i < |ws|
    ensures Sum(ws[i := ws[i] + 1]) == Sum(ws) + 1
    decreases |ws|
  {
    var us := ws[i := ws[i] + 1];
    var n := |ws| - 1;
    assert us[..n] == if i < n then ws[..n][i := ws[i] + 1] else ws[..n];
    if i < n {
      SumIncrement(ws[..n], i);
    }
  }

  /**
    The tile a draw selects, searching from tile i onwards: the first index
    whose running total reaches the draw.
  */
  function ChosenFrom(ws: seq<nat>, r: int, i: nat): (k: nat)
    requires i <= |ws| && Prefix(ws, i) < r <= Sum(ws)
    ensures i <= k < |ws|
    ensures Prefix(ws, k) < r <= Prefix(ws, k + 1)
    decreases |ws| - i
  {
    PrefixAll(ws);
    PrefixStep(ws, i);
    if r <= Prefix(ws, i + 1) then i else ChosenFrom(ws, r, i + 1)
  }

  /** The tile selected by the draw r, for 1 <= r <= Sum(ws). */
  function Chosen(ws: seq<nat>, r: int): (k: nat)
    requires 1 <= r <= Sum(ws)
    ensures k < |ws| && ws[k] > 0
    ensures Prefix(ws, k) < r <= Prefix(ws, k + 1)
  {
    var k := ChosenFrom(ws, r, 0);
    PrefixStep(ws, k);
    k
  }

  /** The selected tile is the only one whose weight interval contains the draw. */
  lemma ChosenUnique(ws: seq<nat>, r: int, i: nat)
    requires 1 <= r <= Sum(ws)
    requires i < |ws| && Prefix(ws, i) < r <= Prefix(ws, i + 1)
    ensures Chosen(ws, r) == i
  {
    var k := Chosen(ws, r);
    if k < i {
      PrefixMonotone(ws, k + 1, i);
    } else if i < k {
      PrefixMonotone(ws, i + 1, k);
    }
  }

  /** The integers r with lo < r <= hi. */
  function Interval(lo: int, hi: int): (s: set<int>)
    ensures forall r :: r in s <==> lo < r <= hi
    decreases hi - lo
  {
    if hi <= lo then {} else Interval(lo, hi - 1) + {hi}
  }

  lemma {:induction false} IntervalSize(lo: int, hi: int)
    requires lo <= hi
    ensures |Interval(lo, hi)| == hi - lo
    decreases hi - lo
  {
    if lo < hi {
      IntervalSize(lo, hi - 1);
    }
  }

  /**
    Selection fidelity: among the draws 1..Sum(ws), tile i is selected by
    exactly ws[i] of them, so with a uniform draw its probability is
    ws[i] / Sum(ws). In particular every tile of positive weight can be chosen
    and a tile of weight 0 never is.
  */
  lemma DrawsChoosingTile(ws: seq<nat>, i: nat)
    requires i < |ws|
    ensures |set r | r in Interval(0, Sum(ws)) && Chosen(ws, r) == i| == ws[i]
  {
    PrefixStep(ws, i);
    PrefixAll(ws);
    PrefixMonotone(ws, i + 1, |ws|);
    var lo, hi := Prefix(ws, i), Prefix(ws, i + 1);
    var chosen := set r | r in Interval(0, Sum(ws)) && Chosen(ws, r) == i;
    forall r | r in Interval(lo, hi)
      ensures r in chosen
    {
      ChosenUnique(ws, r, i);
    }
    forall r | r in chosen
      ensures r in Interval(lo, hi)
    {
      var k := Chosen(ws, r);
      assert Prefix(ws, k) < r <= Prefix(ws, k + 1);
    }
    assert chosen == Interval(lo, hi);
    IntervalSize(lo, hi);
  }

  /**
    The values `Random.Next(1, sum)` can return: the upper bound of
    System.Random.Next is exclusive, and Next(1, 1) returns 1. (For sum = 0 it
    throws, which is the zero-total-weight contradiction.)
  */
  predicate SourceDraw(sum: nat, r: int) {
    if sum == 1 then r == 1 else 1 <= r < sum
  }

  /**
    The generator as written never draws the total itself, so when the last
    tile of positive weight has weight 1 and the total is at least 2, that
    tile can never be chosen, although its weight is positive.
  */
  lemma SourceDrawMissesLastUnit(ws: seq<nat>, j: nat)
    requires Sum(ws) >= 2 && j < |ws| && ws[j] == 1 && Prefix(ws, j + 1) == Sum(ws)
    ensures forall r :: SourceDraw(Sum(ws), r) ==> Chosen(ws, r) != j
  {
    PrefixStep(ws, j);
  }

  /** With two tiles of weight 1 the second is never picked by the draw as written. */
  lemma SourceDrawNeverPicksSecondOfTwo()
    ensures forall r :: SourceDraw(Sum([1, 1]), r) ==> Chosen([1, 1], r) == 0
  {
    var ws: seq<nat> := [1, 1];
    assert Sum(ws) == 2 by {
      assert ws[..1] == [1];
      assert [1][..0] == [];
    }
    assert Prefix(ws, 2) == 2 by { PrefixAll(ws); }
    SourceDrawMissesLastUnit(ws, 1);
  }

  /** The tile the draw 1 + roll % total selects from ws; it has positive weight. */
  function DrawTile(ws: seq<nat>, roll: nat): (k: nat)
    requires Sum(ws) > 0
    ensures k < |ws| && ws[k] > 0
  {
    Chosen(ws, 1 + roll % Sum(ws))
  }

  /**
    PickWeightedRandomTile: None when the total weight is 0 (the source's
    `Random.Next(1, 0)` throws, the zero-weight contradiction); otherwise the
    tile selected by the draw 1 + roll % total, which has positive weight.
  */
  method PickWeightedRandomTile(currentTileWeights: seq<nat>, roll: nat) returns (pick: Option<nat>)
    ensures pick.None? <==> Sum(currentTileWeights) == 0
    ensures pick.Some? ==>
      && 1 + roll % Sum(currentTileWeights) <= Sum(currentTileWeights)
      && pick.value == Chosen(currentTileWeights, 1 + roll % Sum(currentTileWeights))
      && pick.value < |currentTileWeights|
      && currentTileWeights[pick.value] > 0
  {
    var ws := currentTileWeights;
    var sumWeight := 0;
    for i := 0 to |ws|
      invariant sumWeight == Prefix(ws, i)
    {
      PrefixStep(ws, i);
      sumWeight := sumWeight + ws[i];
    }
    PrefixAll(ws);
    if sumWeight == 0 {
      return None;
    }
    var randVal := 1 + roll % sumWeight;
    var i := 0;
    PrefixStep(ws, 0);
    var currentweight := ws[0];
    while currentweight < randVal
      invariant 0 <= i < |ws|
      invariant currentweight == Prefix(ws, i + 1)
      invariant Prefix(ws, i) < randVal
      decreases |ws| - i
    {
      if i + 1 == |ws| {
        assert false;
      }
      i := i + 1;
      PrefixStep(ws, i);
      currentweight := currentweight + ws[i];
    }
    ChosenUnique(ws, randVal, i);
    pick := Some(i);
  }
}
