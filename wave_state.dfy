/**
  The wave: a bool[h, w, n] superposition array, where wave[y, x, t] says
  that tile t is still possible at cell (y, x), and the entropy cache, one
  key per cell.

  Proofs about the solver work on the set view Possible(wave) of the wave,
  the triples (y, x, t) whose flag is set; the solver only ever removes
  triples from it.
*/
module WaveState {
  import opened Directions
  import opened Weights
  import opened Entropy

  /** The triples (y, x, t) with tile t still possible at (y, x). */
  ghost function Possible(wave: array3<bool>): (p: set<(int, int, int)>)
    reads wave
    ensures forall y, x, t :: (y, x, t) in p <==>
      0 <= y < wave.Length0 && 0 <= x < wave.Length1 && 0 <= t < wave.Length2 && wave[y, x, t]
  {
    set y, x, t | 0 <= y < wave.Length0 && 0 <= x < wave.Length1 && 0 <= t < wave.Length2 && wave[y, x, t]
      :: (y, x, t)
  }

  /** Some tile is still possible at (y, x). */
  ghost predicate NonEmpty(p: set<(int, int, int)>, y: int, x: int) {
    exists t :: (y, x, t) in p
  }

  /** Exactly the tile t is possible at (y, x). */
  ghost predicate SingleAt(p: set<(int, int, int)>, y: int, x: int, t: int) {
    (y, x, t) in p && forall u :: (y, x, u) in p ==> u == t
  }

  /** Cell (y, x) holds the same tiles in both views. */
  ghost predicate SameCell(p: set<(int, int, int)>, q: set<(int, int, int)>, y: int, x: int) {
    forall t :: (y, x, t) in p <==> (y, x, t) in q
  }

  /** Every cell of the grid still has a tile. */
  ghost predicate NoEmpty(p: set<(int, int, int)>, h: int, w: int) {
    forall y, x :: InGrid(h, w, y, x) ==> NonEmpty(p, y, x)
  }

  /**
    The weight vector of cell (y, x): the tile's frequency where the tile is
    possible, 0 where it is not (currentTileWeights in CollapseWave).
  */
  ghost function CellWeights(p: set<(int, int, int)>, tileWeights: seq<nat>, y: int, x: int): (ws: seq<nat>)
    ensures |ws| == |tileWeights|
    ensures forall i :: 0 <= i < |ws| ==> ws[i] == if (y, x, i) in p then tileWeights[i] else 0
  {
    seq(|tileWeights|, i requires 0 <= i < |tileWeights| => if (y, x, i) in p then tileWeights[i] else 0)
  }

  /** All tile frequencies are positive, as GetTileFreq guarantees. */
  predicate PositiveWeights(tileWeights: seq<nat>) {
    forall i :: 0 <= i < |tileWeights| ==> tileWeights[i] > 0
  }

  /** Two cells with the same tiles have the same weight vector. */
  lemma SameCellWeights(p: set<(int, int, int)>, q: set<(int, int, int)>, tileWeights: seq<nat>, y: int, x: int)
    requires SameCell(p, q, y, x)
    ensures CellWeights(p, tileWeights, y, x) == CellWeights(q, tileWeights, y, x)
  {
  }

  /** With positive weights, the cell has a tile iff its weight vector has a positive entry. */
  lemma CellWeightsNonEmpty(p: set<(int, int, int)>, tileWeights: seq<nat>, y: int, x: int)
    requires PositiveWeights(tileWeights)
    requires forall t :: (y, x, t) in p ==> 0 <= t < |tileWeights|
    ensures Positives(CellWeights(p, tileWeights, y, x)) >= 1 <==> NonEmpty(p, y, x)
  {
    var ws := CellWeights(p, tileWeights, y, x);
    PositivesSome(ws);
    if NonEmpty(p, y, x) {
      var t :| (y, x, t) in p;
      assert ws[t] > 0;
    }
  }

  /** With positive weights and a tile left, one positive entry means exactly one possible tile. */
  lemma CellWeightsSingle(p: set<(int, int, int)>, tileWeights: seq<nat>, y: int, x: int)
    requires PositiveWeights(tileWeights)
    requires forall t :: (y, x, t) in p ==> 0 <= t < |tileWeights|
    requires NonEmpty(p, y, x)
    ensures Positives(CellWeights(p, tileWeights, y, x)) == 1 <==> exists t :: SingleAt(p, y, x, t)
  {
    var ws := CellWeights(p, tileWeights, y, x);
    CellWeightsNonEmpty(p, tileWeights, y, x);
    PositivesTwo(ws);
    if Positives(ws) >= 2 {
      var i, j :| 0 <= i < j < |ws| && ws[i] > 0 && ws[j] > 0;
      assert (y, x, i) in p && (y, x, j) in p;
    } else {
      var t :| (y, x, t) in p;
      forall u | (y, x, u) in p
        ensures u == t
      {
        if u != t {
          assert false;
        }
      }
      assert SingleAt(p, y, x, t);
    }
  }

  /**
    The entropy cache is up to date: each cell's key is the entropy of its
    current weight vector.
  */
  ghost predicate KeysAgree(entropies: array2<int>, p: set<(int, int, int)>, tileWeights: seq<nat>,
                            entropyOf: seq<nat> -> int)
    reads entropies
  {
    forall y, x :: InGrid(entropies.Length0, entropies.Length1, y, x) ==>
      entropies[y, x] == entropyOf(CellWeights(p, tileWeights, y, x))
  }

  /** Fill for the 3-D wave: every flag becomes `value`. */
  method Fill3D(wave: array3<bool>, value: bool)
    modifies wave
    ensures forall y, x, t :: 0 <= y < wave.Length0 && 0 <= x < wave.Length1 && 0 <= t < wave.Length2 ==>
      wave[y, x, t] == value
  {
    for i := 0 to wave.Length0
      invariant forall y, x, t :: 0 <= y < i && 0 <= x < wave.Length1 && 0 <= t < wave.Length2 ==>
        wave[y, x, t] == value
    {
      for j := 0 to wave.Length1
        invariant forall y, x, t :: 0 <= y < i && 0 <= x < wave.Length1 && 0 <= t < wave.Length2 ==>
          wave[y, x, t] == value
        invariant forall x, t :: 0 <= x < j && 0 <= t < wave.Length2 ==> wave[i, x, t] == value
      {
        for k := 0 to wave.Length2
          invariant forall y, x, t :: 0 <= y < i && 0 <= x < wave.Length1 && 0 <= t < wave.Length2 ==>
            wave[y, x, t] == value
          invariant forall x, t :: 0 <= x < j && 0 <= t < wave.Length2 ==> wave[i, x, t] == value
          invariant forall t :: 0 <= t < k ==> wave[i, j, t] == value
        {
          wave[i, j, k] := value;
        }
      }
    }
  }

  /** Fill for the 2-D entropy cache: every key becomes `value`. */
  method Fill2D(entropies: array2<int>, value: int)
    modifies entropies
    ensures forall y, x :: InGrid(entropies.Length0, entropies.Length1, y, x) ==> entropies[y, x] == value
  {
    for i := 0 to entropies.Length0
      invariant forall y, x :: 0 <= y < i && 0 <= x < entropies.Length1 ==> entropies[y, x] == value
    {
      for j := 0 to entropies.Length1
        invariant forall y, x :: 0 <= y < i && 0 <= x < entropies.Length1 ==> entropies[y, x] == value
        invariant forall x :: 0 <= x < j ==> entropies[i, x] == value
      {
        entropies[i, j] := value;
      }
    }
  }

  /**
    The tiles still possible at (y, x), in increasing order (potenTiles and
    adjPotenTiles in PropegateCollapse).
  */
  method PossibleTiles(wave: array3<bool>, y: int, x: int) returns (tiles: seq<int>)
    requires InGrid(wave.Length0, wave.Length1, y, x)
    ensures forall t :: t in tiles <==> (y, x, t) in Possible(wave)
    ensures forall k :: 0 <= k < |tiles| ==> 0 <= tiles[k] < wave.Length2
    ensures forall i, j :: 0 <= i < j < |tiles| ==> tiles[i] < tiles[j]
  {
    tiles := [];
    for i := 0 to wave.Length2
      invariant forall t :: t in tiles <==> 0 <= t < i && wave[y, x, t]
      invariant forall k :: 0 <= k < |tiles| ==> 0 <= tiles[k] < i
      invariant forall k, l :: 0 <= k < l < |tiles| ==> tiles[k] < tiles[l]
    {
      if wave[y, x, i] {
        tiles := tiles + [i];
      }
    }
  }

  /**
    CalcCellEntropy with the contradiction check it was meant to have: the
    cell is a contradiction exactly when no tile is possible there (the total
    weight is 0); otherwise the key is the entropy of the cell's weight vector.
  */
  method CalcCellEntropy(y: int, x: int, wave: array3<bool>, tileWeights: seq<nat>, entropyOf: seq<nat> -> int)
    returns (entropy: int, contradiction: bool)
    requires InGrid(wave.Length0, wave.Length1, y, x)
    requires |tileWeights| == wave.Length2 && PositiveWeights(tileWeights)
    ensures contradiction <==> !NonEmpty(Possible(wave), y, x)
    ensures entropy == entropyOf(CellWeights(Possible(wave), tileWeights, y, x))
  {
    var sumWeights := 0;
    var weights: seq<nat> := [];
    for i := 0 to wave.Length2
      invariant |weights| == i
      invariant forall k :: 0 <= k < i ==> weights[k] == if wave[y, x, k] then tileWeights[k] else 0
      invariant sumWeights == Sum(weights)
    {
      SumSnoc(weights, if wave[y, x, i] then tileWeights[i] else 0);
      if wave[y, x, i] {
        sumWeights := sumWeights + tileWeights[i];
        weights := weights + [tileWeights[i]];
      } else {
        weights := weights + [0];
      }
    }
    ghost var p := Possible(wave);
    assert weights == CellWeights(p, tileWeights, y, x);
    CellWeightsNonEmpty(p, tileWeights, y, x);
    PositivesZero(weights);
    entropy := entropyOf(weights);
    contradiction := sumWeights == 0;
  }

  /**
    GenerateOutput: an h-by-w grid holding, at each cell, tiles[i] for the
    least i still possible there, and 0 (the array's default) at a cell with
    no possible tile.
  */
  method GenerateOutput(wave: array3<bool>, tiles: seq<int>) returns (output: array2<int>)
    requires |tiles| == wave.Length2
    ensures fresh(output)
    ensures output.Length0 == wave.Length0 && output.Length1 == wave.Length1
    ensures forall y, x :: InGrid(wave.Length0, wave.Length1, y, x) ==>
      if NonEmpty(Possible(wave), y, x) then
        exists i :: 0 <= i < wave.Length2 && wave[y, x, i] && output[y, x] == tiles[i]
          && forall j :: 0 <= j < i ==> !wave[y, x, j]
      else output[y, x] == 0
  {
    output := new int[wave.Length0, wave.Length1]((y, x) => 0);
    for y := 0 to wave.Length0
      invariant forall y', x :: InGrid(wave.Length0, wave.Length1, y', x) ==>
        if y' < y && NonEmpty(Possible(wave), y', x) then
          exists i :: 0 <= i < wave.Length2 && wave[y', x, i] && output[y', x] == tiles[i]
            && forall j :: 0 <= j < i ==> !wave[y', x, j]
        else output[y', x] == 0
    {
      for x := 0 to wave.Length1
        invariant forall y', x' :: InGrid(wave.Length0, wave.Length1, y', x') ==>
          if (y' < y || (y' == y && x' < x)) && NonEmpty(Possible(wave), y', x') then
            exists i :: 0 <= i < wave.Length2 && wave[y', x', i] && output[y', x'] == tiles[i]
              && forall j :: 0 <= j < i ==> !wave[y', x', j]
          else output[y', x'] == 0
      {
        for i := 0 to wave.Length2
          invariant forall j :: 0 <= j < i ==> !wave[y, x, j]
          invariant output[y, x] == 0
        {
          if wave[y, x, i] {
            output[y, x] := tiles[i];
            break;
          }
        }
      }
    }
  }
}
