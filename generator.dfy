/**
  The WaveFunction class: an output size and an example grid, and Generate,
  which builds the tile catalogue and the adjacency rules from the example,
  collapses a fresh wave, restarts from a full wave after each
  contradiction, and reads the collapsed wave back as a grid of example
  values.

  The source retries forever; here the number of attempts is a parameter,
  and the random draws of attempt a are draws(a, 0), draws(a, 1), ...
*/
module Generator {
  import opened Wrappers
  import opened Dedup
  import opened Directions
  import opened Entropy
  import opened TileModel
  import opened WaveState
  import opened Arcs
  import opened Solver

  /** Value v occurs somewhere in the example. */
  ghost predicate InExample(example: array2<int>, v: int)
    reads example
  {
    exists ey, ex :: InGrid(example.Length0, example.Length1, ey, ex) && example[ey, ex] == v
  }

  /** The example holds at least two different values. */
  ghost predicate TwoValues(example: array2<int>)
    reads example
  {
    exists y1, x1, y2, x2 ::
      InGrid(example.Length0, example.Length1, y1, x1) && InGrid(example.Length0, example.Length1, y2, x2)
      && example[y1, x1] != example[y2, x2]
  }

  /** Somewhere in the example, value b sits one step from value a in direction d. */
  ghost predicate SeenAdjacent(example: array2<int>, a: int, b: int, d: Direction)
    reads example
  {
    exists ey, ex :: Step(example.Length0, example.Length1, ey, ex, d)
      && example[ey, ex] == a && example[NextY(ey, d), NextX(ex, d)] == b
  }

  /** Every catalogue entry is a value of the example. */
  lemma CatalogueFromExample(example: array2<int>, tiles: seq<int>)
    requires tiles == FirstSeen(RowMajor(example, example.Length0))
    ensures forall i :: 0 <= i < |tiles| ==> InExample(example, tiles[i])
  {
    forall i | 0 <= i < |tiles|
      ensures InExample(example, tiles[i])
    {
      FirstSeenSubset(RowMajor(example, example.Length0), tiles[i]);
      RowMajorCellOf(example, example.Length0, tiles[i]);
    }
  }

  /** A full cell has the catalogue frequencies as its weight vector. */
  lemma FullCellWeights(p: set<(int, int, int)>, tileWeights: seq<nat>, y: int, x: int)
    requires forall t :: 0 <= t < |tileWeights| ==> (y, x, t) in p
    ensures CellWeights(p, tileWeights, y, x) == tileWeights
  {
  }

  /**
    With at least two tiles, a wave collapsed from the full wave changed in
    every cell, so every cell is settled: all its arcs are consistent.
  */
  lemma EveryCellSettled(p0: set<(int, int, int)>, p: set<(int, int, int)>, rules: seq<Rule>, h: int, w: int, n: int)
    requires n >= 2
    requires forall y, x, t :: InGrid(h, w, y, x) && 0 <= t < n ==> (y, x, t) in p0
    requires forall y, x :: InGrid(h, w, y, x) ==> exists t :: SingleAt(p, y, x, t)
    requires ChangedSettled(p0, p, rules, h, w)
    ensures forall y, x :: InGrid(h, w, y, x) ==> ArcsOK(p, rules, h, w, y, x)
  {
    forall y, x | InGrid(h, w, y, x)
      ensures ArcsOK(p, rules, h, w, y, x)
    {
      var t :| SingleAt(p, y, x, t);
      var other := if t == 0 then 1 else 0;
      assert (y, x, other) in p0 && (y, x, other) !in p;
    }
  }

  /** A cell whose only tile is t reads back as the catalogue entry of t. */
  lemma CellOutput(wave: array3<bool>, tiles: seq<int>, output: array2<int>, y: int, x: int, t: int)
    requires |tiles| == wave.Length2 && InGrid(output.Length0, output.Length1, y, x)
    requires SingleAt(Possible(wave), y, x, t)
    requires exists i :: 0 <= i < wave.Length2 && wave[y, x, i] && output[y, x] == tiles[i]
    ensures 0 <= t < |tiles| && output[y, x] == tiles[t]
  {
    var i :| 0 <= i < wave.Length2 && wave[y, x, i] && output[y, x] == tiles[i];
    assert (y, x, i) in Possible(wave);
  }

  /**
    A consistent arc between two collapsed cells is an observed rule, so the
    two tiles' catalogue entries occur adjacent, in that direction, in the
    example.
  */
  lemma CollapsedArcSeen(example: array2<int>, tiles: seq<int>, rules: seq<Rule>, p: set<(int, int, int)>,
                         y: int, x: int, d: Direction, a: int, b: int)
    requires forall r :: r in rules <==> Observed(example, tiles, r)
    requires SingleAt(p, y, x, a) && SingleAt(p, NextY(y, d), NextX(x, d), b)
    requires ArcOK(p, rules, y, x, d) && 0 <= a < |tiles| && 0 <= b < |tiles|
    ensures SeenAdjacent(example, tiles[a], tiles[b], d)
  {
    var a' :| (y, x, a') in p && Rule(a', b, d) in rules;
    assert a' == a;
    assert Observed(example, tiles, Rule(a, b, d));
    var ey, ex :| Step(example.Length0, example.Length1, ey, ex, d)
      && Rule(a, b, d) == RuleAt(example, tiles, ey, ex, d);
    assert example[ey, ex] == tiles[a] && example[NextY(ey, d), NextX(ex, d)] == tiles[b];
  }

  /**
    Reading a collapsed wave: each output value is the catalogue entry of
    the cell's only tile, hence an example value; and where every arc is
    consistent, two adjacent output values occur adjacent, in the same
    direction, somewhere in the example.
  */
  lemma CollapsedOutputFaithful(example: array2<int>, tiles: seq<int>, rules: seq<Rule>, wave: array3<bool>,
                                output: array2<int>)
    requires |tiles| == wave.Length2
    requires forall i :: 0 <= i < |tiles| ==> InExample(example, tiles[i])
    requires forall r :: r in rules <==> Observed(example, tiles, r)
    requires output.Length0 == wave.Length0 && output.Length1 == wave.Length1
    requires forall y, x :: InGrid(wave.Length0, wave.Length1, y, x) ==> exists t :: SingleAt(Possible(wave), y, x, t)
    requires forall y, x :: InGrid(wave.Length0, wave.Length1, y, x) ==>
      exists i :: 0 <= i < wave.Length2 && wave[y, x, i] && output[y, x] == tiles[i]
    ensures forall y, x :: InGrid(wave.Length0, wave.Length1, y, x) ==> InExample(example, output[y, x])
    ensures (forall y, x :: InGrid(wave.Length0, wave.Length1, y, x) ==>
               ArcsOK(Possible(wave), rules, wave.Length0, wave.Length1, y, x)) ==>
      forall y, x, d :: Step(wave.Length0, wave.Length1, y, x, d) ==>
        SeenAdjacent(example, output[y, x], output[NextY(y, d), NextX(x, d)], d)
  {
    var h, w, p := wave.Length0, wave.Length1, Possible(wave);
    forall y, x | InGrid(h, w, y, x)
      ensures InExample(example, output[y, x])
    {
      var t :| SingleAt(p, y, x, t);
      CellOutput(wave, tiles, output, y, x, t);
    }
    if forall y, x :: InGrid(h, w, y, x) ==> ArcsOK(p, rules, h, w, y, x) {
      forall y, x, d | Step(h, w, y, x, d)
        ensures SeenAdjacent(example, output[y, x], output[NextY(y, d), NextX(x, d)], d)
      {
        var ny, nx := NextY(y, d), NextX(x, d);
        var a :| SingleAt(p, y, x, a);
        var b :| SingleAt(p, ny, nx, b);
        CellOutput(wave, tiles, output, y, x, a);
        CellOutput(wave, tiles, output, ny, nx, b);
        assert ArcOK(p, rules, y, x, d);
        CollapsedArcSeen(example, tiles, rules, p, y, x, d, a, b);
      }
    }
  }

  /** The tile catalogue GetTileFreq builds: the example's values in first-seen order. */
  ghost function Catalogue(example: array2<int>): seq<int>
    reads example
  {
    FirstSeen(RowMajor(example, example.Length0))
  }

  /** The adjacency rules GetCompatabilities builds over that catalogue. */
  ghost function ExampleRules(example: array2<int>): seq<Rule>
    reads example
  {
    FirstSeen(ScanRules(example, Catalogue(example), example.Length0))
  }

  /** The record of one attempt of Generate: the tiles it picked and the wave before each step and at the end. */
  datatype Failure = Failure(picks: seq<(int, int, int)>, waves: seq<set<(int, int, int)>>)

  /**
    An attempt that failed: a recorded run of collapse steps over the rules,
    from the full wave of n tiles per cell to a wave with an emptied cell.
  */
  ghost predicate FailedAttempt(f: Failure, n: int, rules: seq<Rule>, h: int, w: int) {
    && History(f.waves, f.picks, rules, h, w)
    && (forall y, x, t :: (y, x, t) in f.waves[0] <==> InGrid(h, w, y, x) && 0 <= t < n)
    && !NoEmpty(f.waves[|f.picks|], h, w)
  }

  /**
    A failed attempt shows that no tiling of the grid with tiles 0..n-1
    obeys the rules and puts the attempt's picked tiles at the picked cells.
  */
  lemma FailedAttemptHasNoSolution(f: Failure, n: int, rules: seq<Rule>, h: int, w: int,
                                   sol: (int, int) -> int)
    requires FailedAttempt(f, n, rules, h, w)
    requires Solution(sol, rules, h, w) && Agrees(sol, f.picks)
    ensures exists y, x :: InGrid(h, w, y, x) && !(0 <= sol(y, x) < n)
  {
    HistoryKeepsSolutions(f.waves, f.picks, rules, h, w);
    var ey, ex :| InGrid(h, w, ey, ex) && !NonEmpty(f.waves[|f.picks|], ey, ex);
    NoSolutionLeft(f.waves[0], f.waves[|f.picks|], rules, h, w, f.picks, ey, ex);
    var y, x :| InGrid(h, w, y, x) && (y, x, sol(y, x)) !in f.waves[0];
  }

  /** Appending one more failed attempt keeps every record a failed attempt. */
  lemma FailuresSnoc(failures: seq<Failure>, f: Failure, n: int, rules: seq<Rule>, h: int, w: int)
    requires forall k :: 0 <= k < |failures| ==> FailedAttempt(failures[k], n, rules, h, w)
    requires FailedAttempt(f, n, rules, h, w)
    ensures forall k :: 0 <= k < |failures + [f]| ==> FailedAttempt((failures + [f])[k], n, rules, h, w)
  {
    forall k | 0 <= k < |failures + [f]|
      ensures FailedAttempt((failures + [f])[k], n, rules, h, w)
    {
      if k < |failures| {
        assert (failures + [f])[k] == failures[k];
      }
    }
  }

  /** An example with two different values yields a catalogue of at least two tiles. */
  lemma TwoValuesTwoTiles(example: array2<int>, tiles: seq<int>)
    requires forall y, x :: InGrid(example.Length0, example.Length1, y, x) ==> example[y, x] in tiles
    requires TwoValues(example)
    ensures |tiles| >= 2
  {
    var y1, x1, y2, x2 :| InGrid(example.Length0, example.Length1, y1, x1)
      && InGrid(example.Length0, example.Length1, y2, x2) && example[y1, x1] != example[y2, x2];
    var i1 := IndexOf(tiles, example[y1, x1]);
    var i2 := IndexOf(tiles, example[y2, x2]);
    assert i1 != i2;
  }

  /**
    The first lines of Generate: the tile catalogue with its frequencies
    (GetTileFreq) and the adjacency rules (GetCompatabilities). The
    catalogue holds exactly the example's values, each of positive weight,
    and is empty only for an empty example; the rules are exactly the
    observed ones.
  */
  method LearnExample(example: array2<int>) returns (tiles: seq<int>, tileWeights: seq<nat>, rules: seq<Rule>)
    ensures |tileWeights| == |tiles| && PositiveWeights(tileWeights)
    ensures forall i :: 0 <= i < |tiles| ==> InExample(example, tiles[i])
    ensures forall y, x :: InGrid(example.Length0, example.Length1, y, x) ==> example[y, x] in tiles
    ensures |tiles| == 0 <==> example.Length0 == 0 || example.Length1 == 0
    ensures forall r :: r in rules <==> Observed(example, tiles, r)
    ensures tiles == Catalogue(example) && rules == ExampleRules(example)
  {
    tiles, tileWeights := GetTileFreq(example);
    rules := GetCompatabilities(example, tiles);
    CatalogueFromExample(example, tiles);
    RowMajorLength(example, example.Length0);
  }

  /**
    The initial wave of Generate: every tile possible in every cell, and
    every key the entropy of the full weight vector, which CalcCellEntropy
    computes once at cell (0, 0).
  */
  method InitialWave(h: int, w: int, tileWeights: seq<nat>, entropyOf: seq<nat> -> int)
    returns (wave: array3<bool>, entropies: array2<int>, startEntropy: int)
    requires h > 0 && w > 0 && PositiveWeights(tileWeights)
    ensures fresh(wave) && fresh(entropies)
    ensures wave.Length0 == h && wave.Length1 == w && wave.Length2 == |tileWeights|
    ensures entropies.Length0 == h && entropies.Length1 == w
    ensures startEntropy == entropyOf(tileWeights)
    ensures forall y, x, t :: InGrid(h, w, y, x) && 0 <= t < |tileWeights| ==> wave[y, x, t]
    ensures forall y, x :: InGrid(h, w, y, x) ==> entropies[y, x] == startEntropy
  {
    wave := new bool[h, w, |tileWeights|];
    Fill3D(wave, true);
    var emptyStart;
    startEntropy, emptyStart := CalcCellEntropy(0, 0, wave, tileWeights, entropyOf);
    FullCellWeights(Possible(wave), tileWeights, 0, 0);
    entropies := new int[h, w];
    Fill2D(entropies, startEntropy);
  }

  /**
    The last line of Generate: read a collapsed wave back as a grid of
    example values (GenerateOutput). When the wave started full and every
    changed cell is settled, with two tiles or more every adjacent pair of
    the grid occurs adjacent in the example in the same direction.
  */
  method ReadBack(example: array2<int>, tiles: seq<int>, rules: seq<Rule>, wave: array3<bool>,
                  ghost full: set<(int, int, int)>)
    returns (out: array2<int>)
    requires |tiles| == wave.Length2
    requires forall i :: 0 <= i < |tiles| ==> InExample(example, tiles[i])
    requires forall r :: r in rules <==> Observed(example, tiles, r)
    requires forall y, x, t :: InGrid(wave.Length0, wave.Length1, y, x) && 0 <= t < wave.Length2 ==> (y, x, t) in full
    requires forall y, x :: InGrid(wave.Length0, wave.Length1, y, x) ==> exists t :: SingleAt(Possible(wave), y, x, t)
    requires ChangedSettled(full, Possible(wave), rules, wave.Length0, wave.Length1)
    ensures fresh(out)
    ensures out.Length0 == wave.Length0 && out.Length1 == wave.Length1
    ensures forall y, x :: InGrid(wave.Length0, wave.Length1, y, x) ==> InExample(example, out[y, x])
    ensures |tiles| >= 2 ==>
      forall y, x, d :: Step(wave.Length0, wave.Length1, y, x, d) ==>
        SeenAdjacent(example, out[y, x], out[NextY(y, d), NextX(x, d)], d)
  {
    out := GenerateOutput(wave, tiles);
    if |tiles| >= 2 {
      EveryCellSettled(full, Possible(wave), rules, wave.Length0, wave.Length1, |tiles|);
    }
    CollapsedOutputFaithful(example, tiles, rules, wave, out);
  }

  /**
    One attempt of Generate's do-while loop: collapse the full wave and, when
    that succeeds, read it back with GenerateOutput. A grid of example values
    in which, when the catalogue has two tiles or more, every two adjacent
    values occur adjacent in the example in the same direction; None after a
    contradiction, which leaves some cell with no tile, and then no tiling
    that obeys the rules and agrees with the tiles picked along the way
    (`picks`) exists at all. `picks` and `waves` record the run from the
    full wave on.
  */
  method Attempt(example: array2<int>, tiles: seq<int>, tileWeights: seq<nat>, rules: seq<Rule>,
                 wave: array3<bool>, entropies: array2<int>, entropyOf: seq<nat> -> int, rolls: nat -> nat)
    returns (grid: Option<array2<int>>, ghost picks: seq<(int, int, int)>, ghost waves: seq<set<(int, int, int)>>)
    requires wave.Length0 > 0 && wave.Length1 > 0 && wave.Length2 > 0
    requires entropies.Length0 == wave.Length0 && entropies.Length1 == wave.Length1 && entropies != example
    requires |tiles| == |tileWeights| == wave.Length2 && PositiveWeights(tileWeights)
    requires EntropyLaw(entropyOf)
    requires forall i :: 0 <= i < |tiles| ==> InExample(example, tiles[i])
    requires forall r :: r in rules <==> Observed(example, tiles, r)
    requires forall y, x, t :: InGrid(wave.Length0, wave.Length1, y, x) && 0 <= t < wave.Length2 ==> wave[y, x, t]
    requires forall y, x :: InGrid(wave.Length0, wave.Length1, y, x) ==> entropies[y, x] == entropyOf(tileWeights)
    modifies wave, entropies
    ensures grid.Some? ==> grid.value.Length0 == wave.Length0 && grid.value.Length1 == wave.Length1
    ensures grid.Some? ==>
      forall y, x :: InGrid(wave.Length0, wave.Length1, y, x) ==> InExample(example, grid.value[y, x])
    ensures grid.Some? && |tiles| >= 2 ==>
      forall y, x, d :: Step(wave.Length0, wave.Length1, y, x, d) ==>
        SeenAdjacent(example, grid.value[y, x], grid.value[NextY(y, d), NextX(x, d)], d)
    ensures History(waves, picks, rules, wave.Length0, wave.Length1)
    ensures waves[0] == old(Possible(wave)) && waves[|picks|] == Possible(wave)
    ensures Driven(waves, picks, tileWeights, entropyOf, rolls, wave.Length0, wave.Length1)
    ensures grid.None? ==> exists y, x :: InGrid(wave.Length0, wave.Length1, y, x) && !NonEmpty(Possible(wave), y, x)
    ensures grid.None? ==>
      forall sol :: Solution(sol, rules, wave.Length0, wave.Length1) && Agrees(sol, picks) ==>
        !Covers(old(Possible(wave)), sol, wave.Length0, wave.Length1)
    ensures grid.None? ==> FailedAttempt(Failure(picks, waves), wave.Length2, rules, wave.Length0, wave.Length1)
  {
    var h, w, n := wave.Length0, wave.Length1, wave.Length2;
    ghost var full := Possible(wave);
    forall y, x | InGrid(h, w, y, x)
      ensures entropies[y, x] == entropyOf(CellWeights(full, tileWeights, y, x))
      ensures NonEmpty(full, y, x)
    {
      FullCellWeights(full, tileWeights, y, x);
      assert (y, x, 0) in full;
    }
    var outcome;
    outcome, picks, waves := CollapseWave(wave, entropies, tileWeights, rules, entropyOf, rolls);
    if outcome == Contradiction {
      return None, picks, waves;
    }
    var out := ReadBack(example, tiles, rules, wave, full);
    return Some(out), picks, waves;
  }

  /**
    The do-while loop of Generate: collapse the wave, and after a
    contradiction refill the wave and the keys and try again, at most
    `attempts` times; attempt a draws draws(a, 0), draws(a, 1), ... A grid
    comes with fewer failed attempts than allowed; None after exactly
    `attempts` of them. Every failed attempt is recorded.
  */
  method Restart(example: array2<int>, tiles: seq<int>, tileWeights: seq<nat>, rules: seq<Rule>,
                 wave: array3<bool>, entropies: array2<int>, startEntropy: int, entropyOf: seq<nat> -> int,
                 draws: (nat, nat) -> nat, attempts: nat)
    returns (output: Option<array2<int>>, ghost failures: seq<Failure>)
    requires wave.Length0 > 0 && wave.Length1 > 0 && wave.Length2 > 0
    requires entropies.Length0 == wave.Length0 && entropies.Length1 == wave.Length1 && entropies != example
    requires |tiles| == |tileWeights| == wave.Length2 && PositiveWeights(tileWeights)
    requires EntropyLaw(entropyOf) && startEntropy == entropyOf(tileWeights)
    requires forall i :: 0 <= i < |tiles| ==> InExample(example, tiles[i])
    requires forall r :: r in rules <==> Observed(example, tiles, r)
    requires forall y, x, t :: InGrid(wave.Length0, wave.Length1, y, x) && 0 <= t < wave.Length2 ==> wave[y, x, t]
    requires forall y, x :: InGrid(wave.Length0, wave.Length1, y, x) ==> entropies[y, x] == startEntropy
    modifies wave, entropies
    ensures output.Some? ==> output.value.Length0 == wave.Length0 && output.value.Length1 == wave.Length1
    ensures output.Some? ==>
      forall y, x :: InGrid(wave.Length0, wave.Length1, y, x) ==> InExample(example, output.value[y, x])
    ensures output.Some? && |tiles| >= 2 ==>
      forall y, x, d :: Step(wave.Length0, wave.Length1, y, x, d) ==>
        SeenAdjacent(example, output.value[y, x], output.value[NextY(y, d), NextX(x, d)], d)
    ensures forall k :: 0 <= k < |failures| ==> FailedAttempt(failures[k], |tiles|, rules, wave.Length0, wave.Length1)
    ensures output.Some? ==> |failures| < attempts
    ensures output.None? ==> |failures| == attempts
  {
    var h, w, n := wave.Length0, wave.Length1, wave.Length2;
    failures := [];
    var attempt: nat := 0;
    while attempt < attempts
      invariant forall y, x, t :: InGrid(h, w, y, x) && 0 <= t < n ==> wave[y, x, t]
      invariant forall y, x :: InGrid(h, w, y, x) ==> entropies[y, x] == startEntropy
      invariant attempt <= attempts && |failures| == attempt
      invariant forall k :: 0 <= k < |failures| ==> FailedAttempt(failures[k], n, rules, h, w)
    {
      ghost var picks, waves;
      output, picks, waves := Attempt(example, tiles, tileWeights, rules, wave, entropies, entropyOf,
                                      (k: nat) => draws(attempt, k));
      if output.Some? {
        return;
      }
      ghost var f := Failure(picks, waves);
      FailuresSnoc(failures, f, n, rules, h, w);
      failures := failures + [f];
      Fill3D(wave, true);
      Fill2D(entropies, startEntropy);
      attempt := attempt + 1;
    }
    output := None;
  }

  class WaveFunction {
    /** How many tiles wide the output is. */
    var waveWidth: int
    /** How many tiles tall the output is. */
    var waveHeight: int
    /** The example the adjacency rules are learnt from. */
    var example: array2<int>

    constructor (waveWidth: int, waveHeight: int, example: array2<int>)
      ensures this.waveWidth == waveWidth && this.waveHeight == waveHeight && this.example == example
    {
      this.waveWidth := waveWidth;
      this.waveHeight := waveHeight;
      this.example := example;
    }

    /**
      Generate: a waveHeight-by-waveWidth grid of example values in which,
      when the example has two different values, every two adjacent values
      also occur adjacent, in the same direction, in the example. None when
      the output or the example is empty (the source fails or retries
      forever) or when every attempt ended in a contradiction. `failures`
      records each failed attempt: its picks and the wave before each step,
      from the full wave to one with an emptied cell.
    */
    method Generate(entropyOf: seq<nat> -> int, draws: (nat, nat) -> nat, attempts: nat)
      returns (output: Option<array2<int>>, ghost failures: seq<Failure>)
      requires EntropyLaw(entropyOf)
      ensures waveHeight <= 0 || waveWidth <= 0 || example.Length0 == 0 || example.Length1 == 0 ==> output.None?
      ensures output.Some? ==> output.value.Length0 == waveHeight && output.value.Length1 == waveWidth
      ensures output.Some? ==>
        forall y, x :: InGrid(waveHeight, waveWidth, y, x) ==> InExample(example, output.value[y, x])
      ensures output.Some? && TwoValues(example) ==>
        forall y, x, d :: Step(waveHeight, waveWidth, y, x, d) ==>
          SeenAdjacent(example, output.value[y, x], output.value[NextY(y, d), NextX(x, d)], d)
      ensures forall k :: 0 <= k < |failures| ==>
        FailedAttempt(failures[k], |Catalogue(example)|, ExampleRules(example), waveHeight, waveWidth)
      ensures output.Some? ==> |failures| < attempts
      ensures output.None? && waveHeight > 0 && waveWidth > 0 && example.Length0 > 0 && example.Length1 > 0 ==>
        |failures| == attempts
    {
      var h, w := waveHeight, waveWidth;
      failures := [];
      if h <= 0 || w <= 0 {
        return None, failures;
      }
      var tiles, tileWeights, rules := LearnExample(example);
      var n := |tiles|;
      if n == 0 {
        return None, failures;
      }
      var wave, entropies, startEntropy := InitialWave(h, w, tileWeights, entropyOf);
      output, failures := Restart(example, tiles, tileWeights, rules, wave, entropies, startEntropy, entropyOf,
                                  draws, attempts);
      if output.Some? && TwoValues(example) {
        TwoValuesTwoTiles(example, tiles);
      }
    }
  }
}
