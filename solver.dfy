/**
  The collapse loop (CollapseWave) and its single steps: read the weight
  vector of the chosen cell, pick one of its tiles at random by weight,
  collapse the cell to that tile and propagate.

  The random generator is a parameter `rolls`: the k-th collapse of the loop
  uses the draw rolls(k). The loop ends when no entropy key is positive, or
  with a contradiction when a cell runs out of tiles.
*/
module Solver {
  import opened Directions
  import opened Weights
  import opened Entropy
  import opened TileModel
  import opened WaveState
  import opened Selection
  import opened Arcs
  import opened Propagation

  /** How a collapse attempt ends: every cell collapsed, or a cell left without a tile. */
  datatype Outcome = Collapsed | Contradiction

  /**
    currentTileWeights in CollapseWave: the frequency of each tile still
    possible at (y, x), 0 for the others.
  */
  method CurrentTileWeights(wave: array3<bool>, tileWeights: seq<nat>, y: int, x: int) returns (ws: seq<nat>)
    requires InGrid(wave.Length0, wave.Length1, y, x)
    requires |tileWeights| == wave.Length2
    ensures ws == CellWeights(Possible(wave), tileWeights, y, x)
  {
    ws := [];
    for i := 0 to wave.Length2
      invariant |ws| == i
      invariant forall k :: 0 <= k < i ==> ws[k] == if wave[y, x, k] then tileWeights[k] else 0
    {
      if wave[y, x, i] {
        ws := ws + [tileWeights[i]];
      } else {
        ws := ws + [0];
      }
    }
  }

  /** Collapse cell (y, x) to tile t: t becomes its only tile; no other cell changes. */
  method CollapseCell(wave: array3<bool>, y: int, x: int, t: int)
    requires InGrid(wave.Length0, wave.Length1, y, x) && 0 <= t < wave.Length2
    modifies wave
    ensures forall y', x', u :: (y', x', u) in Possible(wave) <==>
      if y' == y && x' == x then u == t else (y', x', u) in old(Possible(wave))
  {
    for i := 0 to wave.Length2
      invariant forall y', x', u :: 0 <= y' < wave.Length0 && 0 <= x' < wave.Length1 && 0 <= u < wave.Length2 ==>
        wave[y', x', u] == (old(wave[y', x', u]) && !(y' == y && x' == x && u < i))
    {
      wave[y, x, i] := false;
    }
    wave[y, x, t] := true;
  }

  /**
    The set-level effect of collapsing (ly, lx) to a tile t it still had:
    the wave shrinks, the cell holds t alone, every cell still has a tile,
    and every cell other than (ly, lx) that changed since p0 is still settled.
  */
  lemma AfterCollapse(p0: set<(int, int, int)>, pb: set<(int, int, int)>, pc: set<(int, int, int)>,
                      rules: seq<Rule>, h: int, w: int, ly: int, lx: int, t: int)
    requires InGrid(h, w, ly, lx) && (ly, lx, t) in pb
    requires pb <= p0 && ChangedSettled(p0, pb, rules, h, w) && NoEmpty(pb, h, w)
    requires forall y', x', u :: (y', x', u) in pc <==> if y' == ly && x' == lx then u == t else (y', x', u) in pb
    ensures pc <= pb && SingleAt(pc, ly, lx, t) && NoEmpty(pc, h, w)
    ensures forall y', x' :: !(y' == ly && x' == lx) ==> SameCell(pb, pc, y', x')
    ensures forall y', x' :: InGrid(h, w, y', x') && !(y' == ly && x' == lx) && !SameCell(p0, pc, y', x') ==>
      Settled(pc, rules, h, w, y', x')
  {
    forall e | e in pc
      ensures e in pb
    {
      var (y', x', u) := e;
      assert (y', x', u) in pc;
    }
    forall y', x' | InGrid(h, w, y', x')
      ensures NonEmpty(pc, y', x')
    {
      if y' == ly && x' == lx {
        assert (ly, lx, t) in pc;
      } else {
        var u :| (y', x', u) in pb;
        assert (y', x', u) in pc;
      }
    }
    SettledOutside(p0, pb, pc, rules, h, w, ly, lx);
  }

  /**
    After propagation from the collapsed cell (ly, lx): every cell that
    changed since p0 is settled and every cell still has a tile.
  */
  lemma AfterCollapsePropagation(p0: set<(int, int, int)>, pc: set<(int, int, int)>, pe: set<(int, int, int)>,
                                 rules: seq<Rule>, h: int, w: int, ly: int, lx: int)
    requires pe <= pc && NoEmpty(pc, h, w)
    requires forall y', x' :: InGrid(h, w, y', x') && !(y' == ly && x' == lx) && !SameCell(p0, pc, y', x') ==>
      Settled(pc, rules, h, w, y', x')
    requires InGrid(h, w, ly, lx)
    requires ChangedSettled(pc, pe, rules, h, w) && ArcsOK(pe, rules, h, w, ly, lx)
    ensures ChangedSettled(p0, pe, rules, h, w) && NoEmpty(pe, h, w)
  {
    SettledAfterPropagation(p0, pc, pe, rules, h, w, ly, lx);
    forall y', x' | InGrid(h, w, y', x')
      ensures NonEmpty(pe, y', x')
    {
      if SameCell(pc, pe, y', x') {
        var u :| (y', x', u) in pc;
        assert (y', x', u) in pe;
      }
    }
  }

  /**
    A cell holding a single tile has entropy key 0, and keys of the other
    cells still agree when only (ly, lx) changed: the cache is up to date
    after `entropies[y, x] = 0`.
  */
  lemma KeysAfterCollapse(entropies: array2<int>, pb: set<(int, int, int)>, pc: set<(int, int, int)>,
                          tileWeights: seq<nat>, entropyOf: seq<nat> -> int, ly: int, lx: int, t: int)
    requires EntropyLaw(entropyOf) && PositiveWeights(tileWeights) && 0 <= t < |tileWeights|
    requires SingleAt(pc, ly, lx, t)
    requires forall y', x' :: !(y' == ly && x' == lx) ==> SameCell(pb, pc, y', x')
    requires forall y', x' :: InGrid(entropies.Length0, entropies.Length1, y', x') && !(y' == ly && x' == lx) ==>
      entropies[y', x'] == entropyOf(CellWeights(pb, tileWeights, y', x'))
    requires InGrid(entropies.Length0, entropies.Length1, ly, lx) ==> entropies[ly, lx] == 0
    ensures KeysAgree(entropies, pc, tileWeights, entropyOf)
  {
    forall y', x' | InGrid(entropies.Length0, entropies.Length1, y', x')
      ensures entropies[y', x'] == entropyOf(CellWeights(pc, tileWeights, y', x'))
    {
      if y' == ly && x' == lx {
        CellWeightsSingle(pc, tileWeights, ly, lx);
        assert Positives(CellWeights(pc, tileWeights, ly, lx)) == 1;
      } else {
        SameCellWeights(pb, pc, tileWeights, y', x');
      }
    }
  }

  /**
    The cell GetLowestEntropyPos picks has a tile of positive weight, and
    when its key is positive it has a second one: collapsing it removes a
    tile.
  */
  lemma PickedCellHasChoice(p: set<(int, int, int)>, tileWeights: seq<nat>, entropyOf: seq<nat> -> int,
                            ly: int, lx: int, t: int)
    requires EntropyLaw(entropyOf) && PositiveWeights(tileWeights)
    requires forall u :: (ly, lx, u) in p ==> 0 <= u < |tileWeights|
    requires NonEmpty(p, ly, lx)
    ensures Sum(CellWeights(p, tileWeights, ly, lx)) > 0
    ensures entropyOf(CellWeights(p, tileWeights, ly, lx)) > 0 ==> exists u :: u != t && (ly, lx, u) in p
  {
    var ws := CellWeights(p, tileWeights, ly, lx);
    CellWeightsNonEmpty(p, tileWeights, ly, lx);
    PositivesZero(ws);
    if entropyOf(ws) > 0 {
      assert Positives(ws) != 1;
      PositivesTwo(ws);
      var i, j :| 0 <= i < j < |ws| && ws[i] > 0 && ws[j] > 0;
      if i != t {
        assert (ly, lx, i) in p;
      } else {
        assert (ly, lx, j) in p;
      }
    }
  }

  /**
    When no key is positive, every cell holds exactly one tile: a cell with
    a tile and key at most 0 has a single tile of positive weight.
  */
  lemma FullyCollapsedSingle(entropies: array2<int>, p: set<(int, int, int)>, tileWeights: seq<nat>,
                             entropyOf: seq<nat> -> int)
    requires EntropyLaw(entropyOf) && PositiveWeights(tileWeights)
    requires forall y, x, t :: (y, x, t) in p ==> 0 <= t < |tileWeights|
    requires KeysAgree(entropies, p, tileWeights, entropyOf) && NoEmpty(p, entropies.Length0, entropies.Length1)
    requires !AnyPositive(entropies)
    ensures forall y, x :: InGrid(entropies.Length0, entropies.Length1, y, x) ==> exists t :: SingleAt(p, y, x, t)
  {
    forall y, x | InGrid(entropies.Length0, entropies.Length1, y, x)
      ensures exists t :: SingleAt(p, y, x, t)
    {
      var ws := CellWeights(p, tileWeights, y, x);
      CellWeightsNonEmpty(p, tileWeights, y, x);
      CollapsedIffSingle(entropyOf, ws);
      CellWeightsSingle(p, tileWeights, y, x);
    }
  }

  /**
    The tile CollapseWave collapses (ly, lx) to: the weighted random pick
    over the cell's weight vector. It is a tile still possible there, and
    when the cell's entropy is positive some other tile is possible too.
  */
  method PickTile(wave: array3<bool>, tileWeights: seq<nat>, entropyOf: seq<nat> -> int, ly: int, lx: int, roll: nat)
    returns (collapsedTile: int)
    requires InGrid(wave.Length0, wave.Length1, ly, lx)
    requires |tileWeights| == wave.Length2 && PositiveWeights(tileWeights)
    requires EntropyLaw(entropyOf)
    requires NonEmpty(Possible(wave), ly, lx)
    ensures (ly, lx, collapsedTile) in Possible(wave)
    ensures var ws := CellWeights(Possible(wave), tileWeights, ly, lx);
      Sum(ws) > 0 && collapsedTile == DrawTile(ws, roll)
    ensures entropyOf(CellWeights(Possible(wave), tileWeights, ly, lx)) > 0 ==>
      exists u :: u != collapsedTile && (ly, lx, u) in Possible(wave)
  {
    ghost var p := Possible(wave);
    var currentTileWeights := CurrentTileWeights(wave, tileWeights, ly, lx);
    PickedCellHasChoice(p, tileWeights, entropyOf, ly, lx, 0);
    var pick := PickWeightedRandomTile(currentTileWeights, roll);
    collapsedTile := pick.value;
    assert currentTileWeights[collapsedTile] > 0;
    PickedCellHasChoice(p, tileWeights, entropyOf, ly, lx, collapsedTile);
  }

  /**
    Lines `wave[y, x, i] = false` for all i, `wave[y, x, collapsedTile] =
    true` and `entropies[y, x] = 0` of CollapseWave, for a tile t still
    possible at (ly, lx): the cell holds t alone, no other cell changes, the
    cache still agrees with the wave, every cell still has a tile, and every
    other cell changed since p0 is still settled.
  */
  method CollapseAt(wave: array3<bool>, entropies: array2<int>, tileWeights: seq<nat>, rules: seq<Rule>,
                    entropyOf: seq<nat> -> int, ly: int, lx: int, t: int, ghost p0: set<(int, int, int)>)
    requires InGrid(wave.Length0, wave.Length1, ly, lx) && (ly, lx, t) in Possible(wave)
    requires entropies.Length0 == wave.Length0 && entropies.Length1 == wave.Length1
    requires |tileWeights| == wave.Length2 && PositiveWeights(tileWeights)
    requires EntropyLaw(entropyOf)
    requires Possible(wave) <= p0
    requires KeysAgree(entropies, Possible(wave), tileWeights, entropyOf)
    requires NoEmpty(Possible(wave), wave.Length0, wave.Length1)
    requires ChangedSettled(p0, Possible(wave), rules, wave.Length0, wave.Length1)
    modifies wave, entropies
    ensures Possible(wave) <= old(Possible(wave))
    ensures SingleAt(Possible(wave), ly, lx, t)
    ensures forall y', x' :: !(y' == ly && x' == lx) ==> SameCell(old(Possible(wave)), Possible(wave), y', x')
    ensures KeysAgree(entropies, Possible(wave), tileWeights, entropyOf)
    ensures NoEmpty(Possible(wave), wave.Length0, wave.Length1)
    ensures forall y', x' ::
      (InGrid(wave.Length0, wave.Length1, y', x') && !(y' == ly && x' == lx) && !SameCell(p0, Possible(wave), y', x'))
      ==> Settled(Possible(wave), rules, wave.Length0, wave.Length1, y', x')
  {
    ghost var pb := Possible(wave);
    CollapseCell(wave, ly, lx, t);
    entropies[ly, lx] := 0;
    ghost var pc := Possible(wave);
    AfterCollapse(p0, pb, pc, rules, wave.Length0, wave.Length1, ly, lx, t);
    KeysAfterCollapse(entropies, pb, pc, tileWeights, entropyOf, ly, lx, t);
  }

  /**
    Collapsing (ly, lx) to t loses no solution that puts t at (ly, lx): the
    cell keeps t and every other cell keeps its tiles.
  */
  lemma CollapseKeepsSolutions(pb: set<(int, int, int)>, pc: set<(int, int, int)>, rules: seq<Rule>,
                               h: int, w: int, ly: int, lx: int, t: int)
    requires SingleAt(pc, ly, lx, t)
    requires forall y', x' :: !(y' == ly && x' == lx) ==> SameCell(pb, pc, y', x')
    ensures KeepsSolutions(pb, pc, rules, h, w, [(ly, lx, t)])
  {
    forall sol | Solution(sol, rules, h, w) && Agrees(sol, [(ly, lx, t)]) && Covers(pb, sol, h, w)
      ensures Covers(pc, sol, h, w)
    {
      var picks := [(ly, lx, t)];
      assert sol(picks[0].0, picks[0].1) == picks[0].2;
      forall y', x' | InGrid(h, w, y', x')
        ensures (y', x', sol(y', x')) in pc
      {
        var u := sol(y', x');
        assert (y', x', u) in pb;
        if y' == ly && x' == lx {
          assert u == t;
        } else {
          assert SameCell(pb, pc, y', x');
        }
      }
    }
  }

  /**
    The second half of a pass of CollapseWave's loop: collapse (ly, lx) to
    t, set its key to 0 and propagate. Only t remains possible at (ly, lx),
    no solution that puts t there is lost, and without a contradiction the
    cache agrees with the wave, every cell still has a tile and every cell
    changed since p0 is settled.
  */
  method CollapsePropagate(wave: array3<bool>, entropies: array2<int>, tileWeights: seq<nat>, rules: seq<Rule>,
                           entropyOf: seq<nat> -> int, ly: int, lx: int, t: int, ghost p0: set<(int, int, int)>)
    returns (contradiction: bool)
    requires InGrid(wave.Length0, wave.Length1, ly, lx) && (ly, lx, t) in Possible(wave)
    requires entropies.Length0 == wave.Length0 && entropies.Length1 == wave.Length1
    requires |tileWeights| == wave.Length2 && PositiveWeights(tileWeights)
    requires EntropyLaw(entropyOf)
    requires Possible(wave) <= p0
    requires KeysAgree(entropies, Possible(wave), tileWeights, entropyOf)
    requires NoEmpty(Possible(wave), wave.Length0, wave.Length1)
    requires ChangedSettled(p0, Possible(wave), rules, wave.Length0, wave.Length1)
    modifies wave, entropies
    ensures Possible(wave) <= old(Possible(wave))
    ensures forall u :: u != t ==> (ly, lx, u) !in Possible(wave)
    ensures contradiction ==>
      exists y, x :: InGrid(wave.Length0, wave.Length1, y, x) && !NonEmpty(Possible(wave), y, x)
    ensures !contradiction ==> KeysAgree(entropies, Possible(wave), tileWeights, entropyOf)
    ensures !contradiction ==> NoEmpty(Possible(wave), wave.Length0, wave.Length1)
    ensures !contradiction ==> ChangedSettled(p0, Possible(wave), rules, wave.Length0, wave.Length1)
    ensures KeepsSolutions(old(Possible(wave)), Possible(wave), rules, wave.Length0, wave.Length1, [(ly, lx, t)])
  {
    var h, w := wave.Length0, wave.Length1;
    ghost var pb := Possible(wave);
    CollapseAt(wave, entropies, tileWeights, rules, entropyOf, ly, lx, t, p0);
    ghost var pc := Possible(wave);
    CollapseKeepsSolutions(pb, pc, rules, h, w, ly, lx, t);
    contradiction := PropegateCollapse(wave, entropies, rules, tileWeights, entropyOf, ly, lx);
    KeepsSolutionsTrans(pb, pc, Possible(wave), rules, h, w, [(ly, lx, t)], []);
    assert [(ly, lx, t)] + [] == [(ly, lx, t)];
    if contradiction {
      return;
    }
    AfterCollapsePropagation(p0, pc, Possible(wave), rules, h, w, ly, lx);
  }

  /** The key the cache holds for cell (y, x) of wave p when it agrees with p. */
  ghost function KeyOf(p: set<(int, int, int)>, tileWeights: seq<nat>, entropyOf: seq<nat> -> int,
                       y: int, x: int): int
  {
    entropyOf(CellWeights(p, tileWeights, y, x))
  }

  /** AnyPositive read off the wave p: some cell has a positive key. */
  ghost predicate AnyKeyPositive(p: set<(int, int, int)>, tileWeights: seq<nat>, entropyOf: seq<nat> -> int,
                                 h: int, w: int)
  {
    exists y, x :: InGrid(h, w, y, x) && KeyOf(p, tileWeights, entropyOf, y, x) > 0
  }

  /**
    LowestPositive read off the wave p instead of the cache: the cell the
    selector picks when every key is entropyOf of the cell's weight vector.
  */
  ghost predicate LowestKey(p: set<(int, int, int)>, tileWeights: seq<nat>, entropyOf: seq<nat> -> int,
                            h: int, w: int, ly: int, lx: int)
  {
    && (!AnyKeyPositive(p, tileWeights, entropyOf, h, w) ==> ly == 0 && lx == 0)
    && (AnyKeyPositive(p, tileWeights, entropyOf, h, w) ==>
          && InGrid(h, w, ly, lx)
          && KeyOf(p, tileWeights, entropyOf, ly, lx) > 0
          && (forall y, x :: InGrid(h, w, y, x) && KeyOf(p, tileWeights, entropyOf, y, x) > 0 ==>
                KeyOf(p, tileWeights, entropyOf, ly, lx) <= KeyOf(p, tileWeights, entropyOf, y, x))
          && (forall y, x :: InGrid(h, w, y, x) && KeyOf(p, tileWeights, entropyOf, y, x) > 0 && Before(y, x, ly, lx)
                ==> KeyOf(p, tileWeights, entropyOf, ly, lx) < KeyOf(p, tileWeights, entropyOf, y, x)))
  }

  /** A cache that agrees with the wave selects exactly the cell LowestKey names. */
  lemma LowestKeyAgrees(entropies: array2<int>, p: set<(int, int, int)>, tileWeights: seq<nat>,
                        entropyOf: seq<nat> -> int, ly: int, lx: int)
    requires KeysAgree(entropies, p, tileWeights, entropyOf)
    ensures LowestPositive(entropies, ly, lx) <==>
      LowestKey(p, tileWeights, entropyOf, entropies.Length0, entropies.Length1, ly, lx)
  {
  }

  /**
    One step of the loop as the source drives it from wave `before`: the
    cell is the one GetLowestEntropyPos selects, and the tile is the one the
    weighted draw `1 + roll % total` selects from that cell's weight vector.
  */
  ghost predicate Drawn(before: set<(int, int, int)>, pick: (int, int, int), tileWeights: seq<nat>,
                        entropyOf: seq<nat> -> int, roll: nat, h: int, w: int)
  {
    && LowestKey(before, tileWeights, entropyOf, h, w, pick.0, pick.1)
    && var ws := CellWeights(before, tileWeights, pick.0, pick.1);
       Sum(ws) > 0 && pick.2 == DrawTile(ws, roll)
  }

  /** The selector's cell under an agreeing cache and the tile the draw selects make a drawn step. */
  lemma SelectedDrawn(entropies: array2<int>, p: set<(int, int, int)>, tileWeights: seq<nat>,
                      entropyOf: seq<nat> -> int, roll: nat, ly: int, lx: int, t: int)
    requires KeysAgree(entropies, p, tileWeights, entropyOf)
    requires LowestPositive(entropies, ly, lx)
    requires var ws := CellWeights(p, tileWeights, ly, lx); Sum(ws) > 0 && t == DrawTile(ws, roll)
    ensures Drawn(p, (ly, lx, t), tileWeights, entropyOf, roll, entropies.Length0, entropies.Length1)
  {
    LowestKeyAgrees(entropies, p, tileWeights, entropyOf, ly, lx);
  }

  /**
    Lines :125-143 of CollapseWave: the cell GetLowestEntropyPos selects and
    the tile PickTile draws there with `roll`. The pick is a drawn step of the
    current wave, still possible, and when some key is positive another tile
    is possible in that cell too.
  */
  method SelectTile(wave: array3<bool>, entropies: array2<int>, tileWeights: seq<nat>,
                    entropyOf: seq<nat> -> int, roll: nat)
    returns (ly: int, lx: int, t: int)
    requires wave.Length0 > 0 && wave.Length1 > 0
    requires entropies.Length0 == wave.Length0 && entropies.Length1 == wave.Length1
    requires |tileWeights| == wave.Length2 && PositiveWeights(tileWeights)
    requires EntropyLaw(entropyOf)
    requires KeysAgree(entropies, Possible(wave), tileWeights, entropyOf)
    requires NoEmpty(Possible(wave), wave.Length0, wave.Length1)
    ensures LowestPositive(entropies, ly, lx)
    ensures Drawn(Possible(wave), (ly, lx, t), tileWeights, entropyOf, roll, wave.Length0, wave.Length1)
    ensures (ly, lx, t) in Possible(wave)
    ensures AnyPositive(entropies) ==> exists u :: u != t && (ly, lx, u) in Possible(wave)
  {
    ly, lx := GetLowestEntropyPos(entropies);
    t := PickTile(wave, tileWeights, entropyOf, ly, lx, roll);
    SelectedDrawn(entropies, Possible(wave), tileWeights, entropyOf, roll, ly, lx, t);
  }

  /** Every recorded step k was drawn from waves[k] with the k-th draw rolls(k). */
  ghost predicate Driven(waves: seq<set<(int, int, int)>>, picks: seq<(int, int, int)>, tileWeights: seq<nat>,
                         entropyOf: seq<nat> -> int, rolls: nat -> nat, h: int, w: int)
  {
    && |waves| == |picks| + 1
    && forall k {:trigger Drawn(waves[k], picks[k], tileWeights, entropyOf, rolls(k), h, w)} ::
         0 <= k < |picks| ==> Drawn(waves[k], picks[k], tileWeights, entropyOf, rolls(k), h, w)
  }

  /** One more drawn step, with the next draw, extends a driven record. */
  lemma DrivenSnoc(waves: seq<set<(int, int, int)>>, picks: seq<(int, int, int)>, p: set<(int, int, int)>,
                   pick: (int, int, int), tileWeights: seq<nat>, entropyOf: seq<nat> -> int, rolls: nat -> nat,
                   h: int, w: int)
    requires Driven(waves, picks, tileWeights, entropyOf, rolls, h, w)
    requires Drawn(waves[|picks|], pick, tileWeights, entropyOf, rolls(|picks|), h, w)
    ensures Driven(waves + [p], picks + [pick], tileWeights, entropyOf, rolls, h, w)
  {
    forall k | 0 <= k < |picks| + 1
      ensures Drawn((waves + [p])[k], (picks + [pick])[k], tileWeights, entropyOf, rolls(k), h, w)
    {
      if k < |picks| {
        assert Drawn(waves[k], picks[k], tileWeights, entropyOf, rolls(k), h, w);
      }
    }
  }

  /**
    One pass of CollapseWave's loop: pick the lowest positive-entropy cell
    (the first cell when none is positive), collapse it to a weighted random
    tile chosen by `roll`, set its key to 0 and propagate. Tiles are only
    removed, and when some key was positive at least one is. Without a
    contradiction the cache agrees with the wave, every cell still has a
    tile and every cell changed since p0 is settled.
  */
  method CollapseStep(wave: array3<bool>, entropies: array2<int>, tileWeights: seq<nat>, rules: seq<Rule>,
                      entropyOf: seq<nat> -> int, roll: nat, ghost p0: set<(int, int, int)>,
                      ghost picks: seq<(int, int, int)>)
    returns (contradiction: bool, ghost pick: (int, int, int))
    requires wave.Length0 > 0 && wave.Length1 > 0
    requires entropies.Length0 == wave.Length0 && entropies.Length1 == wave.Length1
    requires |tileWeights| == wave.Length2 && PositiveWeights(tileWeights)
    requires EntropyLaw(entropyOf)
    requires Possible(wave) <= p0
    requires KeysAgree(entropies, Possible(wave), tileWeights, entropyOf)
    requires NoEmpty(Possible(wave), wave.Length0, wave.Length1)
    requires ChangedSettled(p0, Possible(wave), rules, wave.Length0, wave.Length1)
    requires KeepsSolutions(p0, Possible(wave), rules, wave.Length0, wave.Length1, picks)
    modifies wave, entropies
    ensures Possible(wave) <= old(Possible(wave))
    ensures old(AnyPositive(entropies)) ==> Possible(wave) < old(Possible(wave))
    ensures contradiction ==>
      exists y, x :: InGrid(wave.Length0, wave.Length1, y, x) && !NonEmpty(Possible(wave), y, x)
    ensures !contradiction ==> KeysAgree(entropies, Possible(wave), tileWeights, entropyOf)
    ensures !contradiction ==> NoEmpty(Possible(wave), wave.Length0, wave.Length1)
    ensures !contradiction ==> ChangedSettled(p0, Possible(wave), rules, wave.Length0, wave.Length1)
    ensures pick in old(Possible(wave))
    ensures forall u :: u != pick.2 ==> (pick.0, pick.1, u) !in Possible(wave)
    ensures KeepsSolutions(old(Possible(wave)), Possible(wave), rules, wave.Length0, wave.Length1, [pick])
    ensures old(LowestPositive(entropies, pick.0, pick.1))
    ensures Drawn(old(Possible(wave)), pick, tileWeights, entropyOf, roll, wave.Length0, wave.Length1)
    ensures KeepsSolutions(p0, Possible(wave), rules, wave.Length0, wave.Length1, picks + [pick])
    ensures contradiction ==>
      forall sol :: Solution(sol, rules, wave.Length0, wave.Length1) && Agrees(sol, picks + [pick]) ==>
        !Covers(p0, sol, wave.Length0, wave.Length1)
  {
    ghost var pb := Possible(wave);
    var ly, lx, collapsedTile := SelectTile(wave, entropies, tileWeights, entropyOf, roll);
    pick := (ly, lx, collapsedTile);
    ghost var removed: int := collapsedTile;
    if AnyPositive(entropies) {
      removed :| removed != collapsedTile && (ly, lx, removed) in pb;
    }
    contradiction := CollapsePropagate(wave, entropies, tileWeights, rules, entropyOf, ly, lx, collapsedTile, p0);
    assert removed != collapsedTile ==> (ly, lx, removed) !in Possible(wave);
    KeepsSolutionsTrans(p0, pb, Possible(wave), rules, wave.Length0, wave.Length1, picks, [pick]);
    if contradiction {
      ghost var ey, ex :| InGrid(wave.Length0, wave.Length1, ey, ex) && !NonEmpty(Possible(wave), ey, ex);
      NoSolutionLeft(p0, Possible(wave), rules, wave.Length0, wave.Length1, picks + [pick], ey, ex);
    }
  }

  /**
    One pass of CollapseWave's loop (WaveFunction.cs:122-158): CollapseStep
    with the draw rolls(step), recorded as one more step of the run whose
    waves and picks so far are given. The record stays a History and stays
    Driven, and the loop's other invariants are kept.
  */
  method CollapseRound(wave: array3<bool>, entropies: array2<int>, tileWeights: seq<nat>, rules: seq<Rule>,
                       entropyOf: seq<nat> -> int, rolls: nat -> nat, step: nat,
                       ghost picks: seq<(int, int, int)>, ghost waves: seq<set<(int, int, int)>>)
    returns (contradiction: bool, ghost picks': seq<(int, int, int)>, ghost waves': seq<set<(int, int, int)>>)
    requires wave.Length0 > 0 && wave.Length1 > 0
    requires entropies.Length0 == wave.Length0 && entropies.Length1 == wave.Length1
    requires |tileWeights| == wave.Length2 && PositiveWeights(tileWeights)
    requires EntropyLaw(entropyOf)
    requires KeysAgree(entropies, Possible(wave), tileWeights, entropyOf)
    requires NoEmpty(Possible(wave), wave.Length0, wave.Length1)
    requires History(waves, picks, rules, wave.Length0, wave.Length1) && waves[|picks|] == Possible(wave)
    requires ChangedSettled(waves[0], Possible(wave), rules, wave.Length0, wave.Length1)
    requires step == |picks| && Driven(waves, picks, tileWeights, entropyOf, rolls, wave.Length0, wave.Length1)
    modifies wave, entropies
    ensures Possible(wave) <= old(Possible(wave))
    ensures old(AnyPositive(entropies)) ==> Possible(wave) < old(Possible(wave))
    ensures History(waves', picks', rules, wave.Length0, wave.Length1)
    ensures waves'[0] == waves[0] && waves'[|picks'|] == Possible(wave)
    ensures |picks'| == step + 1 && Driven(waves', picks', tileWeights, entropyOf, rolls, wave.Length0, wave.Length1)
    ensures contradiction ==>
      exists y, x :: InGrid(wave.Length0, wave.Length1, y, x) && !NonEmpty(Possible(wave), y, x)
    ensures contradiction ==>
      forall sol :: Solution(sol, rules, wave.Length0, wave.Length1) && Agrees(sol, picks') ==>
        !Covers(waves[0], sol, wave.Length0, wave.Length1)
    ensures !contradiction ==> KeysAgree(entropies, Possible(wave), tileWeights, entropyOf)
    ensures !contradiction ==> NoEmpty(Possible(wave), wave.Length0, wave.Length1)
    ensures !contradiction ==> ChangedSettled(waves[0], Possible(wave), rules, wave.Length0, wave.Length1)
  {
    var h, w := wave.Length0, wave.Length1;
    ghost var pick;
    HistoryKeepsSolutions(waves, picks, rules, h, w);
    contradiction, pick := CollapseStep(wave, entropies, tileWeights, rules, entropyOf, rolls(step), waves[0], picks);
    ghost var p := Possible(wave);
    DrivenSnoc(waves, picks, p, pick, tileWeights, entropyOf, rolls, h, w);
    HistoryExtend(waves, picks, p, pick, rules, h, w);
    picks', waves' := picks + [pick], waves + [p];
  }

  /**
    CollapseWave: repeat CollapseStep until no key is positive (the loop
    body runs at least once). Tiles are only removed. When it ends Collapsed,
    every cell holds exactly one tile and every cell that lost a tile has
    consistent arcs; a Contradiction leaves a cell with no tile. The k-th
    pass uses the draw rolls(k). The ghost results record the run: the tile
    picked at each pass and the wave before each pass and at the end.
  */
  method CollapseWave(wave: array3<bool>, entropies: array2<int>, tileWeights: seq<nat>, rules: seq<Rule>,
                      entropyOf: seq<nat> -> int, rolls: nat -> nat)
    returns (outcome: Outcome, ghost picks: seq<(int, int, int)>, ghost waves: seq<set<(int, int, int)>>)
    requires wave.Length0 > 0 && wave.Length1 > 0
    requires entropies.Length0 == wave.Length0 && entropies.Length1 == wave.Length1
    requires |tileWeights| == wave.Length2 && PositiveWeights(tileWeights)
    requires EntropyLaw(entropyOf)
    requires KeysAgree(entropies, Possible(wave), tileWeights, entropyOf)
    requires NoEmpty(Possible(wave), wave.Length0, wave.Length1)
    modifies wave, entropies
    ensures Possible(wave) <= old(Possible(wave))
    ensures outcome == Contradiction ==>
      exists y, x :: InGrid(wave.Length0, wave.Length1, y, x) && !NonEmpty(Possible(wave), y, x)
    ensures outcome == Collapsed ==>
      forall y, x :: InGrid(wave.Length0, wave.Length1, y, x) ==> exists t :: SingleAt(Possible(wave), y, x, t)
    ensures outcome == Collapsed ==>
      ChangedSettled(old(Possible(wave)), Possible(wave), rules, wave.Length0, wave.Length1)
    ensures History(waves, picks, rules, wave.Length0, wave.Length1)
    ensures waves[0] == old(Possible(wave)) && waves[|picks|] == Possible(wave)
    ensures Driven(waves, picks, tileWeights, entropyOf, rolls, wave.Length0, wave.Length1)
    ensures KeepsSolutions(old(Possible(wave)), Possible(wave), rules, wave.Length0, wave.Length1, picks)
    ensures outcome == Contradiction ==>
      forall sol :: Solution(sol, rules, wave.Length0, wave.Length1) && Agrees(sol, picks) ==>
        !Covers(old(Possible(wave)), sol, wave.Length0, wave.Length1)
  {
    var h, w := wave.Length0, wave.Length1;
    ghost var p0 := Possible(wave);
    var step: nat := 0;
    var done := false;
    ghost var first := true;
    outcome := Collapsed;
    picks, waves := [], [p0];
    while !done
      invariant KeysAgree(entropies, Possible(wave), tileWeights, entropyOf)
      invariant NoEmpty(Possible(wave), h, w)
      invariant ChangedSettled(p0, Possible(wave), rules, h, w)
      invariant done ==> !AnyPositive(entropies)
      invariant !done && !first ==> AnyPositive(entropies)
      invariant History(waves, picks, rules, h, w) && waves[0] == p0 && waves[|picks|] == Possible(wave)
      invariant step == |picks| && Driven(waves, picks, tileWeights, entropyOf, rolls, h, w)
      decreases !done, Possible(wave), first
    {
      var contradiction;
      ghost var before, anyPositive := Possible(wave), AnyPositive(entropies);
      contradiction, picks, waves := CollapseRound(wave, entropies, tileWeights, rules, entropyOf, rolls, step,
                                                   picks, waves);
      if contradiction {
        outcome := Contradiction;
        break;
      }
      done := IsFullyCollapsed(entropies);
      assert Possible(wave) <= before && (anyPositive ==> Possible(wave) < before);
      first := false;
      step := step + 1;
    }
    HistoryKeepsSolutions(waves, picks, rules, h, w);
    if outcome != Contradiction {
      FullyCollapsedSingle(entropies, Possible(wave), tileWeights, entropyOf);
      outcome := Collapsed;
    }
  }
}
