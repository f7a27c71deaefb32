/**
  PropegateCollapse: after a cell's set of possible tiles shrinks, remove
  from each neighbour the tiles that no remaining tile of the cell supports,
  and recurse into every neighbour that lost a tile.

  A cell that loses its last tile is a contradiction. The source meant to
  detect it in CalcCellEntropy and throw; here the contradiction is the
  result `true`, returned at once, as the exception would unwind the
  recursion.
*/
module Propagation {
  import opened Directions
  import opened TileModel
  import opened WaveState
  import opened Arcs

  /** Some tile of `potenTiles` may have tile b as its neighbour in direction d. */
  ghost predicate Supported(potenTiles: seq<int>, rules: seq<Rule>, b: int, d: Direction) {
    exists k :: 0 <= k < |potenTiles| && Rule(potenTiles[k], b, d) in rules
  }

  /**
    The search for a needed compatibility: for each tile of the current
    cell, scan the rule list for (currentTile, adjTile, direction).
  */
  method HasSupport(potenTiles: seq<int>, rules: seq<Rule>, adjTile: int, d: Direction) returns (isValid: bool)
    ensures isValid <==> Supported(potenTiles, rules, adjTile, d)
  {
    isValid := false;
    for k := 0 to |potenTiles|
      invariant !isValid
      invariant forall j :: 0 <= j < k ==> Rule(potenTiles[j], adjTile, d) !in rules
    {
      var neededCompat := Rule(potenTiles[k], adjTile, d);
      for i := 0 to |rules|
        invariant !isValid
        invariant forall j :: 0 <= j < i ==> rules[j] != neededCompat
      {
        if rules[i] == neededCompat {
          isValid := true;
          break;
        }
      }
      if isValid {
        return;
      }
    }
  }

  /**
    One direction of PropegateCollapse: each tile possible at the neighbour
    (y, x) + d is removed exactly when no tile of `potenTiles` supports it;
    nothing else changes. The result says whether a tile was removed.
  */
  method Revise(wave: array3<bool>, potenTiles: seq<int>, rules: seq<Rule>, y: int, x: int, d: Direction)
    returns (isUpdated: bool)
    requires Step(wave.Length0, wave.Length1, y, x, d)
    modifies wave
    ensures forall y', x', t :: (y', x', t) in Possible(wave) <==>
      (y', x', t) in old(Possible(wave))
      && !(y' == NextY(y, d) && x' == NextX(x, d) && !Supported(potenTiles, rules, t, d))
    ensures isUpdated <==>
      exists t :: (NextY(y, d), NextX(x, d), t) in old(Possible(wave)) && !Supported(potenTiles, rules, t, d)
  {
    var ny, nx := y + DY(d), x + DX(d);
    var adjPotenTiles := PossibleTiles(wave, ny, nx);
    isUpdated := false;
    for k := 0 to |adjPotenTiles|
      invariant forall y', x', t :: 0 <= y' < wave.Length0 && 0 <= x' < wave.Length1 && 0 <= t < wave.Length2 ==>
        wave[y', x', t] == (old(wave[y', x', t])
          && !(y' == ny && x' == nx && t in adjPotenTiles[..k] && !Supported(potenTiles, rules, t, d)))
      invariant isUpdated <==> exists j :: 0 <= j < k && !Supported(potenTiles, rules, adjPotenTiles[j], d)
    {
      var adjTile := adjPotenTiles[k];
      assert adjPotenTiles[..k + 1] == adjPotenTiles[..k] + [adjTile];
      var isValid := HasSupport(potenTiles, rules, adjTile, d);
      if !isValid {
        isUpdated := true;
        wave[ny, nx, adjTile] := false;
      }
    }
    assert adjPotenTiles[..|adjPotenTiles|] == adjPotenTiles;
    if isUpdated {
      ghost var j :| 0 <= j < |adjPotenTiles| && !Supported(potenTiles, rules, adjPotenTiles[j], d);
      assert (ny, nx, adjPotenTiles[j]) in old(Possible(wave));
    }
  }

  /**
    After Revise with the current cell's own tiles, the arc from the current
    cell to the revised neighbour is consistent.
  */
  lemma RevisedArcOK(p0: set<(int, int, int)>, pm: set<(int, int, int)>, potenTiles: seq<int>, rules: seq<Rule>,
                     y: int, x: int, d: Direction)
    requires forall t :: t in potenTiles <==> (y, x, t) in p0
    requires SameCell(p0, pm, y, x)
    requires forall b :: (NextY(y, d), NextX(x, d), b) in pm ==> Supported(potenTiles, rules, b, d)
    ensures ArcOK(pm, rules, y, x, d)
  {
    forall b | (NextY(y, d), NextX(x, d), b) in pm
      ensures exists a :: (y, x, a) in pm && Rule(a, b, d) in rules
    {
      var k :| 0 <= k < |potenTiles| && Rule(potenTiles[k], b, d) in rules;
      assert (y, x, potenTiles[k]) in p0;
    }
  }

  /**
    Revise never removes a tile that a solution uses: the solution's tile
    at (y, x) is among the tiles possible there when the propagation from
    (y, x) began, and the rules allow it next to the solution's tile at the
    neighbour, which is therefore supported.
  */
  lemma ReviseKeepsSolutions(p0: set<(int, int, int)>, pb: set<(int, int, int)>, pm: set<(int, int, int)>,
                             potenTiles: seq<int>, rules: seq<Rule>, h: int, w: int, y: int, x: int, d: Direction)
    requires forall t :: t in potenTiles <==> (y, x, t) in p0
    requires pb <= p0 && Step(h, w, y, x, d)
    requires forall y', x', t :: (y', x', t) in pm <==>
      (y', x', t) in pb && !(y' == NextY(y, d) && x' == NextX(x, d) && !Supported(potenTiles, rules, t, d))
    ensures KeepsSolutions(pb, pm, rules, h, w, [])
  {
    forall sol | Solution(sol, rules, h, w) && Agrees(sol, []) && Covers(pb, sol, h, w)
      ensures Covers(pm, sol, h, w)
    {
      var a, b := sol(y, x), sol(NextY(y, d), NextX(x, d));
      assert (y, x, a) in p0;
      var k :| 0 <= k < |potenTiles| && potenTiles[k] == a;
      assert Rule(potenTiles[k], b, d) in rules;
      assert Supported(potenTiles, rules, b, d);
      forall y', x' | InGrid(h, w, y', x')
        ensures (y', x', sol(y', x')) in pm
      {
        var t := sol(y', x');
        assert (y', x', t) in pb;
        if y' == NextY(y, d) && x' == NextX(x, d) {
          assert t == b;
        }
      }
    }
  }

  /**
    PropegateCollapse from (y, x). Tiles are only removed. Without a
    contradiction, every arc out of (y, x) and out of every cell that lost a
    tile is consistent afterwards, every such cell still has a tile, and the
    entropy cache is up to date. A contradiction leaves a cell with no tile.
  */
  method PropegateCollapse(wave: array3<bool>, entropies: array2<int>, rules: seq<Rule>, tileWeights: seq<nat>,
                           entropyOf: seq<nat> -> int, y: int, x: int)
    returns (contradiction: bool)
    requires InGrid(wave.Length0, wave.Length1, y, x)
    requires entropies.Length0 == wave.Length0 && entropies.Length1 == wave.Length1
    requires |tileWeights| == wave.Length2 && PositiveWeights(tileWeights)
    requires KeysAgree(entropies, Possible(wave), tileWeights, entropyOf)
    modifies wave, entropies
    decreases Possible(wave), 1
    ensures Possible(wave) <= old(Possible(wave))
    ensures contradiction ==> exists y', x' :: InGrid(wave.Length0, wave.Length1, y', x') && !NonEmpty(Possible(wave), y', x')
    ensures !contradiction ==> KeysAgree(entropies, Possible(wave), tileWeights, entropyOf)
    ensures !contradiction ==> ArcsOK(Possible(wave), rules, wave.Length0, wave.Length1, y, x)
    ensures !contradiction ==> ChangedSettled(old(Possible(wave)), Possible(wave), rules, wave.Length0, wave.Length1)
    ensures KeepsSolutions(old(Possible(wave)), Possible(wave), rules, wave.Length0, wave.Length1, [])
  {
    var h, w := wave.Length0, wave.Length1;
    ghost var p0 := Possible(wave);
    var potenTiles := PossibleTiles(wave, y, x);
    var dirs := GetValidDirections(h, w, y, x);
    for k := 0 to |dirs|
      invariant Possible(wave) <= p0
      invariant KeysAgree(entropies, Possible(wave), tileWeights, entropyOf)
      invariant ChangedSettled(p0, Possible(wave), rules, h, w)
      invariant SameCell(p0, Possible(wave), y, x) ==>
        forall d :: d in dirs[..k] ==> ArcOK(Possible(wave), rules, y, x, d)
      invariant KeepsSolutions(p0, Possible(wave), rules, h, w, [])
    {
      ValidDirectionStep(h, w, y, x, k);
      assert dirs[..k + 1] == dirs[..k] + [dirs[k]];
      ghost var pb := Possible(wave);
      contradiction := PropagateDirection(wave, entropies, rules, tileWeights, entropyOf, potenTiles, y, x, p0,
                                          dirs[k], dirs[..k]);
      KeepsSolutionsTrans(p0, pb, Possible(wave), rules, h, w, [], []);
      if contradiction {
        return;
      }
    }
    contradiction := false;
    assert dirs[..|dirs|] == dirs;
    if SameCell(p0, Possible(wave), y, x) {
      forall d | Step(h, w, y, x, d)
        ensures ArcOK(Possible(wave), rules, y, x, d)
      {
        assert d in dirs;
      }
    }
  }

  /**
    After Revise of the neighbour (ny, nx) = (y, x) + d: the cells other
    than the neighbour that changed since p0 are still settled, and if (y, x)
    kept its tiles, its arcs in the directions handled so far and in d are
    consistent.
  */
  lemma AfterRevise(p0: set<(int, int, int)>, pb: set<(int, int, int)>, pm: set<(int, int, int)>,
                    potenTiles: seq<int>, rules: seq<Rule>, h: int, w: int, y: int, x: int,
                    d: Direction, done: seq<Direction>)
    requires forall t :: t in potenTiles <==> (y, x, t) in p0
    requires pm <= pb <= p0 && ChangedSettled(p0, pb, rules, h, w)
    requires SameCell(p0, pb, y, x) ==> forall e :: e in done ==> ArcOK(pb, rules, y, x, e)
    requires forall y', x', t :: (y', x', t) in pm <==>
      (y', x', t) in pb && !(y' == NextY(y, d) && x' == NextX(x, d) && !Supported(potenTiles, rules, t, d))
    ensures forall y', x' :: !(y' == NextY(y, d) && x' == NextX(x, d)) ==> SameCell(pb, pm, y', x')
    ensures forall y', x' ::
      (InGrid(h, w, y', x') && !(y' == NextY(y, d) && x' == NextX(x, d)) && !SameCell(p0, pm, y', x')) ==>
      Settled(pm, rules, h, w, y', x')
    ensures SameCell(p0, pm, y, x) ==> forall e :: e in done + [d] ==> ArcOK(pm, rules, y, x, e)
  {
    SettledOutside(p0, pb, pm, rules, h, w, NextY(y, d), NextX(x, d));
    if SameCell(p0, pm, y, x) {
      SameCellBetween(p0, pb, pm, y, x);
      RevisedArcOK(p0, pm, potenTiles, rules, y, x, d);
      forall e | e in done + [d]
        ensures ArcOK(pm, rules, y, x, e)
      {
        if e in done {
          ArcOKMono(pb, pm, rules, y, x, e);
        }
      }
    }
  }

  /**
    After propagation from the revised neighbour (qy, qx): every cell changed
    since p0 is settled, and if (y, x) kept its tiles its handled arcs are
    still consistent.
  */
  lemma AfterNeighbour(p0: set<(int, int, int)>, pm: set<(int, int, int)>, pe: set<(int, int, int)>,
                       rules: seq<Rule>, h: int, w: int, y: int, x: int, qy: int, qx: int,
                       done: seq<Direction>)
    requires pe <= pm <= p0
    requires forall y', x' :: InGrid(h, w, y', x') && !(y' == qy && x' == qx) && !SameCell(p0, pm, y', x') ==>
      Settled(pm, rules, h, w, y', x')
    requires SameCell(p0, pm, y, x) ==> forall e :: e in done ==> ArcOK(pm, rules, y, x, e)
    requires NonEmpty(pm, qy, qx)
    requires ChangedSettled(pm, pe, rules, h, w) && ArcsOK(pe, rules, h, w, qy, qx)
    ensures ChangedSettled(p0, pe, rules, h, w)
    ensures SameCell(p0, pe, y, x) ==> forall e :: e in done ==> ArcOK(pe, rules, y, x, e)
  {
    SettledAfterPropagation(p0, pm, pe, rules, h, w, qy, qx);
    if SameCell(p0, pe, y, x) {
      SameCellBetween(p0, pm, pe, y, x);
      forall e | e in done
        ensures ArcOK(pe, rules, y, x, e)
      {
        ArcOKMono(pm, pe, rules, y, x, e);
      }
    }
  }

  /**
    The entropy update for the revised neighbour (ny, nx): a contradiction
    when it has no tile left, otherwise its key is recomputed and the cache
    agrees with the wave again (only that cell changed since pb).
  */
  method RefreshEntropy(wave: array3<bool>, entropies: array2<int>, tileWeights: seq<nat>,
                        entropyOf: seq<nat> -> int, ny: int, nx: int, ghost pb: set<(int, int, int)>)
    returns (contradiction: bool)
    requires InGrid(wave.Length0, wave.Length1, ny, nx)
    requires entropies.Length0 == wave.Length0 && entropies.Length1 == wave.Length1
    requires |tileWeights| == wave.Length2 && PositiveWeights(tileWeights)
    requires KeysAgree(entropies, pb, tileWeights, entropyOf)
    requires forall y', x' :: !(y' == ny && x' == nx) ==> SameCell(pb, Possible(wave), y', x')
    modifies entropies
    ensures contradiction <==> !NonEmpty(Possible(wave), ny, nx)
    ensures !contradiction ==> KeysAgree(entropies, Possible(wave), tileWeights, entropyOf)
  {
    var entropy;
    entropy, contradiction := CalcCellEntropy(ny, nx, wave, tileWeights, entropyOf);
    if contradiction {
      return;
    }
    ghost var pm := Possible(wave);
    entropies[ny, nx] := entropy;
    forall y', x' | InGrid(entropies.Length0, entropies.Length1, y', x')
      ensures entropies[y', x'] == entropyOf(CellWeights(pm, tileWeights, y', x'))
    {
      if !(y' == ny && x' == nx) {
        SameCellWeights(pb, pm, tileWeights, y', x');
      }
    }
  }

  /**
    The body of PropegateCollapse's loop for one direction d: revise the
    neighbour in direction d and, when it lost a tile, update its entropy and
    propagate from it. `done` holds the directions already handled.
  */
  method PropagateDirection(wave: array3<bool>, entropies: array2<int>, rules: seq<Rule>, tileWeights: seq<nat>,
                            entropyOf: seq<nat> -> int, potenTiles: seq<int>, y: int, x: int,
                            ghost p0: set<(int, int, int)>, d: Direction, ghost done: seq<Direction>)
    returns (contradiction: bool)
    requires Step(wave.Length0, wave.Length1, y, x, d)
    requires entropies.Length0 == wave.Length0 && entropies.Length1 == wave.Length1
    requires |tileWeights| == wave.Length2 && PositiveWeights(tileWeights)
    requires forall t :: t in potenTiles <==> (y, x, t) in p0
    requires Possible(wave) <= p0
    requires KeysAgree(entropies, Possible(wave), tileWeights, entropyOf)
    requires ChangedSettled(p0, Possible(wave), rules, wave.Length0, wave.Length1)
    requires SameCell(p0, Possible(wave), y, x) ==> forall e :: e in done ==> ArcOK(Possible(wave), rules, y, x, e)
    modifies wave, entropies
    decreases Possible(wave), 0
    ensures Possible(wave) <= old(Possible(wave))
    ensures contradiction ==> exists y', x' :: InGrid(wave.Length0, wave.Length1, y', x') && !NonEmpty(Possible(wave), y', x')
    ensures !contradiction ==> KeysAgree(entropies, Possible(wave), tileWeights, entropyOf)
    ensures !contradiction ==> ChangedSettled(p0, Possible(wave), rules, wave.Length0, wave.Length1)
    ensures !contradiction && SameCell(p0, Possible(wave), y, x) ==>
      forall e :: e in done + [d] ==> ArcOK(Possible(wave), rules, y, x, e)
    ensures KeepsSolutions(old(Possible(wave)), Possible(wave), rules, wave.Length0, wave.Length1, [])
  {
    var h, w := wave.Length0, wave.Length1;
    var ny, nx := y + DY(d), x + DX(d);
    ghost var pb := Possible(wave);
    var isUpdated := Revise(wave, potenTiles, rules, y, x, d);
    ghost var pm := Possible(wave);
    AfterRevise(p0, pb, pm, potenTiles, rules, h, w, y, x, d, done);
    ReviseKeepsSolutions(p0, pb, pm, potenTiles, rules, h, w, y, x, d);
    if !isUpdated {
      assert pm == pb;
      return false;
    }
    contradiction := RefreshEntropy(wave, entropies, tileWeights, entropyOf, ny, nx, pb);
    if contradiction {
      return;
    }
    ghost var t :| (ny, nx, t) in pb && !Supported(potenTiles, rules, t, d);
    assert (ny, nx, t) !in pm;
    contradiction := PropegateCollapse(wave, entropies, rules, tileWeights, entropyOf, ny, nx);
    KeepsSolutionsTrans(pb, pm, Possible(wave), rules, h, w, [], []);
    if contradiction {
      return;
    }
    AfterNeighbour(p0, pm, Possible(wave), rules, h, w, y, x, ny, nx, done + [d]);
  }
}
