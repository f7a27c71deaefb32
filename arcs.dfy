/**
  Adjacency consistency of a wave, stated on its set view.

  The arc from cell (y, x) in direction d is consistent when every tile still
  possible at the neighbour has, among the tiles still possible at (y, x), a
  tile that the rules allow next to it in that direction. Propagation from a
  cell makes all arcs out of that cell consistent; since tiles are only ever
  removed, an arc stays consistent as long as its source cell keeps its tiles.
*/
module Arcs {
  import opened Directions
  import opened TileModel
  import opened WaveState

  /** Every tile possible at the neighbour in direction d has a supporting tile possible at (y, x). */
  ghost predicate ArcOK(p: set<(int, int, int)>, rules: seq<Rule>, y: int, x: int, d: Direction) {
    forall b :: (NextY(y, d), NextX(x, d), b) in p ==> exists a :: (y, x, a) in p && Rule(a, b, d) in rules
  }

  /** Every arc out of (y, x) that stays inside the grid is consistent. */
  ghost predicate ArcsOK(p: set<(int, int, int)>, rules: seq<Rule>, h: int, w: int, y: int, x: int) {
    forall d :: Step(h, w, y, x, d) ==> ArcOK(p, rules, y, x, d)
  }

  /** Cell (y, x) still has a tile and all its outgoing arcs are consistent. */
  ghost predicate Settled(p: set<(int, int, int)>, rules: seq<Rule>, h: int, w: int, y: int, x: int) {
    NonEmpty(p, y, x) && ArcsOK(p, rules, h, w, y, x)
  }

  /** Every cell that lost a tile between p0 and p is settled in p. */
  ghost predicate ChangedSettled(p0: set<(int, int, int)>, p: set<(int, int, int)>, rules: seq<Rule>, h: int, w: int) {
    forall y, x :: InGrid(h, w, y, x) && !SameCell(p0, p, y, x) ==> Settled(p, rules, h, w, y, x)
  }

  /** Removing tiles elsewhere keeps the arcs out of an unchanged cell consistent. */
  lemma ArcOKMono(p: set<(int, int, int)>, q: set<(int, int, int)>, rules: seq<Rule>, y: int, x: int, d: Direction)
    requires q <= p && SameCell(p, q, y, x) && ArcOK(p, rules, y, x, d)
    ensures ArcOK(q, rules, y, x, d)
  {
    forall b | (NextY(y, d), NextX(x, d), b) in q
      ensures exists a :: (y, x, a) in q && Rule(a, b, d) in rules
    {
      var a :| (y, x, a) in p && Rule(a, b, d) in rules;
      assert (y, x, a) in q;
    }
  }

  lemma SettledMono(p: set<(int, int, int)>, q: set<(int, int, int)>, rules: seq<Rule>, h: int, w: int, y: int, x: int)
    requires q <= p && SameCell(p, q, y, x) && Settled(p, rules, h, w, y, x)
    ensures Settled(q, rules, h, w, y, x)
  {
    var t :| (y, x, t) in p;
    assert (y, x, t) in q;
    forall d | Step(h, w, y, x, d)
      ensures ArcOK(q, rules, y, x, d)
    {
      ArcOKMono(p, q, rules, y, x, d);
    }
  }

  /** A cell that kept its tiles from p to q, with q between m and p, kept them at every step. */
  lemma SameCellBetween(p: set<(int, int, int)>, m: set<(int, int, int)>, q: set<(int, int, int)>, y: int, x: int)
    requires q <= m <= p && SameCell(p, q, y, x)
    ensures SameCell(p, m, y, x) && SameCell(m, q, y, x)
  {
  }

  /**
    The state after a step that changed only cell (qy, qx): every other cell
    that changed since p0 is still settled.
  */
  lemma SettledOutside(p0: set<(int, int, int)>, pb: set<(int, int, int)>, pm: set<(int, int, int)>,
                       rules: seq<Rule>, h: int, w: int, qy: int, qx: int)
    requires pm <= pb && ChangedSettled(p0, pb, rules, h, w)
    requires forall y, x :: !(y == qy && x == qx) ==> SameCell(pb, pm, y, x)
    ensures forall y, x :: InGrid(h, w, y, x) && !(y == qy && x == qx) && !SameCell(p0, pm, y, x) ==>
      Settled(pm, rules, h, w, y, x)
  {
    forall y, x | InGrid(h, w, y, x) && !(y == qy && x == qx) && !SameCell(p0, pm, y, x)
      ensures Settled(pm, rules, h, w, y, x)
    {
      assert SameCell(pb, pm, y, x);
      assert !SameCell(p0, pb, y, x);
      SettledMono(pb, pm, rules, h, w, y, x);
    }
  }

  /**
    Propagation from (qy, qx) completes the step: every cell changed since p0
    is settled again, (qy, qx) included.
  */
  lemma SettledAfterPropagation(p0: set<(int, int, int)>, pm: set<(int, int, int)>, pe: set<(int, int, int)>,
                                rules: seq<Rule>, h: int, w: int, qy: int, qx: int)
    requires pe <= pm
    requires forall y, x :: InGrid(h, w, y, x) && !(y == qy && x == qx) && !SameCell(p0, pm, y, x) ==>
      Settled(pm, rules, h, w, y, x)
    requires NonEmpty(pm, qy, qx)
    requires ChangedSettled(pm, pe, rules, h, w) && ArcsOK(pe, rules, h, w, qy, qx)
    ensures ChangedSettled(p0, pe, rules, h, w)
  {
    forall y, x | InGrid(h, w, y, x) && !SameCell(p0, pe, y, x)
      ensures Settled(pe, rules, h, w, y, x)
    {
      if SameCell(pm, pe, y, x) {
        if y == qy && x == qx {
          var t :| (y, x, t) in pm;
          assert (y, x, t) in pe;
        } else {
          assert !SameCell(p0, pm, y, x);
          SettledMono(pm, pe, rules, h, w, y, x);
        }
      }
    }
  }

  /**
    A solution of the h-by-w grid: one tile per cell such that the rules
    allow every pair of neighbouring tiles.
  */
  ghost predicate Solution(sol: (int, int) -> int, rules: seq<Rule>, h: int, w: int) {
    forall y, x, d :: Step(h, w, y, x, d) ==> Rule(sol(y, x), sol(NextY(y, d), NextX(x, d)), d) in rules
  }

  /** Every cell's tile under sol is still possible in p. */
  ghost predicate Covers(p: set<(int, int, int)>, sol: (int, int) -> int, h: int, w: int) {
    forall y, x :: InGrid(h, w, y, x) ==> (y, x, sol(y, x)) in p
  }

  /** sol puts tile t at (y, x) for every pick (y, x, t). */
  ghost predicate Agrees(sol: (int, int) -> int, picks: seq<(int, int, int)>) {
    forall k :: 0 <= k < |picks| ==> sol(picks[k].0, picks[k].1) == picks[k].2
  }

  /**
    Going from p0 to p loses no solution that agrees with the picks: every
    tile removed is one that no such solution uses.
  */
  ghost predicate KeepsSolutions(p0: set<(int, int, int)>, p: set<(int, int, int)>, rules: seq<Rule>,
                                 h: int, w: int, picks: seq<(int, int, int)>) {
    forall sol :: Solution(sol, rules, h, w) && Agrees(sol, picks) && Covers(p0, sol, h, w) ==> Covers(p, sol, h, w)
  }

  /** Two steps that each keep the solutions agreeing with their picks keep those agreeing with both. */
  lemma KeepsSolutionsTrans(a: set<(int, int, int)>, b: set<(int, int, int)>, c: set<(int, int, int)>,
                            rules: seq<Rule>, h: int, w: int, picks1: seq<(int, int, int)>, picks2: seq<(int, int, int)>)
    requires KeepsSolutions(a, b, rules, h, w, picks1) && KeepsSolutions(b, c, rules, h, w, picks2)
    ensures KeepsSolutions(a, c, rules, h, w, picks1 + picks2)
  {
    forall sol | Solution(sol, rules, h, w) && Agrees(sol, picks1 + picks2) && Covers(a, sol, h, w)
      ensures Covers(c, sol, h, w)
    {
      forall k | 0 <= k < |picks1|
        ensures sol(picks1[k].0, picks1[k].1) == picks1[k].2
      {
        assert (picks1 + picks2)[k] == picks1[k];
      }
      forall k | 0 <= k < |picks2|
        ensures sol(picks2[k].0, picks2[k].1) == picks2[k].2
      {
        assert (picks1 + picks2)[|picks1| + k] == picks2[k];
      }
      assert Covers(b, sol, h, w);
    }
  }

  /**
    A step that keeps the solutions and leaves some cell without a tile
    shows that no solution agreeing with the picks fitted the state before.
  */
  lemma NoSolutionLeft(p0: set<(int, int, int)>, p: set<(int, int, int)>, rules: seq<Rule>, h: int, w: int,
                       picks: seq<(int, int, int)>, y: int, x: int)
    requires KeepsSolutions(p0, p, rules, h, w, picks)
    requires InGrid(h, w, y, x) && !NonEmpty(p, y, x)
    ensures forall sol :: Solution(sol, rules, h, w) && Agrees(sol, picks) ==> !Covers(p0, sol, h, w)
  {
    forall sol | Solution(sol, rules, h, w) && Agrees(sol, picks)
      ensures !Covers(p0, sol, h, w)
    {
      var t := sol(y, x);
      assert Covers(p0, sol, h, w) ==> (y, x, t) in p;
    }
  }

  /**
    One step of a collapse loop from wave `before` to wave `after`: it picked
    a possible tile, only removed tiles, left the picked tile alone in the
    picked cell, and lost no solution that puts the picked tile there.
  */
  ghost predicate StepOK(before: set<(int, int, int)>, after: set<(int, int, int)>, pick: (int, int, int),
                         rules: seq<Rule>, h: int, w: int) {
    && pick in before
    && after <= before
    && (forall u :: u != pick.2 ==> (pick.0, pick.1, u) !in after)
    && KeepsSolutions(before, after, rules, h, w, [pick])
  }

  /** Step k of a record: the wave before it, the wave after it and its pick make a StepOK. */
  ghost predicate StepAt(waves: seq<set<(int, int, int)>>, picks: seq<(int, int, int)>, rules: seq<Rule>,
                         h: int, w: int, k: int)
    requires 0 <= k < |picks| && |waves| == |picks| + 1
  {
    StepOK(waves[k], waves[k + 1], picks[k], rules, h, w)
  }

  /**
    The record of a collapse loop: waves[k] is the wave before its k-th
    step, and every step is a StepOK picking picks[k]. HistorySteps states
    it with the steps spelled out.
  */
  ghost predicate History(waves: seq<set<(int, int, int)>>, picks: seq<(int, int, int)>, rules: seq<Rule>,
                          h: int, w: int)
  {
    && |waves| == |picks| + 1
    && forall k {:trigger StepAt(waves, picks, rules, h, w, k)} ::
         0 <= k < |picks| ==> StepAt(waves, picks, rules, h, w, k)
  }

  /** One more step of that kind extends the record. */
  lemma HistoryExtend(waves: seq<set<(int, int, int)>>, picks: seq<(int, int, int)>, p: set<(int, int, int)>,
                      pick: (int, int, int), rules: seq<Rule>, h: int, w: int)
    requires History(waves, picks, rules, h, w)
    requires StepOK(waves[|picks|], p, pick, rules, h, w)
    ensures History(waves + [p], picks + [pick], rules, h, w)
  {
    forall k | 0 <= k < |picks| + 1
      ensures StepAt(waves + [p], picks + [pick], rules, h, w, k)
    {
      if k < |picks| {
        assert StepAt(waves, picks, rules, h, w, k);
      }
    }
  }

  /** Every step of a recorded run is a StepOK. */
  lemma HistorySteps(waves: seq<set<(int, int, int)>>, picks: seq<(int, int, int)>,
                     rules: seq<Rule>, h: int, w: int)
    requires History(waves, picks, rules, h, w)
    ensures |waves| == |picks| + 1
    ensures forall k :: 0 <= k < |picks| ==> StepOK(waves[k], waves[k + 1], picks[k], rules, h, w)
  {
    forall k | 0 <= k < |picks|
      ensures StepOK(waves[k], waves[k + 1], picks[k], rules, h, w)
    {
      assert StepAt(waves, picks, rules, h, w, k);
    }
  }

  /** A record cut after its first n steps is a record. */
  lemma HistoryPrefix(waves: seq<set<(int, int, int)>>, picks: seq<(int, int, int)>,
                      rules: seq<Rule>, h: int, w: int, n: int)
    requires History(waves, picks, rules, h, w) && 0 <= n <= |picks|
    ensures History(waves[..n + 1], picks[..n], rules, h, w)
  {
    var ws, ps := waves[..n + 1], picks[..n];
    forall k | 0 <= k < n
      ensures StepAt(ws, ps, rules, h, w, k)
    {
      assert StepAt(waves, picks, rules, h, w, k);
    }
  }

  /**
    A recorded run, taken as a whole, only removes tiles and loses no
    solution that agrees with all its picks.
  */
  lemma {:induction false} HistoryKeepsSolutions(waves: seq<set<(int, int, int)>>, picks: seq<(int, int, int)>,
                                                 rules: seq<Rule>, h: int, w: int)
    requires History(waves, picks, rules, h, w)
    ensures waves[|picks|] <= waves[0]
    ensures KeepsSolutions(waves[0], waves[|picks|], rules, h, w, picks)
    decreases |picks|
  {
    if |picks| > 0 {
      var n := |picks| - 1;
      var ws, ps := waves[..n + 1], picks[..n];
      HistoryPrefix(waves, picks, rules, h, w, n);
      HistoryKeepsSolutions(ws, ps, rules, h, w);
      assert StepAt(waves, picks, rules, h, w, n);
      KeepsSolutionsTrans(waves[0], waves[n], waves[n + 1], rules, h, w, ps, [picks[n]]);
      assert ps + [picks[n]] == picks;
    }
  }

  /** The waves of a recorded run only shrink: a later wave is contained in every earlier one. */
  lemma {:induction false} HistoryShrinks(waves: seq<set<(int, int, int)>>, picks: seq<(int, int, int)>,
                                          rules: seq<Rule>, h: int, w: int, i: int, j: int)
    requires History(waves, picks, rules, h, w)
    requires 0 <= i <= j <= |picks|
    ensures waves[j] <= waves[i]
    decreases j - i
  {
    if i < j {
      HistorySteps(waves, picks, rules, h, w);
      HistoryShrinks(waves, picks, rules, h, w, i + 1, j);
      assert StepOK(waves[i], waves[i + 1], picks[i], rules, h, w);
    }
  }

  /**
    The picks of a recorded run never disagree: two steps that picked the
    same cell picked the same tile, so the picks describe one partial tiling.
  */
  lemma PicksAgree(waves: seq<set<(int, int, int)>>, picks: seq<(int, int, int)>, rules: seq<Rule>, h: int, w: int,
                   i: int, j: int)
    requires History(waves, picks, rules, h, w)
    requires 0 <= i < j < |picks| && picks[i].0 == picks[j].0 && picks[i].1 == picks[j].1
    ensures picks[i].2 == picks[j].2
  {
    HistorySteps(waves, picks, rules, h, w);
    HistoryShrinks(waves, picks, rules, h, w, i + 1, j);
    assert StepOK(waves[j], waves[j + 1], picks[j], rules, h, w);
    assert StepOK(waves[i], waves[i + 1], picks[i], rules, h, w);
    var u := picks[j].2;
    assert (picks[i].0, picks[i].1, u) == picks[j];
    assert (picks[i].0, picks[i].1, u) in waves[i + 1];
  }
}
