/**
  The tile catalogue and the adjacency rules derived from the example grid
  (GetTileFreq and GetCompatabilities).
*/
module TileModel {
  import opened Dedup
  import opened Directions
  import opened Weights

  /** Row y of a 2-D grid. */
  ghost function Row(a: array2<int>, y: nat): (s: seq<int>)
    reads a
    requires y < a.Length0
    ensures |s| == a.Length1
    ensures forall x :: 0 <= x < a.Length1 ==> s[x] == a[y, x]
  {
    seq(a.Length1, x requires 0 <= x < a.Length1 reads a => a[y, x])
  }

  /** The first `rows` rows of a grid, concatenated in row-major (scan) order. */
  ghost function RowMajor(a: array2<int>, rows: nat): (s: seq<int>)
    reads a
    requires rows <= a.Length0
  {
    if rows == 0 then [] else RowMajor(a, rows - 1) + Row(a, rows - 1)
  }

  /** A grid has rows * columns cells in scan order. */
  lemma {:induction false} RowMajorLength(a: array2<int>, rows: nat)
    requires rows <= a.Length0
    ensures |RowMajor(a, rows)| == rows * a.Length1
  {
    if rows > 0 {
      RowMajorLength(a, rows - 1);
    }
  }

  /** Every cell of the first `rows` rows occurs in the scan. */
  lemma {:induction false} RowMajorHasCell(a: array2<int>, rows: nat, y: nat, x: nat)
    requires rows <= a.Length0 && y < rows && x < a.Length1
    ensures a[y, x] in RowMajor(a, rows)
  {
    if y < rows - 1 {
      RowMajorHasCell(a, rows - 1, y, x);
    } else {
      assert Row(a, y)[x] == a[y, x];
    }
  }

  /** Every value in the scan comes from a cell of the first `rows` rows. */
  lemma {:induction false} RowMajorCellOf(a: array2<int>, rows: nat, v: int)
    requires rows <= a.Length0 && v in RowMajor(a, rows)
    ensures exists y, x :: 0 <= y < rows && 0 <= x < a.Length1 && a[y, x] == v
  {
    var last := Row(a, rows - 1);
    if v in last {
      var x :| 0 <= x < |last| && last[x] == v;
      assert a[rows - 1, x] == v;
    } else {
      RowMajorCellOf(a, rows - 1, v);
    }
  }

  /**
    The catalogue state after scanning `seen`: the distinct values in
    first-seen order, each with its number of occurrences so far.
  */
  ghost predicate Counted(tiles: seq<int>, freqs: seq<nat>, seen: seq<int>) {
    && tiles == FirstSeen(seen)
    && |freqs| == |tiles|
    && (forall i :: 0 <= i < |tiles| ==> freqs[i] == multiset(seen)[tiles[i]])
    && Sum(freqs) == |seen|
  }

  /** Scanning a value not seen before appends it to the catalogue with count 1. */
  lemma CountedNew(tiles: seq<int>, freqs: seq<nat>, seen: seq<int>, v: int)
    requires Counted(tiles, freqs, seen) && v !in tiles
    ensures Counted(tiles + [v], freqs + [1], seen + [v])
  {
    FirstSeenSnoc(seen, v);
    SumSnoc(freqs, 1);
    if v in seen {
      FirstSeenCovers(seen, v);
      assert false;
    }
    assert multiset(seen)[v] == 0;
    var t', f' := tiles + [v], freqs + [1];
    forall i | 0 <= i < |t'|
      ensures f'[i] == multiset(seen + [v])[t'[i]]
    {
      if i < |tiles| {
        assert t'[i] == tiles[i] != v;
      }
    }
  }

  /** Scanning a value already catalogued at `index` increments its count. */
  lemma CountedOld(tiles: seq<int>, freqs: seq<nat>, seen: seq<int>, index: nat)
    requires Counted(tiles, freqs, seen) && index < |tiles|
    ensures Counted(tiles, freqs[index := freqs[index] + 1], seen + [tiles[index]])
  {
    var v := tiles[index];
    FirstSeenSnoc(seen, v);
    FirstSeenDistinct(seen);
    SumIncrement(freqs, index);
    var f' := freqs[index := freqs[index] + 1];
    forall i | 0 <= i < |tiles|
      ensures f'[i] == multiset(seen + [v])[tiles[i]]
    {
      if i != index {
        assert tiles[i] != v;
      }
    }
  }

  /** The inner loop of GetTileFreq: scans row y left to right, extending the catalogue. */
  method CountRow(example: array2<int>, y: nat, tiles: seq<int>, tileFreqs: seq<nat>)
    returns (tiles': seq<int>, tileFreqs': seq<nat>)
    requires y < example.Length0
    requires Counted(tiles, tileFreqs, RowMajor(example, y))
    ensures Counted(tiles', tileFreqs', RowMajor(example, y + 1))
  {
    tiles', tileFreqs' := tiles, tileFreqs;
    ghost var done := RowMajor(example, y);
    ghost var row := Row(example, y);
    ghost var seen := done;
    var x := 0;
    while x < example.Length1
      invariant 0 <= x <= example.Length1
      invariant seen == done + row[..x]
      invariant Counted(tiles', tileFreqs', seen)
    {
      var currentTile := example[y, x];
      assert row[..x + 1] == row[..x] + [currentTile];
      var index := IndexOf(tiles', currentTile);
      if index == -1 {
        CountedNew(tiles', tileFreqs', seen, currentTile);
        tiles' := tiles' + [currentTile];
        tileFreqs' := tileFreqs' + [1];
      } else {
        CountedOld(tiles', tileFreqs', seen, index);
        tileFreqs' := tileFreqs'[index := tileFreqs'[index] + 1];
      }
      seen := seen + [currentTile];
      x := x + 1;
    }
    assert row[..x] == row;
  }

  /**
    GetTileFreq: the distinct example values in first-seen scan order, each
    with the number of example cells that hold it. Every example value is in
    the catalogue, every frequency is at least 1, and the frequencies add up
    to the number of cells.
  */
  method GetTileFreq(example: array2<int>) returns (tiles: seq<int>, tileFreqs: seq<nat>)
    ensures tiles == FirstSeen(RowMajor(example, example.Length0))
    ensures Distinct(tiles)
    ensures forall y, x :: InGrid(example.Length0, example.Length1, y, x) ==> example[y, x] in tiles
    ensures |tileFreqs| == |tiles|
    ensures forall i :: 0 <= i < |tiles| ==>
      tileFreqs[i] == multiset(RowMajor(example, example.Length0))[tiles[i]] && tileFreqs[i] >= 1
    ensures Sum(tileFreqs) == example.Length0 * example.Length1
  {
    tiles := [];
    tileFreqs := [];
    var y := 0;
    while y < example.Length0
      invariant 0 <= y <= example.Length0
      invariant Counted(tiles, tileFreqs, RowMajor(example, y))
    {
      tiles, tileFreqs := CountRow(example, y, tiles, tileFreqs);
      y := y + 1;
    }
    CatalogueComplete(example, tiles, tileFreqs);
    FirstSeenDistinct(RowMajor(example, example.Length0));
  }

  /** What the finished scan gives: every cell's value is catalogued, counts are positive and total the cells. */
  lemma CatalogueComplete(example: array2<int>, tiles: seq<int>, freqs: seq<nat>)
    requires Counted(tiles, freqs, RowMajor(example, example.Length0))
    ensures forall y, x :: InGrid(example.Length0, example.Length1, y, x) ==> example[y, x] in tiles
    ensures forall i :: 0 <= i < |tiles| ==> freqs[i] >= 1
    ensures Sum(freqs) == example.Length0 * example.Length1
  {
    var all := RowMajor(example, example.Length0);
    RowMajorLength(example, example.Length0);
    forall y, x | InGrid(example.Length0, example.Length1, y, x)
      ensures example[y, x] in tiles
    {
      RowMajorHasCell(example, example.Length0, y, x);
      FirstSeenCovers(all, example[y, x]);
    }
    forall i | 0 <= i < |tiles|
      ensures freqs[i] >= 1
    {
      FirstSeenSubset(all, tiles[i]);
      assert tiles[i] in multiset(all);
    }
  }

  /**
    An adjacency rule (tileIndexA, tileIndexB, direction): tile B may occupy
    the cell one step from tile A in that direction. Indices are positions in
    the tile catalogue, as returned by List.IndexOf (-1 for a missing value).
  */
  datatype Rule = Rule(a: int, b: int, dir: Direction)

  /** The rule recorded for the example cell (y, x) and its neighbour in direction d. */
  ghost function RuleAt(example: array2<int>, tiles: seq<int>, y: int, x: int, d: Direction): Rule
    reads example
    requires Step(example.Length0, example.Length1, y, x, d)
  {
    Rule(IndexOf(tiles, example[y, x]), IndexOf(tiles, example[y + DY(d), x + DX(d)]), d)
  }

  /** The rules recorded at cell (y, x), one per valid direction, in GetValidDirections order. */
  ghost function CellRules(example: array2<int>, tiles: seq<int>, y: nat, x: nat): (s: seq<Rule>)
    reads example
    requires InGrid(example.Length0, example.Length1, y, x)
  {
    var dirs := GetValidDirections(example.Length0, example.Length1, y, x);
    seq(|dirs|, k requires 0 <= k < |dirs| reads example => RuleAt(example, tiles, y, x, dirs[k]))
  }

  /** The rules recorded at the first `cols` cells of row y. */
  ghost function RowRules(example: array2<int>, tiles: seq<int>, y: nat, cols: nat): seq<Rule>
    reads example
    requires y < example.Length0 && cols <= example.Length1
  {
    if cols == 0 then [] else RowRules(example, tiles, y, cols - 1) + CellRules(example, tiles, y, cols - 1)
  }

  /** The rules recorded at every cell of the first `rows` rows, in scan order, duplicates included. */
  ghost function ScanRules(example: array2<int>, tiles: seq<int>, rows: nat): seq<Rule>
    reads example
    requires rows <= example.Length0
  {
    if rows == 0 then [] else ScanRules(example, tiles, rows - 1) + RowRules(example, tiles, rows - 1, example.Length1)
  }

  /** Some in-bounds pair of adjacent example cells records exactly this rule. */
  ghost predicate Observed(example: array2<int>, tiles: seq<int>, r: Rule)
    reads example
  {
    exists y, x :: Step(example.Length0, example.Length1, y, x, r.dir) && r == RuleAt(example, tiles, y, x, r.dir)
  }

  lemma CellRulesMembers(example: array2<int>, tiles: seq<int>, y: nat, x: nat, r: Rule)
    requires InGrid(example.Length0, example.Length1, y, x)
    ensures r in CellRules(example, tiles, y, x) <==>
      Step(example.Length0, example.Length1, y, x, r.dir) && r == RuleAt(example, tiles, y, x, r.dir)
  {
    var cell := CellRules(example, tiles, y, x);
    var dirs := GetValidDirections(example.Length0, example.Length1, y, x);
    if r in cell {
      var k :| 0 <= k < |cell| && cell[k] == r;
      assert r.dir == dirs[k];
    }
    if Step(example.Length0, example.Length1, y, x, r.dir) && r == RuleAt(example, tiles, y, x, r.dir) {
      var k :| 0 <= k < |dirs| && dirs[k] == r.dir;
      assert cell[k] == r;
    }
  }

  lemma {:induction false} RowRulesMembers(example: array2<int>, tiles: seq<int>, y: nat, cols: nat, r: Rule)
    requires y < example.Length0 && cols <= example.Length1
    ensures r in RowRules(example, tiles, y, cols) <==>
      exists x :: 0 <= x < cols && Step(example.Length0, example.Length1, y, x, r.dir) && r == RuleAt(example, tiles, y, x, r.dir)
  {
    if cols > 0 {
      RowRulesMembers(example, tiles, y, cols - 1, r);
      CellRulesMembers(example, tiles, y, cols - 1, r);
    }
  }

  lemma {:induction false} ScanRulesMembers(example: array2<int>, tiles: seq<int>, rows: nat, r: Rule)
    requires rows <= example.Length0
    ensures r in ScanRules(example, tiles, rows) <==>
      exists y, x :: 0 <= y < rows && Step(example.Length0, example.Length1, y, x, r.dir) && r == RuleAt(example, tiles, y, x, r.dir)
  {
    if rows > 0 {
      ScanRulesMembers(example, tiles, rows - 1, r);
      RowRulesMembers(example, tiles, rows - 1, example.Length1, r);
    }
  }

  /** Extending a scanned prefix by one element. */
  lemma PrefixSnoc<T>(done: seq<T>, s: seq<T>, k: nat)
    requires k < |s|
    ensures done + s[..k + 1] == (done + s[..k]) + [s[k]]
  {
    assert s[..k + 1] == s[..k] + [s[k]];
  }

  /** Scanning one more cell of row y appends that cell's rules. */
  lemma RowRulesStep(example: array2<int>, tiles: seq<int>, y: nat, x: nat, done: seq<Rule>)
    requires InGrid(example.Length0, example.Length1, y, x)
    ensures done + RowRules(example, tiles, y, x) + CellRules(example, tiles, y, x)
         == done + RowRules(example, tiles, y, x + 1)
  {
  }

  /** The direction loop of GetCompatabilities: records the rules of cell (y, x) not yet in the list. */
  method AddCellRules(example: array2<int>, tiles: seq<int>, y: nat, x: nat, ghost before: seq<Rule>,
                      compatabilities: seq<Rule>)
    returns (compatabilities': seq<Rule>)
    requires InGrid(example.Length0, example.Length1, y, x)
    requires compatabilities == FirstSeen(before)
    ensures compatabilities' == FirstSeen(before + CellRules(example, tiles, y, x))
  {
    compatabilities' := compatabilities;
    var dirs := GetValidDirections(example.Length0, example.Length1, y, x);
    ghost var cell := CellRules(example, tiles, y, x);
    ghost var seen := before;
    var k := 0;
    while k < |dirs|
      invariant 0 <= k <= |dirs|
      invariant seen == before + cell[..k]
      invariant compatabilities' == FirstSeen(seen)
    {
      var direc := dirs[k];
      ValidDirectionStep(example.Length0, example.Length1, y, x, k);
      var compat := Rule(IndexOf(tiles, example[y, x]), IndexOf(tiles, example[y + DY(direc), x + DX(direc)]), direc);
      assert cell[k] == compat;
      PrefixSnoc(before, cell, k);
      FirstSeenSnoc(seen, compat);
      if compat !in compatabilities' {
        compatabilities' := compatabilities' + [compat];
      }
      seen := seen + [compat];
      k := k + 1;
    }
    assert cell[..k] == cell;
  }

  /**
    GetCompatabilities: the rules of every in-bounds adjacent pair of example
    cells, each recorded once, in scan order. A rule is in the list exactly
    when some adjacent pair of the example gives rise to it, and when every
    example value is in the catalogue every rule names two catalogue indices.
  */
  method GetCompatabilities(example: array2<int>, tiles: seq<int>) returns (compatabilities: seq<Rule>)
    ensures compatabilities == FirstSeen(ScanRules(example, tiles, example.Length0))
    ensures Distinct(compatabilities)
    ensures forall r :: r in compatabilities <==> Observed(example, tiles, r)
    ensures (forall y, x :: InGrid(example.Length0, example.Length1, y, x) ==> example[y, x] in tiles) ==>
      forall r :: r in compatabilities ==> 0 <= r.a < |tiles| && 0 <= r.b < |tiles|
  {
    var h, w := example.Length0, example.Length1;
    compatabilities := [];
    var y := 0;
    while y < h
      invariant 0 <= y <= h
      invariant compatabilities == FirstSeen(ScanRules(example, tiles, y))
    {
      ghost var done := ScanRules(example, tiles, y);
      var x := 0;
      assert done + RowRules(example, tiles, y, 0) == done;
      while x < w
        invariant 0 <= x <= w
        invariant compatabilities == FirstSeen(done + RowRules(example, tiles, y, x))
      {
        compatabilities := AddCellRules(example, tiles, y, x, done + RowRules(example, tiles, y, x), compatabilities);
        RowRulesStep(example, tiles, y, x, done);
        x := x + 1;
      }
      y := y + 1;
    }
    RulesComplete(example, tiles, compatabilities);
    FirstSeenDistinct(ScanRules(example, tiles, h));
  }

  /** The deduplicated scan holds exactly the observed rules, and they name catalogue indices. */
  lemma RulesComplete(example: array2<int>, tiles: seq<int>, rules: seq<Rule>)
    requires rules == FirstSeen(ScanRules(example, tiles, example.Length0))
    ensures forall r :: r in rules <==> Observed(example, tiles, r)
    ensures (forall y, x :: InGrid(example.Length0, example.Length1, y, x) ==> example[y, x] in tiles) ==>
      forall r :: r in rules ==> 0 <= r.a < |tiles| && 0 <= r.b < |tiles|
  {
    var all := ScanRules(example, tiles, example.Length0);
    forall r
      ensures r in rules <==> Observed(example, tiles, r)
    {
      ScanRulesMembers(example, tiles, example.Length0, r);
      if r in rules {
        FirstSeenSubset(all, r);
      }
      if r in all {
        FirstSeenCovers(all, r);
      }
    }
  }

  /** The adjacent pair that records (a, b, d) also records (b, a, opposite of d) from its other end. */
  lemma ObservedInverse(example: array2<int>, tiles: seq<int>, a: int, b: int, d: Direction)
    requires Observed(example, tiles, Rule(a, b, d))
    ensures Observed(example, tiles, Rule(b, a, Opposite(d)))
  {
    var h, w := example.Length0, example.Length1;
    var y, x :| Step(h, w, y, x, d) && Rule(a, b, d) == RuleAt(example, tiles, y, x, d);
    var y', x' := y + DY(d), x + DX(d);
    var o := Opposite(d);
    assert y' + DY(o) == y && x' + DX(o) == x;
    assert Step(h, w, y', x', o);
    assert RuleAt(example, tiles, y', x', o) == Rule(b, a, o);
  }

  /**
    Rules come in inverse pairs: (a, b, up) is observed iff (b, a, down) is, and
    (a, b, left) iff (b, a, right), because every adjacent pair is scanned
    from both of its cells.
  */
  lemma ObservedSymmetric(example: array2<int>, tiles: seq<int>, a: int, b: int, d: Direction)
    ensures Observed(example, tiles, Rule(a, b, d)) <==> Observed(example, tiles, Rule(b, a, Opposite(d)))
  {
    if Observed(example, tiles, Rule(a, b, d)) {
      ObservedInverse(example, tiles, a, b, d);
    }
    if Observed(example, tiles, Rule(b, a, Opposite(d))) {
      ObservedInverse(example, tiles, b, a, Opposite(d));
      assert Opposite(Opposite(d)) == d;
    }
  }
}
