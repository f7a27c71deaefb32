/**
  The two scans of the entropy cache that drive the collapse loop: choosing
  the next cell (GetLowestEntropyPos) and the termination test
  (IsFullyCollapsed). Both work on any grid of ordered keys; a key above 0
  marks a cell that is not yet collapsed.
*/
module Selection {
  import opened Directions

  /** (y1, x1) comes before (y2, x2) in row-major scan order. */
  predicate Before(y1: int, x1: int, y2: int, x2: int) {
    y1 < y2 || (y1 == y2 && x1 < x2)
  }

  /** Some cell of the grid has a positive key. */
  ghost predicate AnyPositive(entropies: array2<int>)
    reads entropies
  {
    exists y, x :: InGrid(entropies.Length0, entropies.Length1, y, x) && entropies[y, x] > 0
  }

  /**
    The cell GetLowestEntropyPos settles on: (0, 0) when no key is
    positive; otherwise an in-grid cell whose key is positive and least
    among the positive keys, with every earlier cell in row-major order
    holding a larger positive key or none.
  */
  ghost predicate LowestPositive(entropies: array2<int>, ly: int, lx: int)
    reads entropies
  {
    && (!AnyPositive(entropies) ==> ly == 0 && lx == 0)
    && (AnyPositive(entropies) ==>
          && InGrid(entropies.Length0, entropies.Length1, ly, lx)
          && entropies[ly, lx] > 0
          && (forall y, x :: InGrid(entropies.Length0, entropies.Length1, y, x) && entropies[y, x] > 0 ==>
                entropies[ly, lx] <= entropies[y, x])
          && (forall y, x :: InGrid(entropies.Length0, entropies.Length1, y, x) && entropies[y, x] > 0 && Before(y, x, ly, lx)
                ==> entropies[ly, lx] < entropies[y, x]))
  }

  /**
    GetLowestEntropyPos: among the cells with a positive key, one whose key is
    least, the first such in row-major order (the comparison is a strict <,
    so a later cell with an equal key does not replace it); (0, 0) when no
    key is positive. The initial bound double.MaxValue, above every key,
    becomes the flag `found`.
  */
  method GetLowestEntropyPos(entropies: array2<int>) returns (ly: int, lx: int)
    ensures LowestPositive(entropies, ly, lx)
  {
    var h, w := entropies.Length0, entropies.Length1;
    var found := false;
    var lowest := 0;
    ly, lx := 0, 0;
    for y := 0 to h
      invariant !found ==> ly == 0 && lx == 0
      invariant !found ==> forall y', x' :: InGrid(h, w, y', x') && y' < y ==> entropies[y', x'] <= 0
      invariant found ==> InGrid(h, w, ly, lx) && ly < y && lowest == entropies[ly, lx] > 0
      invariant found ==> forall y', x' :: InGrid(h, w, y', x') && y' < y && entropies[y', x'] > 0 ==>
        lowest <= entropies[y', x']
      invariant found ==> forall y', x' :: InGrid(h, w, y', x') && Before(y', x', ly, lx) && entropies[y', x'] > 0 ==>
        lowest < entropies[y', x']
    {
      for x := 0 to w
        invariant !found ==> ly == 0 && lx == 0
        invariant !found ==> forall y', x' :: InGrid(h, w, y', x') && Before(y', x', y, x) ==> entropies[y', x'] <= 0
        invariant found ==> InGrid(h, w, ly, lx) && Before(ly, lx, y, x) && lowest == entropies[ly, lx] > 0
        invariant found ==> forall y', x' :: InGrid(h, w, y', x') && Before(y', x', y, x) && entropies[y', x'] > 0 ==>
          lowest <= entropies[y', x']
        invariant found ==> forall y', x' :: InGrid(h, w, y', x') && Before(y', x', ly, lx) && entropies[y', x'] > 0 ==>
          lowest < entropies[y', x']
      {
        if entropies[y, x] > 0 && (!found || entropies[y, x] < lowest) {
          found := true;
          lowest := entropies[y, x];
          ly, lx := y, x;
        }
      }
    }
  }

  /** IsFullyCollapsed: true iff no key is positive. */
  method IsFullyCollapsed(entropies: array2<int>) returns (b: bool)
    ensures b <==> !AnyPositive(entropies)
  {
    for i := 0 to entropies.Length0
      invariant forall y, x :: InGrid(entropies.Length0, entropies.Length1, y, x) && y < i ==> entropies[y, x] <= 0
    {
      for j := 0 to entropies.Length1
        invariant forall y, x :: InGrid(entropies.Length0, entropies.Length1, y, x) && Before(y, x, i, j) ==>
          entropies[y, x] <= 0
      {
        if entropies[i, j] > 0 {
          return false;
        }
      }
    }
    return true;
  }
}
