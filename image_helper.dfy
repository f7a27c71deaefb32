/**
  The tile codec between an image and a grid of tile ids.

  An image is a 2-D array of ARGB values, image[y, x] being the pixel that
  Bitmap.GetPixel(x, y) returns. GetTileIDs cuts the image into blocks of
  tileHeight by tileWidth pixels, flattens each block row by row, and gives
  equal blocks the same id, ids being handed out in order of first
  appearance; GenerateOutputImage writes the block of each id back.
*/
module ImageHelper {
  import opened Dedup
  import opened Directions

  /** A positive multiple of d is at least d. */
  lemma {:induction false} MulPos(k: int, d: int)
    requires k >= 1 && d > 0
    ensures k * d >= d
  {
    if k > 1 {
      MulPos(k - 1, d);
      assert k * d == (k - 1) * d + d;
    }
  }

  /** The only multiple of d strictly between -d and d is 0. */
  lemma MulZero(k: int, d: int)
    requires d > 0 && -d < k * d < d
    ensures k == 0
  {
    if k >= 1 {
      MulPos(k, d);
    } else if k <= -1 {
      MulPos(-k, d);
    }
  }

  /** (a / d, a % d) for a = q * d + r with 0 <= r < d: the quotient and remainder are q and r. */
  lemma DivMod(q: int, r: int, d: int)
    requires d > 0 && 0 <= r < d
    ensures (q * d + r) / d == q && (q * d + r) % d == r
  {
    var a := q * d + r;
    var q', r' := a / d, a % d;
    assert a == q' * d + r';
    assert (q - q') * d == r' - r;
    MulZero(q - q', d);
  }

  /** A coordinate lies in band q of width d exactly when it divides to q. */
  lemma InBand(p: int, q: int, d: int)
    requires d > 0
    ensures q * d <= p < q * d + d <==> p / d == q
  {
    if q * d <= p < q * d + d {
      DivMod(q, p - q * d, d);
    }
  }

  /** Whole blocks cover no more than the length, and all of it when the block size divides it. */
  lemma WholeBlocks(n: int, d: int)
    requires n >= 0 && d > 0
    ensures n / d * d <= n
    ensures n % d == 0 ==> n / d * d == n
  {
    assert n == n / d * d + n % d;
  }

  /** Band q of width d ends no later than band b when q < b. */
  lemma BandBefore(q: int, b: int, d: int)
    requires d > 0 && q < b
    ensures q * d + d <= b * d
  {
    MulPos(b - q, d);
    assert b * d - q * d == (b - q) * d;
  }

  /** An offset (yoff, xoff) inside a block flattens to an index inside the block. */
  lemma FlatIndexInRange(yoff: int, xoff: int, tileHeight: int, tileWidth: int)
    requires 0 <= yoff < tileHeight && 0 <= xoff < tileWidth
    ensures 0 <= yoff * tileWidth + xoff < tileHeight * tileWidth
  {
    if yoff > 0 {
      MulPos(yoff, tileWidth);
    }
    BandBefore(yoff, tileHeight, tileWidth);
  }

  /** A flattened index splits back into the row and column offsets it came from. */
  lemma FlatIndexSplit(k: int, tileHeight: int, tileWidth: int)
    requires tileWidth > 0 && 0 <= k < tileHeight * tileWidth
    ensures 0 <= k / tileWidth < tileHeight && 0 <= k % tileWidth < tileWidth
    ensures k == k / tileWidth * tileWidth + k % tileWidth
  {
    var q := k / tileWidth;
    assert k == q * tileWidth + k % tileWidth;
    if q < 0 {
      MulPos(-q, tileWidth);
    }
    if q >= tileHeight {
      BandBefore(tileHeight - 1, q, tileWidth);
    }
  }

  /** Block (blockY, blockX) of the image lies inside it. */
  predicate BlockInside(image: array2<int>, tileHeight: int, tileWidth: int, blockY: int, blockX: int) {
    && tileHeight > 0 && tileWidth > 0 && 0 <= blockY && 0 <= blockX
    && blockY * tileHeight + tileHeight <= image.Length0 && blockX * tileWidth + tileWidth <= image.Length1
  }

  /** Row yoff of block (blockY, blockX): the pixels at offsets (yoff, 0) .. (yoff, tileWidth - 1) from its corner. */
  ghost function BlockLine(image: array2<int>, tileHeight: int, tileWidth: int, blockY: int, blockX: int, yoff: int): seq<int>
    reads image
    requires BlockInside(image, tileHeight, tileWidth, blockY, blockX) && 0 <= yoff < tileHeight
  {
    seq(tileWidth, xoff requires 0 <= xoff < tileWidth reads image =>
      image[blockY * tileHeight + yoff, blockX * tileWidth + xoff])
  }

  /** The first n rows of block (blockY, blockX), concatenated. */
  ghost function BlockLines(image: array2<int>, tileHeight: int, tileWidth: int, blockY: int, blockX: int, n: int): seq<int>
    reads image
    requires BlockInside(image, tileHeight, tileWidth, blockY, blockX) && 0 <= n <= tileHeight
  {
    if n == 0 then []
    else
      BlockLines(image, tileHeight, tileWidth, blockY, blockX, n - 1)
      + BlockLine(image, tileHeight, tileWidth, blockY, blockX, n - 1)
  }

  /** Block (blockY, blockX) flattened row by row, as GetTileIDs stores it. */
  ghost function Block(image: array2<int>, tileHeight: int, tileWidth: int, blockY: int, blockX: int): seq<int>
    reads image
    requires BlockInside(image, tileHeight, tileWidth, blockY, blockX)
  {
    BlockLines(image, tileHeight, tileWidth, blockY, blockX, tileHeight)
  }

  /** n rows of a block hold n * tileWidth pixels. */
  lemma {:induction false} BlockLinesLength(image: array2<int>, tileHeight: int, tileWidth: int, blockY: int, blockX: int, n: int)
    requires BlockInside(image, tileHeight, tileWidth, blockY, blockX) && 0 <= n <= tileHeight
    ensures |BlockLines(image, tileHeight, tileWidth, blockY, blockX, n)| == n * tileWidth
  {
    if n > 0 {
      BlockLinesLength(image, tileHeight, tileWidth, blockY, blockX, n - 1);
      assert (n - 1) * tileWidth + tileWidth == n * tileWidth;
    }
  }

  /** Entry yoff * tileWidth + xoff of the first n rows is the pixel at offset (yoff, xoff). */
  lemma {:induction false} BlockLinesAt(image: array2<int>, tileHeight: int, tileWidth: int, blockY: int, blockX: int,
                                        n: int, yoff: int, xoff: int)
    requires BlockInside(image, tileHeight, tileWidth, blockY, blockX) && 0 <= n <= tileHeight
    requires 0 <= yoff < n && 0 <= xoff < tileWidth
    ensures 0 <= yoff * tileWidth + xoff < |BlockLines(image, tileHeight, tileWidth, blockY, blockX, n)|
    ensures BlockLines(image, tileHeight, tileWidth, blockY, blockX, n)[yoff * tileWidth + xoff]
      == image[blockY * tileHeight + yoff, blockX * tileWidth + xoff]
  {
    BlockLinesLength(image, tileHeight, tileWidth, blockY, blockX, n - 1);
    FlatIndexInRange(yoff, xoff, n, tileWidth);
    if yoff < n - 1 {
      BlockLinesAt(image, tileHeight, tileWidth, blockY, blockX, n - 1, yoff, xoff);
    }
  }

  /** Entry yoff * tileWidth + xoff of a flattened block is the pixel at offset (yoff, xoff). */
  lemma BlockAt(image: array2<int>, tileHeight: int, tileWidth: int, blockY: int, blockX: int, yoff: int, xoff: int)
    requires BlockInside(image, tileHeight, tileWidth, blockY, blockX)
    requires 0 <= yoff < tileHeight && 0 <= xoff < tileWidth
    ensures |Block(image, tileHeight, tileWidth, blockY, blockX)| == tileHeight * tileWidth
    ensures 0 <= yoff * tileWidth + xoff < tileHeight * tileWidth
    ensures Block(image, tileHeight, tileWidth, blockY, blockX)[yoff * tileWidth + xoff]
      == image[blockY * tileHeight + yoff, blockX * tileWidth + xoff]
  {
    BlockLinesLength(image, tileHeight, tileWidth, blockY, blockX, tileHeight);
    BlockLinesAt(image, tileHeight, tileWidth, blockY, blockX, tileHeight, yoff, xoff);
  }

  /** Every cell of the id grid, whose size is the image size divided by the block size, is a block inside the image. */
  lemma GridFits(image: array2<int>, tileHeight: int, tileWidth: int, blockY: int, blockX: int)
    requires tileHeight > 0 && tileWidth > 0
    requires 0 <= blockY < image.Length0 / tileHeight && 0 <= blockX < image.Length1 / tileWidth
    ensures BlockInside(image, tileHeight, tileWidth, blockY, blockX)
  {
    var qh, qw := image.Length0 / tileHeight, image.Length1 / tileWidth;
    assert qh * tileHeight <= image.Length0 by {
      assert image.Length0 == qh * tileHeight + image.Length0 % tileHeight;
    }
    assert qw * tileWidth <= image.Length1 by {
      assert image.Length1 == qw * tileWidth + image.Length1 % tileWidth;
    }
    BandBefore(blockY, qh, tileHeight);
    BandBefore(blockX, qw, tileWidth);
  }

  /** The blocks of row `blockY` of the id grid, left to right. */
  ghost function BlockRow(image: array2<int>, tileHeight: int, tileWidth: int, blockY: int): (s: seq<seq<int>>)
    reads image
    requires tileHeight > 0 && tileWidth > 0 && 0 <= blockY < image.Length0 / tileHeight
    ensures |s| == image.Length1 / tileWidth
  {
    seq(image.Length1 / tileWidth, blockX requires 0 <= blockX < image.Length1 / tileWidth reads image =>
      GridFits(image, tileHeight, tileWidth, blockY, blockX);
      Block(image, tileHeight, tileWidth, blockY, blockX))
  }

  /** The blocks of the first `rows` rows of the id grid, in row-major order. */
  ghost function BlockScan(image: array2<int>, tileHeight: int, tileWidth: int, rows: int): seq<seq<int>>
    reads image
    requires tileHeight > 0 && tileWidth > 0 && 0 <= rows <= image.Length0 / tileHeight
  {
    if rows == 0 then [] else BlockScan(image, tileHeight, tileWidth, rows - 1) + BlockRow(image, tileHeight, tileWidth, rows - 1)
  }

  /**
    The innermost loop of GetTileIDs: row yoff of block (blockY, blockX)
    goes to newTileVal[counter] .. newTileVal[counter + tileWidth - 1].
  */
  method CopyBlockLine(image: array2<int>, tileHeight: int, tileWidth: int, blockY: int, blockX: int, yoff: int,
                       newTileVal: array<int>, counter: int)
    requires BlockInside(image, tileHeight, tileWidth, blockY, blockX) && 0 <= yoff < tileHeight
    requires 0 <= counter && counter + tileWidth <= newTileVal.Length
    modifies newTileVal
    ensures newTileVal[..counter + tileWidth]
      == old(newTileVal[..counter]) + BlockLine(image, tileHeight, tileWidth, blockY, blockX, yoff)
  {
    var imageX := blockX * tileWidth;
    var imageY := blockY * tileHeight;
    ghost var prefix := newTileVal[..counter];
    ghost var line := BlockLine(image, tileHeight, tileWidth, blockY, blockX, yoff);
    var i := counter;
    for xoff := 0 to tileWidth
      invariant i == counter + xoff
      invariant newTileVal[..i] == prefix + line[..xoff]
    {
      ghost var written := newTileVal[..i];
      newTileVal[i] := image[imageY + yoff, imageX + xoff];
      assert newTileVal[..i + 1] == written + [line[xoff]];
      assert line[..xoff + 1] == line[..xoff] + [line[xoff]];
      assert (prefix + line[..xoff]) + [line[xoff]] == prefix + line[..xoff + 1];
      i := i + 1;
    }
    assert line[..tileWidth] == line;
  }

  /**
    The loops of GetTileIDs over one block: newTileVal[counter++] = the
    pixel at (imageY + yoff, imageX + xoff), giving the flattened block.
  */
  method FlattenBlock(image: array2<int>, tileHeight: int, tileWidth: int, blockY: int, blockX: int)
    returns (newTileVal: array<int>)
    requires BlockInside(image, tileHeight, tileWidth, blockY, blockX)
    ensures fresh(newTileVal)
    ensures newTileVal[..] == Block(image, tileHeight, tileWidth, blockY, blockX)
  {
    newTileVal := new int[tileWidth * tileHeight];
    var counter := 0;
    for yoff := 0 to tileHeight
      invariant counter == yoff * tileWidth && counter <= newTileVal.Length
      invariant newTileVal[..counter] == BlockLines(image, tileHeight, tileWidth, blockY, blockX, yoff)
    {
      BandBefore(yoff, tileHeight, tileWidth);
      CopyBlockLine(image, tileHeight, tileWidth, blockY, blockX, yoff, newTileVal, counter);
      counter := counter + tileWidth;
      assert counter == (yoff + 1) * tileWidth;
    }
    assert newTileVal[..] == newTileVal[..counter];
  }

  /**
    The search of GetTileIDs for an equal block already seen: the first
    index holding it, or unique when there is none.
  */
  method FindTile(tileValues: seq<seq<int>>, newTileVal: seq<int>) returns (unique: bool, tileId: int)
    ensures unique <==> newTileVal !in tileValues
    ensures unique ==> tileId == -1
    ensures !unique ==> tileId == IndexOf(tileValues, newTileVal)
  {
    unique := true;
    tileId := -1;
    for i := 0 to |tileValues|
      invariant unique && tileId == -1
      invariant newTileVal !in tileValues[..i]
    {
      if tileValues[i] == newTileVal {
        unique := false;
        tileId := i;
        break;
      }
    }
    if !unique {
      assert tileValues[..tileId + 1] == tileValues[..tileId] + [newTileVal];
    }
  }

  /** The state of GetTileIDs after the blocks `seen`: the palette, the next id, and the ids written so far. */
  ghost predicate Palette(tileValues: seq<seq<int>>, nextFreeID: int, seen: seq<seq<int>>) {
    tileValues == FirstSeen(seen) && nextFreeID == |tileValues|
  }

  /**
    One block of GetTileIDs: the block gets the id of its first occurrence in
    the palette, or, when it was not seen before, the next free id, and is
    appended to the palette.
  */
  method IdentifyBlock(image: array2<int>, tileHeight: int, tileWidth: int, blockY: int, blockX: int,
                       tileIds: array2<int>, tileValues: seq<seq<int>>, nextFreeID: int, ghost seen: seq<seq<int>>)
    returns (tileValues': seq<seq<int>>, nextFreeID': int)
    requires BlockInside(image, tileHeight, tileWidth, blockY, blockX)
    requires InGrid(tileIds.Length0, tileIds.Length1, blockY, blockX) && tileIds != image
    requires Palette(tileValues, nextFreeID, seen)
    modifies tileIds
    ensures Palette(tileValues', nextFreeID', seen + [Block(image, tileHeight, tileWidth, blockY, blockX)])
    ensures tileValues <= tileValues'
    ensures 0 <= tileIds[blockY, blockX] < |tileValues'|
    ensures tileValues'[tileIds[blockY, blockX]] == Block(image, tileHeight, tileWidth, blockY, blockX)
    ensures forall y, x :: InGrid(tileIds.Length0, tileIds.Length1, y, x) && (y, x) != (blockY, blockX) ==>
      tileIds[y, x] == old(tileIds[y, x])
  {
    var newTileVal := FlattenBlock(image, tileHeight, tileWidth, blockY, blockX);
    var block := newTileVal[..];
    var unique, tileId := FindTile(tileValues, block);
    FirstSeenSnoc(seen, block);
    if unique {
      tileValues' := tileValues + [block];
      tileIds[blockY, blockX] := nextFreeID;
      nextFreeID' := nextFreeID + 1;
    } else {
      tileValues', nextFreeID' := tileValues, nextFreeID;
      tileIds[blockY, blockX] := tileId;
    }
  }

  /** One row of GetTileIDs: the blocks of row `blockY`, left to right. */
  method IdentifyRow(image: array2<int>, tileHeight: int, tileWidth: int, blockY: int, tileIds: array2<int>,
                     tileValues: seq<seq<int>>, nextFreeID: int)
    returns (tileValues': seq<seq<int>>, nextFreeID': int)
    requires tileHeight > 0 && tileWidth > 0
    requires tileIds.Length0 == image.Length0 / tileHeight && tileIds.Length1 == image.Length1 / tileWidth
    requires 0 <= blockY < tileIds.Length0 && tileIds != image
    requires Palette(tileValues, nextFreeID, BlockScan(image, tileHeight, tileWidth, blockY))
    modifies tileIds
    ensures Palette(tileValues', nextFreeID', BlockScan(image, tileHeight, tileWidth, blockY + 1))
    ensures tileValues <= tileValues'
    ensures forall y, x :: InGrid(tileIds.Length0, tileIds.Length1, y, x) && y != blockY ==>
      tileIds[y, x] == old(tileIds[y, x])
    ensures forall x :: 0 <= x < tileIds.Length1 ==>
      && BlockInside(image, tileHeight, tileWidth, blockY, x)
      && 0 <= tileIds[blockY, x] < |tileValues'|
      && tileValues'[tileIds[blockY, x]] == Block(image, tileHeight, tileWidth, blockY, x)
  {
    ghost var done := BlockScan(image, tileHeight, tileWidth, blockY);
    ghost var row := BlockRow(image, tileHeight, tileWidth, blockY);
    ghost var seen := done;
    tileValues', nextFreeID' := tileValues, nextFreeID;
    assert done + row[..0] == done;
    for x := 0 to tileIds.Length1
      invariant seen == done + row[..x]
      invariant Palette(tileValues', nextFreeID', seen)
      invariant tileValues <= tileValues'
      invariant forall y, x' :: InGrid(tileIds.Length0, tileIds.Length1, y, x') && y != blockY ==>
        tileIds[y, x'] == old(tileIds[y, x'])
      invariant forall x' :: 0 <= x' < x ==>
        && BlockInside(image, tileHeight, tileWidth, blockY, x')
        && 0 <= tileIds[blockY, x'] < |tileValues'|
        && tileValues'[tileIds[blockY, x']] == Block(image, tileHeight, tileWidth, blockY, x')
    {
      GridFits(image, tileHeight, tileWidth, blockY, x);
      ghost var block := row[x];
      assert block == Block(image, tileHeight, tileWidth, blockY, x);
      ghost var before := tileValues';
      tileValues', nextFreeID' := IdentifyBlock(image, tileHeight, tileWidth, blockY, x, tileIds, tileValues', nextFreeID',
                                                seen);
      seen := seen + [block];
      assert row[..x + 1] == row[..x] + [block];
      assert done + row[..x + 1] == (done + row[..x]) + [block];
      forall x' | 0 <= x' < x
        ensures && BlockInside(image, tileHeight, tileWidth, blockY, x')
                && 0 <= tileIds[blockY, x'] < |tileValues'|
                && tileValues'[tileIds[blockY, x']] == Block(image, tileHeight, tileWidth, blockY, x')
      {
        assert tileValues'[tileIds[blockY, x']] == before[tileIds[blockY, x']];
      }
    }
    assert row[..tileIds.Length1] == row;
  }

  /**
    GetTileIDs: an (image.Height / tileHeight) by (image.Width / tileWidth)
    id grid (pixels beyond the last whole block are ignored) and the palette
    of distinct flattened blocks in order of first appearance; each id
    indexes its block's entry in the palette.
  */
  method GetTileIDs(image: array2<int>, tileHeight: int, tileWidth: int)
    returns (tileIds: array2<int>, tileValues: seq<seq<int>>)
    requires tileHeight > 0 && tileWidth > 0
    ensures fresh(tileIds)
    ensures tileIds.Length0 == image.Length0 / tileHeight && tileIds.Length1 == image.Length1 / tileWidth
    ensures tileValues == FirstSeen(BlockScan(image, tileHeight, tileWidth, tileIds.Length0))
    ensures Distinct(tileValues)
    ensures forall y, x :: InGrid(tileIds.Length0, tileIds.Length1, y, x) ==>
      && BlockInside(image, tileHeight, tileWidth, y, x)
      && 0 <= tileIds[y, x] < |tileValues|
      && tileValues[tileIds[y, x]] == Block(image, tileHeight, tileWidth, y, x)
  {
    tileIds := new int[image.Length0 / tileHeight, image.Length1 / tileWidth];
    tileValues := [];
    var nextFreeID := 0;
    for y := 0 to tileIds.Length0
      invariant Palette(tileValues, nextFreeID, BlockScan(image, tileHeight, tileWidth, y))
      invariant forall y', x :: InGrid(tileIds.Length0, tileIds.Length1, y', x) && y' < y ==>
        && BlockInside(image, tileHeight, tileWidth, y', x)
        && 0 <= tileIds[y', x] < |tileValues|
        && tileValues[tileIds[y', x]] == Block(image, tileHeight, tileWidth, y', x)
    {
      ghost var before := tileValues;
      tileValues, nextFreeID := IdentifyRow(image, tileHeight, tileWidth, y, tileIds, tileValues, nextFreeID);
      forall y', x | InGrid(tileIds.Length0, tileIds.Length1, y', x) && y' < y
        ensures tileValues[tileIds[y', x]] == Block(image, tileHeight, tileWidth, y', x)
      {
        assert tileValues[tileIds[y', x]] == before[tileIds[y', x]];
      }
    }
    FirstSeenDistinct(BlockScan(image, tileHeight, tileWidth, tileIds.Length0));
  }


  /** Entry (tiley, tilex) of a tile flattened row by row. */
  function TileAt(tileVal: seq<int>, tileHeight: int, tileWidth: int, tiley: int, tilex: int): int
    requires 0 <= tiley < tileHeight && 0 <= tilex < tileWidth && |tileVal| >= tileHeight * tileWidth
  {
    FlatIndexInRange(tiley, tilex, tileHeight, tileWidth);
    tileVal[tiley * tileWidth + tilex]
  }

  /**
    Pixel (py, px) of the decoded image holds v: it lies in wave cell
    (py / tileHeight, px / tileWidth), whose id names a tile, and v is that
    tile's entry at offset (py % tileHeight, px % tileWidth).
  */
  ghost predicate Decoded(collapsedWave: array2<int>, tileVals: seq<seq<int>>, tileHeight: int, tileWidth: int,
                          py: int, px: int, v: int)
    reads collapsedWave
    requires tileHeight > 0 && tileWidth > 0
  {
    && InGrid(collapsedWave.Length0, collapsedWave.Length1, py / tileHeight, px / tileWidth)
    && 0 <= collapsedWave[py / tileHeight, px / tileWidth] < |tileVals|
    && |tileVals[collapsedWave[py / tileHeight, px / tileWidth]]| >= tileHeight * tileWidth
    && v == TileAt(tileVals[collapsedWave[py / tileHeight, px / tileWidth]], tileHeight, tileWidth,
                   py % tileHeight, px % tileWidth)
  }

  /** A pixel at offset (py - top, px - left) from the corner of wave cell (wavey, wavex) holding that tile entry is decoded. */
  lemma CornerOffsetDecoded(collapsedWave: array2<int>, tileVals: seq<seq<int>>, tileHeight: int, tileWidth: int,
                            wavey: int, wavex: int, py: int, px: int, v: int)
    requires tileHeight > 0 && tileWidth > 0 && InGrid(collapsedWave.Length0, collapsedWave.Length1, wavey, wavex)
    requires 0 <= collapsedWave[wavey, wavex] < |tileVals|
    requires |tileVals[collapsedWave[wavey, wavex]]| >= tileHeight * tileWidth
    requires wavey * tileHeight <= py < wavey * tileHeight + tileHeight
    requires wavex * tileWidth <= px < wavex * tileWidth + tileWidth
    requires v == TileAt(tileVals[collapsedWave[wavey, wavex]], tileHeight, tileWidth,
                         py - wavey * tileHeight, px - wavex * tileWidth)
    ensures Decoded(collapsedWave, tileVals, tileHeight, tileWidth, py, px, v)
  {
    DivMod(wavey, py - wavey * tileHeight, tileHeight);
    DivMod(wavex, px - wavex * tileWidth, tileWidth);
  }

  /**
    The inner loop of GenerateOutputImage over one wave cell: row tiley of
    the tile goes to the pixels (top + tiley, left) .. (top + tiley,
    left + tileWidth - 1), and no other pixel changes.
  */
  method WriteTileRow(output: array2<int>, tileVal: seq<int>, tileHeight: int, tileWidth: int,
                      top: int, left: int, tiley: int)
    requires 0 <= tiley < tileHeight && tileWidth > 0 && |tileVal| >= tileHeight * tileWidth
    requires 0 <= top && top + tileHeight <= output.Length0 && 0 <= left && left + tileWidth <= output.Length1
    modifies output
    ensures forall py, px :: 0 <= py < output.Length0 && 0 <= px < output.Length1 ==>
      if py == top + tiley && left <= px < left + tileWidth
      then output[py, px] == TileAt(tileVal, tileHeight, tileWidth, tiley, px - left)
      else output[py, px] == old(output[py, px])
  {
    var counter := tiley * tileWidth;
    for tilex := 0 to tileWidth
      invariant counter == tiley * tileWidth + tilex
      invariant forall py, px :: 0 <= py < output.Length0 && 0 <= px < output.Length1 ==>
        if py == top + tiley && left <= px < left + tilex
        then output[py, px] == TileAt(tileVal, tileHeight, tileWidth, tiley, px - left)
        else output[py, px] == old(output[py, px])
    {
      FlatIndexInRange(tiley, tilex, tileHeight, tileWidth);
      output[top + tiley, left + tilex] := tileVal[counter];
      counter := counter + 1;
    }
  }

  /**
    The loops of GenerateOutputImage over one wave cell: the pixels of the
    cell's block get the flattened tile of its id, and no other pixel
    changes.
  */
  method WriteBlock(output: array2<int>, collapsedWave: array2<int>, tileVals: seq<seq<int>>,
                    tileHeight: int, tileWidth: int, wavey: int, wavex: int)
    requires tileHeight > 0 && tileWidth > 0 && output != collapsedWave
    requires InGrid(collapsedWave.Length0, collapsedWave.Length1, wavey, wavex)
    requires output.Length0 == collapsedWave.Length0 * tileHeight && output.Length1 == collapsedWave.Length1 * tileWidth
    requires 0 <= collapsedWave[wavey, wavex] < |tileVals|
    requires |tileVals[collapsedWave[wavey, wavex]]| >= tileHeight * tileWidth
    modifies output
    ensures forall py, px :: 0 <= py < output.Length0 && 0 <= px < output.Length1 ==>
      if py / tileHeight == wavey && px / tileWidth == wavex
      then Decoded(collapsedWave, tileVals, tileHeight, tileWidth, py, px, output[py, px])
      else output[py, px] == old(output[py, px])
  {
    var tileVal := tileVals[collapsedWave[wavey, wavex]];
    var top, left := wavey * tileHeight, wavex * tileWidth;
    BandBefore(wavey, collapsedWave.Length0, tileHeight);
    BandBefore(wavex, collapsedWave.Length1, tileWidth);
    for tiley := 0 to tileHeight
      invariant forall py, px :: 0 <= py < output.Length0 && 0 <= px < output.Length1 ==>
        if top <= py < top + tiley && left <= px < left + tileWidth
        then output[py, px] == TileAt(tileVal, tileHeight, tileWidth, py - top, px - left)
        else output[py, px] == old(output[py, px])
    {
      WriteTileRow(output, tileVal, tileHeight, tileWidth, top, left, tiley);
    }
    forall py, px | 0 <= py < output.Length0 && 0 <= px < output.Length1
      ensures if py / tileHeight == wavey && px / tileWidth == wavex
        then Decoded(collapsedWave, tileVals, tileHeight, tileWidth, py, px, output[py, px])
        else output[py, px] == old(output[py, px])
    {
      InBand(py, wavey, tileHeight);
      InBand(px, wavex, tileWidth);
      if py / tileHeight == wavey && px / tileWidth == wavex {
        CornerOffsetDecoded(collapsedWave, tileVals, tileHeight, tileWidth, wavey, wavex, py, px, output[py, px]);
      }
    }
  }

  /**
    GenerateOutputImage: a (waveHeight * tileHeight) by (waveWidth *
    tileWidth) image whose pixel (py, px) is the entry at offset
    (py % tileHeight, px % tileWidth) of the tile of wave cell
    (py / tileHeight, px / tileWidth).
  */
  method GenerateOutputImage(collapsedWave: array2<int>, tileVals: seq<seq<int>>, tileHeight: int, tileWidth: int)
    returns (output: array2<int>)
    requires tileHeight > 0 && tileWidth > 0
    requires forall y, x :: InGrid(collapsedWave.Length0, collapsedWave.Length1, y, x) ==>
      0 <= collapsedWave[y, x] < |tileVals| && |tileVals[collapsedWave[y, x]]| >= tileHeight * tileWidth
    ensures fresh(output)
    ensures output.Length0 == collapsedWave.Length0 * tileHeight && output.Length1 == collapsedWave.Length1 * tileWidth
    ensures forall py, px :: 0 <= py < output.Length0 && 0 <= px < output.Length1 ==>
      Decoded(collapsedWave, tileVals, tileHeight, tileWidth, py, px, output[py, px])
  {
    var waveHeight, waveWidth := collapsedWave.Length0, collapsedWave.Length1;
    output := new int[waveHeight * tileHeight, waveWidth * tileWidth];
    for wavey := 0 to waveHeight
      invariant forall py, px :: 0 <= py < output.Length0 && 0 <= px < output.Length1 && py / tileHeight < wavey ==>
        Decoded(collapsedWave, tileVals, tileHeight, tileWidth, py, px, output[py, px])
    {
      for wavex := 0 to waveWidth
        invariant forall py, px ::
          (0 <= py < output.Length0 && 0 <= px < output.Length1
           && (py / tileHeight < wavey || (py / tileHeight == wavey && px / tileWidth < wavex))) ==>
          Decoded(collapsedWave, tileVals, tileHeight, tileWidth, py, px, output[py, px])
      {
        WriteBlock(output, collapsedWave, tileVals, tileHeight, tileWidth, wavey, wavex);
      }
      forall px | 0 <= px < output.Length1
        ensures px / tileWidth < waveWidth
      {
        FlatIndexSplit(px, waveWidth, tileWidth);
      }
    }
    forall py | 0 <= py < output.Length0
      ensures py / tileHeight < waveHeight
    {
      FlatIndexSplit(py, waveHeight, tileHeight);
    }
  }

  /** The tile entry a decoded pixel takes from the flattened block covering it is the image's own pixel. */
  lemma DecodedBlockPixel(image: array2<int>, tileHeight: int, tileWidth: int, py: int, px: int, tile: seq<int>, v: int)
    requires tileHeight > 0 && tileWidth > 0 && 0 <= py && 0 <= px
    requires BlockInside(image, tileHeight, tileWidth, py / tileHeight, px / tileWidth)
    requires tile == Block(image, tileHeight, tileWidth, py / tileHeight, px / tileWidth)
    requires |tile| >= tileHeight * tileWidth
    requires v == TileAt(tile, tileHeight, tileWidth, py % tileHeight, px % tileWidth)
    ensures py < image.Length0 && px < image.Length1 && v == image[py, px]
  {
    var blockY, yoff := py / tileHeight, py % tileHeight;
    var blockX, xoff := px / tileWidth, px % tileWidth;
    assert py == blockY * tileHeight + yoff;
    assert px == blockX * tileWidth + xoff;
    BlockAt(image, tileHeight, tileWidth, blockY, blockX, yoff, xoff);
    assert v == tile[yoff * tileWidth + xoff];
  }

  /**
    Encoding an image with GetTileIDs and decoding with GenerateOutputImage
    gives back every pixel covered by whole blocks; when the image's
    dimensions are multiples of the block's, that is the whole image.
  */
  method RoundTrip(image: array2<int>, tileHeight: int, tileWidth: int) returns (output: array2<int>)
    requires tileHeight > 0 && tileWidth > 0
    ensures output.Length0 == image.Length0 / tileHeight * tileHeight
    ensures output.Length1 == image.Length1 / tileWidth * tileWidth
    ensures forall py, px :: 0 <= py < output.Length0 && 0 <= px < output.Length1 ==>
      py < image.Length0 && px < image.Length1 && output[py, px] == image[py, px]
    ensures image.Length0 % tileHeight == 0 && image.Length1 % tileWidth == 0 ==>
      output.Length0 == image.Length0 && output.Length1 == image.Length1
  {
    var tileIds, tileValues := GetTileIDs(image, tileHeight, tileWidth);
    forall y, x | InGrid(tileIds.Length0, tileIds.Length1, y, x)
      ensures |tileValues[tileIds[y, x]]| >= tileHeight * tileWidth
    {
      BlockAt(image, tileHeight, tileWidth, y, x, 0, 0);
    }
    output := GenerateOutputImage(tileIds, tileValues, tileHeight, tileWidth);
    WholeBlocks(image.Length0, tileHeight);
    WholeBlocks(image.Length1, tileWidth);
    forall py, px | 0 <= py < output.Length0 && 0 <= px < output.Length1
      ensures py < image.Length0 && px < image.Length1 && output[py, px] == image[py, px]
    {
      assert Decoded(tileIds, tileValues, tileHeight, tileWidth, py, px, output[py, px]);
      DecodedBlockPixel(image, tileHeight, tileWidth, py, px,
                        tileValues[tileIds[py / tileHeight, px / tileWidth]], output[py, px]);
    }
  }
}
