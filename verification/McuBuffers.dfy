/** The three ways in which the coefficient controllers fill an MCU: from the forward DCT with
    dummy blocks made on the spot (compress_data), from arrays padded in a first pass
    (compress_first_pass, compress_output), and from unpadded arrays (jctrans.c). */
module McuBuffers {
  import opened Powers
  import opened NaturalOrder
  import opened McuAssembly

  type Buffer = array<Block>

  // ----- Geometry of a row of blocks

  /** Block row j of iMCU row r is real. */
  predicate RealRow(s: ScanLayout, p: Plane, r: nat, j: nat) {
    r + 1 < s.imcuRows || j < LastRowHeight(p)
  }

  function BlockCount(s: ScanLayout, p: Plane, col: nat): nat {
    if col + 1 < s.mcusPerRow then McuWidth(s, p) else LastColWidth(s, p)
  }

  /** The tests of the controllers decide which blocks are real. */
  lemma TestsRight(s: ScanLayout, c: nat, r: nat, j: nat, col: nat)
    requires ScanOk(s) && c < |s.planes| && r < s.imcuRows && j < s.planes[c].v && col < s.mcusPerRow
    ensures var p := s.planes[c];
      && (RealRow(s, p, r, j) <==> r * p.v + j < p.height) && (j == 0 ==> RealRow(s, p, r, j))
      && 0 < BlockCount(s, p, col) <= McuWidth(s, p)
      && col * McuWidth(s, p) + BlockCount(s, p, col) <= p.width
      && (BlockCount(s, p, col) < McuWidth(s, p) ==> col * McuWidth(s, p) + BlockCount(s, p, col) == p.width)
  {
    var p := s.planes[c];
    LastGroupFills(p.height, p.v);
    LastGroupFills(p.width, p.h);
    var last, cols := s.imcuRows - 1, s.mcusPerRow - 1;
    if r < last {
      MulMono(r + 1, last, p.v);
      Distribute(r, 1, p.v);
    }
    if Interleaved(s) && col < cols {
      MulMono(col + 1, cols, p.h);
      Distribute(col, 1, p.h);
    }
  }

  // ----- Filling one row

  /** The row has been put behind what was there. */
  ghost predicate RowPut(buffer: seq<Block>, was: seq<Block>, blkn: nat, row: seq<Block>) {
    && blkn + |row| <= |buffer| == |was| && buffer[..blkn] == was[..blkn] && buffer[blkn..blkn + |row|] == row
  }

  function Dummies(dc: int, n: nat): (r: seq<Block>)
    ensures |r| == n
  {
    seq(n, _ => Dummy(dc))
  }

  /** compress_data, a real row: the DCT of the real blocks, then dummies. */
  method DctRow(p: Plane, y: nat, x: nat, blockcnt: nat, w: nat, buffer: Buffer, blkn: nat)
    requires PlaneOk(p) && y < p.height && 0 < blockcnt <= w && x + blockcnt <= p.width && blkn + w <= buffer.Length
    requires blockcnt < w ==> x + blockcnt == p.width
    modifies buffer
    ensures RowPut(buffer[..], old(buffer[..]), blkn, RowBlocks(p, y, x, w))
  {
    for bi := 0 to blockcnt
      invariant buffer[..blkn] == old(buffer[..blkn])
      invariant forall i :: blkn <= i < blkn + bi ==> buffer[i] == p.blocks[y][x + (i - blkn)]
    {
      buffer[blkn + bi] := p.blocks[y][x + bi];
    }
    for bi := blockcnt to w
      invariant buffer[..blkn] == old(buffer[..blkn])
      invariant forall i :: blkn <= i < blkn + blockcnt ==> buffer[i] == p.blocks[y][x + (i - blkn)]
      invariant forall i :: blkn + blockcnt <= i < blkn + bi ==> buffer[i] == Dummy(p.blocks[y][p.width - 1][0])
    {
      buffer[blkn + bi] := Dummy(buffer[blkn + bi - 1][0]);
    }
    RowIs(p, y, x, blockcnt, w, buffer[blkn..blkn + w]);
  }

  lemma RowIs(p: Plane, y: nat, x: nat, blockcnt: nat, w: nat, row: seq<Block>)
    requires PlaneOk(p) && y < p.height && 0 < blockcnt <= w == |row| && x + blockcnt <= p.width
    requires blockcnt < w ==> x + blockcnt == p.width
    requires forall i :: 0 <= i < blockcnt ==> row[i] == p.blocks[y][x + i]
    requires forall i :: blockcnt <= i < w ==> row[i] == Dummy(p.blocks[y][p.width - 1][0])
    ensures row == RowBlocks(p, y, x, w)
  {
    forall i | 0 <= i < w ensures row[i] == RowBlocks(p, y, x, w)[i] {
      assert Padded(p, y, x + i) == if x + i < p.width then p.blocks[y][x + i] else Dummy(p.blocks[y][p.width - 1][0]);
    }
  }

  /** A row below the image, with the DC value of the block before it. */
  method DummyRow(buffer: Buffer, blkn: nat, w: nat)
    requires 0 < blkn && blkn + w <= buffer.Length
    modifies buffer
    ensures RowPut(buffer[..], old(buffer[..]), blkn, Dummies(old(buffer[blkn - 1])[0], w))
  {
    for bi := 0 to w
      invariant buffer[..blkn] == old(buffer[..blkn])
      invariant forall i :: blkn <= i < blkn + bi ==> buffer[i] == Dummy(old(buffer[blkn - 1])[0])
    {
      assert buffer[blkn - 1] == buffer[..blkn][blkn - 1];
      buffer[blkn + bi] := Dummy(buffer[blkn - 1][0]);
    }
  }

  /** jctrans.c: pointers to the real blocks, then dummies that follow the block before them. */
  method TranscodeRow(p: Plane, inside: bool, y: nat, x: nat, blockcnt: nat, w: nat, buffer: Buffer, blkn: nat)
    requires PlaneOk(p) && 0 < blockcnt <= w && x + blockcnt <= p.width && blkn + w <= buffer.Length
    requires blockcnt < w ==> x + blockcnt == p.width
    requires (inside ==> y < p.height) && (!inside ==> 0 < blkn)
    modifies buffer
    ensures inside ==> RowPut(buffer[..], old(buffer[..]), blkn, RowBlocks(p, y, x, w))
    ensures !inside ==> RowPut(buffer[..], old(buffer[..]), blkn, Dummies(old(buffer[blkn - 1])[0], w))
  {
    var xindex: nat := 0;
    if inside {
      while xindex < blockcnt
        invariant xindex <= blockcnt && buffer[..blkn] == old(buffer[..blkn])
        invariant forall i :: blkn <= i < blkn + xindex ==> buffer[i] == p.blocks[y][x + (i - blkn)]
      {
        buffer[blkn + xindex] := p.blocks[y][x + xindex];
        xindex := xindex + 1;
      }
    }
    ghost var start, dc := xindex, if inside then p.blocks[y][p.width - 1][0] else buffer[blkn - 1][0];
    while xindex < w
      invariant start <= xindex <= w && buffer[..blkn] == old(buffer[..blkn])
      invariant forall i :: blkn <= i < blkn + start ==> buffer[i] == p.blocks[y][x + (i - blkn)]
      invariant forall i :: blkn + start <= i < blkn + xindex ==> buffer[i] == Dummy(dc)
    {
      assert !inside ==> buffer[blkn - 1] == buffer[..blkn][blkn - 1];
      buffer[blkn + xindex] := Dummy(buffer[blkn + xindex - 1][0]);
      xindex := xindex + 1;
    }
    if inside {
      RowIs(p, y, x, blockcnt, w, buffer[blkn..blkn + w]);
    }
    assert !inside ==> buffer[blkn..blkn + w] == Dummies(dc, w);
  }

  /** A component's padded array: rows y0 to y1 are filled. */
  ghost predicate Filled(p: Plane, a: array2<Block>, y0: nat, y1: nat)
    requires PlaneOk(p)
    reads a
  {
    y1 <= a.Length0 && forall y, x :: y0 <= y < y1 && 0 <= x < a.Length1 ==> a[y, x] == Padded(p, y, x)
  }

  /** compress_output: pointers into the padded array. */
  method SavedRow(p: Plane, a: array2<Block>, y: nat, x: nat, w: nat, buffer: Buffer, blkn: nat)
    requires PlaneOk(p) && Filled(p, a, y, y + 1) && x + w <= a.Length1 && blkn + w <= buffer.Length
    modifies buffer
    ensures RowPut(buffer[..], old(buffer[..]), blkn, RowBlocks(p, y, x, w))
  {
    for xindex := 0 to w
      invariant buffer[..blkn] == old(buffer[..blkn])
      invariant forall i :: blkn <= i < blkn + xindex ==> buffer[i] == Padded(p, y, x + (i - blkn))
    {
      buffer[blkn + xindex] := a[y, x + xindex];
    }
    assert buffer[blkn..blkn + w] == RowBlocks(p, y, x, w);
  }

  // ----- A whole MCU

  /** Where the blocks come from. */
  datatype Source = Dct | Transcode | Saved(whole: seq<array2<Block>>)

  ghost predicate SourceOk(s: ScanLayout, k: Source, r: nat)
    requires Shapes(s)
    reads if k.Saved? then set a | a in k.whole else {}
  {
    k.Saved? ==>
      && |k.whole| == |s.planes|
      && forall c :: 0 <= c < |s.planes| ==>
           Filled(s.planes[c], k.whole[c], r * s.planes[c].v, r * s.planes[c].v + s.planes[c].v)
           && s.mcusPerRow * McuWidth(s, s.planes[c]) <= k.whole[c].Length1
  }

  /** The blocks of n rows of component c in the MCU. */
  function Part(s: ScanLayout, c: nat, my: nat, mx: nat, n: nat): (r: seq<Block>)
    requires Shapes(s) && c < |s.planes|
  {
    var p := s.planes[c];
    PlaneBlocks(p, my * McuHeight(s, p), mx * McuWidth(s, p), McuWidth(s, p), n)
  }

  lemma RowOf(s: ScanLayout, c: nat, r: nat, yoffset: nat)
    requires ScanOk(s) && c < |s.planes| && if Interleaved(s) then yoffset == 0 else c == 0 && yoffset < s.planes[0].v
    ensures McuRowOf(s, r, yoffset) * McuHeight(s, s.planes[c]) == r * s.planes[c].v + yoffset
  {
  }

  /** MCU row yoffset of iMCU row r. */
  function McuRowOf(s: ScanLayout, r: nat, yoffset: nat): nat {
    if |s.planes| == 1 then r * s.planes[0].v + yoffset else r
  }

  /** Rows of this component are left to fill only while there is room. */
  lemma Room(s: ScanLayout, my: nat, mx: nat, c: nat, n: nat)
    requires Shapes(s) && c < |s.planes| && n <= McuHeight(s, s.planes[c])
    ensures |McuBlocks(s, my, mx, c)| + |Part(s, c, my, mx, n)| <= |McuBlocks(s, my, mx, |s.planes|)|
    decreases |s.planes| - c
  {
    var p := s.planes[c];
    MulMono(n, McuHeight(s, p), McuWidth(s, p));
    Grows(s, my, mx, c + 1, |s.planes|);
  }

  lemma {:induction false} Grows(s: ScanLayout, my: nat, mx: nat, m: nat, n: nat)
    requires Shapes(s) && m <= n <= |s.planes|
    ensures |McuBlocks(s, my, mx, m)| <= |McuBlocks(s, my, mx, n)|
    decreases n
  {
    if m < n {
      Grows(s, my, mx, m, n - 1);
    }
  }

  /** A row below the image repeats the DC value of the block above its end. */
  lemma BelowIs(s: ScanLayout, c: nat, y: nat, mx: nat)
    requires Shapes(s) && c < |s.planes| && Interleaved(s) && y >= s.planes[c].height
    ensures var p := s.planes[c];
      RowBlocks(p, y, mx * p.h, p.h) == Dummies(Padded(p, y - 1, mx * p.h + p.h - 1)[0], p.h)
  {
    var p := s.planes[c];
    var dc, row := Padded(p, y - 1, mx * p.h + p.h - 1)[0], RowBlocks(p, y, mx * p.h, p.h);
    forall i | 0 <= i < p.h ensures row[i] == Dummies(dc, p.h)[i] {
      BelowAt(p, y, mx, i);
    }
  }

  lemma BelowAt(p: Plane, y: nat, mx: nat, i: nat)
    requires PlaneOk(p) && y >= p.height && i < p.h
    ensures Padded(p, y, mx * p.h + i) == Dummy(Padded(p, y - 1, mx * p.h + p.h - 1)[0])
  {
    PositionUnique(mx, i, p.h);
  }

  /** The blocks put so far. */
  ghost predicate Put(s: ScanLayout, my: nat, mx: nat, c: nat, n: nat, buffer: seq<Block>, blkn: nat)
    requires Shapes(s) && c < |s.planes|
  {
    blkn <= |buffer| && buffer[..blkn] == McuBlocks(s, my, mx, c) + Part(s, c, my, mx, n)
  }

  lemma PutNext(s: ScanLayout, my: nat, mx: nat, c: nat, n: nat, buffer: seq<Block>, was: seq<Block>, blkn: nat)
    requires Shapes(s) && c < |s.planes|
    requires var p := s.planes[c];
      Put(s, my, mx, c, n, was, blkn) && RowPut(buffer, was, blkn, RowBlocks(p, my * McuHeight(s, p) + n, mx * McuWidth(s, p), McuWidth(s, p)))
    ensures Put(s, my, mx, c, n + 1, buffer, blkn + McuWidth(s, s.planes[c]))
  {
    var p := s.planes[c];
    var row := RowBlocks(p, my * McuHeight(s, p) + n, mx * McuWidth(s, p), McuWidth(s, p));
    assert Part(s, c, my, mx, n + 1) == Part(s, c, my, mx, n) + row;
    hide Part, RowBlocks, McuBlocks;
    assert buffer[..blkn + |row|] == buffer[..blkn] + buffer[blkn..blkn + |row|];
  }

  lemma LastPut(s: ScanLayout, my: nat, mx: nat, c: nat, n: nat, buffer: seq<Block>, blkn: nat)
    requires Shapes(s) && c < |s.planes| && n > 0 && McuWidth(s, s.planes[c]) > 0 && Put(s, my, mx, c, n, buffer, blkn)
    ensures var p := s.planes[c];
      blkn > 0 && buffer[blkn - 1] == Padded(p, my * McuHeight(s, p) + n - 1, mx * McuWidth(s, p) + McuWidth(s, p) - 1)
  {
    var p := s.planes[c];
    var row := RowBlocks(p, my * McuHeight(s, p) + n - 1, mx * McuWidth(s, p), McuWidth(s, p));
    assert Part(s, c, my, mx, n) == Part(s, c, my, mx, n - 1) + row;
    hide Part, McuBlocks;
    assert buffer[blkn - 1] == buffer[..blkn][blkn - 1] == row[McuWidth(s, p) - 1];
  }

  /** The row at y and x: real blocks and dummies to the right, or a row of dummies. */
  method FillRow(p: Plane, k: Source, c: nat, inside: bool, y: nat, x: nat, blockcnt: nat, w: nat, buffer: Buffer, blkn: nat)
    requires PlaneOk(p) && 0 < blockcnt <= w && x + blockcnt <= p.width && blkn + w <= buffer.Length
    requires (blockcnt < w ==> x + blockcnt == p.width) && (inside ==> y < p.height)
    requires !inside ==> 0 < blkn && RowBlocks(p, y, x, w) == Dummies(buffer[blkn - 1][0], w)
    requires k.Saved? ==> c < |k.whole| && Filled(p, k.whole[c], y, y + 1) && x + w <= k.whole[c].Length1
    modifies buffer
    ensures RowPut(buffer[..], old(buffer[..]), blkn, RowBlocks(p, y, x, w))
  {
    hide RowPut, RowBlocks, Padded, Dummies;
    match k {
      case Dct =>
        if inside {
          DctRow(p, y, x, blockcnt, w, buffer, blkn);
        } else {
          DummyRow(buffer, blkn, w);
        }
      case Transcode =>
        TranscodeRow(p, inside, y, x, blockcnt, w, buffer, blkn);
      case Saved(whole) =>
        SavedRow(p, whole[c], y, x, w, buffer, blkn);
    }
  }

  lemma OutsideRow(s: ScanLayout, r: nat, yoffset: nat, col: nat, c: nat, yindex: nat, buffer: seq<Block>, blkn: nat)
    requires ScanOk(s) && Shapes(s) && c < |s.planes| && r < s.imcuRows && col < s.mcusPerRow
    requires if Interleaved(s) then yoffset == 0 else yoffset < s.planes[0].v && RealRow(s, s.planes[0], r, yoffset)
    requires yindex < McuHeight(s, s.planes[c]) && Put(s, McuRowOf(s, r, yoffset), col, c, yindex, buffer, blkn)
    requires !RealRow(s, s.planes[c], r, yoffset + yindex)
    ensures var p := s.planes[c];
      && 0 < blkn <= |buffer|
      && RowBlocks(p, r * p.v + yoffset + yindex, col * McuWidth(s, p), McuWidth(s, p)) == Dummies(buffer[blkn - 1][0], McuWidth(s, p))
  {
    var p := s.planes[c];
    RowOf(s, c, r, yoffset);
    TestsRight(s, c, r, yoffset + yindex, col);
    TestsRight(s, c, r, 0, col);
    assert Interleaved(s) && yindex > 0 && McuWidth(s, p) == p.h > 0;
    hide ScanOk, Put, RowBlocks, Padded, McuBlocks, Part, RealRow, BlockCount, Dummies;
    LastPut(s, McuRowOf(s, r, yoffset), col, c, yindex, buffer, blkn);
    BelowIs(s, c, r * p.v + yoffset + yindex, col);
  }

  lemma SavedHolds(s: ScanLayout, k: Source, r: nat, j: nat, col: nat, c: nat)
    requires Shapes(s) && SourceOk(s, k, r) && k.Saved? && c < |s.planes| && col < s.mcusPerRow && j < s.planes[c].v
    ensures c < |k.whole| && Filled(s.planes[c], k.whole[c], r * s.planes[c].v + j, r * s.planes[c].v + j + 1)
    ensures col * McuWidth(s, s.planes[c]) + McuWidth(s, s.planes[c]) <= k.whole[c].Length1
  {
    MulMono(col + 1, s.mcusPerRow, McuWidth(s, s.planes[c]));
    Distribute(col, 1, McuWidth(s, s.planes[c]));
  }

  /** Row yindex of component c. */
  method PutRow(s: ScanLayout, k: Source, r: nat, yoffset: nat, col: nat, c: nat, yindex: nat, buffer: Buffer, blkn: nat)
    requires ScanOk(s) && Shapes(s) && SourceOk(s, k, r) && c < |s.planes| && r < s.imcuRows && col < s.mcusPerRow
    requires if Interleaved(s) then yoffset == 0 else yoffset < s.planes[0].v && RealRow(s, s.planes[0], r, yoffset)
    requires yindex < McuHeight(s, s.planes[c])
    requires Put(s, McuRowOf(s, r, yoffset), col, c, yindex, buffer[..], blkn) && blkn + McuWidth(s, s.planes[c]) <= buffer.Length
    modifies buffer
    ensures Put(s, McuRowOf(s, r, yoffset), col, c, yindex + 1, buffer[..], blkn + McuWidth(s, s.planes[c]))
  {
    var p := s.planes[c];
    var w, blockcnt, x, y := McuWidth(s, p), BlockCount(s, p, col), col * McuWidth(s, p), r * p.v + yoffset + yindex;
    ghost var was := buffer[..];
    RowOf(s, c, r, yoffset);
    assert yoffset + yindex < p.v;
    TestsRight(s, c, r, yoffset + yindex, col);
    var inside := RealRow(s, p, r, yoffset + yindex);
    hide ScanOk, Put, RowPut, RowBlocks, Padded, McuBlocks, Part, RealRow, BlockCount, Dummies, SourceOk, Filled;
    if !inside {
      OutsideRow(s, r, yoffset, col, c, yindex, was, blkn);
    }
    if k.Saved? {
      SavedHolds(s, k, r, yoffset + yindex, col, c);
    }
    FillRow(p, k, c, inside, y, x, blockcnt, w, buffer, blkn);
    PutNext(s, McuRowOf(s, r, yoffset), col, c, yindex, buffer[..], was, blkn);
  }

  /** One MCU in the buffer; all three ways agree on it. */
  method AssembleMcu(s: ScanLayout, k: Source, r: nat, yoffset: nat, col: nat, buffer: Buffer) returns (blkn: nat)
    requires ScanOk(s) && Shapes(s) && SourceOk(s, k, r) && r < s.imcuRows && col < s.mcusPerRow
    requires if Interleaved(s) then yoffset == 0 else yoffset < s.planes[0].v && RealRow(s, s.planes[0], r, yoffset)
    requires |McuBlocks(s, McuRowOf(s, r, yoffset), col, |s.planes|)| <= buffer.Length
    modifies buffer
    ensures blkn <= buffer.Length && buffer[..blkn] == McuBlocks(s, McuRowOf(s, r, yoffset), col, |s.planes|)
  {
    ghost var my := McuRowOf(s, r, yoffset);
    hide ScanOk, RealRow, Part, SourceOk;
    blkn := 0;
    for c := 0 to |s.planes|
      invariant blkn <= buffer.Length && buffer[..blkn] == McuBlocks(s, my, col, c) && SourceOk(s, k, r)
    {
      var p := s.planes[c];
      NoRowsYet(s, my, col, c, buffer[..], blkn);
      for yindex := 0 to McuHeight(s, p)
        invariant Put(s, my, col, c, yindex, buffer[..], blkn) && SourceOk(s, k, r)
      {
        Room(s, my, col, c, yindex + 1);
        PartGrows(s, c, my, col, yindex);
        PutRow(s, k, r, yoffset, col, c, yindex, buffer, blkn);
        blkn := blkn + McuWidth(s, p);
      }
      PlaneDone(s, my, col, c, buffer[..], blkn);
    }
  }

  lemma NoRowsYet(s: ScanLayout, my: nat, mx: nat, c: nat, buffer: seq<Block>, blkn: nat)
    requires Shapes(s) && c < |s.planes| && blkn <= |buffer| && buffer[..blkn] == McuBlocks(s, my, mx, c)
    ensures Put(s, my, mx, c, 0, buffer, blkn)
  {
    assert Part(s, c, my, mx, 0) == [];
  }

  lemma PartGrows(s: ScanLayout, c: nat, my: nat, mx: nat, n: nat)
    requires Shapes(s) && c < |s.planes|
    ensures |Part(s, c, my, mx, n + 1)| == |Part(s, c, my, mx, n)| + McuWidth(s, s.planes[c])
  {
    Distribute(n, 1, McuWidth(s, s.planes[c]));
  }

  lemma PlaneDone(s: ScanLayout, my: nat, mx: nat, c: nat, buffer: seq<Block>, blkn: nat)
    requires Shapes(s) && c < |s.planes| && Put(s, my, mx, c, McuHeight(s, s.planes[c]), buffer, blkn)
    ensures blkn <= |buffer| && buffer[..blkn] == McuBlocks(s, my, mx, c + 1)
  {
  }
}
