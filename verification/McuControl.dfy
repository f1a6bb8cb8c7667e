/** The coefficient controllers' passes over an image (jccoefct.c, jctrans.c): counters that
    survive suspension, and the padding of saved arrays. */
module McuControl {
  import opened Powers
  import opened NaturalOrder
  import opened McuAssembly
  import opened McuPlaces
  import opened McuBuffers

  // ----- compress_first_pass: padding the saved arrays

  ghost predicate ArrayOk(p: Plane, a: array2<Block>, imcuRows: nat)
    requires p.h > 0
  {
    imcuRows * p.v <= a.Length0 && a.Length1 == DivRoundUp(p.width, p.h) * p.h
  }

  /** The rows of a that are as they were. */
  twostate predicate RowsKept(a: array2<Block>, y0: nat, y1: nat)
    reads a
  {
    forall y, x :: 0 <= y < a.Length0 && 0 <= x < a.Length1 && !(y0 <= y < y1) ==> a[y, x] == old(a[y, x])
  }

  /** A row of real blocks and the dummies to its right. */
  method SaveRealRow(p: Plane, y: nat, a: array2<Block>)
    requires PlaneOk(p) && y < p.height && y < a.Length0 && a.Length1 == DivRoundUp(p.width, p.h) * p.h
    modifies a
    ensures Filled(p, a, y, y + 1) && RowsKept(a, y, y + 1)
  {
    LastGroupFills(p.width, p.h);
    var ndummy: nat := p.width % p.h;
    if ndummy > 0 {
      ndummy := p.h - ndummy;
    }
    DummiesNeeded(p.width, p.h);
    assert a.Length1 == p.width + ndummy;
    for x := 0 to p.width
      invariant RowsKept(a, y, y + 1) && forall i :: 0 <= i < x ==> a[y, i] == Padded(p, y, i)
    {
      a[y, x] := p.blocks[y][x];
    }
    var lastDC := a[y, p.width - 1][0];
    for bi := 0 to ndummy
      invariant RowsKept(a, y, y + 1) && forall i :: 0 <= i < p.width + bi ==> a[y, i] == Padded(p, y, i)
    {
      a[y, p.width + bi] := Dummy(lastDC);
    }
  }

  lemma DummiesNeeded(w: nat, h: nat)
    requires w > 0 && h > 0
    ensures DivRoundUp(w, h) * h == w + if w % h > 0 then h - w % h else 0
  {
    LastGroupFills(w, h);
    Distribute(DivRoundUp(w, h), -1, h);
  }

  /** A row of dummies below the image, MCU by MCU. */
  method SaveDummyRow(p: Plane, y: nat, a: array2<Block>)
    requires PlaneOk(p) && p.height <= y < a.Length0 && a.Length1 == DivRoundUp(p.width, p.h) * p.h
    requires Filled(p, a, y - 1, y)
    modifies a
    ensures Filled(p, a, y, y + 1) && RowsKept(a, y, y + 1)
  {
    var mcusAcross := DivRoundUp(p.width, p.h);
    assert 0 * p.h == 0;
    for m := 0 to mcusAcross
      invariant RowsKept(a, y, y + 1) && m * p.h <= a.Length1 && forall i :: 0 <= i < m * p.h ==> a[y, i] == Padded(p, y, i)
    {
      MulMono(m + 1, mcusAcross, p.h);
      Distribute(m, 1, p.h);
      var lastDC := a[y - 1, m * p.h + p.h - 1][0];
      assert lastDC == Padded(p, y - 1, m * p.h + p.h - 1)[0];
      for bi := 0 to p.h
        invariant RowsKept(a, y, y + 1) && forall i :: 0 <= i < m * p.h + bi ==> a[y, i] == Padded(p, y, i)
      {
        BelowAt(p, y, m, bi);
        a[y, m * p.h + bi] := Dummy(lastDC);
      }
    }
  }

  /** One component's part of an iMCU row. */
  method SaveStrip(p: Plane, r: nat, imcuRows: nat, a: array2<Block>)
    requires PlaneOk(p) && imcuRows == DivRoundUp(p.height, p.v) && r < imcuRows && ArrayOk(p, a, imcuRows)
    modifies a
    ensures Filled(p, a, r * p.v, r * p.v + p.v) && RowsKept(a, r * p.v, r * p.v + p.v)
  {
    StripFits(p, r, imcuRows);
    var blockRows := if r + 1 < imcuRows then p.v else LastGroup(p.height, p.v);
    for row := 0 to blockRows
      invariant Filled(p, a, r * p.v, r * p.v + row) && RowsKept(a, r * p.v, r * p.v + p.v)
    {
      SaveRealRow(p, r * p.v + row, a);
    }
    if r + 1 == imcuRows {
      for row := blockRows to p.v
        invariant Filled(p, a, r * p.v, r * p.v + row) && RowsKept(a, r * p.v, r * p.v + p.v)
      {
        SaveDummyRow(p, r * p.v + row, a);
      }
    }
  }

  lemma StripFits(p: Plane, r: nat, imcuRows: nat)
    requires PlaneOk(p) && imcuRows == DivRoundUp(p.height, p.v) && r < imcuRows
    ensures r * p.v + p.v <= imcuRows * p.v
    ensures r + 1 < imcuRows ==> r * p.v + p.v <= p.height
    ensures r + 1 == imcuRows ==> 0 < LastGroup(p.height, p.v) <= p.v && r * p.v + LastGroup(p.height, p.v) == p.height
  {
    LastGroupFills(p.height, p.v);
    MulMono(r + 1, imcuRows, p.v);
    Distribute(r, 1, p.v);
    if r + 1 < imcuRows {
      MulMono(r + 1, imcuRows - 1, p.v);
    }
  }

  // ----- The passes

  /** MCU rows in iMCU row r. */
  function RowsIn(s: ScanLayout, r: nat): nat {
    if |s.planes| != 1 then 1 else if r + 1 < s.imcuRows then s.planes[0].v else LastRowHeight(s.planes[0])
  }

  /** MCU rows before iMCU row r. */
  function RowsBefore(s: ScanLayout, r: nat): nat {
    if r < s.imcuRows then McuRowOf(s, r, 0) else McuRows(s)
  }

  lemma NextImcuRow(s: ScanLayout, r: nat)
    requires ScanOk(s) && r < s.imcuRows
    ensures 0 < RowsIn(s, r) && RowsBefore(s, r + 1) == RowsBefore(s, r) + RowsIn(s, r)
    ensures forall j: nat :: j < RowsIn(s, r) ==> McuRowOf(s, r, j) == RowsBefore(s, r) + j
    ensures forall j: nat :: j < RowsIn(s, r) && !Interleaved(s) ==> j < s.planes[0].v && RealRow(s, s.planes[0], r, j)
  {
    var p := s.planes[0];
    assert PlaneOk(p) && s.imcuRows == DivRoundUp(p.height, p.v);
    hide ScanOk, DivRoundUp, LastGroup;
    LastRowCount(p, s.imcuRows);
    Distribute(r, 1, p.v);
  }

  lemma LastRowCount(p: Plane, imcuRows: nat)
    requires PlaneOk(p) && imcuRows == DivRoundUp(p.height, p.v)
    ensures 0 < LastRowHeight(p) <= p.v && (imcuRows - 1) * p.v + LastRowHeight(p) == p.height
  {
    LastGroupFills(p.height, p.v);
  }

  lemma NextMcu(s: ScanLayout, my: nat, col: nat)
    requires Shapes(s) && col < s.mcusPerRow
    ensures McuAt(s, my * s.mcusPerRow + col) == McuBlocks(s, my, col, |s.planes|)
  {
    PositionUnique(my, col, s.mcusPerRow);
  }

  lemma NextRow(my: nat, m: nat)
    ensures my * m + m == (my + 1) * m
  {
    Distribute(my, 1, m);
  }

  /** MCUs fit the fixed-size buffer, as per_scan_setup has checked. */
  ghost predicate McusFit(s: ScanLayout)
    requires Shapes(s)
  {
    forall my: nat, mx: nat :: |McuBlocks(s, my, mx, |s.planes|)| <= C_MAX_BLOCKS_IN_MCU
  }

  /** Saved arrays of the right size, one for each component. */
  ghost predicate ArraysOk(s: ScanLayout, k: Source)
    requires Shapes(s)
  {
    k.Saved? ==>
      && |k.whole| == |s.planes|
      && (forall c :: 0 <= c < |s.planes| ==> ArrayOk(s.planes[c], k.whole[c], s.imcuRows))
      && forall c, d :: 0 <= c < d < |s.planes| ==> k.whole[c] != k.whole[d]
  }

  class CoefController {
    const s: ScanLayout
    const source: Source
    const buffer: Buffer
    var imcuRowNum: nat
    var mcuCtr: nat
    var mcuVertOffset: nat
    var mcuRowsPerImcuRow: nat
    var sent: seq<seq<Block>>     // what the entropy coder has accepted

    ghost predicate Setup()
      reads this
    {
      && ScanOk(s) && Shapes(s) && s.mcusPerRow > 0 && McusFit(s) && buffer.Length == C_MAX_BLOCKS_IN_MCU
      && ArraysOk(s, source)
    }

    /** The counters say how many MCUs have been sent. */
    ghost predicate Valid()
      reads this
    {
      && Setup() && imcuRowNum <= s.imcuRows && InOrder(s, sent) && mcuCtr < s.mcusPerRow
      && (imcuRowNum < s.imcuRows ==> mcuRowsPerImcuRow == RowsIn(s, imcuRowNum) && mcuVertOffset < mcuRowsPerImcuRow)
      && (imcuRowNum == s.imcuRows ==> mcuVertOffset == mcuCtr == 0)
      && |sent| == (RowsBefore(s, imcuRowNum) + mcuVertOffset) * s.mcusPerRow + mcuCtr
    }

    constructor (s: ScanLayout, source: Source)
      requires ScanOk(s) && Shapes(s) && McusFit(s)
      requires ArraysOk(s, source)
      ensures Valid() && sent == [] && imcuRowNum == 0 && this.s == s && this.source == source && fresh(buffer)
    {
      this.s, this.source := s, source;
      buffer := new Block[C_MAX_BLOCKS_IN_MCU](_ => Dummy(0));
      imcuRowNum, sent := 0, [];
      new;
      ScanNotEmpty(s);
      StartImcuRow();
    }

    /** start_iMCU_row. */
    method StartImcuRow()
      requires Setup()
      modifies this`mcuCtr, this`mcuVertOffset, this`mcuRowsPerImcuRow
      ensures mcuCtr == mcuVertOffset == 0
      ensures imcuRowNum < s.imcuRows ==> mcuRowsPerImcuRow == RowsIn(s, imcuRowNum) > 0
    {
      if imcuRowNum < s.imcuRows {
        NextImcuRow(s, imcuRowNum);
      }
      if |s.planes| > 1 {
        mcuRowsPerImcuRow := 1;
      } else if imcuRowNum + 1 < s.imcuRows {
        mcuRowsPerImcuRow := s.planes[0].v;
      } else {
        mcuRowsPerImcuRow := LastRowHeight(s.planes[0]);
      }
      mcuCtr, mcuVertOffset := 0, 0;
    }

    /** One MCU, which the entropy coder takes or, if its output is full, refuses. */
    method SendMcu(yoffset: nat, col: nat, accept: bool)
      requires Setup() && imcuRowNum < s.imcuRows && yoffset < RowsIn(s, imcuRowNum) && col < s.mcusPerRow
      requires SourceOk(s, source, imcuRowNum) && InOrder(s, sent)
      requires |sent| == (RowsBefore(s, imcuRowNum) + yoffset) * s.mcusPerRow + col
      modifies buffer, this`sent
      ensures InOrder(s, sent) && |sent| == old(|sent|) + if accept then 1 else 0
    {
      hide ScanOk, McuAt, McuBlocks, RealRow, ArrayOk, Shapes;
      ScanNotEmpty(s);
      NextImcuRow(s, imcuRowNum);
      NextMcu(s, McuRowOf(s, imcuRowNum, yoffset), col);
      var blkn := AssembleMcu(s, source, imcuRowNum, yoffset, col, buffer);
      if accept {
        sent := sent + [buffer[..blkn]];
      }
    }

    ghost predicate Counted(yoffset: nat, col: nat)
      reads this
      requires Setup()
    {
      |sent| == (RowsBefore(s, imcuRowNum) + yoffset) * s.mcusPerRow + col
    }

    /** MCU row yoffset of the iMCU row, from column mcu_ctr on. */
    method CompressMcuRow(yoffset: nat, patience0: seq<bool>) returns (done: bool, patience: seq<bool>)
      requires Setup() && imcuRowNum < s.imcuRows && yoffset < RowsIn(s, imcuRowNum) && SourceOk(s, source, imcuRowNum)
      requires InOrder(s, sent) && mcuCtr < s.mcusPerRow && Counted(yoffset, mcuCtr)
      modifies buffer, this`sent, this`mcuCtr, this`mcuVertOffset
      ensures InOrder(s, sent) && mcuCtr < s.mcusPerRow && |patience| <= |patience0| && (!done ==> |patience| < |patience0|)
      ensures done ==> mcuCtr == 0 && Counted(yoffset + 1, 0)
      ensures !done ==> mcuVertOffset == yoffset && Counted(yoffset, mcuCtr)
    {
      hide ScanOk, RealRow, InOrder, McusFit, SourceOk, ArraysOk, Shapes, McuRowOf, RowsBefore, RowsIn;
      patience := patience0;
      var col := mcuCtr;
      while col < s.mcusPerRow
        invariant SourceOk(s, source, imcuRowNum) && InOrder(s, sent) && col <= s.mcusPerRow && |patience| <= |patience0|
        invariant Counted(yoffset, col)
      {
        var accept := patience == [] || patience[0];
        if patience != [] {
          patience := patience[1..];
        }
        SendMcu(yoffset, col, accept);
        if !accept {
          mcuVertOffset, mcuCtr := yoffset, col;
          return false, patience;
        }
        col := col + 1;
      }
      NextRow(RowsBefore(s, imcuRowNum) + yoffset, s.mcusPerRow);
      mcuCtr := 0;
      done := true;
    }

    /** compress_data and the two compress_outputs: up to one iMCU row; false on suspension.
        patience says which attempts the entropy coder refuses. */
    method CompressRow(patience0: seq<bool>) returns (done: bool, patience: seq<bool>)
      requires Valid() && imcuRowNum < s.imcuRows && SourceOk(s, source, imcuRowNum)
      modifies this, buffer
      ensures Valid() && imcuRowNum == old(imcuRowNum) + if done then 1 else 0
      ensures |patience| <= |patience0| && (!done ==> |patience| < |patience0|)
    {
      hide ScanOk, RealRow, InOrder, McusFit, SourceOk, ArraysOk, Shapes, McuRowOf, RowsBefore, RowsIn;
      patience := patience0;
      NextImcuRow(s, imcuRowNum);
      var yoffset := mcuVertOffset;
      while yoffset < mcuRowsPerImcuRow
        invariant imcuRowNum == old(imcuRowNum) && mcuRowsPerImcuRow == old(mcuRowsPerImcuRow)
        invariant SourceOk(s, source, imcuRowNum) && InOrder(s, sent) && mcuCtr < s.mcusPerRow && |patience| <= |patience0|
        invariant yoffset <= mcuRowsPerImcuRow && (yoffset == mcuRowsPerImcuRow ==> mcuCtr == 0) && Counted(yoffset, mcuCtr)
      {
        done, patience := CompressMcuRow(yoffset, patience);
        if !done {
          return;
        }
        yoffset := yoffset + 1;
      }
      NextStrip();
      done := true;
    }

    /** The iMCU row is completed. */
    method NextStrip()
      requires Setup() && imcuRowNum < s.imcuRows && InOrder(s, sent) && Counted(RowsIn(s, imcuRowNum), 0)
      modifies this
      ensures Valid() && imcuRowNum == old(imcuRowNum) + 1 && sent == old(sent)
    {
      hide ScanOk, RealRow, InOrder, McusFit, SourceOk, ArraysOk, Shapes, McuRowOf, RowsBefore, RowsIn;
      NextImcuRow(s, imcuRowNum);
      imcuRowNum := imcuRowNum + 1;
      StartImcuRow();
    }
  }

  lemma ScanNotEmpty(s: ScanLayout)
    requires ScanOk(s)
    ensures s.planes != [] && s.imcuRows > 0 && s.mcusPerRow > 0 && RowsBefore(s, 0) == 0
  {
    LastGroupFills(s.planes[0].height, s.planes[0].v);
    LastGroupFills(s.planes[0].width, s.planes[0].h);
    assert 0 * s.planes[0].v == 0;
  }

  // ----- Whole passes

  /** The first rows iMCU rows of the saved arrays are filled in. */
  ghost predicate SavedTo(s: ScanLayout, k: Source, rows: nat)
    requires Shapes(s) && ArraysOk(s, k)
    reads if k.Saved? then set a | a in k.whole else {}
  {
    k.Saved? ==> forall c :: 0 <= c < |s.planes| ==> Filled(s.planes[c], k.whole[c], 0, rows * s.planes[c].v)
  }

  lemma SavedIsReady(s: ScanLayout, k: Source, rows: nat, r: nat)
    requires ScanOk(s) && Shapes(s) && ArraysOk(s, k) && SavedTo(s, k, rows) && r < rows <= s.imcuRows
    ensures SourceOk(s, k, r)
  {
    if k.Saved? {
      forall c | 0 <= c < |s.planes|
        ensures Filled(s.planes[c], k.whole[c], r * s.planes[c].v, r * s.planes[c].v + s.planes[c].v)
        ensures s.mcusPerRow * McuWidth(s, s.planes[c]) <= k.whole[c].Length1
      {
        var p := s.planes[c];
        MulMono(r + 1, rows, p.v);
        Distribute(r, 1, p.v);
        FloorBounds(0, 1);
      }
    }
  }

  /** compress_first_pass, before it sends anything: each component's part of iMCU row r. */
  method SaveImcuRow(s: ScanLayout, whole: seq<array2<Block>>, r: nat)
    requires ScanOk(s) && Shapes(s) && ArraysOk(s, Saved(whole)) && r < s.imcuRows && SavedTo(s, Saved(whole), r)
    modifies set a | a in whole
    ensures SavedTo(s, Saved(whole), r + 1)
  {
    hide DivRoundUp, LastGroup, Padded;
    for c := 0 to |s.planes|
      invariant forall d :: c <= d < |s.planes| ==> Filled(s.planes[d], whole[d], 0, r * s.planes[d].v)
      invariant forall d :: 0 <= d < c ==> Filled(s.planes[d], whole[d], 0, (r + 1) * s.planes[d].v)
    {
      Distribute(r, 1, s.planes[c].v);
      SaveStrip(s.planes[c], r, s.imcuRows, whole[c]);
    }
  }

  /** How many iMCU rows the arrays hold when row r is about to be sent. */
  function RowsSaved(s: ScanLayout, firstPass: bool, r: nat): nat {
    if firstPass then r else s.imcuRows
  }

  /** One call of the controller. */
  method PassTurn(e: CoefController, firstPass: bool, patience0: seq<bool>) returns (done: bool, patience: seq<bool>)
    requires e.Valid() && e.imcuRowNum < e.s.imcuRows && (firstPass ==> e.source.Saved?)
    requires SavedTo(e.s, e.source, RowsSaved(e.s, firstPass, e.imcuRowNum))
    modifies e, e.buffer, if firstPass && e.source.Saved? then set a | a in e.source.whole else {}
    ensures e.Valid() && e.imcuRowNum == old(e.imcuRowNum) + if done then 1 else 0
    ensures SavedTo(e.s, e.source, RowsSaved(e.s, firstPass, e.imcuRowNum))
    ensures |patience| <= |patience0| && (!done ==> |patience| < |patience0|)
  {
    hide ScanOk, InOrder, McusFit, ArraysOk, Shapes, SavedTo, SourceOk, RowsBefore, RowsIn;
    ghost var r := e.imcuRowNum;
    if firstPass {
      SaveImcuRow(e.s, e.source.whole, e.imcuRowNum);
    }
    SavedIsReady(e.s, e.source, if firstPass then r + 1 else e.s.imcuRows, r);
    done, patience := e.CompressRow(patience0);
    SavedFewer(e.s, e.source, if firstPass then r + 1 else e.s.imcuRows, RowsSaved(e.s, firstPass, e.imcuRowNum));
  }

  lemma SavedFewer(s: ScanLayout, k: Source, more: nat, rows: nat)
    requires Shapes(s) && ArraysOk(s, k) && SavedTo(s, k, more) && rows <= more
    ensures SavedTo(s, k, rows)
  {
    if k.Saved? {
      forall c | 0 <= c < |s.planes| ensures Filled(s.planes[c], k.whole[c], 0, rows * s.planes[c].v) {
        MulMono(rows, more, s.planes[c].v);
      }
    }
  }

  /** A pass: rows are given to the controller until it has taken them all, again after each
      suspension. */
  method WholePass(s: ScanLayout, source: Source, firstPass: bool, patience0: seq<bool>) returns (sent: seq<seq<Block>>)
    requires ScanOk(s) && Shapes(s) && McusFit(s) && ArraysOk(s, source)
    requires if firstPass then source.Saved? else SavedTo(s, source, s.imcuRows)
    modifies if firstPass && source.Saved? then set a | a in source.whole else {}
    ensures s.mcusPerRow > 0 && InOrder(s, sent) && |sent| == McuRows(s) * s.mcusPerRow
    ensures SavedTo(s, source, s.imcuRows)
  {
    hide ScanOk, InOrder, McusFit, ArraysOk, Shapes, SavedTo;
    NothingSaved(s, source);
    var e := new CoefController(s, source);
    var patience, done := patience0, false;
    while e.imcuRowNum < s.imcuRows
      invariant e.Valid() && e.s == s && e.source == source && fresh(e) && fresh(e.buffer)
      invariant SavedTo(s, source, RowsSaved(s, firstPass, e.imcuRowNum))
      decreases s.imcuRows - e.imcuRowNum, |patience|
    {
      done, patience := PassTurn(e, firstPass, patience);
    }
    sent := e.sent;
  }

  lemma NothingSaved(s: ScanLayout, k: Source)
    requires Shapes(s) && ArraysOk(s, k)
    ensures SavedTo(s, k, 0)
  {
    forall c | 0 <= c < |s.planes| ensures 0 * s.planes[c].v == 0 {
    }
  }

  /** jinit_c_coef_controller: arrays padded to whole MCUs. */
  method NewArrays(s: ScanLayout) returns (whole: seq<array2<Block>>)
    requires ScanOk(s) && Shapes(s)
    ensures ArraysOk(s, Saved(whole)) && forall c :: 0 <= c < |whole| ==> fresh(whole[c])
  {
    hide DivRoundUp, LastGroup;
    whole := [];
    for c := 0 to |s.planes|
      invariant |whole| == c && forall d :: 0 <= d < c ==> fresh(whole[d]) && ArrayOk(s.planes[d], whole[d], s.imcuRows)
      invariant forall d, f :: 0 <= d < f < c ==> whole[d] != whole[f]
    {
      var p := s.planes[c];
      MulMono(0, s.imcuRows, p.v);
      MulMono(0, DivRoundUp(p.width, p.h), p.h);
      var a := new Block[s.imcuRows * p.v, DivRoundUp(p.width, p.h) * p.h]((_, _) => Dummy(0));
      whole := whole + [a];
    }
  }

  /** One pass, two passes, or transcoding, suspended wherever they may be: the entropy coder is
      handed the same MCUs in the same order, and in the two-pass case twice, with every block of
      the image in exactly one place and plain dummies in the others. */
  method ThreeWays(s: ScanLayout, p1: seq<bool>, p2: seq<bool>, p3: seq<bool>, p4: seq<bool>)
      returns (onePass: seq<seq<Block>>, firstPass: seq<seq<Block>>, output: seq<seq<Block>>, transcoded: seq<seq<Block>>)
    requires ScanOk(s) && Shapes(s) && McusFit(s)
    ensures onePass == firstPass == output == transcoded
    ensures s.mcusPerRow > 0 && |onePass| == McuRows(s) * s.mcusPerRow && InOrder(s, onePass)
    ensures GroupsOk(s) && EachOnce(s, onePass) && DummiesPlain(s, onePass)
  {
    hide ScanOk, McusFit, Shapes, InOrder, EachOnce, GroupsOk, DummiesPlain;
    var whole := NewArrays(s);
    onePass := WholePass(s, Dct, false, p1);
    firstPass := WholePass(s, Saved(whole), true, p2);
    output := WholePass(s, Saved(whole), false, p3);
    transcoded := WholePass(s, Transcode, false, p4);
    SameMcus(s, onePass, firstPass);
    SameMcus(s, onePass, output);
    SameMcus(s, onePass, transcoded);
    RealBlockOnce(s, onePass);
    DummiesArePlain(s, onePass);
  }

  lemma SameMcus(s: ScanLayout, a: seq<seq<Block>>, b: seq<seq<Block>>)
    requires Shapes(s) && s.mcusPerRow > 0 && InOrder(s, a) && InOrder(s, b) && |a| == |b|
    ensures a == b
  {
  }
}
