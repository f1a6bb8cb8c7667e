/** From scanlines to iMCU rows (jcapistd.c, jcmainct.c, jcprepct.c): however the caller splits
    the rows and however often the compressor suspends, each iMCU row is compressed once, in
    order, with the same contents. */
module RowControl {
  import opened Powers
  import opened McuAssembly

  // ----- What each iMCU row must hold

  /** How a row group of every component is made of the rows of the conversion buffer, and how a
      group is repeated below the image: all rows copies of the group's last. */
  datatype Downsampler<!Row, !Group> = Downsampler(down: seq<Row> -> Group, repeated: Group -> Group)

  /** Rows of group g, the last row of the image repeated as far as needed. */
  function GroupRows<Row>(image: seq<Row>, v: nat, g: nat): (r: seq<Row>)
    requires image != []
    ensures |r| == v
  {
    seq(v, j requires 0 <= j < v => if g * v + j < |image| then image[g * v + j] else image[|image| - 1])
  }

  /** Row group g of the image extended downwards. */
  function GroupAt<Row, Group>(image: seq<Row>, v: nat, d: Downsampler<Row, Group>, g: nat): Group
    requires image != [] && v > 0
  {
    var groups := DivRoundUp(|image|, v);
    if g < groups then d.down(GroupRows(image, v, g)) else d.repeated(d.down(GroupRows(image, v, groups - 1)))
  }

  /** iMCU row r: eight row groups. */
  function Strip<Row, Group>(image: seq<Row>, v: nat, d: Downsampler<Row, Group>, r: nat): (s: seq<Group>)
    requires image != [] && v > 0
    ensures |s| == DCTSIZE
  {
    seq(DCTSIZE, i requires 0 <= i < DCTSIZE => GroupAt(image, v, d, r * DCTSIZE + i))
  }

  function Strips<Row, Group>(image: seq<Row>, v: nat, d: Downsampler<Row, Group>, n: nat): (s: seq<seq<Group>>)
    requires image != [] && v > 0
    ensures |s| == n
  {
    seq(n, r requires 0 <= r < n => Strip(image, v, d, r))
  }

  // ----- Row counts

  /** Rows before group g. */
  function RowOfGroup(g: nat, v: nat): nat {
    g * v
  }

  lemma NextGroup(g: nat, v: nat)
    ensures RowOfGroup(g + 1, v) == RowOfGroup(g, v) + v
  {
    Distribute(g, 1, v);
  }

  /** total_iMCU_rows. */
  function ImcuRows(height: nat, v: nat): nat
    requires v > 0
  {
    DivRoundUp(height, v * DCTSIZE)
  }

  lemma StripRows(r: nat, v: nat)
    ensures RowOfGroup(r * DCTSIZE, v) == r * (v * DCTSIZE)
  {
  }

  /** A row of the image lies in one of its iMCU rows. */
  lemma StripInImage(height: nat, v: nat, r: nat)
    requires v > 0 && RowOfGroup(r * DCTSIZE, v) < height
    ensures r < ImcuRows(height, v)
  {
    StripRows(r, v);
    var n := ImcuRows(height, v);
    if n <= r {
      MulMono(n, r, v * DCTSIZE);
    }
  }

  /** The iMCU row in which the image ends is the last. */
  lemma StripIsLast(height: nat, v: nat, r: nat)
    requires v > 0 && RowOfGroup(r * DCTSIZE, v) < height <= RowOfGroup((r + 1) * DCTSIZE, v)
    ensures r + 1 == ImcuRows(height, v)
  {
    StripRows(r, v);
    StripRows(r + 1, v);
    RoundUpUnique(height, v * DCTSIZE, r + 1);
  }

  lemma LastGroupIs(height: nat, v: nat, g: nat)
    requires v > 0 && RowOfGroup(g, v) < height <= RowOfGroup(g + 1, v)
    ensures g + 1 == DivRoundUp(height, v)
  {
    RoundUpUnique(height, v, g + 1);
  }

  lemma GroupInImage(height: nat, v: nat, g: nat)
    requires v > 0 && RowOfGroup(g, v) < height
    ensures g < DivRoundUp(height, v)
  {
    var n := DivRoundUp(height, v);
    if n <= g {
      MulMono(n, g, v);
    }
  }

  // ----- The compressor's row buffers

  class Compressor<Row, Group> {
    ghost const image: seq<Row>            // what the caller is writing
    const d: Downsampler<Row, Group>
    const height: nat
    const v: nat                           // max_v_samp_factor
    const buffer: array<Group>             // the main controller's strip
    const colorBuf: array<Row>             // the preprocessor's conversion buffer
    var nextScanline: nat
    var curImcuRow: nat
    var rowgroupCtr: nat
    var suspended: bool
    var rowsToGo: nat
    var nextBufRow: nat
    var compressed: seq<seq<Group>>        // iMCU rows the coefficient controller has finished

    /** The group being put together. */
    ghost function Group(): nat
      reads this
    {
      curImcuRow * DCTSIZE + rowgroupCtr
    }

    ghost predicate Sizes()
      reads this
    {
      && image != [] && |image| == height && v > 0 && buffer.Length == DCTSIZE && colorBuf.Length == v
      && (buffer as object) != colorBuf && rowgroupCtr <= DCTSIZE && nextBufRow < v && rowsToGo <= height
    }

    /** The rows taken so far are where they should be. */
    ghost predicate Counted()
      reads this
      requires Sizes()
    {
      if rowsToGo > 0 then
        curImcuRow < ImcuRows(height, v) && height - rowsToGo == RowOfGroup(Group(), v) + nextBufRow
      else
        && nextBufRow == 0
        && if rowgroupCtr == DCTSIZE then curImcuRow + 1 == ImcuRows(height, v) else curImcuRow == ImcuRows(height, v) && rowgroupCtr == 0
    }

    ghost predicate Filled()
      reads this, buffer, colorBuf
      requires Sizes() && Counted()
    {
      && (forall i :: 0 <= i < rowgroupCtr ==> buffer[i] == GroupAt(image, v, d, curImcuRow * DCTSIZE + i))
      && (rowsToGo > 0 ==> forall j :: 0 <= j < nextBufRow ==> colorBuf[j] == image[RowOfGroup(Group(), v) + j])
      && compressed == Strips(image, v, d, curImcuRow)
    }

    ghost predicate Inv()
      reads this, buffer, colorBuf
    {
      Sizes() && Counted() && Filled()
    }

    /** Between calls. */
    ghost predicate Valid()
      reads this, buffer, colorBuf
    {
      && Inv() && (suspended <==> rowgroupCtr == DCTSIZE)
      && nextScanline + (if suspended then 1 else 0) == height - rowsToGo
    }

    constructor (ghost image: seq<Row>, height: nat, v: nat, d: Downsampler<Row, Group>, noRow: Row, noGroup: Group)
      requires image != [] && |image| == height && v > 0
      ensures Valid() && nextScanline == 0 && compressed == [] && fresh(buffer) && fresh(colorBuf)
      ensures this.image == image && this.d == d && this.v == v && this.height == height
    {
      this.image, this.height, this.v, this.d := image, height, v, d;
      buffer := new Group[DCTSIZE](_ => noGroup);
      colorBuf := new Row[v](_ => noRow);
      nextScanline, curImcuRow, rowgroupCtr, suspended := 0, 0, 0, false;
      rowsToGo, nextBufRow, compressed := height, 0, [];
      new;
      StripInImage(height, v, 0);
    }
  
    /** The caller's rows are those of the image from row start on. */
    ghost predicate Supplies(scanlines: seq<Row>, start: nat, avail: nat)
      reads this
    {
      avail <= |scanlines| && start + avail <= |image| && forall i :: 0 <= i < avail ==> scanlines[i] == image[start + i]
    }

    /** Colour conversion into the conversion buffer; rows are taken as already converted. */
    method ConvertRows(scanlines: seq<Row>, inRowCtr: nat, numrows: nat, ghost start: nat, ghost avail: nat)
      requires Inv() && rowsToGo > 0 && Supplies(scanlines, start, avail) && start + inRowCtr == height - rowsToGo
      requires inRowCtr + numrows <= avail && nextBufRow + numrows <= v
      modifies colorBuf
      ensures Inv()
      ensures forall j :: 0 <= j < nextBufRow + numrows ==> colorBuf[j] == image[RowOfGroup(Group(), v) + j]
    {
      hide GroupAt, Strips, ImcuRows, RowOfGroup;
      for i := 0 to numrows
        invariant forall j :: 0 <= j < nextBufRow + i ==> colorBuf[j] == image[RowOfGroup(Group(), v) + j]
      {
        assert scanlines[inRowCtr + i] == image[start + (inRowCtr + i)];
        colorBuf[nextBufRow + i] := scanlines[inRowCtr + i];
      }
    }

    /** expand_bottom_edge on the conversion buffer. */
    method ExpandRows(inputRows: nat)
      requires 0 < inputRows <= colorBuf.Length
      modifies colorBuf
      ensures forall j :: 0 <= j < inputRows ==> colorBuf[j] == old(colorBuf[j])
      ensures forall j :: inputRows <= j < colorBuf.Length ==> colorBuf[j] == old(colorBuf[inputRows - 1])
    {
      for row := inputRows to colorBuf.Length
        invariant forall j :: 0 <= j < inputRows ==> colorBuf[j] == old(colorBuf[j])
        invariant forall j :: inputRows <= j < row ==> colorBuf[j] == old(colorBuf[inputRows - 1])
      {
        colorBuf[row] := colorBuf[inputRows - 1];
      }
    }

    /** expand_bottom_edge on the strip. */
    method ExpandGroups()
      requires 0 < rowgroupCtr <= buffer.Length == DCTSIZE
      modifies buffer
      ensures forall i :: 0 <= i < rowgroupCtr ==> buffer[i] == old(buffer[i])
      ensures forall i :: rowgroupCtr <= i < DCTSIZE ==> buffer[i] == d.repeated(old(buffer[rowgroupCtr - 1]))
    {
      for g := rowgroupCtr to DCTSIZE
        invariant forall i :: 0 <= i < rowgroupCtr ==> buffer[i] == old(buffer[i])
        invariant forall i :: rowgroupCtr <= i < g ==> buffer[i] == d.repeated(old(buffer[rowgroupCtr - 1]))
      {
        buffer[g] := d.repeated(buffer[rowgroupCtr - 1]);
      }
    }
  
    /** The conversion buffer is full, its last rows perhaps copies: downsample it into the strip. */
    method EmptyColorBuf(ghost n: nat)
      requires Sizes() && rowgroupCtr < DCTSIZE && 0 < n <= v && RowOfGroup(Group(), v) + n <= height
      requires n < v ==> RowOfGroup(Group(), v) + n == height
      requires forall j :: 0 <= j < n ==> colorBuf[j] == image[RowOfGroup(Group(), v) + j]
      requires forall j :: n <= j < v ==> colorBuf[j] == image[height - 1]
      requires forall i :: 0 <= i < rowgroupCtr ==> buffer[i] == GroupAt(image, v, d, curImcuRow * DCTSIZE + i)
      modifies buffer, this`nextBufRow, this`rowgroupCtr
      ensures nextBufRow == 0 && rowgroupCtr == old(rowgroupCtr) + 1
      ensures forall i :: 0 <= i < rowgroupCtr ==> buffer[i] == GroupAt(image, v, d, curImcuRow * DCTSIZE + i)
    {
      FullGroup(image, v, d, Group(), colorBuf[..], n);
      hide GroupAt, RowOfGroup;
      buffer[rowgroupCtr] := d.down(colorBuf[..]);
      nextBufRow, rowgroupCtr := 0, rowgroupCtr + 1;
    }

    /** The image has ended in this group: the strip is completed with copies. */
    method PadStrip(ghost g: nat)
      requires Sizes() && 0 < rowgroupCtr < DCTSIZE && g + 1 == Group()
      requires RowOfGroup(g, v) < height <= RowOfGroup(g + 1, v)
      requires forall i :: 0 <= i < rowgroupCtr ==> buffer[i] == GroupAt(image, v, d, curImcuRow * DCTSIZE + i)
      modifies buffer, this`rowgroupCtr
      ensures rowgroupCtr == DCTSIZE
      ensures forall i :: 0 <= i < rowgroupCtr ==> buffer[i] == GroupAt(image, v, d, curImcuRow * DCTSIZE + i)
    {
      ghost var n, was := rowgroupCtr, buffer[..];
      RepeatedGroup(image, v, d, g);
      assert was[n - 1] == GroupAt(image, v, d, curImcuRow * DCTSIZE + (n - 1));
      hide GroupAt, RowOfGroup;
      ExpandGroups();
      rowgroupCtr := DCTSIZE;
    }
  
    /** Rows have been taken into the conversion buffer, perhaps the last that fit. */
    ghost predicate Holding()
      reads this, buffer, colorBuf
    {
      && image != [] && |image| == height && v > 0 && buffer.Length == DCTSIZE && colorBuf.Length == v
      && (buffer as object) != colorBuf && rowgroupCtr < DCTSIZE && 0 < nextBufRow <= v && rowsToGo <= height
      && curImcuRow < ImcuRows(height, v) && height - rowsToGo == RowOfGroup(Group(), v) + nextBufRow
      && (forall i :: 0 <= i < rowgroupCtr ==> buffer[i] == GroupAt(image, v, d, curImcuRow * DCTSIZE + i))
      && (forall j :: 0 <= j < nextBufRow ==> colorBuf[j] == image[RowOfGroup(Group(), v) + j])
      && compressed == Strips(image, v, d, curImcuRow)
    }

    /** One turn of pre_process_data. */
    method PreProcessTurn(scanlines: seq<Row>, inRowCtr0: nat, avail: nat, ghost start: nat) returns (inRowCtr: nat)
      requires Inv() && Supplies(scanlines, start, avail) && start + inRowCtr0 == height - rowsToGo
      requires inRowCtr0 < avail && rowgroupCtr < DCTSIZE
      modifies buffer, colorBuf, this`rowsToGo, this`nextBufRow, this`rowgroupCtr
      ensures Inv() && inRowCtr0 < inRowCtr <= avail && start + inRowCtr == height - rowsToGo
    {
      hide GroupAt, RowOfGroup, Strips, ImcuRows;
      var inrows, numrows := avail - inRowCtr0, v - nextBufRow;
      if inrows < numrows {
        numrows := inrows;
      }
      ConvertRows(scanlines, inRowCtr0, numrows, start, avail);
      inRowCtr := inRowCtr0 + numrows;
      rowsToGo, nextBufRow := rowsToGo - numrows, nextBufRow + numrows;
      EndTurn();
    }

    /** The conversion buffer may be full now, and the image at its end. */
    method EndTurn()
      requires Holding()
      modifies buffer, colorBuf, this`nextBufRow, this`rowgroupCtr
      ensures Inv()
    {
      var filled := nextBufRow;
      nextBufRow := 0;
      GroupCounts(height, v, curImcuRow, rowgroupCtr);
      hide GroupAt, RowOfGroup, Strips, ImcuRows;
      ghost var n, g := filled, Group();
      if rowsToGo == 0 && filled < v {
        ExpandRows(filled);
        filled := v;
      }
      if filled == v {
        EmptyColorBuf(n);
      } else {
        nextBufRow := filled;
      }
      if rowsToGo == 0 && rowgroupCtr < DCTSIZE {
        PadStrip(g);
      }
    }
  
    /** pre_process_data, until the rows run out or the strip is full. */
    method PreProcessData(scanlines: seq<Row>, inRowCtr0: nat, avail: nat, ghost start: nat) returns (inRowCtr: nat)
      requires Inv() && Supplies(scanlines, start, avail) && start + inRowCtr0 == height - rowsToGo && rowgroupCtr < DCTSIZE
      modifies buffer, colorBuf, this`rowsToGo, this`nextBufRow, this`rowgroupCtr
      ensures Inv() && inRowCtr0 <= inRowCtr && start + inRowCtr == height - rowsToGo
      ensures if inRowCtr0 < avail then inRowCtr <= avail else inRowCtr == inRowCtr0
      ensures rowgroupCtr < DCTSIZE ==> inRowCtr >= avail
      ensures rowgroupCtr == DCTSIZE ==> inRowCtr0 < inRowCtr
    {
      hide Inv;
      inRowCtr := inRowCtr0;
      while inRowCtr < avail && rowgroupCtr < DCTSIZE
        invariant Inv() && inRowCtr0 <= inRowCtr && start + inRowCtr == height - rowsToGo
        invariant if inRowCtr0 < avail then inRowCtr <= avail else inRowCtr == inRowCtr0
        invariant rowgroupCtr <= DCTSIZE && (rowgroupCtr == DCTSIZE ==> inRowCtr0 < inRowCtr)
        decreases avail - inRowCtr
      {
        inRowCtr := PreProcessTurn(scanlines, inRowCtr, avail, start);
        GroupsAtMost();
      }
    }

    lemma GroupsAtMost()
      requires Inv()
      ensures rowgroupCtr <= DCTSIZE
    {
    }

    /** The coefficient controller is handed the strip; it finishes it unless it suspends. */
    method CompressData(accept: bool)
      requires Inv() && rowgroupCtr == DCTSIZE
      modifies this`compressed, this`rowgroupCtr, this`curImcuRow
      ensures Inv() && rowgroupCtr == if accept then 0 else DCTSIZE
      ensures curImcuRow == old(curImcuRow) + if accept then 1 else 0
    {
      if accept {
        StripDone(height, v, curImcuRow);
        assert buffer[..] == Strip(image, v, d, curImcuRow);
        StripsNext(image, v, d, curImcuRow);
        hide GroupAt, Strips, RowOfGroup, ImcuRows;
        compressed := compressed + [buffer[..]];
        rowgroupCtr, curImcuRow := 0, curImcuRow + 1;
      }
    }

    /** process_data_simple_main.  patience says which strips the coefficient controller refuses. */
    method ProcessData(scanlines: seq<Row>, avail: nat, patience0: seq<bool>) returns (inRowCtr: nat, patience: seq<bool>)
      requires Valid() && Supplies(scanlines, nextScanline, avail)
      modifies this, buffer, colorBuf
      ensures Inv() && (suspended <==> rowgroupCtr == DCTSIZE) && nextScanline == old(nextScanline)
      ensures nextScanline + inRowCtr + (if suspended then 1 else 0) == height - rowsToGo
      ensures inRowCtr <= avail || (inRowCtr == 1 && old(suspended) && avail == 0)
      ensures !suspended ==> inRowCtr >= avail
      ensures |patience| <= |patience0| && (suspended ==> |patience| < |patience0|)
    {
      hide Strips, GroupAt, RowOfGroup, GroupRows;
      ghost var start := nextScanline;
      inRowCtr, patience := 0, patience0;
      while curImcuRow < ImcuRows(height, v)
        invariant Inv() && (suspended ==> rowgroupCtr == DCTSIZE) && (rowgroupCtr == DCTSIZE ==> suspended)
        invariant Supplies(scanlines, start, avail) && nextScanline == start && |patience| <= |patience0|
        invariant start + inRowCtr + (if suspended then 1 else 0) == height - rowsToGo
        invariant inRowCtr <= avail || (inRowCtr == 1 && old(suspended) && avail == 0)
        invariant suspended ==> inRowCtr == 0 && old(suspended)
        decreases ImcuRows(height, v) - curImcuRow
      {
        if rowgroupCtr < DCTSIZE {
          inRowCtr := PreProcessData(scanlines, inRowCtr, avail, start);
        }
        if rowgroupCtr != DCTSIZE {
          return;
        }
        var accept := patience == [] || patience[0];
        if patience != [] {
          patience := patience[1..];
        }
        CompressData(accept);
        if !accept {
          if !suspended {
            inRowCtr := inRowCtr - 1;
            suspended := true;
          }
          return;
        }
        if suspended {
          inRowCtr := inRowCtr + 1;
          suspended := false;
        }
      }
    }
  
    /** jpeg_write_scanlines; returns the number of lines taken.  Excess lines are ignored. */
    method WriteScanlines(scanlines: seq<Row>, patience0: seq<bool>) returns (rowCtr: nat, patience: seq<bool>)
      requires Valid()
      requires forall i :: 0 <= i < |scanlines| && nextScanline + i < height ==> scanlines[i] == image[nextScanline + i]
      modifies this, buffer, colorBuf
      ensures Valid() && nextScanline == old(nextScanline) + rowCtr <= height
      ensures rowCtr <= |scanlines| || (rowCtr == 1 && scanlines == [] && old(suspended))
      ensures !suspended ==> nextScanline == height || rowCtr >= |scanlines|
      ensures |patience| <= |patience0| && (suspended ==> |patience| < |patience0|)
    {
      hide Strips, GroupAt, RowOfGroup, ImcuRows;
      var rowsLeft, numLines := height - nextScanline, |scanlines|;
      if numLines > rowsLeft {
        numLines := rowsLeft;
      }
      rowCtr, patience := ProcessData(scanlines, numLines, patience0);
      nextScanline := nextScanline + rowCtr;
    }

    /** When all lines have been taken, all iMCU rows have been compressed. */
    lemma AllCompressed()
      requires Valid() && nextScanline == height
      ensures compressed == Strips(image, v, d, ImcuRows(height, v))
    {
    }
  }

  lemma StripDone(height: nat, v: nat, r: nat)
    requires v > 0 && height > 0
    ensures RowOfGroup((r + 1) * DCTSIZE, v) == RowOfGroup(r * DCTSIZE + DCTSIZE, v)
    ensures RowOfGroup((r + 1) * DCTSIZE, v) < height ==> r + 1 < ImcuRows(height, v)
  {
    if RowOfGroup((r + 1) * DCTSIZE, v) < height {
      StripInImage(height, v, r + 1);
    }
  }

  lemma StripsNext<Row, Group>(image: seq<Row>, v: nat, d: Downsampler<Row, Group>, n: nat)
    requires image != [] && v > 0
    ensures Strips(image, v, d, n + 1) == Strips(image, v, d, n) + [Strip(image, v, d, n)]
  {
  }

  /** Where a group begins and ends, and when its strip is the last. */
  lemma GroupCounts(height: nat, v: nat, r: nat, i: nat)
    requires v > 0 && i < DCTSIZE
    ensures RowOfGroup(r * DCTSIZE + i + 1, v) == RowOfGroup(r * DCTSIZE + i, v) + v
    ensures RowOfGroup(r * DCTSIZE + i, v) < height <= RowOfGroup(r * DCTSIZE + i, v) + v ==> r + 1 == ImcuRows(height, v)
  {
    NextGroup(r * DCTSIZE + i, v);
    MulMono(r * DCTSIZE, r * DCTSIZE + i, v);
    MulMono(r * DCTSIZE + i + 1, (r + 1) * DCTSIZE, v);
    if RowOfGroup(r * DCTSIZE + i, v) < height <= RowOfGroup(r * DCTSIZE + i, v) + v {
      StripIsLast(height, v, r);
    }
  }

  /** A full conversion buffer holds its group, the last one completed with copies of the last row. */
  lemma FullGroup<Row, Group>(image: seq<Row>, v: nat, d: Downsampler<Row, Group>, g: nat, rows: seq<Row>, n: nat)
    requires image != [] && 0 < n <= v == |rows| && RowOfGroup(g, v) + n <= |image|
    requires n < v ==> RowOfGroup(g, v) + n == |image|
    requires forall j :: 0 <= j < n ==> rows[j] == image[RowOfGroup(g, v) + j]
    requires forall j :: n <= j < v ==> rows[j] == image[|image| - 1]
    ensures d.down(rows) == GroupAt(image, v, d, g)
  {
    GroupInImage(|image|, v, g);
    assert rows == GroupRows(image, v, g);
  }

  lemma RepeatedGroup<Row, Group>(image: seq<Row>, v: nat, d: Downsampler<Row, Group>, g: nat)
    requires image != [] && v > 0 && RowOfGroup(g, v) < |image| <= RowOfGroup(g + 1, v)
    ensures forall h: nat :: g < h ==> GroupAt(image, v, d, h) == d.repeated(GroupAt(image, v, d, g))
  {
    LastGroupIs(|image|, v, g);
  }

  // ----- Where the rows of the image are

  /** Image row y is in row group y / v % 8 of iMCU row y / (8 v), with its neighbours in the group; the
      rows that the group lacks are copies of the image's last. */
  ghost predicate RowPlaced<Row(!new), Group>(image: seq<Row>, v: nat, d: Downsampler<Row, Group>, compressed: seq<seq<Group>>, y: nat)
    requires image != [] && v > 0
  {
    var r, g := y / (8 * v), y / v % 8;
    && 0 <= r < |compressed| && 0 <= g < |compressed[r]|
    && exists rows: seq<Row> :: |rows| == v && compressed[r][g] == d.down(rows)
         && forall j :: 0 <= j < v ==> 0 <= y - y % v + j && rows[j] == if y - y % v + j < |image| then image[y - y % v + j] else image[|image| - 1]
  }

  /** Group i of iMCU row r begins below the image: it repeats the group with the image's last row. */
  ghost predicate GroupRepeated<Row, Group>(image: seq<Row>, v: nat, d: Downsampler<Row, Group>, compressed: seq<seq<Group>>, r: nat, i: nat)
    requires image != [] && v > 0
  {
    var y := |image| - 1;
    && 0 <= y / (8 * v) < |compressed| && 0 <= y / v % 8 < |compressed[y / (8 * v)]| && r < |compressed| && i < |compressed[r]|
    && compressed[r][i] == d.repeated(compressed[y / (8 * v)][y / v % 8])
  }

  /** Every row of the image is where it belongs, and the rest repeats its last. */
  ghost predicate WellPlaced<Row(!new), Group>(image: seq<Row>, v: nat, d: Downsampler<Row, Group>, compressed: seq<seq<Group>>)
    requires image != [] && v > 0
  {
    && (forall r :: 0 <= r < |compressed| ==> |compressed[r]| == 8)
    && (forall y: nat :: y < |image| ==> RowPlaced(image, v, d, compressed, y))
    && forall r: nat, i: nat :: r < |compressed| && i < 8 && (8 * r + i) * v >= |image| ==> GroupRepeated(image, v, d, compressed, r, i)
  }

  lemma TwoDivisions(y: nat, v: nat)
    requires v > 0
    ensures 0 <= y / v && 0 <= y / (8 * v) && y / (8 * v) * 8 + y / v % 8 == y / v && y - y % v == y / v * v >= 0
  {
    FloorBounds(y, v);
    FloorAtLeast(y, v, 0);
    var g := y / v;
    FloorBounds(g, 8);
    assert g / 8 * 8 * v == g / 8 * (8 * v);
    Distribute(g / 8 * 8, g % 8, v);
    MulMono(g % 8, 7, v);
    DivUnique(y, 8 * v, g / 8, g % 8 * v + y % v);
  }

  /** The group of an image row. */
  lemma RowGroup<Row, Group>(image: seq<Row>, v: nat, d: Downsampler<Row, Group>, y: nat)
    requires image != [] && v > 0 && y < |image|
    ensures var s := Strips(image, v, d, ImcuRows(|image|, v));
      && 0 <= y / (8 * v) < |s| && 0 <= y / v % 8 < |s[y / (8 * v)]| && 0 <= y / v
      && s[y / (8 * v)][y / v % 8] == d.down(GroupRows(image, v, y / v))
  {
    TwoDivisions(y, v);
    var r, g: nat := y / (8 * v), y / v;
    GroupInImage(|image|, v, g);
    MulMono(r * 8, g, v);
    StripInImage(|image|, v, r);
    assert Strips(image, v, d, ImcuRows(|image|, v))[r] == Strip(image, v, d, r);
    assert r * DCTSIZE + g % 8 == g;
    assert Strip(image, v, d, r)[g % 8] == GroupAt(image, v, d, g);
  }

  lemma RowIsPlaced<Row(!new), Group>(image: seq<Row>, v: nat, d: Downsampler<Row, Group>, y: nat)
    requires image != [] && v > 0 && y < |image|
    ensures RowPlaced(image, v, d, Strips(image, v, d, ImcuRows(|image|, v)), y)
  {
    hide Strips, ImcuRows, DivRoundUp;
    RowGroup(image, v, d, y);
    TwoDivisions(y, v);
    var rows := GroupRows(image, v, y / v);
    forall j | 0 <= j < v ensures rows[j] == if y - y % v + j < |image| then image[y - y % v + j] else image[|image| - 1] {
    }
  }

  lemma GroupIsRepeated<Row, Group>(image: seq<Row>, v: nat, d: Downsampler<Row, Group>, r: nat, i: nat)
    requires image != [] && v > 0 && r < ImcuRows(|image|, v) && i < 8 && (8 * r + i) * v >= |image|
    ensures GroupRepeated(image, v, d, Strips(image, v, d, ImcuRows(|image|, v)), r, i)
  {
    var y := |image| - 1;
    RowGroup(image, v, d, y);
    LastRowGroup(|image|, v);
    RepeatedGroup(image, v, d, y / v);
    BeyondLast(|image|, v, r * DCTSIZE + i);
    GroupInImage(|image|, v, y / v);
    assert Strips(image, v, d, ImcuRows(|image|, v))[r][i] == GroupAt(image, v, d, r * DCTSIZE + i);
  }

  lemma LastRowGroup(height: nat, v: nat)
    requires v > 0 && height > 0
    ensures 0 <= (height - 1) / v && RowOfGroup((height - 1) / v, v) < height <= RowOfGroup((height - 1) / v + 1, v)
  {
    FloorBounds(height - 1, v);
    FloorAtLeast(height - 1, v, 0);
    Distribute((height - 1) / v, 1, v);
  }

  lemma BeyondLast(height: nat, v: nat, g: nat)
    requires v > 0 && height > 0 && g * v >= height
    ensures (height - 1) / v < g
  {
    LastRowGroup(height, v);
    MulMono(g, (height - 1) / v, v);
  }

  lemma RowsWellPlaced<Row(!new), Group>(image: seq<Row>, v: nat, d: Downsampler<Row, Group>)
    requires image != [] && v > 0
    ensures WellPlaced(image, v, d, Strips(image, v, d, ImcuRows(|image|, v)))
  {
    hide ImcuRows, RowPlaced, GroupRepeated;
    forall y: nat | y < |image| ensures RowPlaced(image, v, d, Strips(image, v, d, ImcuRows(|image|, v)), y) {
      RowIsPlaced(image, v, d, y);
    }
    forall r: nat, i: nat | r < ImcuRows(|image|, v) && i < 8 && (8 * r + i) * v >= |image|
      ensures GroupRepeated(image, v, d, Strips(image, v, d, ImcuRows(|image|, v)), r, i)
    {
      GroupIsRepeated(image, v, d, r, i);
    }
  }

  /** The caller: lines in portions of any sizes, the rest at once when those are used up, again
      from next_scanline after every call. */
  method WriteImage<Row(!new), Group>(image: seq<Row>, v: nat, d: Downsampler<Row, Group>, noRow: Row, noGroup: Group,
                                sizes0: seq<nat>, patience0: seq<bool>)
      returns (compressed: seq<seq<Group>>, total: nat)
    requires image != [] && v > 0
    ensures compressed == Strips(image, v, d, ImcuRows(|image|, v)) && total == |image|
    ensures WellPlaced(image, v, d, compressed)
  {
    hide ImcuRows, Strips, Compressor.Valid, WellPlaced;
    var c := new Compressor<Row, Group>(image, |image|, v, d, noRow, noGroup);
    var sizes: seq<nat>, patience := sizes0, patience0;
    total := 0;
    while c.nextScanline < |image|
      invariant c.Valid() && fresh(c) && fresh(c.buffer) && fresh(c.colorBuf)
      invariant c.image == image && c.height == |image| && c.v == v && c.d == d
      invariant total == c.nextScanline <= |image|
      decreases |sizes| + |patience|, |image| - c.nextScanline
    {
      var n := |image| - c.nextScanline;
      if sizes != [] {
        if sizes[0] < n {
          n := sizes[0];
        }
        sizes := sizes[1..];
      }
      var taken;
      taken, patience := c.WriteScanlines(image[c.nextScanline..c.nextScanline + n], patience);
      total := total + taken;
    }
    c.AllCompressed();
    compressed := c.compressed;
    RowsWellPlaced(image, v, d);
  }
}
