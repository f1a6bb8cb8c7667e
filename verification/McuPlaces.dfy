/** Where the blocks of an image lie in the sequence of MCUs that the entropy coder is handed. */
module McuPlaces {
  import opened Powers
  import opened NaturalOrder
  import opened McuAssembly

  // ----- The sequence

  /** MCU i of the scan, row by row. */
  function McuAt(s: ScanLayout, i: nat): (r: seq<Block>)
    requires Shapes(s) && s.mcusPerRow > 0
  {
    Position(i, s.mcusPerRow);
    McuBlocks(s, i / s.mcusPerRow, i % s.mcusPerRow, |s.planes|)
  }

  /** The first MCUs of the scan, in order. */
  ghost predicate InOrder(s: ScanLayout, sent: seq<seq<Block>>)
    requires Shapes(s) && s.mcusPerRow > 0
  {
    forall i :: 0 <= i < |sent| ==> sent[i] == McuAt(s, i)
  }

  // ----- Positions in it

  /** A position: an MCU of the sequence, and a block of it. */
  datatype Slot = Slot(mcu: nat, pos: nat)

  /** A block of a component that has been extended to whole MCUs. */
  datatype Origin = Origin(c: nat, y: nat, x: nat)

  /** Blocks of an MCU before those of component n. */
  function Offset(s: ScanLayout, n: nat): nat
    requires n <= |s.planes|
  {
    if n == 0 then 0 else Offset(s, n - 1) + McuWidth(s, s.planes[n - 1]) * McuHeight(s, s.planes[n - 1])
  }

  /** Every MCU has whole groups of blocks. */
  ghost predicate GroupsOk(s: ScanLayout) {
    s.mcusPerRow > 0 && forall c :: 0 <= c < |s.planes| ==> McuWidth(s, s.planes[c]) > 0 && McuHeight(s, s.planes[c]) > 0
  }

  lemma ScanGroups(s: ScanLayout)
    requires ScanOk(s)
    ensures GroupsOk(s) && Shapes(s) && s.mcusPerRow > 0
  {
    hide DivRoundUp;
    LastGroupFills(s.planes[0].width, s.planes[0].h);
  }

  predicate SlotIn(s: ScanLayout, a: Slot) {
    a.mcu < McuRows(s) * s.mcusPerRow && a.pos < Offset(s, |s.planes|)
  }

  predicate OriginIn(s: ScanLayout, o: Origin) {
    && o.c < |s.planes|
    && o.y < McuRows(s) * McuHeight(s, s.planes[o.c]) && o.x < s.mcusPerRow * McuWidth(s, s.planes[o.c])
  }

  /** A block of the image. */
  predicate Real(s: ScanLayout, o: Origin) {
    o.c < |s.planes| && o.y < s.planes[o.c].height && o.x < s.planes[o.c].width
  }

  function SlotOf(s: ScanLayout, o: Origin): Slot
    requires GroupsOk(s) && o.c < |s.planes|
  {
    var w, h := McuWidth(s, s.planes[o.c]), McuHeight(s, s.planes[o.c]);
    Position(o.y, h);
    Position(o.x, w);
    Slot(o.y / h * s.mcusPerRow + o.x / w, Offset(s, o.c) + (o.y % h * w + o.x % w))
  }

  /** The component that block pos of an MCU belongs to, if it is one of the first n. */
  function PlaneAt(s: ScanLayout, pos: nat, n: nat): (c: nat)
    requires n <= |s.planes| && pos < Offset(s, n)
    ensures c < n && Offset(s, c) <= pos < Offset(s, c + 1)
  {
    if pos >= Offset(s, n - 1) then n - 1 else PlaneAt(s, pos, n - 1)
  }

  function OriginOf(s: ScanLayout, a: Slot): Origin
    requires GroupsOk(s) && a.pos < Offset(s, |s.planes|)
  {
    var c := PlaneAt(s, a.pos, |s.planes|);
    var w, h, r: nat := McuWidth(s, s.planes[c]), McuHeight(s, s.planes[c]), a.pos - Offset(s, c);
    Position(a.mcu, s.mcusPerRow);
    Position(r, w);
    Origin(c, a.mcu / s.mcusPerRow * h + r / w, a.mcu % s.mcusPerRow * w + r % w)
  }

  lemma {:induction false} OffsetMono(s: ScanLayout, m: nat, n: nat)
    requires m <= n <= |s.planes|
    ensures Offset(s, m) <= Offset(s, n)
    decreases n - m
  {
    if m < n {
      OffsetMono(s, m + 1, n);
      hide McuWidth, McuHeight;
      assert Offset(s, m + 1) == Offset(s, m) + McuWidth(s, s.planes[m]) * McuHeight(s, s.planes[m]);
    }
  }

  lemma PlaneAtIs(s: ScanLayout, pos: nat, c: nat)
    requires c < |s.planes| && Offset(s, c) <= pos < Offset(s, c + 1)
    ensures pos < Offset(s, |s.planes|) && PlaneAt(s, pos, |s.planes|) == c
  {
    OffsetMono(s, c + 1, |s.planes|);
    var d := PlaneAt(s, pos, |s.planes|);
    hide Offset, PlaneAt;
    if d < c {
      OffsetMono(s, d + 1, c);
    } else if c < d {
      OffsetMono(s, c + 1, d);
    }
  }

  /** An index into rows of equal length. */
  lemma InRows(q: nat, r: nat, b: nat, n: nat)
    requires q < n && r < b
    ensures q * b + r < n * b
  {
    MulMono(q + 1, n, b);
    Distribute(q, 1, b);
  }

  lemma RowBelow(a: nat, b: nat, n: nat)
    requires a < n * b && b > 0
    ensures 0 <= a / b < n
  {
    Position(a, b);
    if a / b >= n {
      MulMono(n, a / b, b);
    }
  }

  /** Each position is that of the block which it is the position of ... */
  lemma SlotInverts(s: ScanLayout, o: Origin)
    requires GroupsOk(s) && OriginIn(s, o)
    ensures SlotIn(s, SlotOf(s, o)) && OriginOf(s, SlotOf(s, o)) == o
  {
    var a, p := SlotOf(s, o), s.planes[o.c];
    var w, h, m := McuWidth(s, p), McuHeight(s, p), s.mcusPerRow;
    assert Offset(s, o.c + 1) == Offset(s, o.c) + h * w;
    hide McuWidth, McuHeight, McuRows, Offset;
    Position(o.y, h);
    Position(o.x, w);
    var qy: nat, qx: nat, ry: nat, rx: nat := o.y / h, o.x / w, o.y % h, o.x % w;
    RowBelow(o.y, h, McuRows(s));
    RowBelow(o.x, w, m);
    InRows(ry, rx, w, h);
    InRows(qy, qx, m, McuRows(s));
    PlaneAtIs(s, a.pos, o.c);
    PositionUnique(qy, qx, m);
    PositionUnique(ry, rx, w);
  }

  /** ... and each block that of its position. */
  lemma OriginInverts(s: ScanLayout, a: Slot)
    requires GroupsOk(s) && SlotIn(s, a)
    ensures OriginIn(s, OriginOf(s, a)) && SlotOf(s, OriginOf(s, a)) == a
  {
    var o := OriginOf(s, a);
    var p := s.planes[o.c];
    var w, h, m, r: nat := McuWidth(s, p), McuHeight(s, p), s.mcusPerRow, a.pos - Offset(s, o.c);
    assert Offset(s, o.c + 1) == Offset(s, o.c) + h * w;
    hide McuWidth, McuHeight, McuRows, Offset, PlaneAt;
    Position(a.mcu, m);
    Position(r, w);
    RowBelow(a.mcu, m, McuRows(s));
    RowBelow(r, w, h);
    InRows(a.mcu / m, r / w, h, McuRows(s));
    InRows(a.mcu % m, r % w, w, m);
    PositionUnique(a.mcu / m, r / w, h);
    PositionUnique(a.mcu % m, r % w, w);
  }

  // ----- What lies there

  lemma {:induction false} RowAt(p: Plane, y: nat, x: nat, w: nat, n: nat, iy: nat, ix: nat)
    requires PlaneOk(p) && iy < n && ix < w
    ensures iy * w + ix < w * n && PlaneBlocks(p, y, x, w, n)[iy * w + ix] == Padded(p, y + iy, x + ix)
  {
    InRows(iy, ix, w, n);
    Distribute(n - 1, 1, w);
    hide Padded;
    if iy < n - 1 {
      RowAt(p, y, x, w, n - 1, iy, ix);
    }
  }

  lemma {:induction false} McuLength(s: ScanLayout, my: nat, mx: nat, n: nat)
    requires Shapes(s) && n <= |s.planes|
    ensures |McuBlocks(s, my, mx, n)| == Offset(s, n)
  {
    if n > 0 {
      McuLength(s, my, mx, n - 1);
      hide PlaneBlocks, McuWidth, McuHeight;
    }
  }

  lemma {:induction false} LaterPlanes(s: ScanLayout, my: nat, mx: nat, m: nat, n: nat, i: nat)
    requires Shapes(s) && m <= n <= |s.planes| && i < |McuBlocks(s, my, mx, m)|
    ensures i < |McuBlocks(s, my, mx, n)| && McuBlocks(s, my, mx, n)[i] == McuBlocks(s, my, mx, m)[i]
    decreases n
  {
    if m < n {
      LaterPlanes(s, my, mx, m, n - 1, i);
      hide PlaneBlocks;
    }
  }

  /** Block (iy, ix) of component c in the MCU at row my and column mx. */
  lemma BlockAt(s: ScanLayout, my: nat, mx: nat, c: nat, w: nat, h: nat, iy: nat, ix: nat)
    requires Shapes(s) && c < |s.planes| && w == McuWidth(s, s.planes[c]) && h == McuHeight(s, s.planes[c]) && iy < h && ix < w
    ensures Offset(s, c) + iy * w + ix < |McuBlocks(s, my, mx, |s.planes|)|
    ensures McuBlocks(s, my, mx, |s.planes|)[Offset(s, c) + iy * w + ix] == Padded(s.planes[c], my * h + iy, mx * w + ix)
  {
    hide *;
    var p := s.planes[c];
    ShapeOf(s, c);
    McuLength(s, my, mx, c);
    NextPlane(s, my, mx, c);
    RowAt(p, my * h, mx * w, w, h, iy, ix);
    SecondPart(McuBlocks(s, my, mx, c), PlaneBlocks(p, my * h, mx * w, w, h), iy * w + ix);
    LaterPlanes(s, my, mx, c + 1, |s.planes|, Offset(s, c) + (iy * w + ix));
  }

  lemma ShapeOf(s: ScanLayout, c: nat)
    requires Shapes(s) && c < |s.planes|
    ensures PlaneOk(s.planes[c])
  {
  }

  lemma NextPlane(s: ScanLayout, my: nat, mx: nat, c: nat)
    requires Shapes(s) && c < |s.planes|
    ensures var p := s.planes[c];
      var w, h := McuWidth(s, p), McuHeight(s, p);
      McuBlocks(s, my, mx, c + 1) == McuBlocks(s, my, mx, c) + PlaneBlocks(p, my * h, mx * w, w, h)
  {
    hide PlaneBlocks, McuWidth, McuHeight;
  }

  lemma SecondPart(a: seq<Block>, b: seq<Block>, i: nat)
    requires i < |b|
    ensures |a| + i < |a + b| && (a + b)[|a| + i] == b[i]
  {
  }

  /** Position by position: what is sent is the block that it is the position of, extended. */
  lemma SentAt(s: ScanLayout, a: Slot)
    requires GroupsOk(s) && Shapes(s) && SlotIn(s, a)
    ensures var o := OriginOf(s, a);
      a.pos < |McuAt(s, a.mcu)| && o.c < |s.planes| && McuAt(s, a.mcu)[a.pos] == Padded(s.planes[o.c], o.y, o.x)
  {
    var o := OriginOf(s, a);
    var p := s.planes[o.c];
    var w, h, r: nat := McuWidth(s, p), McuHeight(s, p), a.pos - Offset(s, o.c);
    assert Offset(s, o.c + 1) == Offset(s, o.c) + h * w;
    Position(a.mcu, s.mcusPerRow);
    Position(r, w);
    hide McuWidth, McuHeight, McuRows, Offset, PlaneAt, Padded, McuBlocks, Shapes;
    RowBelow(r, w, h);
    BlockAt(s, a.mcu / s.mcusPerRow, a.mcu % s.mcusPerRow, o.c, w, h, r / w, r % w);
  }

  /** The sequence is the image's blocks, each of them exactly once, and dummies. */
  ghost predicate EachOnce(s: ScanLayout, sent: seq<seq<Block>>)
    requires GroupsOk(s) && Shapes(s)
  {
    && |sent| == McuRows(s) * s.mcusPerRow
    && (forall i :: 0 <= i < |sent| ==> |sent[i]| == Offset(s, |s.planes|))
    && (forall o: Origin :: Real(s, o) ==> SlotIn(s, SlotOf(s, o)))
    && (forall o: Origin, a: Slot :: Real(s, o) && SlotIn(s, a) ==> (OriginOf(s, a) == o <==> a == SlotOf(s, o)))
    && (forall a: Slot :: SlotIn(s, a) ==>
         var o := OriginOf(s, a);
         sent[a.mcu][a.pos] == if Real(s, o) then s.planes[o.c].blocks[o.y][o.x] else Padded(s.planes[o.c], o.y, o.x))
  }

  lemma RealIn(s: ScanLayout, o: Origin)
    requires ScanOk(s) && Real(s, o)
    ensures OriginIn(s, o) && o.c < |s.planes| && PlaneOk(s.planes[o.c])
    ensures Padded(s.planes[o.c], o.y, o.x) == s.planes[o.c].blocks[o.y][o.x]
  {
    var p := s.planes[o.c];
    assert !Interleaved(s) ==> s.planes[0] == p;
    assert PlaneOk(p) && p.height <= DivRoundUp(p.height, p.v) * p.v && p.width <= DivRoundUp(p.width, p.h) * p.h;
    hide DivRoundUp;
  }

  lemma SentLength(s: ScanLayout, i: nat)
    requires Shapes(s) && s.mcusPerRow > 0
    ensures |McuAt(s, i)| == Offset(s, |s.planes|)
  {
    hide McuBlocks, Offset, Shapes;
    Position(i, s.mcusPerRow);
    McuLength(s, i / s.mcusPerRow, i % s.mcusPerRow, |s.planes|);
  }

  lemma SlotUnique(s: ScanLayout, o: Origin, a: Slot)
    requires GroupsOk(s) && OriginIn(s, o) && SlotIn(s, a)
    ensures OriginOf(s, a) == o <==> a == SlotOf(s, o)
  {
    hide *;
    SlotInverts(s, o);
    OriginInverts(s, a);
  }

  lemma SentRight(s: ScanLayout, a: Slot)
    requires ScanOk(s) && Shapes(s) && GroupsOk(s) && SlotIn(s, a)
    ensures var o := OriginOf(s, a);
      && a.pos < |McuAt(s, a.mcu)| && o.c < |s.planes| && (Real(s, o) ==> PlaneOk(s.planes[o.c]))
      && McuAt(s, a.mcu)[a.pos] == if Real(s, o) then s.planes[o.c].blocks[o.y][o.x] else Padded(s.planes[o.c], o.y, o.x)
  {
    var o := OriginOf(s, a);
    hide *;
    SentAt(s, a);
    if Real(s, o) {
      RealIn(s, o);
    }
  }

  /** Every pass hands over each block of the image exactly once. */
  lemma RealBlockOnce(s: ScanLayout, sent: seq<seq<Block>>)
    requires ScanOk(s) && Shapes(s) && s.mcusPerRow > 0 && InOrder(s, sent) && |sent| == McuRows(s) * s.mcusPerRow
    ensures GroupsOk(s) && EachOnce(s, sent)
  {
    ScanGroups(s);
    hide ScanOk, Shapes, GroupsOk, McuRows, McuAt, SlotIn, Real, OriginIn, OriginOf, SlotOf, Offset, Padded;
    forall i | 0 <= i < |sent| ensures |sent[i]| == Offset(s, |s.planes|) {
      SentLength(s, i);
    }
    forall o: Origin | Real(s, o) ensures SlotIn(s, SlotOf(s, o)) {
      RealIn(s, o);
      SlotInverts(s, o);
    }
    forall o: Origin, a: Slot | Real(s, o) && SlotIn(s, a) ensures OriginOf(s, a) == o <==> a == SlotOf(s, o) {
      RealIn(s, o);
      SlotUnique(s, o, a);
    }
    forall a: Slot | SlotIn(s, a) ensures a.mcu < |sent| && a.pos < |sent[a.mcu]| {
      SlotWithin(s, a);
    }
    forall a: Slot | SlotIn(s, a)
      ensures var o := OriginOf(s, a);
        sent[a.mcu][a.pos] == if Real(s, o) then s.planes[o.c].blocks[o.y][o.x] else Padded(s.planes[o.c], o.y, o.x)
    {
      SlotWithin(s, a);
      SentRight(s, a);
    }
  }

  lemma SlotWithin(s: ScanLayout, a: Slot)
    requires SlotIn(s, a)
    ensures a.mcu < McuRows(s) * s.mcusPerRow && a.pos < Offset(s, |s.planes|)
  {
  }

  // ----- Dummy blocks

  /** Blocks that are not of the image have no AC coefficients.  To the right of the image their DC value
      is that of the last block of the row, and below it that of the block before the row in the MCU. */
  ghost predicate DummiesPlain(s: ScanLayout, sent: seq<seq<Block>>)
    requires GroupsOk(s) && Shapes(s)
  {
    forall a: Slot :: SlotIn(s, a) && a.mcu < |sent| && a.pos < |sent[a.mcu]| && !Real(s, OriginOf(s, a)) ==>
      DummyPlain(s, OriginOf(s, a), sent[a.mcu], a.pos)
  }

  ghost predicate DummyPlain(s: ScanLayout, o: Origin, mcu: seq<Block>, pos: nat)
    requires o.c < |s.planes| && PlaneOk(s.planes[o.c]) && McuWidth(s, s.planes[o.c]) > 0 && pos < |mcu|
  {
    var p, before := s.planes[o.c], pos - o.x % McuWidth(s, s.planes[o.c]) - 1;
    && (forall k :: 0 < k < 64 ==> mcu[pos][k] == 0)
    && (o.y < p.height ==> mcu[pos][0] == p.blocks[o.y][p.width - 1][0])
    && (o.y >= p.height ==> 0 <= before < |mcu| && mcu[pos][0] == mcu[before][0])
  }

  /** Below the image only the last MCU row has blocks, and it begins with blocks of the image. */
  lemma BelowImage(s: ScanLayout, o: Origin)
    requires ScanOk(s) && OriginIn(s, o) && o.y >= s.planes[o.c].height
    ensures var p := s.planes[o.c];
      && PlaneOk(p) && McuWidth(s, p) == p.h && McuHeight(s, p) == p.v && o.y > 0
      && (o.y - 1) / p.v == o.y / p.v && (o.y - 1) % p.v == o.y % p.v - 1
  {
    var p := s.planes[o.c];
    assert Interleaved(s) && PlaneOk(p) && s.imcuRows == DivRoundUp(p.height, p.v);
    hide DivRoundUp;
    var q := s.imcuRows - 1;
    assert q * p.v < p.height;
    Distribute(q, 1, p.v);
    PositionUnique(q, o.y - q * p.v, p.v);
    PositionUnique(q, o.y - 1 - q * p.v, p.v);
  }

  /** The last block of the row above, in the same MCU. */
  function EndAbove(o: Origin, w: nat): (e: Origin)
    requires o.y > 0 && w > 0
    ensures e.c == o.c
  {
    Position(o.x, w);
    Origin(o.c, o.y - 1, o.x / w * w + w - 1)
  }

  lemma RowAbove(s: ScanLayout, o: Origin)
    requires GroupsOk(s) && OriginIn(s, o) && o.y > 0
    requires var h := McuHeight(s, s.planes[o.c]); (o.y - 1) / h == o.y / h && (o.y - 1) % h == o.y % h - 1
    ensures var w := McuWidth(s, s.planes[o.c]);
      && w > 0 && OriginIn(s, EndAbove(o, w))
      && SlotOf(s, EndAbove(o, w)).mcu == SlotOf(s, o).mcu && SlotOf(s, EndAbove(o, w)).pos + o.x % w + 1 == SlotOf(s, o).pos
  {
    var p := s.planes[o.c];
    var w, h := McuWidth(s, p), McuHeight(s, p);
    hide McuWidth, McuHeight, McuRows, Offset;
    Position(o.x, w);
    Position(o.y, h);
    var q: nat := o.x / w;
    PositionUnique(q, w - 1, w);
    RowBelow(o.x, w, s.mcusPerRow);
    InRows(q, w - 1, w, s.mcusPerRow);
    Distribute(o.y % h, -1, w);
  }

  /** The row of blocks above, in the same MCU, ends just before this one begins. */
  lemma RowBefore(s: ScanLayout, a: Slot, o: Origin) returns (b: Slot)
    requires ScanOk(s) && GroupsOk(s) && SlotIn(s, a) && o == OriginOf(s, a) && o.c < |s.planes| && o.y >= s.planes[o.c].height
    ensures var p := s.planes[o.c];
      && PlaneOk(p) && McuWidth(s, p) == p.h > 0 && o.y > 0 && b.mcu == a.mcu && b.pos + o.x % p.h + 1 == a.pos && SlotIn(s, b)
      && OriginOf(s, b) == EndAbove(o, p.h)
  {
    hide *;
    OriginInverts(s, a);
    BelowImage(s, o);
    WidthPositive(s.planes[o.c]);
    RowAbove(s, o);
    SlotInverts(s, EndAbove(o, s.planes[o.c].h));
    b := SlotOf(s, EndAbove(o, s.planes[o.c].h));
  }

  lemma WidthPositive(p: Plane)
    requires PlaneOk(p)
    ensures p.h > 0 && p.v > 0
  {
  }

  lemma OriginIs(s: ScanLayout, a: Slot)
    requires GroupsOk(s) && SlotIn(s, a)
    ensures a.pos < Offset(s, |s.planes|) && OriginOf(s, a).c < |s.planes|
  {
    hide McuWidth, McuHeight, PlaneAt;
  }

  lemma PaddedPlain(p: Plane, y: nat, x: nat)
    requires PlaneOk(p) && !(y < p.height && x < p.width)
    ensures forall k :: 0 < k < 64 ==> Padded(p, y, x)[k] == 0
    ensures y < p.height ==> Padded(p, y, x)[0] == p.blocks[y][p.width - 1][0]
    ensures y >= p.height ==> y > 0 && forall c :: Padded(p, y, x)[0] == Padded(p, EndAbove(Origin(c, y, x), p.h).y, EndAbove(Origin(c, y, x), p.h).x)[0]
  {
  }

  lemma DummyAt(s: ScanLayout, a: Slot)
    requires ScanOk(s) && Shapes(s) && GroupsOk(s) && SlotIn(s, a) && !Real(s, OriginOf(s, a))
    ensures a.pos < |McuAt(s, a.mcu)| && DummyPlain(s, OriginOf(s, a), McuAt(s, a.mcu), a.pos)
  {
    hide *;
    ScanGroups(s);
    SlotWithin(s, a);
    var o := OriginOf(s, a);
    OriginIs(s, a);
    SentAt(s, a);
    PlaneShape(s, o);
    PaddedPlain(s.planes[o.c], o.y, o.x);
    if o.y >= s.planes[o.c].height {
      var b := RowBefore(s, a, o);
      SentAt(s, b);
    }
    PlainIs(s, o, McuAt(s, a.mcu), a.pos);
  }

  lemma PlaneShape(s: ScanLayout, o: Origin)
    requires ScanOk(s) && GroupsOk(s) && o.c < |s.planes|
    ensures PlaneOk(s.planes[o.c]) && McuWidth(s, s.planes[o.c]) > 0
    ensures Real(s, o) <==> o.y < s.planes[o.c].height && o.x < s.planes[o.c].width
  {
  }

  lemma PlainIs(s: ScanLayout, o: Origin, mcu: seq<Block>, pos: nat)
    requires o.c < |s.planes| && PlaneOk(s.planes[o.c]) && McuWidth(s, s.planes[o.c]) > 0 && pos < |mcu|
    requires forall k :: 0 < k < 64 ==> mcu[pos][k] == 0
    requires o.y < s.planes[o.c].height ==> mcu[pos][0] == s.planes[o.c].blocks[o.y][s.planes[o.c].width - 1][0]
    requires var before := pos - o.x % McuWidth(s, s.planes[o.c]) - 1;
      o.y >= s.planes[o.c].height ==> 0 <= before < |mcu| && mcu[pos][0] == mcu[before][0]
    ensures DummyPlain(s, o, mcu, pos)
  {
  }

  /** Every pass hands over plain dummies. */
  lemma DummiesArePlain(s: ScanLayout, sent: seq<seq<Block>>)
    requires ScanOk(s) && Shapes(s) && s.mcusPerRow > 0 && InOrder(s, sent)
    ensures GroupsOk(s) && DummiesPlain(s, sent)
  {
    ScanGroups(s);
    hide ScanOk, Shapes, GroupsOk, McuAt, SlotIn, Real, OriginOf, Offset, DummyPlain, McuWidth;
    forall a: Slot | SlotIn(s, a) && a.mcu < |sent| && a.pos < |sent[a.mcu]| && !Real(s, OriginOf(s, a))
      ensures DummyPlain(s, OriginOf(s, a), sent[a.mcu], a.pos)
    {
      DummyAt(s, a);
    }
  }

  // ----- An image that differs in one block

  function WithBlock(p: Plane, y: nat, x: nat, b: Block): Plane
    requires PlaneOk(p) && y < p.height && x < p.width
  {
    var row: seq<Block> := p.blocks[y][x := b];
    p.(blocks := p.blocks[y := row])
  }

  /** The image with block o replaced. */
  function Replaced(s: ScanLayout, o: Origin, b: Block): ScanLayout
    requires Shapes(s) && Real(s, o)
  {
    s.(planes := s.planes[o.c := WithBlock(s.planes[o.c], o.y, o.x, b)])
  }

  /** A block with the same DC value leaves the dummies alone. */
  lemma {:induction false} ElsewherePadded(p: Plane, y0: nat, x0: nat, b: Block, y: nat, x: nat)
    requires PlaneOk(p) && y0 < p.height && x0 < p.width && b[0] == p.blocks[y0][x0][0]
    ensures Padded(WithBlock(p, y0, x0, b), y, x) == if (y, x) == (y0, x0) then b else Padded(p, y, x)
    decreases y
  {
    if y >= p.height {
      Position(x, p.h);
      var x1: nat := x / p.h * p.h + p.h - 1;
      ElsewherePadded(p, y0, x0, b, y - 1, x1);
    }
  }

  lemma ReplacedLayout(s: ScanLayout, o: Origin, b: Block)
    requires ScanOk(s) && Shapes(s) && Real(s, o)
    ensures var t := Replaced(s, o, b);
      && ScanOk(t) && Shapes(t) && t.mcusPerRow == s.mcusPerRow && McuRows(t) == McuRows(s)
      && |t.planes| == |s.planes| && forall c :: 0 <= c < |s.planes| ==>
           McuWidth(t, t.planes[c]) == McuWidth(s, s.planes[c]) && McuHeight(t, t.planes[c]) == McuHeight(s, s.planes[c])
  {
    hide DivRoundUp;
  }

  lemma {:induction false} SameOffset(s: ScanLayout, t: ScanLayout, n: nat)
    requires n <= |s.planes| == |t.planes| && forall c :: 0 <= c < |s.planes| ==>
      McuWidth(t, t.planes[c]) == McuWidth(s, s.planes[c]) && McuHeight(t, t.planes[c]) == McuHeight(s, s.planes[c])
    ensures Offset(t, n) == Offset(s, n)
  {
    hide McuWidth, McuHeight;
    if n > 0 {
      SameOffset(s, t, n - 1);
    }
  }

  lemma {:induction false} SamePlane(s: ScanLayout, t: ScanLayout, pos: nat, n: nat)
    requires n <= |s.planes| == |t.planes| && pos < Offset(s, n) && forall m :: 0 <= m <= |s.planes| ==> Offset(t, m) == Offset(s, m)
    ensures PlaneAt(t, pos, n) == PlaneAt(s, pos, n)
  {
    assert n > 0 by { assert Offset(s, 0) == 0; }
    hide Offset;
    if pos < Offset(s, n - 1) {
      SamePlane(s, t, pos, n - 1);
    }
  }

  lemma ReplacedOrigin(s: ScanLayout, o: Origin, b: Block, a: Slot)
    requires ScanOk(s) && Shapes(s) && Real(s, o) && SlotIn(s, a)
    ensures var t := Replaced(s, o, b);
      GroupsOk(s) && GroupsOk(t) && SlotIn(t, a) && OriginOf(t, a) == OriginOf(s, a)
  {
    var t := Replaced(s, o, b);
    ReplacedLayout(s, o, b);
    ScanGroups(s);
    ScanGroups(t);
    hide ScanOk, Shapes, Real, Replaced, McuWidth, McuHeight, McuRows, Offset, PlaneAt;
    forall m | 0 <= m <= |s.planes| ensures Offset(t, m) == Offset(s, m) {
      SameOffset(s, t, m);
    }
    SamePlane(s, t, a.pos, |s.planes|);
  }

  /** Changing the AC coefficients of one block changes what is sent at one position, and nowhere else. */
  lemma OneSlotChanges(s: ScanLayout, o: Origin, b: Block, a: Slot)
    requires ScanOk(s) && Shapes(s) && Real(s, o) && b[0] == s.planes[o.c].blocks[o.y][o.x][0] && SlotIn(s, a)
    ensures GroupsOk(s) && Shapes(Replaced(s, o, b)) && Replaced(s, o, b).mcusPerRow == s.mcusPerRow
    ensures a.pos < |McuAt(s, a.mcu)| == |McuAt(Replaced(s, o, b), a.mcu)|
    ensures McuAt(Replaced(s, o, b), a.mcu)[a.pos] == if a == SlotOf(s, o) then b else McuAt(s, a.mcu)[a.pos]
  {
    hide *;
    ScanGroups(s);
    SlotWithin(s, a);
    ReplacedLayout(s, o, b);
    ReplacedOrigin(s, o, b, a);
    RealIn(s, o);
    SlotUnique(s, o, a);
    SentAt(s, a);
    SentAt(Replaced(s, o, b), a);
    ReplacedPadded(s, o, b, OriginOf(s, a));
    SentLength(s, a.mcu);
    SentLength(Replaced(s, o, b), a.mcu);
    SameOffset(s, Replaced(s, o, b), |s.planes|);
  }

  lemma ReplacedPadded(s: ScanLayout, o: Origin, b: Block, i: Origin)
    requires ScanOk(s) && Shapes(s) && Real(s, o) && b[0] == s.planes[o.c].blocks[o.y][o.x][0] && i.c < |s.planes|
    ensures var t := Replaced(s, o, b);
      && |t.planes| == |s.planes| && PlaneOk(t.planes[i.c]) && PlaneOk(s.planes[i.c])
      && Padded(t.planes[i.c], i.y, i.x) == if i == o then b else Padded(s.planes[i.c], i.y, i.x)
  {
    var t := Replaced(s, o, b);
    assert i.c != o.c ==> t.planes[i.c] == s.planes[i.c];
    assert i.c == o.c ==> t.planes[i.c] == WithBlock(s.planes[o.c], o.y, o.x, b);
    assert PlaneOk(s.planes[i.c]);
    hide Padded, WithBlock;
    if i.c == o.c {
      ElsewherePadded(s.planes[o.c], o.y, o.x, b, i.y, i.x);
    }
  }
}
