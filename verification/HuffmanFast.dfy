/** decode_mcu_fast: the same MCU without looking for markers or the end of the buffer.  When
    it succeeds it has decoded what decode_mcu_slow would have, and 512 bytes a block are
    enough for everything it reads. */
module HuffmanFast {
  import opened Coefficients
  import opened Powers
  import opened Digits
  import opened BitString
  import opened HuffmanDecode
  import opened HuffmanBlock
  import opened HuffmanReader
  import opened HuffmanSymbols
  import opened HuffmanMcu
  import opened HuffmanLocal
  import opened NaturalOrder
  import opened BlockMemory

  const BYTES_PER_BLOCK: nat := 512

  // ----- The data as GET_BYTE sees it

  /** Data up to the first 0xFF that is not followed by a stuffed zero, fill bytes or not. */
  function FastSegment(src: seq<byte>): seq<byte>
    decreases |src|
  {
    if src == [] then [] else
    if src[0] != 0xFF then [src[0]] + FastSegment(src[1..])
    else if |src| >= 2 && src[1] == 0 then [0xFF] + FastSegment(src[2..])
    else []
  }

  /** The data that GET_BYTE does not get to see, because of fill bytes before a stuffed zero. */
  function Beyond(src: seq<byte>): seq<byte> {
    FastPrefix(src);
    Segment(src)[|FastSegment(src)|..]
  }

  /** What it sees is the beginning of the data. */
  lemma {:induction false} FastPrefix(src: seq<byte>)
    ensures FastSegment(src) <= Segment(src)
    decreases |src|
  {
    if src != [] {
      if src[0] != 0xFF {
        FastPrefix(src[1..]);
      } else if |src| >= 2 && src[1] == 0 {
        assert src[1..][1..] == src[2..] && src[1..][0] == 0;
        FastPrefix(src[2..]);
      }
    }
  }

  /** In plain data it sees all of it. */
  lemma {:induction false} PlainSeen(src: seq<byte>)
    requires Plain(src) && Ends(src)
    ensures FastSegment(src) == Segment(src)
    decreases |src|
  {
    if src[0] != 0xFF {
      PlainSeen(src[1..]);
    } else if |src| >= 2 && src[1] == 0 {
      assert src[1..][1..] == src[2..] && src[1..][0] == 0;
      PlainSeen(src[2..]);
    } else {
      assert !NextByte(src).Data?;
    }
  }

  /** The byte at hand and the one after it: a data byte. */
  lemma SeenData(src: seq<byte>)
    requires |src| >= 2 && (src[0] != 0xFF || src[1] == 0)
    ensures var rest := src[if src[0] == 0xFF then 2 else 1..];
      && FastSegment(src) == [src[0]] + FastSegment(rest) && Beyond(src) == Beyond(rest) && Ends(src) == Ends(rest)
      && (Plain(src) ==> Plain(rest))
  {
    hide *;
    var rest := src[if src[0] == 0xFF then 2 else 1..];
    DataAtHand(src);
    SegmentStep(src);
    FastPrefix(src);
    FastPrefix(rest);
    BeyondIs(src);
    BeyondIs(rest);
    SameSuffix(src[0], Segment(rest), FastSegment(rest));
  }

  lemma DataAtHand(src: seq<byte>)
    requires |src| >= 2 && (src[0] != 0xFF || src[1] == 0)
    ensures var rest := src[if src[0] == 0xFF then 2 else 1..];
      && NextByte(src) == Data(src[0], rest) && FastSegment(src) == [src[0]] + FastSegment(rest) && (Plain(src) ==> Plain(rest))
  {
    if src[0] == 0xFF {
      assert src[1..][1..] == src[2..] && src[1..][0] == 0;
    }
    var rest := src[if src[0] == 0xFF then 2 else 1..];
    assert NextByte(src) == Data(src[0], rest);
    assert Plain(src) ==> Plain(rest) by { hide FastSegment, NextByte; }
    hide Plain, NextByte;
  }

  lemma BeyondIs(src: seq<byte>)
    requires FastSegment(src) <= Segment(src)
    ensures Beyond(src) == Segment(src)[|FastSegment(src)|..]
  {
    hide Segment, FastSegment;
  }

  lemma SameSuffix(b: byte, d: seq<byte>, e: seq<byte>)
    requires e <= d
    ensures |[b] + e| <= |[b] + d| && ([b] + d)[|[b] + e|..] == d[|e|..]
  {
  }

  lemma SeenByte(rest: Bits, short: bool, buffer: nat, left: nat, b: byte, d: seq<byte>)
    requires left <= BIT_BUF_SIZE - 8 && Holds(rest, short, buffer, left, Unpack([b] + d))
    ensures 0 <= (buffer * 256 + b) % Pow2(BIT_BUF_SIZE)
    ensures Holds(rest, short, (buffer * 256 + b) % Pow2(BIT_BUF_SIZE), left + 8, Unpack(d))
  {
    hide Pow2, BitsOf, Unpack, Same;
    ShiftIn(buffer, left, b);
    UnpackCons(b, d);
    BitsAssoc(BitsOf(buffer, left), BitsOf(b, 8), Unpack(d));
  }

  lemma ZeroByte(rest: Bits, short: bool, buffer: nat, left: nat)
    requires left <= BIT_BUF_SIZE - 8 && Holds(rest, short, buffer, left, [])
    ensures 0 <= buffer * 256 % Pow2(BIT_BUF_SIZE) && Holds(rest, true, buffer * 256 % Pow2(BIT_BUF_SIZE), left + 8, [])
  {
    ShiftIn(buffer, left, 0);
    ZeroBits(8);
    hide Pow2, BitsOf;
    SameZeros(rest, BitsOf(buffer, left), BitsOf(0, 8));
    var c := buffer * 256 % Pow2(BIT_BUF_SIZE);
    assert BitsOf(buffer, left) + [] == BitsOf(buffer, left);
    assert BitsOf(c, left + 8) + [] == BitsOf(c, left + 8);
  }

  /** The bits a fast MCU starts from, and what follows them in truth. */
  function Seen(buffer: nat, left: nat, src: seq<byte>): Bits {
    BitsOf(buffer, left) + Unpack(FastSegment(src))
  }

  function Unseen(src: seq<byte>): Bits {
    Unpack(Beyond(src)) + [false]
  }

  lemma {:induction false} UnpackConcat(d: seq<byte>, e: seq<byte>)
    ensures Unpack(d + e) == Unpack(d) + Unpack(e)
  {
    if d == [] {
      assert d + e == e;
    } else {
      assert (d + e)[0] == d[0] && (d + e)[1..] == d[1..] + e;
      assert Unpack(d + e) == BitsOf(d[0], 8) + Unpack(d[1..] + e) && Unpack(d) == BitsOf(d[0], 8) + Unpack(d[1..]);
      hide Unpack, BitsOf;
      UnpackConcat(d[1..], e);
      BitsAssoc(BitsOf(d[0], 8), Unpack(d[1..]), Unpack(e));
    }
  }

  lemma SeenThenUnseen(buffer: nat, left: nat, src: seq<byte>)
    ensures BitsOf(buffer, left) + Unpack(Segment(src)) + [false] == Seen(buffer, left, src) + Unseen(src)
  {
    FastPrefix(src);
    assert Segment(src) == FastSegment(src) + Beyond(src);
    hide BitsOf, Unpack, Segment, FastSegment, Beyond;
    UnpackConcat(FastSegment(src), Beyond(src));
    var x, y, z := BitsOf(buffer, left), Unpack(FastSegment(src)), Unpack(Beyond(src));
    assert x + (y + z) + [false] == x + y + (z + [false]);
  }

  /** The working copy of the bit buffer during one fast MCU. */
  class FastReader {
    const src: seq<byte>        // all that has been delivered
    const blocks: nat           // blocks in the MCU
    ghost const future: seq<byte>
    ghost const left0: nat
    ghost const unseen: Bits    // what follows in truth on what this reader sees
    ghost const plain: bool
    var pos: nat
    var getBuffer: nat
    var bitsLeft: nat
    var unreadMarker: byte
    ghost var rest: Bits        // the bits to come, as this reader will see them
    ghost var loaded: nat       // bytes put in the buffer, fake ones included
    ghost var taken: nat        // bits taken from it

    ghost predicate Valid()
      reads this
    {
      && pos <= |src| && bitsLeft <= BIT_BUF_SIZE && blocks > 0 && |src| >= BYTES_PER_BLOCK * blocks
      && pos <= 2 * loaded && 8 * loaded + left0 == taken + bitsLeft
      && Holds(rest, unreadMarker != 0, getBuffer, bitsLeft, Unpack(FastSegment(src[pos..] + future)))
      && Unseen(src[pos..] + future) == unseen && Ends(src[pos..] + future)
      && (plain ==> Plain(src[pos..] + future))
    }

    constructor (r: BitReader, blocks: nat)
      requires r.Valid() && r.unreadMarker == 0 && !r.insufficientData && blocks > 0 && |r.src| >= BYTES_PER_BLOCK * blocks
      ensures Valid() && src == r.src && this.blocks == blocks && future == r.future && plain == r.plain
      ensures rest == Seen(r.getBuffer, r.bitsLeft, r.src + r.future) + [false] && unseen == Unseen(r.src + r.future)
      ensures taken == 0 && unreadMarker == 0
    {
      src, this.blocks, future, left0, plain := r.src, blocks, r.future, r.bitsLeft, r.plain;
      pos, getBuffer, bitsLeft, unreadMarker := 0, r.getBuffer, r.bitsLeft, 0;
      rest, unseen := Seen(r.getBuffer, r.bitsLeft, r.src + r.future) + [false], Unseen(r.src + r.future);
      loaded, taken := 0, 0;
      new;
      assert src[0..] == src;
      SameSentinel(Seen(r.getBuffer, r.bitsLeft, r.src + r.future));
    }

    lemma Ahead2(p: nat)
      requires p + 2 <= |src|
      ensures var stream := src[p..] + future;
        |stream| >= 2 && stream[0] == src[p] && stream[1] == src[p + 1]
        && stream[1..] == src[p + 1..] + future && stream[2..] == src[p + 2..] + future
    {
    }

    /** A data byte. */
    method LoadData(c0: byte, step: nat)
      requires Valid() && bitsLeft <= BIT_BUF_SIZE - 8 && pos + 2 <= |src| && 1 <= step <= 2
      requires src[pos] == c0 && (if c0 == 0xFF then step == 2 && src[pos + 1] == 0 else step == 1)
      modifies this`pos, this`getBuffer, this`bitsLeft, this`loaded
      ensures Valid() && bitsLeft == old(bitsLeft) + 8
    {
      hide Holds, Pow2, NextByte, Ends, Segment, FastSegment, Beyond, Plain;
      ghost var stream := src[pos..] + future;
      Ahead2(pos);
      SeenData(stream);
      SeenByte(rest, unreadMarker != 0, getBuffer, bitsLeft, c0, FastSegment(src[pos + step..] + future));
      getBuffer := (getBuffer * 256 + c0) % Pow2(BIT_BUF_SIZE);
      pos := pos + step;
      bitsLeft := bitsLeft + 8;
      loaded := loaded + 1;
    }

    /** A marker: the buffer pointer stays, and zeros take the place of data. */
    method LoadFake(c1: byte)
      requires Valid() && bitsLeft <= BIT_BUF_SIZE - 8 && pos + 2 <= |src|
      requires src[pos] == 0xFF && src[pos + 1] == c1 && c1 != 0
      modifies this`getBuffer, this`bitsLeft, this`unreadMarker, this`loaded
      ensures Valid() && bitsLeft == old(bitsLeft) + 8 && unreadMarker != 0
    {
      ghost var stream := src[pos..] + future;
      Ahead2(pos);
      assert FastSegment(stream) == [];
      hide Holds, Pow2, NextByte, Ends, Segment, FastSegment, Beyond, Plain;
      ZeroByte(rest, unreadMarker != 0, getBuffer, bitsLeft);
      unreadMarker := c1;
      getBuffer := getBuffer * 256 % Pow2(BIT_BUF_SIZE);
      bitsLeft := bitsLeft + 8;
      loaded := loaded + 1;
    }

    /** GET_BYTE: never past the delivered bytes, as long as the MCU keeps to its bits. */
    method GetByte()
      requires Valid() && bitsLeft <= BIT_BUF_SIZE - 8 && taken <= BlocksBits(blocks)
      modifies this`pos, this`getBuffer, this`bitsLeft, this`unreadMarker, this`loaded
      ensures Valid() && bitsLeft == old(bitsLeft) + 8 && (old(unreadMarker) != 0 ==> unreadMarker != 0)
    {
      assert pos + 1 < |src|;
      hide Valid;
      var c0, c1 := src[pos], src[pos + 1];
      if c0 == 0xFF && c1 != 0 {
        LoadFake(c1);
      } else {
        LoadData(c0, if c0 == 0xFF then 2 else 1);
      }
    }

    /** FILL_BIT_BUFFER_FAST. */
    method Fill()
      requires Valid() && taken <= BlocksBits(blocks)
      modifies this`pos, this`getBuffer, this`bitsLeft, this`unreadMarker, this`loaded
      ensures Valid() && bitsLeft >= 17 && (old(unreadMarker) != 0 ==> unreadMarker != 0)
    {
      if bitsLeft <= 16 {
        hide Valid;
        GetByte();
        GetByte();
        GetByte();
        GetByte();
        GetByte();
        GetByte();
      }
    }

    /** GET_BITS, PEEK_BITS and DROP_BITS. */
    method GetBits(n: nat) returns (v: nat)
      requires Valid() && n <= bitsLeft
      modifies this`bitsLeft, this`rest, this`taken
      ensures Valid() && bitsLeft == old(bitsLeft) - n && taken == old(taken) + n && rest == Drop(old(rest), n)
      ensures v == Window(old(rest), n)
    {
      TakeBits(rest, unreadMarker != 0, getBuffer, bitsLeft, Unpack(FastSegment(src[pos..] + future)), n);
      hide Holds, Pow2, Window;
      v := Top(getBuffer, bitsLeft, n);
      bitsLeft := bitsLeft - n;
      taken := taken + n;
      rest := Drop(rest, n);
    }

    method PeekBits(n: nat) returns (v: nat)
      requires Valid() && n <= bitsLeft
      ensures v == Window(rest, n)
    {
      TakeBits(rest, unreadMarker != 0, getBuffer, bitsLeft, Unpack(FastSegment(src[pos..] + future)), n);
      hide Holds, Pow2, Window;
      v := Top(getBuffer, bitsLeft, n);
    }
  }

  // ----- Symbols

  /** Lookahead on eight bits, then bit by bit from nine. */
  lemma FastLook(x: DecTbl, b: Bits)
    requires DecTblOk(x)
    ensures |x.d.maxcode| == |x.d.valoffset| == 18 && x.d.maxcode[17] == 0xFFFFF && |x.d.lookup| == |x.t.huffval| == 256
    ensures Window(b, 8) < 256
    ensures var look := x.d.lookup[Window(b, 8)];
      && (look / 256 <= HUFF_LOOKAHEAD ==> NextSymbol(x, b) == (look % 256, Drop(b, look / 256)))
      && (look / 256 > HUFF_LOOKAHEAD ==> look / 256 == 9)
      && (look / 256 > HUFF_LOOKAHEAD ==> NextSymbol(x, b).0 == SlowDecode(x.t, x.d, Window(b, 17), 9).0)
      && (look / 256 > HUFF_LOOKAHEAD ==> NextSymbol(x, b).1 == Drop(b, SlowDecode(x.t, x.d, Window(b, 17), 9).1))
  {
    LookWindow(b);
    LookIsSlow(x.t, x.d, Window(b, 17));
    TableShape(x);
    hide Derived, SlowDecode, Window, Drop;
    if x.d.lookup[Window(b, 8)] / 256 > HUFF_LOOKAHEAD {
      AtLeastNine(x.t, x.d, Window(b, 8));
    }
  }

  lemma LookedCode(x: DecTbl, b: Bits, l: nat, code: nat)
    requires DecTblOk(x) && |x.d.maxcode| == |x.d.valoffset| == 18 && |x.d.lookup| == |x.t.huffval| == 256
    requires Window(b, 8) < 256 && x.d.lookup[Window(b, 8)] / 256 > HUFF_LOOKAHEAD
    requires l == SlowLen(x.d.maxcode, Window(b, 17), 9) && code == Window(b, l)
    ensures NextSymbol(x, b) == (if l > 16 then 0 else x.t.huffval[(code + x.d.valoffset[l]) % 256], Drop(b, l))
  {
    hide *;
    LookWindow(b);
    FastLook(x, b);
    SlowSymbol(x, b, 9, l, code);
  }

  /** The bit-by-bit part; the buffer holds enough bits for any code. */
  method FastSearch(f: FastReader, maxcode: seq<int>, ghost b: Bits) returns (nb: nat, s: nat)
    requires f.Valid() && |maxcode| == 18 && maxcode[17] == 0xFFFFF && f.bitsLeft >= 17 && b == f.rest
    modifies f`bitsLeft, f`rest, f`taken
    ensures f.Valid() && nb == SlowLen(maxcode, Window(b, 17), 9) && s == Window(b, nb) && f.rest == Drop(b, nb)
    ensures f.taken == old(f.taken) + nb
  {
    hide SlowLen, Window, FastReader.Valid, Drop;
    nb := HUFF_LOOKAHEAD + 1;
    s := f.GetBits(nb);
    while s > maxcode[nb]
      invariant f.Valid() && 9 <= nb <= 17 && f.bitsLeft + nb == old(f.bitsLeft) && f.taken == old(f.taken) + nb
      invariant s == Window(b, nb) && f.rest == Drop(b, nb)
      invariant SlowLen(maxcode, Window(b, 17), nb) == SlowLen(maxcode, Window(b, 17), 9)
      decreases 17 - nb
    {
      SearchStep(maxcode, b, nb);
      WindowNext(b, nb);
      DropDrop(b, nb, 1);
      var bit := f.GetBits(1);
      s := s * 2 + bit;
      nb := nb + 1;
    }
    SearchStep(maxcode, b, nb);
  }

  /** HUFF_DECODE_FAST. */
  method FastSymbol(f: FastReader, x: DecTbl) returns (s: nat)
    requires f.Valid() && DecTblOk(x) && f.taken <= BlocksBits(f.blocks)
    modifies f
    ensures f.Valid() && (s, f.rest) == NextSymbol(x, old(f.rest)) && (old(f.unreadMarker) != 0 ==> f.unreadMarker != 0)
    ensures f.taken <= old(f.taken) + 17 && (s != 0 ==> f.taken <= old(f.taken) + 16)
  {
    TableShape(x);
    FastLook(x, f.rest);
    hide DecTblOk, SlowDecode, SlowLen, Window, Drop, NextSymbol, FastReader.Valid;
    ghost var b := f.rest;
    f.Fill();
    var look := f.PeekBits(HUFF_LOOKAHEAD);
    var nb := x.d.lookup[look] / 256;
    if nb <= HUFF_LOOKAHEAD {
      var code := f.GetBits(nb);
      s := x.d.lookup[look] % 256;
    } else {
      nb, s := FastSearch(f, x.d.maxcode, b);
      LookedCode(x, b, nb, s);
      if nb > 16 {
        s := 0;
      } else {
        s := x.t.huffval[(s + x.d.valoffset[nb]) % 256];
      }
    }
  }

  // ----- Blocks

  method FastExtend(f: FastReader, n: nat) returns (v: int)
    requires f.Valid() && 0 < n <= 15 && f.taken <= BlocksBits(f.blocks)
    modifies f
    ensures f.Valid() && (old(f.unreadMarker) != 0 ==> f.unreadMarker != 0) && f.taken == old(f.taken) + n
    ensures v == Extend(Window(old(f.rest), n), n) && f.rest == Drop(old(f.rest), n)
  {
    hide FastReader.Valid, Window, Drop, Extend;
    f.Fill();
    var x := f.GetBits(n);
    v := Extend(x, n);
  }

  /** One turn of the coefficient loop; more is false at an end-of-block symbol. */
  method FastCoef(f: FastReader, x: DecTbl, block: array<int>, k: nat) returns (more: bool, next: nat)
    requires f.Valid() && DecTblOk(x) && block.Length == 64 && k < DCTSIZE2 && f.taken + 31 <= BlocksBits(f.blocks)
    modifies f, block
    ensures f.Valid() && (old(f.unreadMarker) != 0 ==> f.unreadMarker != 0) && f.taken <= old(f.taken) + 31 && next > k
    ensures DecodeAc(x, old(f.rest), k, Zig(old(block[..])))
         == if more then DecodeAc(x, f.rest, next, Zig(block[..])) else (Zig(block[..]), f.rest)
  {
    hide *;
    ghost var b, z := f.rest, Zig(block[..]);
    CoefTurn(x, b, k, z);
    var s := FastSymbol(f, x);
    var r, n := s / 16, s % 16;
    more, next := true, k + r + 1;
    if n != 0 {
      SlotInBlock(k + r);
      var v := FastExtend(f, n);
      Store(block, Slot(k + r), ToCoef(v));
    } else if r != 15 {
      more := false;
    } else {
      next := k + 16;
    }
  }

  lemma SlotInBlock(k: nat)
    ensures Slot(k) < 64
  {
  }

  lemma CoefTurn(x: DecTbl, b: Bits, k: nat, z: seq<int>)
    requires |z| == 64 && k < DCTSIZE2
    ensures k < 64 && |z| == DCTSIZE2 && NextSymbol(x, b).0 < 256
    ensures var (s, b1) := NextSymbol(x, b);
      DecodeAc(x, b, k, z) ==
        if s % 16 > 0 then
          DecodeAc(x, Drop(b1, s % 16), k + s / 16 + 1, z[Slot(k + s / 16) := ToCoef(Extend(Window(b1, s % 16), s % 16))])
        else if s / 16 != 15 then (z, b1)
        else DecodeAc(x, b1, k + 16, z)
  {
    AcUnfolds(x, b, k, z);
    hide NextSymbol, ToCoef, Extend, Window, Drop, DecodeAc, Slot;
  }

  method FastAcLoop(f: FastReader, x: DecTbl, k0: nat, block: array<int>)
    requires f.Valid() && DecTblOk(x) && block.Length == 64 && 1 <= k0 && f.taken + 63 * 31 <= BlocksBits(f.blocks)
    modifies f, block
    ensures f.Valid() && (old(f.unreadMarker) != 0 ==> f.unreadMarker != 0) && f.taken <= old(f.taken) + 63 * 31
    ensures DecodeAc(x, old(f.rest), k0, Zig(old(block[..]))) == (Zig(block[..]), f.rest)
  {
    hide FastReader.Valid, DecTblOk, DecodeAc, Zig;
    ghost var b0, z0, t0 := f.rest, Zig(block[..]), f.taken;
    var k, more := k0, true;
    while k < DCTSIZE2 && more
      invariant f.Valid() && (old(f.unreadMarker) != 0 ==> f.unreadMarker != 0)
      invariant k0 <= k && f.taken <= t0 + 31 * (if k < DCTSIZE2 then k - k0 else 63)
      invariant DecodeAc(x, b0, k0, z0) == if more then DecodeAc(x, f.rest, k, Zig(block[..])) else (Zig(block[..]), f.rest)
      decreases if k < DCTSIZE2 then DCTSIZE2 - k else 0, more
    {
      more, k := FastCoef(f, x, block, k);
    }
    if more {
      AcUnfolds(x, f.rest, k, Zig(block[..]));
    }
  }

  method FastDiff(f: FastReader, x: DecTbl) returns (diff: int)
    requires f.Valid() && DcTbl(x) && f.taken + 31 <= BlocksBits(f.blocks)
    modifies f
    ensures f.Valid() && (old(f.unreadMarker) != 0 ==> f.unreadMarker != 0) && f.taken <= old(f.taken) + 31
    ensures (diff, f.rest) == DecodeDiff(x, old(f.rest))
  {
    DcSymbolSmall(x, f.rest);
    DiffUnfolds(x, f.rest);
    assert DecTblOk(x);
    hide FastReader.Valid, DecTblOk, DcTbl, NextSymbol, Window, Drop, Extend, DecodeDiff;
    diff := 0;
    var s := FastSymbol(f, x);
    if s != 0 {
      diff := FastExtend(f, s);
    }
  }

  /** One block of decode_mcu_fast. */
  method FastBlock(f: FastReader, c: BlockCfg, last: int, block: array<int>) returns (next: int)
    requires f.Valid() && DcTbl(c.dc) && DecTblOk(c.ac) && block.Length == 64
    requires f.taken + 1984 <= BlocksBits(f.blocks)
    modifies f, block
    ensures f.Valid() && (old(f.unreadMarker) != 0 ==> f.unreadMarker != 0) && f.taken <= old(f.taken) + 1984
    ensures DecodeBlock(c.dc, c.ac, old(f.rest), last, Zig(old(block[..]))) == BlockRead(Zig(block[..]), next, f.rest)
  {
    BlockUnfolds(c.dc, c.ac, f.rest, last, Zig(block[..]));
    hide FastReader.Valid, DecTblOk, DcTbl, DecodeDiff, DecodeAc, DecodeBlock, ToCoef, Zig;
    var diff := FastDiff(f, c.dc);
    next := last + diff;
    Store(block, 0, ToCoef(next));
    FastAcLoop(f, c.ac, 1, block);
  }

  method FastNthBlock(f: FastReader, cfg: seq<BlockCfg>, ghost b: Bits, ghost last0: seq<int>, ghost zs: seq<Block>,
      i: nat, last: seq<int>, mem: seq<array<int>>) returns (next: seq<int>)
    requires f.Valid() && Memory(mem) && |mem| == |cfg| && McuShape(cfg, last0, zs) && |last| == |last0| && CfgOk(cfg, |last|)
    requires i < |cfg| == f.blocks && f.taken <= BlocksBits(i)
    requires McuTo(cfg, b, last0, zs, i) == McuRead(Held(mem), last, f.rest)
    modifies f, mem
    ensures f.Valid() && f.taken <= BlocksBits(i + 1) && |next| == |last|
    ensures McuTo(cfg, b, last0, zs, i + 1) == McuRead(Held(mem), next, f.rest)
  {
    hide *;
    NthBlock(cfg, b, last0, zs, i, Held(mem), last, f.rest, f.taken);
    MemoryAt(mem, i);
    var block, c := mem[i], cfg[i];
    ghost var was := Held(mem);
    var v := FastBlock(f, c, last[c.ci], block);
    next := last[c.ci := v];
    forall j | 0 <= j < |mem| && j != i ensures Zig(mem[j][..]) == was[j] {
      assert mem[j][..] == old(mem[j][..]);
    }
    HeldUpdate(mem, was, i);
  }

  /** What block i starts from, and what it does to the MCU. */
  lemma NthBlock(cfg: seq<BlockCfg>, b: Bits, last0: seq<int>, zs: seq<Block>, i: nat, held: seq<Block>, last: seq<int>, rest: Bits, taken: int)
    requires McuShape(cfg, last0, zs) && |last| == |last0| && CfgOk(cfg, |last|) && i < |cfg| == |held|
    requires McuTo(cfg, b, last0, zs, i) == McuRead(held, last, rest) && taken <= BlocksBits(i)
    ensures DcTbl(cfg[i].dc) && DecTblOk(cfg[i].ac) && cfg[i].ci < |last| && |held[i]| == DCTSIZE2
    ensures taken + 1984 <= BlocksBits(i + 1) <= BlocksBits(|cfg|)
    ensures var c := cfg[i];
      var r := DecodeBlock(c.dc, c.ac, rest, last[c.ci], held[i]);
      McuTo(cfg, b, last0, zs, i + 1) == McuRead(held[i := r.z], last[c.ci := r.last], r.rest)
  {
    Untaken(cfg, b, last0, zs, i);
    HuffmanLocal.McuUnfolds(cfg, b, last0, zs, i + 1);
    hide DcTbl, DecTblOk, DecodeBlock, McuTo;
  }

  /** The blocks of an MCU, as this reader sees the data. */
  method FastBlocks(f: FastReader, cfg: seq<BlockCfg>, saved: seq<int>, mem: seq<array<int>>) returns (last: seq<int>)
    requires f.Valid() && Memory(mem) && |mem| == |cfg| == f.blocks && CfgOk(cfg, |saved|) && f.taken == 0
    requires McuShape(cfg, saved, Held(mem))
    modifies f, mem
    ensures f.Valid() && DecodeMcu(cfg, old(f.rest), saved, old(Held(mem))) == McuRead(Held(mem), last, f.rest)
  {
    ghost var b, zs := f.rest, Held(mem);
    NoBlocksRead(cfg, b, saved, zs, 0);
    hide CfgOk, McuTo, Held, FastReader.Valid, DecodeMcu;
    last := saved;
    var i := 0;
    while i < |cfg|
      invariant f.Valid() && i <= |cfg| && |last| == |saved| && f.taken <= BlocksBits(i)
      invariant McuTo(cfg, b, saved, zs, i) == McuRead(Held(mem), last, f.rest)
    {
      last := FastNthBlock(f, cfg, b, saved, zs, i, last, mem);
      i := i + 1;
    }
    WholeMcu(cfg, b, saved, zs);
  }

  lemma WholeMcu(cfg: seq<BlockCfg>, b: Bits, last: seq<int>, zs: seq<Block>)
    requires McuShape(cfg, last, zs)
    ensures DecodeMcu(cfg, b, last, zs) == McuTo(cfg, b, last, zs, |cfg|)
  {
  }

  // ----- Decoding twice

  /** Only coefficients that are written change. */
  lemma {:induction false} OnlyWritten(x: DecTbl, b: Bits, k: nat, z: seq<int>)
    requires |z| == DCTSIZE2
    ensures forall j :: 0 <= j < DCTSIZE2 ==> DecodeAc(x, b, k, z).0[j] == z[j] || Writes(x, b, k, j)
    decreases if k < DCTSIZE2 then DCTSIZE2 - k else 0
  {
    hide NextSymbol, ToCoef, Extend, Window, Drop;
    if k < DCTSIZE2 {
      var (s, b1) := NextSymbol(x, b);
      var run, n := s / 16, s % 16;
      if n > 0 {
        OnlyWritten(x, Drop(b1, n), k + run + 1, z[Slot(k + run) := ToCoef(Extend(Window(b1, n), n))]);
      } else if run == 15 {
        OnlyWritten(x, b1, k + 16, z);
      }
    }
  }

  lemma AcTwice(x: DecTbl, b: Bits, k: nat, z: seq<int>)
    requires |z| == DCTSIZE2 && k > 0
    ensures DecodeAc(x, b, k, DecodeAc(x, b, k, z).0) == DecodeAc(x, b, k, z)
    ensures DecodeAc(x, b, k, z).0[0] == z[0]
  {
    hide DecodeAc, Writes;
    OnlyWritten(x, b, k, z);
    WrittenIrrelevant(x, b, k, DecodeAc(x, b, k, z).0, z);
    DcNotWritten(x, b, k);
  }

  lemma BlockTwice(dc: DecTbl, ac: DecTbl, b: Bits, last: int, z: seq<int>)
    requires |z| == DCTSIZE2
    ensures DecodeBlock(dc, ac, b, last, DecodeBlock(dc, ac, b, last, z).z) == DecodeBlock(dc, ac, b, last, z)
  {
    var y := DecodeBlock(dc, ac, b, last, z).z;
    BlockUnfolds(dc, ac, b, last, z);
    BlockUnfolds(dc, ac, b, last, y);
    hide DecodeDiff, DecodeAc, DecodeBlock, ToCoef;
    var (diff, b1) := DecodeDiff(dc, b);
    AcTwice(ac, b1, 1, z[0 := ToCoef(last + diff)]);
    assert y[0 := ToCoef(last + diff)] == y;
  }

  /** Block i of an MCU is made when its turn comes, and then kept. */
  lemma {:induction false} MadeOnce(cfg: seq<BlockCfg>, b: Bits, last: seq<int>, zs: seq<Block>, n: nat, i: nat)
    requires McuShape(cfg, last, zs) && i < n <= |cfg|
    ensures var m, c := McuTo(cfg, b, last, zs, i), cfg[i];
      McuTo(cfg, b, last, zs, n).zs[i] == DecodeBlock(c.dc, c.ac, m.rest, m.last[c.ci], zs[i]).z
  {
    hide DecodeBlock;
    if i + 1 < n {
      MadeOnce(cfg, b, last, zs, n - 1, i);
    }
  }

  /** Decoding over a decoded MCU gives it again. */
  lemma DecodeTwice(cfg: seq<BlockCfg>, b: Bits, last: seq<int>, zs: seq<Block>)
    requires McuShape(cfg, last, zs)
    ensures var ys := DecodeMcu(cfg, b, last, zs).zs;
      McuShape(cfg, last, ys) && DecodeMcu(cfg, b, last, ys) == DecodeMcu(cfg, b, last, zs)
  {
    var ys := DecodeMcu(cfg, b, last, zs).zs;
    hide DecodeBlock, McuTo;
    forall i | 0 <= i < |cfg| ensures AsGood(cfg, b, last, zs, i, ys[i]) {
      MadeOnce(cfg, b, last, zs, |cfg|, i);
      var m, c := McuTo(cfg, b, last, zs, i), cfg[i];
      BlockTwice(c.dc, c.ac, m.rest, m.last[c.ci], zs[i]);
    }
    Retry(cfg, b, last, ys, zs);
  }

  // ----- decode_mcu_fast and decode_mcu

  /** The stream that the fast path decodes. */
  ghost function FastView(r: BitReader): Bits
    reads r
  {
    Seen(r.getBuffer, r.bitsLeft, r.src + r.future) + [false]
  }

  /** In truth the stream goes on. */
  lemma TrueStream(r: BitReader)
    requires r.Valid() && r.unreadMarker == 0 && !r.insufficientData
    ensures r.rest == Seen(r.getBuffer, r.bitsLeft, r.src + r.future) + Unseen(r.src + r.future)
    ensures r.plain ==> r.rest == FastView(r)
  {
    SeenThenUnseen(r.getBuffer, r.bitsLeft, r.src + r.future);
    if r.plain {
      PlainSeen(r.src + r.future);
      assert Beyond(r.src + r.future) == [];
      assert Unpack([]) + [false] == [false];
    }
  }

  /** What an MCU that has met no marker has left. */
  lemma FastLeft(f: FastReader, q: Bits)
    requires f.Valid() && f.unreadMarker == 0 && f.rest == q + [false]
    ensures Reads(q + f.unseen, false, f.getBuffer, f.bitsLeft, 0, f.src[f.pos..] + f.future) && f.rest != []
  {
    var stream := f.src[f.pos..] + f.future;
    assert f.rest == Seen(f.getBuffer, f.bitsLeft, stream) + [false];
    SameEnds(q, Seen(f.getBuffer, f.bitsLeft, stream));
    SeenThenUnseen(f.getBuffer, f.bitsLeft, stream);
    SameSentinel(BitsOf(f.getBuffer, f.bitsLeft) + Unpack(Segment(stream)));
  }

  lemma SameEnds(p: Bits, q: Bits)
    requires p + [false] == q + [false]
    ensures p == q
  {
    assert p == (p + [false])[..|p|] && q == (q + [false])[..|q|];
  }

  /** decode_mcu_fast.  It fails if it has met what it takes for a marker; then the state is
      what it was, but the blocks are those of the data up to there and zeros. */
  method DecodeMcuFast(r: BitReader, cfg: seq<BlockCfg>, saved: seq<int>, mem: seq<array<int>>)
      returns (ok: bool, last: seq<int>)
    requires r.Valid() && Memory(mem) && |mem| == |cfg| > 0 && CfgOk(cfg, |saved|)
    requires r.unreadMarker == 0 && !r.insufficientData && |r.src| >= BYTES_PER_BLOCK * |cfg|
    modifies r, mem
    ensures McuShape(cfg, saved, old(Held(mem))) && r.Valid() && r.future == old(r.future) && !r.insufficientData
    ensures ok ==> DecodeMcu(cfg, old(r.rest), saved, old(Held(mem))) == McuRead(Held(mem), last, r.rest)
    ensures ok ==> DecodeMcu(cfg, old(FastView(r)), saved, old(Held(mem))).rest != []
    ensures !ok ==> r.rest == old(r.rest) && last == saved
                    && r.Untouched(old(r.src), old(r.unreadMarker), old(r.getBuffer), old(r.bitsLeft))
    ensures !ok ==> Held(mem) == DecodeMcu(cfg, old(FastView(r)), saved, old(Held(mem))).zs
  {
    hide *;
    ghost var zs, p := Held(mem), Seen(r.getBuffer, r.bitsLeft, r.src + r.future);
    CfgShape(cfg, saved, zs);
    TrueStream(r);
    AtMcu(r);
    var f := new FastReader(r, |cfg|);
    last := FastBlocks(f, cfg, saved, mem);
    ok := f.unreadMarker == 0;
    if ok {
      ExactlyLeft(f);
      WithinSource(f);
      ghost var q := DecodeLocal(cfg, p, saved, zs, Unseen(r.src + r.future));
      FastLeft(f, q);
      r.Advance(f.src[f.pos..], f.getBuffer, f.bitsLeft, q + f.unseen);
    } else {
      last := saved;
    }
  }

  lemma AtMcu(r: BitReader)
    requires r.Valid() && !r.insufficientData
    ensures FastView(r) == Seen(r.getBuffer, r.bitsLeft, r.src + r.future) + [false] && |r.src| + |r.future| <= r.size
    ensures r.Untouched(r.src, r.unreadMarker, r.getBuffer, r.bitsLeft)
  {
    hide Reads, Seen;
  }

  lemma WithinSource(f: FastReader)
    requires f.Valid()
    ensures f.pos <= |f.src| && f.bitsLeft <= BIT_BUF_SIZE && (f.plain ==> Plain(f.src[f.pos..] + f.future))
  {
    hide Holds;
  }

  lemma ExactlyLeft(f: FastReader)
    requires f.Valid() && f.unreadMarker == 0
    ensures f.rest != []
  {
  }

  /** One MCU as decode_mcu reads it: once the stream is used up, blocks are left as they are. */
  ghost function NextMcu(cfg: seq<BlockCfg>, b: Bits, last: seq<int>, zs: seq<Block>): (r: McuRead)
    requires McuShape(cfg, last, zs)
    ensures |r.zs| == |zs| && |r.last| == |last|
  {
    if b == [] then McuRead(zs, last, b) else DecodeMcu(cfg, b, last, zs)
  }

  /** The fast path will be tried, and will run past what it sees of the data. */
  ghost predicate Misled(r: BitReader, cfg: seq<BlockCfg>, saved: seq<int>, zs: seq<Block>)
    reads r
    requires McuShape(cfg, saved, zs)
  {
    && |r.src| >= BYTES_PER_BLOCK * |cfg| && r.unreadMarker == 0 && !r.insufficientData
    && DecodeMcu(cfg, FastView(r), saved, zs).rest == []
  }

  /** The blocks over which the MCU is then decoded in earnest. */
  ghost function StartedFrom(r: BitReader, cfg: seq<BlockCfg>, saved: seq<int>, zs: seq<Block>): (ys: seq<Block>)
    reads r
    requires McuShape(cfg, saved, zs)
    ensures |ys| == |zs|
  {
    if Misled(r, cfg, saved, zs) then DecodeMcu(cfg, FastView(r), saved, zs).zs else zs
  }

  /** In plain data, and with too few bytes at hand for the fast path, it makes no difference. */
  lemma StartHarmless(r: BitReader, cfg: seq<BlockCfg>, saved: seq<int>, zs: seq<Block>)
    requires r.Valid() && McuShape(cfg, saved, zs) && (r.plain || |r.src| < BYTES_PER_BLOCK * |cfg|)
    ensures var ys := StartedFrom(r, cfg, saved, zs);
      McuShape(cfg, saved, ys) && DecodeMcu(cfg, r.rest, saved, ys) == DecodeMcu(cfg, r.rest, saved, zs)
      && (r.rest == [] ==> ys == zs)
  {
    hide DecodeMcu, FastView, Reads;
    if Misled(r, cfg, saved, zs) {
      TrueStream(r);
      DecodeTwice(cfg, r.rest, saved, zs);
    }
  }

  /** A fast attempt that was not misled decoded only data. */
  lemma FastHarmless(r: BitReader, cfg: seq<BlockCfg>, saved: seq<int>, zs: seq<Block>)
    requires r.Valid() && r.unreadMarker == 0 && !r.insufficientData && McuShape(cfg, saved, zs)
    requires DecodeMcu(cfg, FastView(r), saved, zs).rest != []
    ensures var ys := DecodeMcu(cfg, FastView(r), saved, zs).zs;
      McuShape(cfg, saved, ys) && DecodeMcu(cfg, r.rest, saved, ys) == DecodeMcu(cfg, r.rest, saved, zs)
  {
    TrueStream(r);
    hide DecodeMcu, Reads, Seen, Unseen;
    var q := DecodeLocal(cfg, Seen(r.getBuffer, r.bitsLeft, r.src + r.future), saved, zs, Unseen(r.src + r.future));
    DecodeTwice(cfg, r.rest, saved, zs);
  }

  /** decode_mcu: nothing once data has run out; the fast path where the delivered bytes
      suffice; otherwise, or if that fails, the slow one. */
  method DecodeMcuEither(r: BitReader, cfg: seq<BlockCfg>, saved: seq<int>, mem: seq<array<int>>, ghost stock: int)
      returns (ok: bool, last: seq<int>)
    requires r.Valid() && Memory(mem) && |mem| == |cfg| > 0 && CfgOk(cfg, |saved|) && r.Stocked(stock)
    modifies r, mem
    ensures McuShape(cfg, saved, old(Held(mem))) && McuShape(cfg, saved, old(StartedFrom(r, cfg, saved, Held(mem))))
    ensures r.Valid() && r.future == old(r.future)
    ensures ok ==> NextMcu(cfg, old(r.rest), saved, old(StartedFrom(r, cfg, saved, Held(mem)))) == McuRead(Held(mem), last, r.rest)
    ensures !ok ==> r.future != [] && r.rest == old(r.rest) != [] && last == saved
                    && r.Untouched(old(r.src), old(r.unreadMarker), old(r.getBuffer), old(r.bitsLeft))
    ensures !ok ==>
      DecodeMcu(cfg, r.rest, saved, Held(mem)) == DecodeMcu(cfg, r.rest, saved, old(StartedFrom(r, cfg, saved, Held(mem))))
    ensures stock >= 57 + BlocksBits(|cfg|) ==> ok
  {
    ghost var b, zs := r.rest, Held(mem);
    CfgShape(cfg, saved, zs);
    ShapeKept(r, cfg, saved, zs);
    if r.insufficientData {
      return true, saved;
    }
    var tried := |r.src| >= BYTES_PER_BLOCK * |cfg| && r.unreadMarker == 0;
    ghost var ys, view := StartedFrom(r, cfg, saved, zs), FastView(r);
    if tried && DecodeMcu(cfg, view, saved, zs).rest != [] {
      FastHarmless(r, cfg, saved, zs);
    }
    hide Reads, CfgOk, Held, Plain, DecodeMcu, Seen, Segment;
    if tried {
      ok, last := DecodeMcuFast(r, cfg, saved, mem);
      if ok {
        return;
      }
    }
    ok, last := DecodeMcuSlow(r, cfg, saved, mem, stock);
  }

  lemma ShapeKept(r: BitReader, cfg: seq<BlockCfg>, saved: seq<int>, zs: seq<Block>)
    requires McuShape(cfg, saved, zs)
    ensures McuShape(cfg, saved, StartedFrom(r, cfg, saved, zs))
  {
    hide DecodeMcu;
  }
}
