/** The decoder's bit buffer (jpeg_fill_bit_buffer and the macros of jdhuff.h) over a source
    that delivers its bytes in pieces. */
module HuffmanReader {
  import opened Powers
  import opened Digits
  import opened BitString
  import opened HuffmanBlock

  const BIT_BUF_SIZE: nat := 64
  const MIN_GET_BITS: nat := BIT_BUF_SIZE - 7

  // ----- The data bytes of a segment

  datatype Fetched = Data(b: byte, rest: seq<byte>) | Marker(c: byte, rest: seq<byte>) | NeedMore

  /** After a 0xFF: fill bytes, then a stuffed zero or a marker code. */
  function AfterFF(src: seq<byte>): (r: Fetched)
    ensures !r.NeedMore? ==> |r.rest| < |src|
    ensures r.Marker? ==> r.c != 0
  {
    if src == [] then NeedMore
    else if src[0] == 0xFF then AfterFF(src[1..])
    else if src[0] == 0 then Data(0xFF, src[1..])
    else Marker(src[0], src[1..])
  }

  function NextByte(src: seq<byte>): (r: Fetched)
    ensures !r.NeedMore? ==> |r.rest| < |src|
    ensures r.Marker? ==> r.c != 0
  {
    if src == [] then NeedMore
    else if src[0] == 0xFF then AfterFF(src[1..])
    else Data(src[0], src[1..])
  }

  /** The data up to the next marker. */
  function Segment(src: seq<byte>): seq<byte>
    decreases |src|
  {
    match NextByte(src)
    case Data(b, rest) => [b] + Segment(rest)
    case Marker(_, _) => []
    case NeedMore => []
  }

  /** There is a marker ahead. */
  predicate Ends(src: seq<byte>)
    decreases |src|
  {
    match NextByte(src)
    case Data(b, rest) => Ends(rest)
    case Marker(_, _) => true
    case NeedMore => false
  }

  /** A stuffed zero follows its 0xFF directly; fill bytes come only before a marker. */
  predicate Plain(src: seq<byte>)
    decreases |src|
  {
    match NextByte(src)
    case Data(b, rest) => (src[0] == 0xFF ==> |src| >= 2 && src[1] == 0) && Plain(rest)
    case Marker(_, _) => true
    case NeedMore => true
  }

  /** Bytes not yet delivered do not change what has been found. */
  lemma {:induction false} AfterFFMore(src: seq<byte>, more: seq<byte>)
    requires !AfterFF(src).NeedMore?
    ensures AfterFF(src + more) == AfterFF(src).(rest := AfterFF(src).rest + more)
  {
    assert (src + more)[1..] == src[1..] + more;
    if src[0] == 0xFF {
      AfterFFMore(src[1..], more);
    }
  }

  lemma NextByteMore(src: seq<byte>, more: seq<byte>)
    requires !NextByte(src).NeedMore?
    ensures NextByte(src + more) == NextByte(src).(rest := NextByte(src).rest + more)
  {
    assert (src + more)[1..] == src[1..] + more;
    if src[0] == 0xFF {
      AfterFFMore(src[1..], more);
    }
  }

  /** A source that holds a whole segment never runs short before its end. */
  lemma NotShort(src: seq<byte>)
    requires Ends(src)
    ensures !NextByte(src).NeedMore?
  {
  }

  lemma SegmentStep(src: seq<byte>)
    requires NextByte(src).Data?
    ensures Segment(src) == [NextByte(src).b] + Segment(NextByte(src).rest) && Ends(src) == Ends(NextByte(src).rest)
  {
  }

  lemma StuffedFetched(b: byte, more: seq<byte>)
    ensures NextByte(StuffByte(b) + more) == Data(b, more)
  {
    var src := StuffByte(b) + more;
    if b == 255 {
      assert src[1..] == [0] + more && src[1..][1..] == more;
    } else {
      assert src[1..] == more;
    }
  }

  /** Stuffed data followed by a marker. */
  lemma {:induction false} SegmentOfStuffed(d: seq<byte>, tail: seq<byte>)
    requires |tail| >= 2 && tail[0] == 0xFF && 0 < tail[1] < 0xFF
    ensures Segment(Stuff(d) + tail) == d && Ends(Stuff(d) + tail)
  {
    hide *;
    if d == [] {
      NothingStuffed(tail);
    } else {
      SegmentOfStuffed(d[1..], tail);
      StuffStep(d, tail);
      StuffedFetched(d[0], Stuff(d[1..]) + tail);
      SegmentStep(Stuff(d) + tail);
    }
  }

  lemma StuffStep(d: seq<byte>, tail: seq<byte>)
    requires d != []
    ensures Stuff(d) + tail == StuffByte(d[0]) + (Stuff(d[1..]) + tail) && d == [d[0]] + d[1..]
  {
    assert Stuff(d) == StuffByte(d[0]) + Stuff(d[1..]);
    hide StuffByte, Stuff;
    BytesAssoc(StuffByte(d[0]), Stuff(d[1..]), tail);
  }

  lemma BytesAssoc(a: seq<byte>, b: seq<byte>, c: seq<byte>)
    ensures (a + b) + c == a + (b + c)
  {
  }

  lemma NothingStuffed(tail: seq<byte>)
    requires |tail| >= 2 && tail[0] == 0xFF && 0 < tail[1] < 0xFF
    ensures Segment(Stuff([]) + tail) == [] && Ends(Stuff([]) + tail) && Plain(Stuff([]) + tail)
  {
    assert Stuff([]) + tail == tail;
    assert tail[1..][0] == tail[1];
  }

  lemma {:induction false} PlainStuffed(d: seq<byte>, tail: seq<byte>)
    requires |tail| >= 2 && tail[0] == 0xFF && 0 < tail[1] < 0xFF
    ensures Plain(Stuff(d) + tail)
  {
    hide *;
    if d == [] {
      NothingStuffed(tail);
    } else {
      PlainStuffed(d[1..], tail);
      StuffStep(d, tail);
      PlainStep(d[0], Stuff(d[1..]) + tail);
    }
  }

  lemma PlainStep(b: byte, more: seq<byte>)
    requires Plain(more)
    ensures Plain(StuffByte(b) + more)
  {
    StuffedFetched(b, more);
  }

  // ----- Equal streams: zeros follow for ever

  ghost predicate Same(b: Bits, c: Bits) {
    forall i: nat :: At(b, i) == At(c, i)
  }

  lemma SameDrop(b: Bits, c: Bits, n: nat)
    requires Same(b, c)
    ensures Same(Drop(b, n), Drop(c, n))
  {
    forall i: nat ensures At(Drop(b, n), i) == At(Drop(c, n), i) {
      assert At(b, i + n) == At(c, i + n);
      assert At(Drop(b, n), i) == At(b, i + n) && At(Drop(c, n), i) == At(c, i + n);
    }
  }

  lemma SameWindow(b: Bits, c: Bits, n: nat)
    requires Same(b, c)
    ensures Window(b, n) == Window(c, n)
  {
    assert Ahead(b, n) == Ahead(c, n);
  }

  /** Zeros at the end change nothing. */
  lemma SameZeros(b: Bits, c: Bits, zeros: Bits)
    requires Same(b, c) && forall i :: 0 <= i < |zeros| ==> !zeros[i]
    ensures Same(b, c + zeros)
  {
    forall i: nat ensures At(b, i) == At(c + zeros, i) {
      assert At(b, i) == At(c, i);
    }
  }

  lemma {:induction false} ZeroBits(n: nat)
    ensures forall i :: 0 <= i < n ==> !BitsOf(0, n)[i]
  {
    if n > 0 {
      ZeroBits(n - 1);
    }
  }

  // ----- The bit buffer

  /** What is decoded: the data bits of the segment, then the first of the zeros that follow them.
      A decoder that has taken that one too has run past the end of the data. */
  function Stream(src: seq<byte>): Bits {
    Unpack(Segment(src)) + [false]
  }

  /** What a reader finds in finished bits before a marker. */
  lemma FinishedRead(b: Bits, tail: seq<byte>)
    requires |tail| >= 2 && tail[0] == 0xFF && 0 < tail[1] < 0xFF
    ensures Ends(Finished(b) + tail) && Plain(Finished(b) + tail)
    ensures Unpack(Segment(Finished(b) + tail)) == b + Padding(|b|)
    ensures Stream(Finished(b) + tail) == b + (Padding(|b|) + [false])
  {
    var d := Pack(b + Padding(|b|));
    UnpackPack(b + Padding(|b|));
    hide Pack, Unpack, Segment, Ends, Plain, Padding;
    SegmentOfStuffed(d, tail);
    PlainStuffed(d, tail);
    BitsAssoc(b, Padding(|b|), [false]);
  }

  /** The buffer's bits and the data still to come. */
  function Physical(buffer: nat, bitsLeft: nat, marker: byte, src: seq<byte>): Bits {
    BitsOf(buffer, bitsLeft) + if marker != 0 then [] else Unpack(Segment(src))
  }

  /** rest is the buffer's bits and then tail, exactly unless the decoder has run short. */
  ghost predicate Holds(rest: Bits, short: bool, buffer: nat, bitsLeft: nat, tail: Bits) {
    && Same(rest, BitsOf(buffer, bitsLeft) + tail)
    && (!short ==> rest == BitsOf(buffer, bitsLeft) + tail + [false])
  }

  ghost predicate Reads(rest: Bits, short: bool, buffer: nat, bitsLeft: nat, marker: byte, src: seq<byte>) {
    && Holds(rest, short, buffer, bitsLeft, if marker != 0 then [] else Unpack(Segment(src)))
    && (marker == 0 ==> Ends(src))
  }

  lemma SameSentinel(b: Bits)
    ensures Same(b + [false], b)
  {
    forall i: nat ensures At(b + [false], i) == At(b, i) {
    }
  }

  lemma ShiftIn(buffer: nat, bitsLeft: nat, b: byte)
    requires bitsLeft <= BIT_BUF_SIZE - 8
    ensures 0 <= (buffer * 256 + b) % Pow2(BIT_BUF_SIZE)
    ensures BitsOf((buffer * 256 + b) % Pow2(BIT_BUF_SIZE), bitsLeft + 8) == BitsOf(buffer, bitsLeft) + BitsOf(b, 8)
  {
    var v := buffer * 256 + b;
    Pow2Table();
    hide Pow2, BitsOf;
    BitsAppend(buffer, bitsLeft, b, 8);
    BitsModEq(v, BIT_BUF_SIZE);
    BitsSuffix(v, BIT_BUF_SIZE, bitsLeft + 8);
    BitsSuffix(v % Pow2(BIT_BUF_SIZE), BIT_BUF_SIZE, bitsLeft + 8);
  }

  /** One more byte in the buffer, which wraps at 64 bits. */
  lemma LoadByte(rest: Bits, short: bool, buffer: nat, bitsLeft: nat, src: seq<byte>)
    requires bitsLeft <= BIT_BUF_SIZE - 8 && Reads(rest, short, buffer, bitsLeft, 0, src) && NextByte(src).Data?
    ensures 0 <= (buffer * 256 + NextByte(src).b) % Pow2(BIT_BUF_SIZE)
    ensures Reads(rest, short, (buffer * 256 + NextByte(src).b) % Pow2(BIT_BUF_SIZE), bitsLeft + 8, 0, NextByte(src).rest)
  {
    hide Pow2, BitsOf, NextByte, Segment, Ends, Unpack, Same;
    var b, more := NextByte(src).b, NextByte(src).rest;
    ShiftIn(buffer, bitsLeft, b);
    SegmentStep(src);
    UnpackCons(b, Segment(more));
    BitsAssoc(BitsOf(buffer, bitsLeft), BitsOf(b, 8), Unpack(Segment(more)));
  }

  lemma UnpackCons(b: byte, d: seq<byte>)
    ensures Unpack([b] + d) == BitsOf(b, 8) + Unpack(d)
  {
    assert ([b] + d)[1..] == d;
  }

  lemma MeetMarker(rest: Bits, short: bool, buffer: nat, bitsLeft: nat, src: seq<byte>)
    requires Reads(rest, short, buffer, bitsLeft, 0, src) && NextByte(src).Marker?
    ensures Reads(rest, short, buffer, bitsLeft, NextByte(src).c, NextByte(src).rest)
  {
  }

  /** Zeros supplied after a marker. */
  lemma LoadZeros(rest: Bits, short: bool, buffer: nat, bitsLeft: nat, marker: byte, src: seq<byte>)
    requires bitsLeft <= MIN_GET_BITS && marker != 0 && Reads(rest, short, buffer, bitsLeft, marker, src)
    ensures 0 <= buffer * Pow2(MIN_GET_BITS - bitsLeft) % Pow2(BIT_BUF_SIZE)
    ensures Reads(rest, true, buffer * Pow2(MIN_GET_BITS - bitsLeft) % Pow2(BIT_BUF_SIZE), MIN_GET_BITS, marker, src)
  {
    hide *;
    var k: nat := MIN_GET_BITS - bitsLeft;
    ShiftedZeros(buffer, bitsLeft, k);
    ZeroBits(k);
    AfterMarker(rest, short, buffer, bitsLeft, marker, src);
    SameZeros(rest, BitsOf(buffer, bitsLeft), BitsOf(0, k));
    AtMarker(rest, buffer * Pow2(k) % Pow2(BIT_BUF_SIZE), MIN_GET_BITS, marker, src);
  }

  /** The buffer shifted left by k, in its word: zeros at the low end. */
  lemma ShiftedZeros(buffer: nat, n: nat, k: nat)
    requires n + k == MIN_GET_BITS
    ensures 0 <= buffer * Pow2(k) % Pow2(BIT_BUF_SIZE)
    ensures BitsOf(buffer * Pow2(k) % Pow2(BIT_BUF_SIZE), MIN_GET_BITS) == BitsOf(buffer, n) + BitsOf(0, k)
  {
    assert MIN_GET_BITS <= BIT_BUF_SIZE;
    hide *;
    var v := buffer * Pow2(k);
    MulMono(0, buffer, Pow2(k));
    BitsAppend(buffer, n, 0, k);
    BitsModEq(v, BIT_BUF_SIZE);
    BitsSuffix(v, BIT_BUF_SIZE, MIN_GET_BITS);
    BitsSuffix(v % Pow2(BIT_BUF_SIZE), BIT_BUF_SIZE, MIN_GET_BITS);
  }

  lemma AfterMarker(rest: Bits, short: bool, buffer: nat, n: nat, marker: byte, src: seq<byte>)
    requires marker != 0 && Reads(rest, short, buffer, n, marker, src)
    ensures Same(rest, BitsOf(buffer, n))
  {
    hide BitsOf, Same;
    assert BitsOf(buffer, n) + [] == BitsOf(buffer, n);
  }

  lemma AtMarker(rest: Bits, buffer: nat, n: nat, marker: byte, src: seq<byte>)
    requires marker != 0 && Same(rest, BitsOf(buffer, n))
    ensures Reads(rest, true, buffer, n, marker, src)
  {
    hide BitsOf, Same;
    assert BitsOf(buffer, n) + [] == BitsOf(buffer, n);
  }

  /** The top n bits of the buffer. */
  function Top(buffer: nat, bitsLeft: nat, n: nat): nat
    requires n <= bitsLeft
  {
    FloorAtLeast(buffer, Pow2(bitsLeft - n), 0);
    Wrapped(buffer / Pow2(bitsLeft - n), n);
    buffer / Pow2(bitsLeft - n) % Pow2(n)
  }

  lemma Wrapped(v: nat, n: nat)
    ensures 0 <= v % Pow2(n) < Pow2(n)
  {
    BitsModEq(v, n);
    FloorBounds(v, Pow2(n));
  }

  /** Taking n bits from the buffer takes them from the stream. */
  lemma TakeBits(rest: Bits, short: bool, buffer: nat, bitsLeft: nat, tail: Bits, n: nat)
    requires Holds(rest, short, buffer, bitsLeft, tail) && n <= bitsLeft
    ensures Top(buffer, bitsLeft, n) == Window(rest, n)
    ensures Holds(Drop(rest, n), short, buffer, bitsLeft - n, tail)
    ensures !short ==> n < |rest|
  {
    var all, k := BitsOf(buffer, bitsLeft) + tail, bitsLeft - n;
    BitsPrefix(buffer, bitsLeft, k);
    BitsSuffix(buffer, bitsLeft, k);
    BitsModEq(buffer / Pow2(k), n);
    Wrapped(buffer / Pow2(k), n);
    SameWindow(rest, all, n);
    SameDrop(rest, all, n);
    hide Pow2, BitsOf, Same;
    assert all[..n] == BitsOf(buffer, bitsLeft)[..n];
    WindowExact(all, buffer / Pow2(k) % Pow2(n), n);
    assert Drop(all, n) == BitsOf(buffer, k) + tail;
    assert (all + [false])[n..] == all[n..] + [false];
  }

  // ----- The reader

  /** Reading one byte of data from what has been delivered. */
  method FetchByte(src: seq<byte>) returns (f: Fetched)
    ensures f == NextByte(src)
  {
    if src == [] {
      return NeedMore;
    }
    var c, next := src[0], src[1..];
    if c == 0xFF {
      while true
        invariant AfterFF(next) == AfterFF(src[1..])
        decreases |next|
      {
        if next == [] {
          return NeedMore;
        }
        c, next := next[0], next[1..];
        if c != 0xFF {
          break;
        }
      }
      if c == 0 {
        c := 0xFF;
      } else {
        return Marker(c, next);
      }
    }
    f := Data(c, next);
  }

  class BitReader {
    var src: seq<byte>           // delivered and not yet read
    var unreadMarker: byte
    var getBuffer: nat
    var bitsLeft: nat
    var insufficientData: bool
    ghost var future: seq<byte>  // still to be delivered
    ghost var rest: Bits         // what the decoder has not yet taken of the stream
    ghost const plain: bool      // known to have no fill bytes in its data
    ghost const size: nat        // bytes of the whole segment and what follows it

    /** The flag says whether n more bits, asked for and not yet taken, reach past the end. */
    ghost predicate Asked(n: nat)
      reads this
    {
      && bitsLeft <= BIT_BUF_SIZE && Reads(rest, insufficientData, getBuffer, bitsLeft, unreadMarker, src + future)
      && (insufficientData ==> unreadMarker != 0) && (insufficientData <==> |rest| <= n)
      && (plain && unreadMarker == 0 ==> Plain(src + future)) && |src| + |future| <= size
    }

    /** Nothing asked for is outstanding: insufficient_data is set just when all the stream,
        and more, has been taken. */
    ghost predicate Valid()
      reads this
    {
      Asked(0)
    }

    /** At least n bits have been delivered, or the end of the segment has been found. */
    ghost predicate Stocked(n: int)
      reads this
    {
      unreadMarker != 0 || bitsLeft + 8 * |Segment(src)| >= n
    }

    /** At the start of a segment of which some bytes have been delivered. */
    constructor (src: seq<byte>, ghost future: seq<byte>, ghost plain: bool)
      requires Ends(src + future) && (plain ==> Plain(src + future))
      ensures Valid() && rest == Stream(src + future) && this.src == src && this.future == future
      ensures unreadMarker == 0 && bitsLeft == 0 && this.plain == plain && size == |src + future|
    {
      this.src, this.future, this.plain, size := src, future, plain, |src + future|;
      unreadMarker, getBuffer, bitsLeft, insufficientData := 0, 0, 0, false;
      rest := Stream(src + future);
      new;
      assert Physical(0, 0, 0, src + future) + [false] == rest;
      SameSentinel(Physical(0, 0, 0, src + future));
    }

    /** The source manager delivers some more bytes. */
    method Deliver(chunk: seq<byte>)
      requires Valid() && chunk <= future
      modifies this`src, this`future
      ensures Valid() && src == old(src) + chunk && future == old(future)[|chunk|..]
    {
      assert future == chunk + future[|chunk|..];
      assert src + future == src + chunk + future[|chunk|..];
      src, future := src + chunk, future[|chunk|..];
    }

    ghost predicate Untouched(s: seq<byte>, m: byte, g: nat, b: nat)
      reads this
    {
      src == s && unreadMarker == m && getBuffer == g && bitsLeft == b
    }

    /** jpeg_fill_bit_buffer: false only if delivered bytes run out, and then nothing changes. */
    method FillBitBuffer(nbits: nat, ghost stock: int) returns (ok: bool)
      requires Valid() && nbits <= MIN_GET_BITS && Stocked(stock)
      modifies this`src, this`unreadMarker, this`getBuffer, this`bitsLeft, this`insufficientData
      ensures ok ==> Asked(nbits) && Stocked(stock)
      ensures ok ==> nbits <= bitsLeft && old(bitsLeft) <= bitsLeft && (bitsLeft >= MIN_GET_BITS || unreadMarker != 0)
      ensures !ok ==> Valid() && future != [] && !insufficientData && Untouched(old(src), old(unreadMarker), old(getBuffer), old(bitsLeft))
      ensures stock >= MIN_GET_BITS ==> ok
    {
      hide Reads, Pow2, NextByte, Segment, Ends, Plain;
      var next, marker := src, unreadMarker;
      var buffer: nat, left: nat := getBuffer, bitsLeft;
      while marker == 0 && left < MIN_GET_BITS
        invariant unchanged(this) && bitsLeft <= left <= BIT_BUF_SIZE
        invariant Reads(rest, insufficientData, buffer, left, marker, next + future)
        invariant marker == 0 ==> unreadMarker == 0 && left + 8 * |Segment(next)| == bitsLeft + 8 * |Segment(src)|
        invariant insufficientData ==> marker != 0
        invariant |next| <= |src|
        invariant plain && marker == 0 ==> Plain(next + future)
        decreases marker == 0, |next|
      {
        var f := FetchByte(next);
        if f.NeedMore? {
          SomeFuture(rest, insufficientData, buffer, left, next, future);
          return false;
        }
        NextByteMore(next, future);
        PlainRest(next + future);
        if f.Marker? {
          MeetMarker(rest, insufficientData, buffer, left, next + future);
          marker := f.c;
        } else {
          SegmentStep(next);
          LoadByte(rest, insufficientData, buffer, left, next + future);
          buffer := (buffer * 256 + f.b) % Pow2(BIT_BUF_SIZE);
          left := left + 8;
        }
        next := f.rest;
      }
      ExactLength(rest, insufficientData, buffer, left, marker, next + future);
      if marker != 0 && nbits > left {
        LoadZeros(rest, insufficientData, buffer, left, marker, next + future);
        insufficientData := true;
        buffer := buffer * Pow2(MIN_GET_BITS - left) % Pow2(BIT_BUF_SIZE);
        left := MIN_GET_BITS;
      }
      src, unreadMarker, getBuffer, bitsLeft := next, marker, buffer, left;
      ok := true;
    }

    lemma PlainRest(src: seq<byte>)
      ensures Plain(src) && NextByte(src).Data? ==> Plain(NextByte(src).rest)
    {
    }

    lemma ExactLength(rest: Bits, short: bool, buffer: nat, left: nat, marker: byte, src: seq<byte>)
      requires Reads(rest, short, buffer, left, marker, src)
      ensures !short ==> |rest| > left && (marker != 0 ==> |rest| == left + 1)
    {
    }

    lemma SomeFuture(rest: Bits, short: bool, buffer: nat, left: nat, next: seq<byte>, future: seq<byte>)
      requires Reads(rest, short, buffer, left, 0, next + future) && NextByte(next).NeedMore?
      ensures future != [] && Segment(next) == []
    {
      if future == [] {
        assert next + future == next;
        NotShort(next);
      }
    }

    /** CHECK_BIT_BUFFER. */
    method CheckBitBuffer(nbits: nat, ghost stock: int) returns (ok: bool)
      requires Valid() && nbits <= MIN_GET_BITS && Stocked(stock)
      modifies this`src, this`unreadMarker, this`getBuffer, this`bitsLeft, this`insufficientData
      ensures ok ==> Asked(nbits) && nbits <= bitsLeft && Stocked(stock)
      ensures !ok ==> Valid() && future != [] && !insufficientData
      ensures stock >= MIN_GET_BITS ==> ok
    {
      ok := true;
      ExactLength(rest, insufficientData, getBuffer, bitsLeft, unreadMarker, src + future);
      hide Reads, Segment, Plain;
      if bitsLeft < nbits {
        ok := FillBitBuffer(nbits, stock);
      }
    }

    /** BITREAD_LOAD_STATE and back: drops what a broken-off attempt did to the working copy. */
    method Restore(s: seq<byte>, m: byte, g: nat, n: nat, ghost b: Bits)
      requires n <= BIT_BUF_SIZE && Reads(b, false, g, n, m, s + future) && !insufficientData
      requires (plain && m == 0 ==> Plain(s + future)) && |s| + |future| <= size
      modifies this`src, this`unreadMarker, this`getBuffer, this`bitsLeft, this`rest
      ensures Valid() && Untouched(s, m, g, n) && rest == b
    {
      src, unreadMarker, getBuffer, bitsLeft, rest := s, m, g, n, b;
    }

    /** BITREAD_SAVE_STATE after a fast MCU, which has met no marker. */
    method Advance(s: seq<byte>, g: nat, n: nat, ghost b: Bits)
      requires n <= BIT_BUF_SIZE && Reads(b, false, g, n, 0, s + future) && !insufficientData && (plain ==> Plain(s + future)) && |s| + |future| <= size
      modifies this`src, this`unreadMarker, this`getBuffer, this`bitsLeft, this`rest
      ensures Valid() && Untouched(s, 0, g, n) && rest == b
    {
      src, unreadMarker, getBuffer, bitsLeft, rest := s, 0, g, n, b;
    }

    /** GET_BITS, of bits asked for or at hand. */
    method GetBits(n: nat, ghost stock: int) returns (v: nat)
      requires (Asked(n) || Valid()) && n <= bitsLeft && Stocked(stock)
      modifies this`bitsLeft, this`rest
      ensures Valid() && v == Window(old(rest), n) && rest == Drop(old(rest), n) && bitsLeft == old(bitsLeft) - n
      ensures Stocked(stock - n)
    {
      TakeBits(rest, insufficientData, getBuffer, bitsLeft, if unreadMarker != 0 then [] else Unpack(Segment(src + future)), n);
      hide Holds, Pow2, Window, Segment, Plain;
      v := Top(getBuffer, bitsLeft, n);
      bitsLeft := bitsLeft - n;
      rest := Drop(rest, n);
    }

    /** PEEK_BITS. */
    method PeekBits(n: nat) returns (v: nat)
      requires Valid() && n <= bitsLeft
      ensures v == Window(rest, n)
    {
      TakeBits(rest, insufficientData, getBuffer, bitsLeft, if unreadMarker != 0 then [] else Unpack(Segment(src + future)), n);
      hide Holds, Pow2, Window;
      v := Top(getBuffer, bitsLeft, n);
    }
  }
}
