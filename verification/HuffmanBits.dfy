/** The two bit writers of the Huffman encoders: the sequential encoder's 64-bit buffer with
    its test for 0xFF bytes (jchuff.c), and the progressive encoder's 24-bit buffer (jcphuff.c).
    Both are proved to write the same thing: the bits packed, stuffed and padded with ones. */
module HuffmanBits {
  import opened Powers
  import opened Digits
  import opened BitString

  const BIT_BUF_SIZE: nat := 64

  // ----- The test for a 0xFF byte

  /** 0x01 in each of n bytes. */
  function Ones(n: nat): nat {
    if n == 0 then 0 else Ones(n - 1) * 256 + 1
  }

  /** One of the low n bytes has its top bit set in w and clear in s: what
      w & 0x80...80 & ~s is tested for. */
  predicate TopBitLost(w: nat, s: nat, n: nat) {
    n > 0 && ((w % 256 >= 128 && s % 256 < 128) || TopBitLost(w / 256, s / 256, n - 1))
  }

  predicate HasFF(w: nat, n: nat) {
    n > 0 && (w % 256 == 255 || HasFF(w / 256, n - 1))
  }

  lemma {:induction false} TopBitLostIffFF(w: nat, n: nat)
    ensures TopBitLost(w, w + Ones(n), n) <==> HasFF(w, n)
  {
    if n > 0 {
      TopBitLostIffFF(w / 256, n - 1);
      if w % 256 != 255 {
        assert (w + Ones(n)) / 256 == w / 256 + Ones(n - 1) && (w + Ones(n)) % 256 == w % 256 + 1;
      }
    }
  }

  lemma {:induction false} TopBitModulo(w: nat, s: nat, n: nat, q: nat)
    ensures TopBitLost(w, s + q * Pow2(8 * n), n) == TopBitLost(w, s, n)
  {
    if n > 0 {
      Pow2Add(8, 8 * (n - 1));
      Pow2Table();
      var p := Pow2(8 * (n - 1));
      hide Pow2;
      TimesBytes(q, p);
      SplitByte(s, q * p);
      TopBitModulo(w / 256, s / 256, n - 1, q);
    }
  }

  lemma TimesBytes(q: nat, p: nat)
    ensures q * (256 * p) == 256 * (q * p) && 0 <= q * p
  {
  }

  lemma SplitByte(s: nat, x: nat)
    ensures (s + 256 * x) / 256 == s / 256 + x && (s + 256 * x) % 256 == s % 256
  {
  }

  /** The test in FLUSH, with the sum wrapped to 64 bits, is exact. */
  lemma DetectsFF(w: nat)
    ensures TopBitLost(w, (w + Ones(8)) % Pow2(64), 8) <==> HasFF(w, 8)
  {
    hide *;
    var s, m := w + Ones(8), Pow2(64);
    TopBitLostIffFF(w, 8);
    FloorBounds(s, m);
    FloorAtLeast(s, m, 0);
    TopBitModulo(w, s % m, 8, s / m);
  }

  /** The low k bytes of w, high byte first. */
  function BigEndian(w: nat, k: nat): (r: seq<byte>)
    ensures |r| == k
  {
    if k == 0 then [] else BigEndian(w / 256, k - 1) + [w % 256]
  }

  lemma {:induction false} PackIsBigEndian(w: nat, k: nat)
    ensures Pack(BitsOf(w, 8 * k)) == BigEndian(w, k)
  {
    if k > 0 {
      PackIsBigEndian(w / 256, k - 1);
      Pow2Table();
      BitsAppend(w / 256, 8 * (k - 1), w % 256, 8);
      assert w / 256 * 256 + w % 256 == w;
      hide Pow2;
      PackConcat(BitsOf(w / 256, 8 * (k - 1)), BitsOf(w % 256, 8));
      PackByte(w % 256);
    }
  }

  lemma {:induction false} NothingToStuff(w: nat, k: nat)
    requires !HasFF(w, k)
    ensures Stuff(BigEndian(w, k)) == BigEndian(w, k)
  {
    if k > 0 {
      NothingToStuff(w / 256, k - 1);
      StuffConcat(BigEndian(w / 256, k - 1), [w % 256]);
      StuffOne(w % 256);
    }
  }

  /** sent has gone to the destination after start, except its last n bits, which a buffer
      holds in its low end; above them it may hold anything. */
  ghost predicate Written(buffer: nat, n: int, out: seq<byte>, start: seq<byte>, sent: Bits) {
    && 0 <= n <= |sent| && (|sent| - n) % 8 == 0
    && out == start + Stuffed(sent[..|sent| - n])
    && BitsOf(buffer, n) == sent[|sent| - n..]
  }

  // ----- The 64-bit writer

  class WordWriter {
    var putBuffer: nat
    var freeBits: int
    var out: seq<byte>
    ghost var start: seq<byte>  // what the destination held before
    ghost var sent: Bits        // all the bits put since

    function Pending(): int
      reads this
    {
      BIT_BUF_SIZE - freeBits
    }

    ghost predicate Valid()
      reads this
    {
      0 <= freeBits <= BIT_BUF_SIZE && Written(putBuffer, Pending(), out, start, sent)
    }

    constructor (out: seq<byte>)
      ensures Valid() && start == out && sent == [] && this.out == out
    {
      putBuffer, freeBits := 0, BIT_BUF_SIZE;
      this.out, start, sent := out, out, [];
    }

    /** The byte and, speculatively, a zero that the next byte overwrites unless it is needed. */
    method EmitByte(b: byte)
      modifies this`out
      ensures out == old(out) + StuffByte(b)
    {
      var room := out + [b, 0];
      out := room[..|out| + if b < 0xFF then 1 else 2];
    }

    /** FLUSH: all 64 bits of w, in one go unless a byte of them needs stuffing. */
    method Flush(w: nat)
      modifies this`out
      ensures out == old(out) + Stuffed(BitsOf(w, 64))
    {
      DetectsFF(w);
      PackIsBigEndian(w, 8);
      hide Pow2, Ones, BitsOf, Pack;
      if TopBitLost(w, (w + Ones(8)) % Pow2(64), 8) {
        EmitBytes(w);
      } else {
        NothingToStuff(w, 8);
        out := out + BigEndian(w, 8);
      }
    }

    method EmitBytes(w: nat)
      modifies this`out
      ensures out == old(out) + Stuff(BigEndian(w, 8))
    {
      ghost var d := BigEndian(w, 8);
      var k := 8;
      assert BigEndian(w, 8)[..0] == [];
      while k > 0
        invariant 0 <= k <= 8 && out == old(out) + Stuff(d[..8 - k])
      {
        ByteAt(w, 8, 8 - k);
        StuffConcat(d[..8 - k], [d[8 - k]]);
        StuffOne(d[8 - k]);
        assert d[..8 - k] + [d[8 - k]] == d[..8 - k + 1];
        k := k - 1;
        EmitByte(w / Pow2(8 * k) % 256);
      }
      assert d[..8] == d;
    }

    lemma {:induction false} ByteAt(w: nat, k: nat, i: nat)
      requires i < k
      ensures 0 <= w / Pow2(8 * (k - 1 - i)) && BigEndian(w, k)[i] == w / Pow2(8 * (k - 1 - i)) % 256
      decreases k
    {
      FloorAtLeast(w, Pow2(8 * (k - 1 - i)), 0);
      if i == k - 1 {
        assert w / 1 == w;
      } else {
        ByteAt(w / 256, k - 1, i);
        ShiftBytes(w, k - 1 - i);
      }
    }

    lemma ShiftBytes(w: nat, j: nat)
      requires j > 0
      ensures w / Pow2(8 * j) == w / 256 / Pow2(8 * (j - 1))
    {
      Pow2Add(8, 8 * (j - 1));
      Pow2Table();
      var p := Pow2(8 * (j - 1));
      hide Pow2;
      FloorBounds(w / 256, p);
      var q, r := w / 256 / p, w / 256 % p;
      assert q * (256 * p) == 256 * (q * p);
      DivUnique(w, 256 * p, q, 256 * r + w % 256);
    }

    /** PUT_BITS. */
    method PutBits(code: nat, size: nat)
      requires Valid() && size < BIT_BUF_SIZE && code < Pow2(size)
      modifies this
      ensures Valid() && start == old(start) && sent == old(sent) + BitsOf(code, size)
    {
      hide Pow2, BitsOf, Stuffed, Written;
      ghost var n := Pending();
      if freeBits - size < 0 {
        Spilled(putBuffer, freeBits, out, start, sent, code, size);
        freeBits := freeBits - size;
        PutAndFlush(code, size);
      } else {
        Appended(putBuffer, n, out, start, sent, code, size);
        freeBits := freeBits - size;
        putBuffer := (putBuffer * Pow2(size) + code) % Pow2(BIT_BUF_SIZE);
      }
      sent := sent + BitsOf(code, size);
    }

    /** PUT_AND_FLUSH: fills the buffer with the leading bits of code, writes it out, and keeps
        code for its remaining bits. */
    method PutAndFlush(code: nat, size: nat)
      requires 0 < -freeBits <= size
      modifies this`putBuffer, this`freeBits, this`out
      ensures freeBits == old(freeBits) + BIT_BUF_SIZE && putBuffer == code
      ensures out == old(out) + Stuffed(BitsOf(FullWord(old(putBuffer), old(freeBits) + size, code, size), 64))
    {
      hide Pow2, BitsOf, Stuffed;
      var w := FullWord(putBuffer, size + freeBits, code, size);
      Flush(w);
      freeBits := freeBits + BIT_BUF_SIZE;
      putBuffer := code;
    }

    /** (put_buffer << free) | (code >> (size - free)) */
    static function FullWord(buffer: nat, free: nat, code: nat, size: nat): nat
      requires free <= size
    {
      FloorAtLeast(code, Pow2(size - free), 0);
      Unwrapped(buffer * Pow2(free) + code / Pow2(size - free));
      (buffer * Pow2(free) + code / Pow2(size - free)) % Pow2(BIT_BUF_SIZE)
    }

    static lemma Unwrapped(v: nat)
      ensures 0 <= v % Pow2(BIT_BUF_SIZE)
    {
      WrapBuffer(v, 0);
    }

    /** Wrapping to the buffer's width leaves the pending bits. */
    static lemma WrapBuffer(v: nat, n: nat)
      requires n <= BIT_BUF_SIZE
      ensures 0 <= v % Pow2(BIT_BUF_SIZE) && BitsOf(v % Pow2(BIT_BUF_SIZE), n) == BitsOf(v, n)
    {
      BitsModEq(v, BIT_BUF_SIZE);
      BitsSuffix(v, BIT_BUF_SIZE, n);
      BitsSuffix(v % Pow2(BIT_BUF_SIZE), BIT_BUF_SIZE, n);
    }

    /** Room enough: the code joins the pending bits. */
    static lemma Appended(buffer: nat, n: nat, out: seq<byte>, start: seq<byte>, sent: Bits, code: nat, size: nat)
      requires Written(buffer, n, out, start, sent) && code < Pow2(size) && n + size <= BIT_BUF_SIZE
      ensures 0 <= (buffer * Pow2(size) + code) % Pow2(BIT_BUF_SIZE)
      ensures Written((buffer * Pow2(size) + code) % Pow2(BIT_BUF_SIZE), n + size, out, start, sent + BitsOf(code, size))
    {
      hide Pow2, BitsOf, Stuffed;
      BitsAppend(buffer, n, code, size);
      WrapBuffer(buffer * Pow2(size) + code, n + size);
      SplitAppend(sent, |sent| - n, BitsOf(code, size));
    }

    static lemma SplitAppend(sent: Bits, i: nat, more: Bits)
      requires i <= |sent|
      ensures (sent + more)[..i] == sent[..i] && (sent + more)[i..] == sent[i..] + more
    {
    }

    static lemma SplitLater(sent: Bits, i: nat, more: Bits, f: nat)
      requires i <= |sent| && f <= |more|
      ensures (sent + more)[..|sent| + f] == sent[..i] + (sent[i..] + more[..f])
      ensures (sent + more)[|sent| + f..] == more[f..]
    {
    }

    /** The word written out: the pending bits and as many of the code as there was room for. */
    static lemma FilledWord(buffer: nat, free: nat, code: nat, size: nat)
      requires free <= BIT_BUF_SIZE && free < size && code < Pow2(size)
      ensures BitsOf(FullWord(buffer, free, code, size), 64) == BitsOf(buffer, BIT_BUF_SIZE - free) + BitsOf(code, size)[..free]
    {
      hide Pow2, BitsOf;
      var k := size - free;
      BitsPrefix(code, size, k);
      QuotientBelow(code, free, k);
      BitsAppend(buffer, BIT_BUF_SIZE - free, code / Pow2(k), free);
      WrapBuffer(buffer * Pow2(free) + code / Pow2(k), BIT_BUF_SIZE);
    }

    /** Not room enough: 64 bits go out, and what is left of the code is pending. */
    static lemma Spilled(buffer: nat, free: nat, out: seq<byte>, start: seq<byte>, sent: Bits, code: nat, size: nat)
      requires free <= BIT_BUF_SIZE && Written(buffer, BIT_BUF_SIZE - free, out, start, sent)
      requires free < size <= BIT_BUF_SIZE && code < Pow2(size)
      ensures Written(code, size - free, out + Stuffed(BitsOf(FullWord(buffer, free, code, size), 64)), start,
                      sent + BitsOf(code, size))
    {
      hide Pow2, BitsOf, Stuffed, FullWord;
      FilledWord(buffer, free, code, size);
      BitsSuffix(code, size, size - free);
      var more, i := BitsOf(code, size), |sent| - (BIT_BUF_SIZE - free);
      StuffedConcat(sent[..i], sent[i..] + more[..free]);
      SplitLater(sent, i, more, free);
    }

    /** flush_bits: the pending bits byte by byte, the last byte filled up with ones. */
    method FlushBits()
      requires Valid()
      modifies this
      ensures Valid() && start == old(start) && out == start + Finished(old(sent)) && freeBits == BIT_BUF_SIZE
    {
      hide Pow2, BitsOf, Stuffed, Written, Finished, Padding;
      var putBits: nat := BIT_BUF_SIZE - freeBits;
      while putBits >= 8
        invariant Written(putBuffer, putBits, out, start, sent)
        invariant start == old(start) && sent == old(sent)
      {
        NextByteOut(putBuffer, putBits, out, start, sent);
        putBits := putBits - 8;
        EmitByte(putBuffer / Pow2(putBits) % 256);
      }
      LastByteOut(putBuffer, putBits, out, start, sent);
      if putBits != 0 {
        EmitByte((putBuffer * Pow2(8 - putBits) + 255 / Pow2(putBits)) % 256);
      }
      putBuffer, freeBits := 0, BIT_BUF_SIZE;
      sent := sent + Padding(|sent|);
      AllWritten(out, start, old(sent));
    }

    static lemma AllWritten(out: seq<byte>, start: seq<byte>, sent: Bits)
      requires out == start + Finished(sent)
      ensures Written(0, 0, out, start, sent + Padding(|sent|))
    {
      var all := sent + Padding(|sent|);
      assert all[..|all|] == all;
    }

    static lemma NextByteOut(buffer: nat, putBits: nat, out: seq<byte>, start: seq<byte>, all: Bits)
      requires 8 <= putBits && Written(buffer, putBits, out, start, all)
      ensures 0 <= buffer / Pow2(putBits - 8)
      ensures Written(buffer, putBits - 8, out + StuffByte(buffer / Pow2(putBits - 8) % 256), start, all)
    {
      hide Pow2, BitsOf, Pack, Stuffed;
      var k := putBits - 8;
      BitsPrefix(buffer, putBits, k);
      BitsSuffix(buffer, putBits, k);
      OneByte(buffer / Pow2(k));
      var i := |all| - putBits;
      SplitEight(all, i);
      StuffedConcat(all[..i], all[i..][..8]);
    }

    static lemma SplitEight(all: Bits, i: nat)
      requires i + 8 <= |all|
      ensures all[..i + 8] == all[..i] + all[i..][..8] && all[i + 8..] == all[i..][8..]
    {
    }

    static lemma OneByte(b: nat)
      ensures Stuffed(BitsOf(b, 8)) == StuffByte(b % 256)
    {
      Pow2Table();
      BitsModEq(b, 8);
      PackByte(b % 256);
      StuffOne(b % 256);
    }

    static lemma LastByteOut(buffer: nat, putBits: nat, out: seq<byte>, start: seq<byte>, all: Bits)
      requires putBits < 8 && Written(buffer, putBits, out, start, all)
      ensures 0 <= 255 / Pow2(putBits)
      ensures start + Finished(all)
           == out + if putBits == 0 then [] else StuffByte((buffer * Pow2(8 - putBits) + 255 / Pow2(putBits)) % 256)
    {
      hide *;
      FloorAtLeast(255, Pow2(putBits), 0);
      LastWritten(buffer, putBits, out, start, all);
      var i: nat := |all| - putBits;
      if putBits > 0 {
        OnesShifted(putBits);
        FilledUp(buffer, putBits, all[i..], 8 - putBits);
        StuffedConcat(all[..i], all[i..] + Padding(|all|));
      }
    }

    /** What is left to do: nothing, or one padded byte. */
    static lemma LastWritten(buffer: nat, putBits: nat, out: seq<byte>, start: seq<byte>, all: Bits)
      requires putBits < 8 && Written(buffer, putBits, out, start, all)
      ensures putBits <= |all| && (|all| - putBits) % 8 == 0 && BitsOf(buffer, putBits) == all[|all| - putBits..]
      ensures putBits == 0 ==> start + Finished(all) == out
      ensures putBits > 0 ==>
        && Padding(|all|) == seq(8 - putBits, _ => true)
        && start + Finished(all) == start + Stuffed(all[..|all| - putBits] + (all[|all| - putBits..] + Padding(|all|)))
        && out == start + Stuffed(all[..|all| - putBits]) && |all[|all| - putBits..] + Padding(|all|)| % 8 == 0
    {
      var i: nat, pad := |all| - putBits, Padding(|all|);
      hide BitsOf, Stuffed;
      if putBits == 0 {
        assert all[..|all|] == all && all + pad == all;
      } else {
        assert pad == seq(8 - putBits, _ => true);
        assert all + pad == all[..i] + (all[i..] + pad);
      }
    }

    static lemma FilledUp(buffer: nat, n: nat, rest: Bits, k: nat)
      requires n + k == 8 && BitsOf(buffer, n) == rest
      ensures Stuffed(rest + seq(k, _ => true)) == StuffByte((buffer * Pow2(k) + (Pow2(k) - 1)) % 256)
    {
      OnesBits(k);
      hide Pow2, BitsOf, Stuffed;
      BitsAppend(buffer, n, Pow2(k) - 1, k);
      OneByte(buffer * Pow2(k) + (Pow2(k) - 1));
    }

    static lemma OnesShifted(k: nat)
      requires 0 < k < 8
      ensures 255 / Pow2(k) == Pow2(8 - k) - 1
    {
      Pow2Table();
      Pow2Add(k, 8 - k);
      var p, q := Pow2(k), Pow2(8 - k);
      hide Pow2;
      Distribute(q, -1, p);
      DivUnique(255, p, q - 1, p - 1);
    }
  }

  // ----- The 24-bit writer

  /** Multiples of 2^j wrapped to 64 bits keep their bits above j. */
  lemma WrapAligned(q: nat, j: nat, n: nat)
    requires n + j <= 64
    ensures var v := q * Pow2(j) % Pow2(64);
      0 <= v && v % Pow2(j) == 0 && 0 <= v / Pow2(j) && BitsOf(v / Pow2(j), n) == BitsOf(q, n)
  {
    Pow2Add(64 - j, j);
    hide Pow2, BitsOf;
    BitsModEq(q, 64 - j);
    BitsSuffix(q, 64 - j, n);
    BitsSuffix(q % Pow2(64 - j), 64 - j, n);
    ModAligned(q, Pow2(64 - j), Pow2(j));
  }

  lemma ModAligned(q: nat, m: nat, d: nat)
    requires m > 0 && d > 0
    ensures m * d > 0 && 0 <= q % m
    ensures q * d % (m * d) == q % m * d && q % m * d % d == 0 && q % m * d / d == q % m
  {
    FloorBounds(q, m);
    MulMono(1, m, d);
    MulMono(q % m + 1, m, d);
    Distribute(q % m, 1, d);
    Distribute(q / m * m, q % m, d);
    Regroup(q / m, m, d);
    DivUnique(q * d, m * d, q / m, q % m * d);
    DivUnique(q % m * d, d, q % m, 0);
  }

  lemma Regroup(x: int, y: int, z: int)
    ensures x * y * z == x * (y * z)
  {
  }

  class NarrowWriter {
    var putBuffer: nat
    var putBits: nat
    var out: seq<byte>
    ghost var start: seq<byte>
    ghost var sent: Bits

    /** The pending bits are left-justified in the low 24 bits of the buffer. */
    ghost predicate Valid()
      reads this
    {
      putBits < 8 && LeftJustified(putBuffer, putBits, out, start, sent)
    }

    static ghost predicate LeftJustified(buffer: nat, n: nat, out: seq<byte>, start: seq<byte>, sent: Bits) {
      && n <= 24 && buffer % Pow2(24 - n) == 0 && 0 <= buffer / Pow2(24 - n)
      && Written(buffer / Pow2(24 - n), n, out, start, sent)
    }

    constructor (out: seq<byte>)
      ensures Valid() && start == out && sent == [] && this.out == out
    {
      putBuffer, putBits := 0, 0;
      this.out, start, sent := out, out, [];
      new;
      assert 0 % Pow2(24) == 0 && 0 / Pow2(24) == 0 by { DivUnique(0, Pow2(24), 0, 0); }
    }

    method EmitByte(b: byte)
      modifies this`out
      ensures out == old(out) + [b]
    {
      out := out + [b];
    }

    method EmitStuffed(c: byte)
      modifies this`out
      ensures out == old(out) + StuffByte(c)
    {
      EmitByte(c);
      if c == 0xFF {
        EmitByte(0);
      }
    }

    /** emit_bits; a size of zero is the error for a symbol without a code. */
    method EmitBits(code: nat, size: nat) returns (ok: bool)
      requires Valid() && size <= 16
      modifies this
      ensures Valid() && start == old(start)
      ensures ok == (size > 0) && sent == old(sent) + BitsOf(code, size)
    {
      hide Pow2, BitsOf, Stuffed, LeftJustified;
      if size == 0 {
        NothingSent(sent, code);
        return false;
      }
      ghost var all := sent + BitsOf(code, size);
      Merged(putBuffer, putBits, out, start, sent, code, size);
      var n: nat := putBits + size;
      var buffer: nat := code % Pow2(size) * Pow2(24 - n) + putBuffer;
      while n >= 8
        invariant LeftJustified(buffer, n, out, start, all) && start == old(start) && sent == old(sent)
      {
        ByteShiftedOut(buffer, n, out, start, all);
        EmitStuffed(buffer / 0x10000 % 256);
        buffer := buffer * 256 % Pow2(64);
        n := n - 8;
      }
      putBuffer, putBits := buffer, n;
      sent := all;
      ok := true;
    }

    static lemma NothingSent(sent: Bits, code: nat)
      ensures sent + BitsOf(code, 0) == sent
    {
    }

    /** The new bits, aligned below the pending ones. */
    static lemma Merged(buffer: nat, n: nat, out: seq<byte>, start: seq<byte>, sent: Bits, code: nat, size: nat)
      requires n < 8 && LeftJustified(buffer, n, out, start, sent) && size <= 16
      ensures 0 <= code % Pow2(size) && 0 <= code % Pow2(size) * Pow2(24 - (n + size))
      ensures LeftJustified(code % Pow2(size) * Pow2(24 - (n + size)) + buffer, n + size, out, start, sent + BitsOf(code, size))
    {
      hide Pow2, BitsOf, Stuffed, Written;
      BitsModEq(code, size);
      var j := 24 - (n + size);
      var p, c := buffer / Pow2(24 - n), code % Pow2(size);
      Pow2Add(size, j);
      FloorBounds(buffer, Pow2(24 - n));
      FloorBounds(code, Pow2(size));
      MulMono(0, c, Pow2(j));
      Tack(p, n, out, start, sent, c, size);
      TwoParts(p, Pow2(size), c, Pow2(j));
    }

    static lemma TwoParts(p: nat, a: nat, c: nat, d: nat)
      requires d > 0
      ensures var v := c * d + p * (a * d); v % d == 0 && v / d == p * a + c
    {
      Regroup(p, a, d);
      Distribute(p * a, c, d);
      DivUnique(c * d + p * (a * d), d, p * a + c, 0);
    }

    static lemma Tack(p: nat, n: nat, out: seq<byte>, start: seq<byte>, sent: Bits, c: nat, size: nat)
      requires Written(p, n, out, start, sent) && c < Pow2(size)
      ensures Written(p * Pow2(size) + c, n + size, out, start, sent + BitsOf(c, size))
    {
      hide Pow2, BitsOf, Stuffed;
      BitsAppend(p, n, c, size);
      WordWriter.SplitAppend(sent, |sent| - n, BitsOf(c, size));
    }

    static lemma ByteShiftedOut(buffer: nat, n: nat, out: seq<byte>, start: seq<byte>, all: Bits)
      requires n >= 8 && LeftJustified(buffer, n, out, start, all)
      ensures 0 <= buffer * 256 % Pow2(64)
      ensures LeftJustified(buffer * 256 % Pow2(64), n - 8, out + StuffByte(buffer / 0x10000 % 256), start, all)
    {
      hide Pow2, BitsOf, Stuffed;
      var j, q := 24 - n, buffer / Pow2(24 - n);
      Pow2Add(8, j);
      Pow2Add(n - 8, j);
      Pow2Table();
      FloorBounds(buffer, Pow2(j));
      WordWriter.NextByteOut(q, n, out, start, all);
      TwoShifts(q, Pow2(n - 8), Pow2(j));
      EightMore(q, Pow2(j));
      WrapAligned(q, j + 8, n - 8);
      ReWritten(q, buffer * 256 % Pow2(64) / Pow2(j + 8), n - 8, out + StuffByte(buffer / 0x10000 % 256), start, all);
    }

    static lemma EightMore(q: nat, d: nat)
      ensures q * d * 256 == q * (256 * d)
    {
    }

    static lemma ReWritten(p: nat, q: nat, n: nat, out: seq<byte>, start: seq<byte>, all: Bits)
      requires Written(p, n, out, start, all) && BitsOf(q, n) == BitsOf(p, n)
      ensures Written(q, n, out, start, all)
    {
    }

    static lemma TwoShifts(q: nat, a: nat, b: nat)
      requires a > 0 && b > 0
      ensures a * b > 0 && q * b / (a * b) == q / a
    {
      FloorBounds(q, a);
      MulMono(1, a, b);
      MulMono(q % a + 1, a, b);
      Distribute(q % a, 1, b);
      Distribute(q / a * a, q % a, b);
      Regroup(q / a, a, b);
      DivUnique(q * b, a * b, q / a, q % a * b);
    }

    /** flush_bits: seven ones fill any partial byte, and what is left of them is dropped. */
    method FlushBits()
      requires Valid()
      modifies this
      ensures Valid() && start == old(start) && out == start + Finished(old(sent))
    {
      hide Pow2, BitsOf, Stuffed, Finished, Padding, LeftJustified;
      var ok := EmitBits(0x7F, 7);
      SevenOnes(putBuffer, putBits, out, start, old(sent));
      putBuffer, putBits := 0, 0;
      sent := old(sent) + Padding(|old(sent)|);
      Emptied(out, start, old(sent));
    }

    static lemma SevenOnes(buffer: nat, n: nat, out: seq<byte>, start: seq<byte>, sent: Bits)
      requires n < 8 && LeftJustified(buffer, n, out, start, sent + BitsOf(0x7F, 7))
      ensures out == start + Finished(sent)
    {
      hide *;
      SevenBits();
      CutToByte(buffer, n, out, start, sent, seq(7, _ => true));
    }

    static lemma SevenBits()
      ensures BitsOf(0x7F, 7) == seq(7, _ => true)
    {
      assert Pow2(7) == 128 by { Pow2Table(); assert Pow2(8) == 2 * Pow2(7); }
      OnesBits(7);
    }

    /** Of seven ones, those that do not fill a byte are dropped. */
    static lemma CutToByte(buffer: nat, n: nat, out: seq<byte>, start: seq<byte>, sent: Bits, ones: Bits)
      requires n < 8 && ones == seq(7, _ => true) && LeftJustified(buffer, n, out, start, sent + ones)
      ensures out == start + Finished(sent)
    {
      hide Pow2, BitsOf, Stuffed;
      var all, pad := sent + ones, Padding(|sent|);
      assert |all| - n == |sent| + |pad|;
      assert all[..|sent| + |pad|] == sent + pad;
    }

    static lemma Emptied(out: seq<byte>, start: seq<byte>, sent: Bits)
      requires out == start + Finished(sent)
      ensures LeftJustified(0, 0, out, start, sent + Padding(|sent|))
    {
      WordWriter.AllWritten(out, start, sent);
      DivUnique(0, Pow2(24), 0, 0);
    }
  }

  // ----- The two agree

  datatype Piece = Piece(code: nat, size: nat)

  /** Codes of 1 to 16 bits, as both writers are handed them. */
  ghost predicate PiecesOk(ps: seq<Piece>) {
    forall i :: 0 <= i < |ps| ==> 1 <= ps[i].size <= 16 && ps[i].code < Pow2(ps[i].size)
  }

  function Concat(ps: seq<Piece>): Bits {
    if ps == [] then [] else Concat(ps[..|ps| - 1]) + BitsOf(ps[|ps| - 1].code, ps[|ps| - 1].size)
  }

  /** Both writers turn any sequence of codes into the same bytes: the concatenated bits,
      padded with ones and stuffed. */
  method WriteBoth(ps: seq<Piece>) returns (wide: seq<byte>, narrow: seq<byte>)
    requires PiecesOk(ps)
    ensures wide == narrow == Finished(Concat(ps))
  {
    var w := new WordWriter([]);
    var v := new NarrowWriter([]);
    hide Pow2, BitsOf, Stuffed, Finished, Written, NarrowWriter.LeftJustified;
    for i := 0 to |ps|
      invariant w.Valid() && v.Valid() && w.start == v.start == [] && w.sent == v.sent == Concat(ps[..i])
    {
      assert ps[..i + 1][..i] == ps[..i];
      w.PutBits(ps[i].code, ps[i].size);
      var ok := v.EmitBits(ps[i].code, ps[i].size);
    }
    assert ps[..|ps|] == ps;
    w.FlushBits();
    v.FlushBits();
    wide, narrow := w.out, v.out;
  }
}
