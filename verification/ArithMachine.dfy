/** The arithmetic coder as arith_encode and arith_decode run it: registers updated in place, bytes appended
    to the destination, statistics bins rewritten.  Each method is proved to do exactly
    what the functions say about which the theorems are proved. */
module ArithMachine {
  import opened Powers
  import opened Digits
  import opened ProbTable
  import opened Interval
  import opened ArithEncoding
  import opened ArithDecoding

  class Encoder {
    const T: Table
    const stats: array<nat>
    var c: nat
    var a: nat
    var sc: nat
    var zc: nat
    var ct: nat
    var buffer: int
    var out: seq<byte>
    ghost var start: Enc            // the registers at start_pass
    ghost var trace: seq<Decision>  // the decisions coded since

    function State(): Enc
      reads this, stats
    {
      Enc(c, a, sc, zc, ct, buffer, out, stats[..])
    }

    /** The registers are what the specification says of the decisions coded so far. */
    ghost predicate Valid()
      reads this, stats
    {
      EncOk(T, start) && InRange(trace, |start.bins|) && |start.bins| == stats.Length && State() == EncodeAll(T, start, trace)
    }

    /** start_pass: fresh registers and cleared statistics. */
    constructor (T: Table, stats: array<nat>, out: seq<byte>)
      requires BinsOk(T, stats[..])
      ensures this.T == T && this.stats == stats
      ensures Valid() && start == State() == Fresh(out, stats[..]) && trace == []
    {
      this.T, this.stats := T, stats;
      trace := [];
      start := Fresh(out, stats[..]);
      c, a, sc, zc, ct, buffer := 0, 0x10000, 0, 0, 11, -1;
      this.out := out;
      new;
      assert State() == Fresh(out, stats[..]);
    }

    method EmitByte(val: byte)
      modifies this`out
      ensures out == old(out) + [val]
    {
      out := out + [val];
    }

    method EmitStuffed(val: byte)
      modifies this`out
      ensures out == old(out) + StuffByte(val)
    {
      EmitByte(val);
      if val == 0xFF {
        EmitByte(0x00);
      }
    }

    method EmitZeros()
      modifies this`out, this`zc
      ensures State() == WriteZeros(old(State()))
    {
      while zc > 0
        invariant 0 <= zc <= old(zc)
        invariant out == old(out) + Rep(0, old(zc) - zc)
      {
        EmitByte(0x00);
        zc := zc - 1;
      }
    }

    method EmitCarry()
      requires -1 <= buffer <= 254
      modifies this`out, this`zc, this`sc
      ensures State() == Carry(old(State()))
    {
      if buffer >= 0 {
        EmitZeros();
        EmitStuffed(buffer + 1);
      }
      zc := zc + sc;
      sc := 0;
    }

    method EmitStacked()
      modifies this`out, this`zc, this`sc
      ensures State() == ReleaseStacked(old(State()))
    {
      if sc > 0 {
        EmitZeros();
        ghost var z := State();
        while sc > 0
          invariant 0 <= sc <= z.sc
          invariant State() == z.(sc := sc, out := z.out + Stuff(Rep(255, z.sc - sc)))
        {
          EmitByte(0xFF);
          EmitByte(0x00);
          MoreStacked(z.sc - sc);
          sc := sc - 1;
        }
      }
    }

    lemma MoreStacked(k: nat)
      ensures Stuff(Rep(255, k + 1)) == Stuff(Rep(255, k)) + [255] + [0]
    {
      assert Rep(255, k + 1) == Rep(255, k) + [255];
      StuffConcat(Rep(255, k), [255]);
      StuffOne(255);
    }

    method EmitHeldAndStacked()
      requires -1 <= buffer <= 254
      modifies this`out, this`zc, this`sc
      ensures State() == Release(old(State()))
    {
      if buffer == 0 {
        zc := zc + 1;
      } else if buffer >= 0 {
        EmitZeros();
        EmitStuffed(buffer);
      }
      EmitStacked();
    }

    method OutputByte()
      requires -1 <= buffer <= 254
      modifies this`out, this`zc, this`sc, this`buffer, this`c, this`ct
      ensures State() == ByteOut(old(State()))
    {
      var temp := c / 0x80000;
      if temp > 0xFF {
        EmitCarry();
        buffer := temp % 0x100;
      } else if temp == 0xFF {
        sc := sc + 1;
      } else {
        EmitHeldAndStacked();
        buffer := temp;
      }
      c := c % 0x80000;
      ct := ct + 8;
    }

    /** arith_encode. */
    method ArithEncode(st: nat, val: bool)
      requires Valid() && st < stats.Length
      modifies this, stats
      ensures Valid() && start == old(start) && trace == old(trace) + [Decision(st, val)]
      ensures State() == EncodeOne(T, old(State()), Decision(st, val))
    {
      Code(st, val);
      EncodeAllSnoc(T, start, trace, Decision(st, val));
      trace := trace + [Decision(st, val)];
    }

    method Code(st: nat, val: bool)
      requires EncOk(T, State()) && st < stats.Length
      modifies this`a, this`c, this`sc, this`zc, this`ct, this`buffer, this`out, stats
      ensures State() == EncodeOne(T, old(State()), Decision(st, val))
    {
      ghost var e, x := State(), Decision(st, val);
      var sv := stats[st];
      var row := RowOf(T, sv);
      var qe, nl, nm := row.qe, row.nl, row.nm;
      ghost var lps := val != Sense(sv);
      ghost var half := Halve(e, qe, TakesUpper(e.a, qe, lps), e.bins[st := NextBin(T, sv, e.a, lps)]);
      EncodeOneIs(T, e, x);
      hide RenormEnc, EncodeOne, Pow2, Succ, RowOf, Sense;
      a := a - qe;
      if val != Sense(sv) {
        if a >= qe {
          c := c + a;
          a := qe;
        }
        stats[st] := Succ(sv, nl);
      } else {
        if a >= 0x8000 {
          assert stats[..] == half.bins;
          return;
        }
        if a < qe {
          c := c + a;
          a := qe;
        }
        stats[st] := Succ(sv, nm);
      }
      assert stats[..] == half.bins;
      assert State() == half;
      RenormLoop();
    }

    /** The renormalisation and data output of arith_encode. */
    method RenormLoop()
      requires RegsOk(State()) && a < 0x8000
      modifies this`a, this`c, this`sc, this`zc, this`ct, this`buffer, this`out
      ensures State() == RenormEnc(old(State()))
    {
      while true
        invariant RegsOk(State()) && a < 0x8000
        invariant RenormEnc(State()) == RenormEnc(old(State()))
        decreases 0x8000 - a
      {
        ghost var s := Shift(State());
        a := 2 * a;
        c := 2 * c;
        ct := ct - 1;
        if ct == 0 {
          OutputByte();
        }
        assert State() == s;
        if a >= 0x8000 {
          return;
        }
      }
    }

    method EmitTail()
      modifies this`out, this`zc
      ensures State() == WriteTail(old(State()))
    {
      if c / 0x800 % 0x10000 != 0 {
        EmitZeros();
        EmitStuffed(c / 0x80000 % 0x100);
        if c / 0x800 % 0x100 != 0 {
          EmitStuffed(c / 0x800 % 0x100);
        }
      }
    }

    /** finish_pass. */
    method FinishPass()
      requires Valid()
      modifies this
      ensures State() == ArithEncoding.FinishPass(EncodeAll(T, old(start), old(trace)))
    {
      Terminate();
    }

    method Terminate()
      requires RegsOk(State()) && 0x8000 <= a
      modifies this`c, this`sc, this`zc, this`out
      ensures State() == ArithEncoding.FinishPass(old(State()))
    {
      var temp := (a - 1 + c) / 0x10000 * 0x10000;
      if temp < c {
        c := temp + 0x8000;
      } else {
        c := temp;
      }
      c := c * Pow2(ct);
      ghost var s := State();
      if c / 0x8000000 % 32 != 0 {
        EmitCarry();
      } else {
        EmitHeldAndStacked();
      }
      assert State() == Settle(s);
      EmitTail();
    }
  }

  class Decoder {
    const T: Table
    const stats: array<nat>
    var c: nat
    var a: nat
    var ct: int
    var src: seq<byte>
    var unreadMarker: byte
    ghost var dec: Dec  // the registers as one value

    function State(): Dec
      reads this, stats
    {
      Dec(c, a, ct, src, unreadMarker, stats[..])
    }

    ghost predicate Valid()
      reads this, stats
    {
      DecOk(T, dec) && |dec.bins| == stats.Length && dec == State()
    }

    /** start_pass: two bytes are to be read before the first decision. */
    constructor (T: Table, stats: array<nat>, src: seq<byte>)
      requires BinsOk(T, stats[..])
      ensures this.T == T && this.stats == stats
      ensures Valid() && dec == Opened(src, stats[..])
    {
      this.T, this.stats := T, stats;
      dec := Opened(src, stats[..]);
      c, a, ct := 0, 0, -16;
      this.src, unreadMarker := src, 0;
    }

    /** The next byte of the source; an exhausted source supplies a fake end-of-image marker,
        as the standard source managers do. */
    method GetByte() returns (data: byte)
      modifies this`src
      ensures old(src) == [] ==> data == 0xFF && src == [EOI]
      ensures old(src) != [] ==> data == old(src)[0] && src == old(src)[1..]
    {
      if src == [] {
        src := [0xFF, EOI];
      }
      data := src[0];
      src := src[1..];
    }

    static function Remaining(src: seq<byte>): nat {
      if src == [] then 2 else if src == [EOI] then 1 else |src| + 2
    }

    /** The next data byte: zero stuffing removed, fill bytes swallowed, zeros after a marker. */
    method NextData() returns (data: byte)
      modifies this`src, this`unreadMarker
      ensures Fetch(data, src, unreadMarker) == FetchByte(old(src), old(unreadMarker))
    {
      if unreadMarker != 0 {
        data := 0;
      } else {
        data := GetByte();
        if data == 0xFF {
          ghost var goal := FetchByte(old(src), 0);
          while true
            invariant unreadMarker == 0 && FetchAfterFF(src) == goal
            decreases Remaining(src)
          {
            data := GetByte();
            if data != 0xFF {
              break;
            }
          }
          if data == 0 {
            data := 0xFF;
          } else {
            unreadMarker := data;
            data := 0;
          }
        }
      }
    }

    method RenormLoop()
      requires DecRegsOk(State())
      modifies this`a, this`c, this`ct, this`src, this`unreadMarker
      ensures State() == RenormDec(old(State()))
    {
      while a < 0x8000
        invariant DecRegsOk(State()) && RenormDec(State()) == RenormDec(old(State()))
        decreases if ct < 0 then 0x10000 - ct else 0x10000 - a
      {
        ghost var s := State();
        ghost var r := Refill(s);
        ct := ct - 1;
        if ct < 0 {
          var data := NextData();
          c := c * 256 + data;
          ct := ct + 8;
          if ct < 0 {
            ct := ct + 1;
            if ct == 0 {
              a := 0x8000;
            }
          }
        }
        a := 2 * a;
        assert State() == r;
      }
    }

    /** arith_decode. */
    method ArithDecode(st: nat) returns (bit: bool)
      requires Valid() && st < stats.Length
      modifies this, stats
      ensures Valid() && (bit, dec) == DecodeOne(T, old(dec), st)
    {
      bit := Decide(st);
      dec := DecodeOne(T, dec, st).1;
    }

    method Decide(st: nat) returns (bit: bool)
      requires DecOk(T, State()) && st < stats.Length
      modifies this`a, this`c, this`ct, this`src, this`unreadMarker, stats
      ensures (bit, State()) == DecodeOne(T, old(State()), st)
    {
      RenormLoop();
      bit := ChooseAndAdapt(st);
    }

    /** Compares the code with the cut between the sub-intervals and keeps the half it is in;
        low is the size of the lower one. */
    method Split(qe: nat) returns (upper: bool, low: nat)
      requires DecRegsOk(State()) && ct >= 0 && 0 < qe < a
      modifies this`a, this`c
      ensures (upper, State()) == Choose(old(State()), qe) && low == old(a) - qe
    {
      low := a - qe;
      var temp := low * Pow2(ct);
      upper := c >= temp;
      if upper {
        c := c - temp;
        a := qe;
      } else {
        a := low;
      }
    }

    /** Decoding and estimation, once the interval is normalised. */
    method ChooseAndAdapt(st: nat) returns (bit: bool)
      requires DecOk(T, State()) && ct >= 0 && 0x8000 <= a && st < stats.Length
      modifies this`a, this`c, stats
      ensures var e := old(State());
        var qe := RowOf(T, e.bins[st]).qe;
        var answer := Answer(T, e.bins[st], e.a - qe, Choose(e, qe).0);
        bit == answer.0 && State() == Choose(e, qe).1.(bins := e.bins[st := answer.1])
    {
      hide Choose, DecRegsOk, Pow2;
      var sv := stats[st];
      var upper, low := Split(RowOf(T, sv).qe);
      if upper {
        bit := AdaptUpper(st, sv, low);
      } else {
        bit := AdaptLower(st, sv, low);
      }
    }

    /** Conditional LPS exchange. */
    method AdaptUpper(st: nat, sv: nat, low: nat) returns (bit: bool)
      requires st < stats.Length && stats[st] == sv && BinOk(T, sv)
      modifies stats
      ensures bit == Answer(T, sv, low, true).0 && stats[..] == old(stats[..])[st := Answer(T, sv, low, true).1]
    {
      var row := RowOf(T, sv);
      if low < row.qe {
        stats[st] := Succ(sv, row.nm);
        bit := Sense(sv);
      } else {
        stats[st] := Succ(sv, row.nl);
        bit := !Sense(sv);
      }
    }

    /** Conditional MPS exchange. */
    method AdaptLower(st: nat, sv: nat, low: nat) returns (bit: bool)
      requires st < stats.Length && stats[st] == sv && BinOk(T, sv)
      modifies stats
      ensures bit == Answer(T, sv, low, false).0 && stats[..] == old(stats[..])[st := Answer(T, sv, low, false).1]
    {
      var row := RowOf(T, sv);
      bit := Sense(sv);
      if low < 0x8000 {
        if low < row.qe {
          stats[st] := Succ(sv, row.nl);
          bit := !bit;
        } else {
          stats[st] := Succ(sv, row.nm);
        }
      }
    }
  }
}
