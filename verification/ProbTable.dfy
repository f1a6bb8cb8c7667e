/** The probability estimation state machine shared by the arithmetic encoder and
    decoder (Table D.2 of Rec. ITU-T T.81), in the packed form the coders read. */
module ProbTable {

  /** One row as the coders see it after unpacking: the LPS interval size and the
      two successor bytes.  A successor byte holds a row index in its low seven
      bits; bit 7 asks for the sense of the more probable symbol to be exchanged. */
  datatype Entry = Entry(qe: nat, nl: nat, nm: nat)

  /** What the coders rely on: every LPS interval is nonempty and smaller than the
      smallest normalised interval, and successors stay inside the table. */
  ghost predicate Sound(t: seq<Entry>) {
    && 0 < |t| <= 128
    && forall i :: 0 <= i < |t| ==>
         && 1 <= t[i].qe < 0x8000
         && t[i].nl < 256 && t[i].nm < 256
         && t[i].nl % 128 < |t| && t[i].nm % 128 < |t|
  }

  /** A table the coders may be run with.  Every theorem about the coders holds for
      all of them; TableIsSound says the real one is among them. */
  type Table = t: seq<Entry> | Sound(t) ghost witness [Entry(1, 0, 0)]

  /** One line of Table D.2: Qe, next row after LPS, next row after MPS, switch flag. */
  datatype Row = Row(qe: nat, nextLps: nat, nextMps: nat, switchMps: nat)

  predicate RowSound(r: Row) {
    1 <= r.qe < 0x8000 && r.nextLps < 114 && r.nextMps < 114 && r.switchMps < 2
  }

  /** Packs one line into a single integer, as the table stores it. */
  function Pack(r: Row): nat {
    r.qe * 0x10000 + r.nextMps * 0x100 + r.switchMps * 0x80 + r.nextLps
  }

  /** Fetches the parts of a packed line, as both coders do. */
  function Unpack(v: nat): Entry {
    Entry(v / 0x10000, v % 0x100, v / 0x100 % 0x100)
  }

  /** The packing loses nothing as long as row numbers fit seven bits. */
  lemma UnpackPack(r: Row)
    requires RowSound(r)
    ensures Unpack(Pack(r)) == Entry(r.qe, r.switchMps * 128 + r.nextLps, r.nextMps)
  {
    var v := Pack(r);
    assert v / 0x100 == r.qe * 0x100 + r.nextMps;
  }

  const ROWS_0_TO_37: seq<Row> := [
    Row(0x5a1d, 1, 1, 1), Row(0x2586, 14, 2, 0), Row(0x1114, 16, 3, 0), Row(0x080b, 18, 4, 0),
    Row(0x03d8, 20, 5, 0), Row(0x01da, 23, 6, 0), Row(0x00e5, 25, 7, 0), Row(0x006f, 28, 8, 0),
    Row(0x0036, 30, 9, 0), Row(0x001a, 33, 10, 0), Row(0x000d, 35, 11, 0), Row(0x0006, 9, 12, 0),
    Row(0x0003, 10, 13, 0), Row(0x0001, 12, 13, 0), Row(0x5a7f, 15, 15, 1), Row(0x3f25, 36, 16, 0),
    Row(0x2cf2, 38, 17, 0), Row(0x207c, 39, 18, 0), Row(0x17b9, 40, 19, 0), Row(0x1182, 42, 20, 0),
    Row(0x0cef, 43, 21, 0), Row(0x09a1, 45, 22, 0), Row(0x072f, 46, 23, 0), Row(0x055c, 48, 24, 0),
    Row(0x0406, 49, 25, 0), Row(0x0303, 51, 26, 0), Row(0x0240, 52, 27, 0), Row(0x01b1, 54, 28, 0),
    Row(0x0144, 56, 29, 0), Row(0x00f5, 57, 30, 0), Row(0x00b7, 59, 31, 0), Row(0x008a, 60, 32, 0),
    Row(0x0068, 62, 33, 0), Row(0x004e, 63, 34, 0), Row(0x003b, 32, 35, 0), Row(0x002c, 33, 9, 0),
    Row(0x5ae1, 37, 37, 1), Row(0x484c, 64, 38, 0)
  ]

  const ROWS_38_TO_75: seq<Row> := [
    Row(0x3a0d, 65, 39, 0), Row(0x2ef1, 67, 40, 0), Row(0x261f, 68, 41, 0), Row(0x1f33, 69, 42, 0),
    Row(0x19a8, 70, 43, 0), Row(0x1518, 72, 44, 0), Row(0x1177, 73, 45, 0), Row(0x0e74, 74, 46, 0),
    Row(0x0bfb, 75, 47, 0), Row(0x09f8, 77, 48, 0), Row(0x0861, 78, 49, 0), Row(0x0706, 79, 50, 0),
    Row(0x05cd, 48, 51, 0), Row(0x04de, 50, 52, 0), Row(0x040f, 50, 53, 0), Row(0x0363, 51, 54, 0),
    Row(0x02d4, 52, 55, 0), Row(0x025c, 53, 56, 0), Row(0x01f8, 54, 57, 0), Row(0x01a4, 55, 58, 0),
    Row(0x0160, 56, 59, 0), Row(0x0125, 57, 60, 0), Row(0x00f6, 58, 61, 0), Row(0x00cb, 59, 62, 0),
    Row(0x00ab, 61, 63, 0), Row(0x008f, 61, 32, 0), Row(0x5b12, 65, 65, 1), Row(0x4d04, 80, 66, 0),
    Row(0x412c, 81, 67, 0), Row(0x37d8, 82, 68, 0), Row(0x2fe8, 83, 69, 0), Row(0x293c, 84, 70, 0),
    Row(0x2379, 86, 71, 0), Row(0x1edf, 87, 72, 0), Row(0x1aa9, 87, 73, 0), Row(0x174e, 72, 74, 0),
    Row(0x1424, 72, 75, 0), Row(0x119c, 74, 76, 0)
  ]

  /** Row 113 is the fixed estimate of one half. */
  const ROWS_76_TO_113: seq<Row> := [
    Row(0x0f6b, 74, 77, 0), Row(0x0d51, 75, 78, 0), Row(0x0bb6, 77, 79, 0), Row(0x0a40, 77, 48, 0),
    Row(0x5832, 80, 81, 1), Row(0x4d1c, 88, 82, 0), Row(0x438e, 89, 83, 0), Row(0x3bdd, 90, 84, 0),
    Row(0x34ee, 91, 85, 0), Row(0x2eae, 92, 86, 0), Row(0x299a, 93, 87, 0), Row(0x2516, 86, 71, 0),
    Row(0x5570, 88, 89, 1), Row(0x4ca9, 95, 90, 0), Row(0x44d9, 96, 91, 0), Row(0x3e22, 97, 92, 0),
    Row(0x3824, 99, 93, 0), Row(0x32b4, 99, 94, 0), Row(0x2e17, 93, 86, 0), Row(0x56a8, 95, 96, 1),
    Row(0x4f46, 101, 97, 0), Row(0x47e5, 102, 98, 0), Row(0x41cf, 103, 99, 0), Row(0x3c3d, 104, 100, 0),
    Row(0x375e, 99, 93, 0), Row(0x5231, 105, 102, 0), Row(0x4c0f, 106, 103, 0), Row(0x4639, 107, 104, 0),
    Row(0x415e, 103, 99, 0), Row(0x5627, 105, 106, 1), Row(0x50e7, 108, 107, 0), Row(0x4b85, 109, 103, 0),
    Row(0x5597, 110, 109, 0), Row(0x504f, 111, 107, 0), Row(0x5a10, 110, 111, 1), Row(0x5522, 112, 109, 0),
    Row(0x59eb, 112, 111, 1), Row(0x5a1d, 113, 113, 0)
  ]

  /** What the coders fetch from a table whose lines were packed. */
  function Fetched(rows: seq<Row>): (t: seq<Entry>) {
    seq(|rows|, i requires 0 <= i < |rows| => Unpack(Pack(rows[i])))
  }

  function AriTab(): seq<Entry> {
    Fetched(ROWS_0_TO_37 + ROWS_38_TO_75 + ROWS_76_TO_113)
  }

  ghost predicate AllSound(rows: seq<Row>) {
    forall i :: 0 <= i < |rows| ==> RowSound(rows[i])
  }

  lemma FetchedIsSound(a: seq<Row>, b: seq<Row>, c: seq<Row>)
    requires AllSound(a) && AllSound(b) && AllSound(c) && |a + b + c| == 114
    ensures Sound(Fetched(a + b + c))
  {
    var rows := a + b + c;
    forall i | 0 <= i < 114
      ensures Fetched(rows)[i] == Entry(rows[i].qe, rows[i].switchMps * 128 + rows[i].nextLps, rows[i].nextMps)
    {
      UnpackPack(rows[i]);
    }
  }

  /** The real table meets everything the coders rely on. */
  lemma TableIsSound()
    ensures Sound(AriTab())
  {
    FirstRowsSound();
    MiddleRowsSound();
    LastRowsSound();
    hide RowSound;
    FetchedIsSound(ROWS_0_TO_37, ROWS_38_TO_75, ROWS_76_TO_113);
  }

  lemma FirstRowsSound() ensures AllSound(ROWS_0_TO_37) && |ROWS_0_TO_37| == 38 {}
  lemma MiddleRowsSound() ensures AllSound(ROWS_38_TO_75) && |ROWS_38_TO_75| == 38 {}
  lemma LastRowsSound() ensures AllSound(ROWS_76_TO_113) && |ROWS_76_TO_113| == 38 {}
}
