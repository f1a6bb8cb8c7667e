/** How MCUs are put together for the entropy coder (jccoefct.c, jctrans.c), with the block
    geometry of a scan (jcmaster.c). */
module McuAssembly {
  import opened Powers
  import opened NaturalOrder

  const DCTSIZE: nat := 8
  const C_MAX_BLOCKS_IN_MCU: nat := 10

  // ----- Geometry

  /** jdiv_round_up. */
  function DivRoundUp(a: nat, b: nat): (q: nat)
    requires b > 0
    ensures (a > 0 ==> (q - 1) * b < a) && a <= q * b
  {
    FloorBounds(a + b - 1, b);
    FloorAtLeast(a + b - 1, b, 0);
    var q: nat := (a + b - 1) / b;
    Distribute(q, -1, b);
    q
  }

  lemma RoundUpUnique(a: nat, b: nat, q: nat)
    requires b > 0 && a > 0 && (q - 1) * b < a <= q * b
    ensures q == DivRoundUp(a, b)
  {
    var p := DivRoundUp(a, b);
    if p < q {
      MulMono(p, q - 1, b);
    } else if q < p {
      MulMono(q, p - 1, b);
    }
  }

  /** The number left over in the last group of b, when a things go into groups of b. */
  function LastGroup(a: nat, b: nat): nat
    requires b > 0
  {
    if a % b == 0 then b else a % b
  }

  /** All groups but the last are full. */
  lemma LastGroupFills(a: nat, b: nat)
    requires a > 0 && b > 0
    ensures 0 < LastGroup(a, b) <= b
    ensures (DivRoundUp(a, b) - 1) * b + LastGroup(a, b) == a
  {
    FloorBounds(a, b);
    FloorAtLeast(a, b, 0);
    var q, r := a / b, a % b;
    Distribute(q, 1, b);
    Distribute(q, -1, b);
    if r == 0 {
      RoundUpUnique(a, b, q);
    } else {
      RoundUpUnique(a, b, q + 1);
    }
  }

  /** Rounding up in two steps is rounding up once: a component has as many MCU columns as the
      image, whatever its sampling factor. */
  lemma RoundUpTwice(size: nat, factor: nat, unit: nat)
    requires size > 0 && factor > 0 && unit > 0
    ensures size * factor > 0 && DivRoundUp(size * factor, unit) > 0
    ensures DivRoundUp(DivRoundUp(size * factor, unit), factor) == DivRoundUp(size, unit)
  {
    MulMono(1, size, factor);
    var n, q := size * factor, DivRoundUp(size, unit);
    var w := DivRoundUp(n, unit);
    FactorPositive(w, unit, n);
    Scaled(size, q, unit, factor);
    // (q - 1) * factor * unit < n <= q * factor * unit, so (q - 1) * factor < w <= q * factor
    if w <= (q - 1) * factor {
      MulMono(w, (q - 1) * factor, unit);
    }
    if q * factor < w {
      MulMono(q * factor, w - 1, unit);
    }
    RoundUpUnique(w, factor, q);
  }

  lemma FactorPositive(x: nat, y: nat, n: nat)
    requires 0 < n <= x * y
    ensures x > 0
  {
  }

  lemma Scaled(size: nat, q: nat, unit: nat, factor: nat)
    requires factor > 0 && (q - 1) * unit < size <= q * unit
    ensures (q - 1) * factor * unit < size * factor <= q * factor * unit
  {
    MulMono(size, q * unit, factor);
    Commuted(q, unit, factor);
    Commuted(q - 1, unit, factor);
    MulMono((q - 1) * unit + 1, size, factor);
    Distribute((q - 1) * unit, 1, factor);
  }

  lemma Commuted(x: int, y: int, z: int)
    ensures x * y * z == x * z * y
  {
  }

  // ----- A scan

  /** A component: sampling factors, size in blocks, and its quantised blocks. */
  datatype Plane = Plane(h: nat, v: nat, width: nat, height: nat, blocks: seq<seq<Block>>)

  /** The components of a scan, MCU columns and interleaved MCU rows. */
  datatype ScanLayout = ScanLayout(planes: seq<Plane>, mcusPerRow: nat, imcuRows: nat)

  predicate Interleaved(s: ScanLayout) {
    |s.planes| > 1
  }

  function McuWidth(s: ScanLayout, p: Plane): nat {
    if Interleaved(s) then p.h else 1
  }

  function McuHeight(s: ScanLayout, p: Plane): nat {
    if Interleaved(s) then p.v else 1
  }

  function LastColWidth(s: ScanLayout, p: Plane): nat {
    if Interleaved(s) && p.h > 0 then LastGroup(p.width, p.h) else 1
  }

  function LastRowHeight(p: Plane): nat {
    if p.v > 0 then LastGroup(p.height, p.v) else 0
  }

  predicate PlaneOk(p: Plane) {
    && 0 < p.h && 0 < p.v && 0 < p.width && 0 < p.height
    && |p.blocks| == p.height && forall y :: 0 <= y < p.height ==> |p.blocks[y]| == p.width
  }

  /** What initial_setup and per_scan_setup make of the image size. */
  ghost predicate ScanOk(s: ScanLayout) {
    && s.planes != [] && forall c :: 0 <= c < |s.planes| ==>
         && PlaneOk(s.planes[c])
         && s.mcusPerRow == (if Interleaved(s) then DivRoundUp(s.planes[c].width, s.planes[c].h) else s.planes[c].width)
         && s.imcuRows == DivRoundUp(s.planes[c].height, s.planes[c].v)
  }

  /** A component's sizes as computed from those of the image. */
  ghost predicate SizedFor(p: Plane, width: nat, height: nat, hmax: nat, vmax: nat) {
    && hmax > 0 && vmax > 0
    && p.width == DivRoundUp(width * p.h, hmax * DCTSIZE) && p.height == DivRoundUp(height * p.v, vmax * DCTSIZE)
  }

  /** The setup of any image gives a consistent scan: for every component, the MCUs of a row
      cover its blocks, the last MCU as far as last_col_width says. */
  lemma SetupConsistent(s: ScanLayout, width: nat, height: nat, hmax: nat, vmax: nat, c: nat)
    requires width > 0 && height > 0 && hmax > 0 && vmax > 0 && c < |s.planes|
    requires 0 < s.planes[c].h && 0 < s.planes[c].v && SizedFor(s.planes[c], width, height, hmax, vmax)
    requires s.mcusPerRow == if Interleaved(s) then DivRoundUp(width, hmax * DCTSIZE) else s.planes[c].width
    requires s.imcuRows == DivRoundUp(height, vmax * DCTSIZE)
    ensures var p := s.planes[c];
      && 0 < p.width && 0 < p.height
      && s.mcusPerRow == (if Interleaved(s) then DivRoundUp(p.width, p.h) else p.width)
      && s.imcuRows == DivRoundUp(p.height, p.v)
      && (s.mcusPerRow - 1) * McuWidth(s, p) + LastColWidth(s, p) == p.width
      && (s.imcuRows - 1) * p.v + LastRowHeight(p) == p.height
  {
    var p := s.planes[c];
    RoundUpTwice(width, p.h, hmax * DCTSIZE);
    RoundUpTwice(height, p.v, vmax * DCTSIZE);
    LastGroupFills(p.width, p.h);
    LastGroupFills(p.height, p.v);
  }

  // ----- What the entropy coder is to be handed

  /** A block without AC coefficients. */
  function Dummy(dc: int): (b: Block)
    ensures |b| == 64 && b[0] == dc
  {
    [dc] + seq(63, _ => 0)
  }

  /** The component's blocks extended to whole MCUs: to the right by the last DC value of the
      row, below by the DC value of the last block above within the MCU. */
  function Padded(p: Plane, y: nat, x: nat): (b: Block)
    requires PlaneOk(p)
    decreases y
  {
    if y < p.height then
      if x < p.width then p.blocks[y][x] else Dummy(p.blocks[y][p.width - 1][0])
    else Dummy(Padded(p, y - 1, x / p.h * p.h + p.h - 1)[0])
  }

  function RowBlocks(p: Plane, y: nat, x: nat, n: nat): (r: seq<Block>)
    requires PlaneOk(p)
    ensures |r| == n
  {
    seq<Block>(n, i requires 0 <= i < n => Padded(p, y, x + i))
  }

  /** n rows of a component's blocks in an MCU. */
  function PlaneBlocks(p: Plane, y: nat, x: nat, w: nat, n: nat): (r: seq<Block>)
    requires PlaneOk(p)
    ensures |r| == w * n
  {
    if n == 0 then [] else
    Distribute(n - 1, 1, w);
    PlaneBlocks(p, y, x, w, n - 1) + RowBlocks(p, y + n - 1, x, w)
  }

  predicate Shapes(s: ScanLayout) {
    forall c :: 0 <= c < |s.planes| ==> PlaneOk(s.planes[c])
  }

  /** The first n components' blocks of the MCU in MCU row my, column mx. */
  function McuBlocks(s: ScanLayout, my: nat, mx: nat, n: nat): (r: seq<Block>)
    requires Shapes(s) && n <= |s.planes|
  {
    if n == 0 then [] else
    var p := s.planes[n - 1];
    McuBlocks(s, my, mx, n - 1) + PlaneBlocks(p, my * McuHeight(s, p), mx * McuWidth(s, p), McuWidth(s, p), McuHeight(s, p))
  }

  /** The MCU rows of a scan: interleaved ones, or block rows. */
  function McuRows(s: ScanLayout): nat {
    if |s.planes| == 1 then s.planes[0].height else s.imcuRows
  }

  lemma Position(a: nat, b: nat)
    requires b > 0
    ensures 0 <= a / b && 0 <= a % b < b && a / b * b + a % b == a
  {
    FloorBounds(a, b);
    FloorAtLeast(a, b, 0);
  }

  lemma PositionUnique(q: nat, r: nat, b: nat)
    requires r < b
    ensures (q * b + r) / b == q && (q * b + r) % b == r
  {
    DivUnique(q * b + r, b, q, r);
  }
}
