/**
 * `writescr`: packing the 256x192 bit plane, the attributes and (in ULA+
 * mode) the 64-entry palette into the Spectrum screen image `display`.
 *
 * The bitmap byte at offset i covers the eight pixels (8*(i & 31) + j, sy)
 * for j = 0 .. 7, most significant bit first, where the row sy interleaves
 * the bits of i: the screen third (bits 11-12), the character row (bits
 * 5-7) and the pixel row inside the character (bits 8-10).  The source
 * combines those bit fields with `|`; they never overlap, so the model adds
 * them.
 */
module Packer {
  import opened Bytes
  import opened Frame

  /** Size of the bitmap part of the display file. */
  const BitmapSize: nat := 0x1800

  /** `display`: 12288 bytes of screen data plus 64 of palette. */
  const DisplayLength: nat := 12288 + 64

  /** `sx >> 3`: the character column of bitmap byte i. */
  function ColumnOf(i: nat): nat
  {
    i % 32
  }

  /** `sy`: the pixel row of bitmap byte i. */
  function RowOf(i: nat): nat
  {
    ((i / 0x800) % 4) * 64 + ((i / 32) % 8) * 8 + (i / 0x100) % 8
  }

  /** The display-file offset of character column cx of pixel row sy. */
  function OffsetOf(cx: nat, sy: nat): nat
  {
    (sy / 64) * 0x800 + (sy % 8) * 0x100 + ((sy / 8) % 8) * 32 + cx
  }

  /** A positive multiple of d is at least d. */
  lemma {:induction false} MultipleAtLeast(k: int, d: int)
    requires k >= 1 && d > 0
    ensures k * d >= d
    decreases k
  {
    if k > 1 {
      MultipleAtLeast(k - 1, d);
      assert k * d == (k - 1) * d + d;
    }
  }

  /** A value split into a quotient and a remainder below the divisor. */
  lemma DivModOf(n: int, q: int, r: int, d: int)
    requires 0 < d && 0 <= r < d && n == q * d + r
    ensures n / d == q && n % d == r
  {
    var k := q - n / d;
    assert k * d == n % d - r by {
      assert n == (n / d) * d + n % d;
      assert k * d == q * d - (n / d) * d;
    }
    if k >= 1 {
      MultipleAtLeast(k, d);
    } else if k <= -1 {
      MultipleAtLeast(-k, d);
    }
  }

  /** The four fields of a bitmap offset put together. */
  lemma OffsetFields(t: nat, p: nat, c: nat, cx: nat)
    requires p < 8 && c < 8 && cx < 32
    ensures var i := t * 0x800 + p * 0x100 + c * 32 + cx;
            i / 0x800 == t && (i / 0x100) % 8 == p && (i / 32) % 8 == c && i % 32 == cx
  {
    var i := t * 0x800 + p * 0x100 + c * 32 + cx;
    DivModOf(i, t, p * 0x100 + c * 32 + cx, 0x800);
    DivModOf(i, t * 8 + p, c * 32 + cx, 0x100);
    DivModOf(t * 8 + p, t, p, 8);
    DivModOf(i, t * 64 + p * 8 + c, cx, 32);
    DivModOf(t * 64 + p * 8 + c, t * 8 + p, c, 8);
  }

  /** The three fields of a pixel row put together. */
  lemma RowFields(t: nat, c: nat, p: nat)
    requires c < 8 && p < 8
    ensures var sy := t * 64 + c * 8 + p;
            sy / 64 == t && (sy / 8) % 8 == c && sy % 8 == p
  {
    var sy := t * 64 + c * 8 + p;
    DivModOf(sy, t, c * 8 + p, 64);
    DivModOf(sy, t * 8 + c, p, 8);
    DivModOf(t * 8 + c, t, c, 8);
  }

  /** The row of a bitmap offset is on the screen. */
  lemma RowBound(i: nat)
    requires i < BitmapSize
    ensures RowOf(i) < H
  {
    assert i / 0x800 < 3;
  }

  /** Every bitmap offset names a column and row on the screen, and names it back. */
  lemma OffsetIsAddress(i: nat)
    requires i < BitmapSize
    ensures ColumnOf(i) < 32 && RowOf(i) < H
    ensures OffsetOf(ColumnOf(i), RowOf(i)) == i
  {
    var t, p, c, cx := i / 0x800, (i / 0x100) % 8, (i / 32) % 8, i % 32;
    var q1 := i / 32;
    var q2 := q1 / 8;
    DivModOf(i, q2, c * 32 + cx, 0x100);
    DivModOf(q2, q2 / 8, p, 8);
    DivModOf(i, q2 / 8, p * 0x100 + c * 32 + cx, 0x800);
    assert i == t * 0x800 + p * 0x100 + c * 32 + cx;
    assert t % 4 == t;
    RowFields(t, c, p);
  }

  /** Every column and row of the screen has a bitmap offset, which names it back. */
  lemma AddressIsOffset(cx: nat, sy: nat)
    requires cx < 32 && sy < H
    ensures OffsetOf(cx, sy) < BitmapSize
    ensures ColumnOf(OffsetOf(cx, sy)) == cx && RowOf(OffsetOf(cx, sy)) == sy
  {
    var t, c, p := sy / 64, (sy / 8) % 8, sy % 8;
    var q := sy / 8;
    DivModOf(q, q / 8, c, 8);
    DivModOf(sy, q / 8, c * 8 + p, 64);
    assert sy == t * 64 + c * 8 + p;
    OffsetFields(t, p, c, cx);
  }

  /** Bits packed most significant first: `b += px ? 1 << (7 - j) : 0` over j. */
  function Pack(bs: seq<bool>): (r: nat)
    ensures r < Pow2(|bs|)
  {
    if |bs| == 0 then 0
    else 2 * Pack(bs[..|bs| - 1]) + (if bs[|bs| - 1] then 1 else 0)
  }

  /** The n low bits of v, most significant first. */
  function Unpack(v: nat, n: nat): (bs: seq<bool>)
    ensures |bs| == n
  {
    if n == 0 then [] else Unpack(v / 2, n - 1) + [v % 2 == 1]
  }

  /** Unpacking a packed row gives the row back. */
  lemma {:induction false} UnpackPack(bs: seq<bool>)
    ensures Unpack(Pack(bs), |bs|) == bs
  {
    if |bs| > 0 {
      var init := bs[..|bs| - 1];
      UnpackPack(init);
      assert Pack(bs) / 2 == Pack(init);
      assert bs == init + [bs[|bs| - 1]];
    }
  }

  /** Packing the n low bits of a value below 2^n gives the value back. */
  lemma {:induction false} PackUnpack(v: nat, n: nat)
    requires v < Pow2(n)
    ensures Pack(Unpack(v, n)) == v
  {
    if n > 0 {
      PackUnpack(v / 2, n - 1);
      var bs := Unpack(v, n);
      assert bs[..|bs| - 1] == Unpack(v / 2, n - 1);
    }
  }

  /** A bit plane `npx[256][192]`, indexed `[x][y]`. */
  type Bitmap = seq<seq<bool>>

  ghost predicate IsBitmap(px: Bitmap)
  {
    |px| == W && forall x :: 0 <= x < W ==> |px[x]| == H
  }

  /** The guarded read `(sx + j < w && sy < h) ? npx[sx + j][sy] : FALSE`. */
  function PixelAt(px: Bitmap, x: nat, y: nat): bool
    requires IsBitmap(px)
  {
    if x < W && y < H then px[x][y] else false
  }

  /** The eight pixels bitmap byte i covers, left to right. */
  function RowBits(px: Bitmap, i: nat): (bs: seq<bool>)
    requires IsBitmap(px)
    ensures |bs| == 8
  {
    seq(8, j requires 0 <= j < 8 => PixelAt(px, ColumnOf(i) * 8 + j, RowOf(i)))
  }

  function BitmapByte(px: Bitmap, i: nat): byte
    requires IsBitmap(px)
  {
    assert Pow2(8) == 0x100;
    Pack(RowBits(px, i))
  }

  lemma ByteOfRow(px: Bitmap, i: nat)
    requires IsBitmap(px)
    ensures BitmapByte(px, i) == Pack(RowBits(px, i))
  {
  }

  /**
   * The guard of the bitmap loop never fails, and bit 7 - j of byte i is the
   * pixel j places right of column 8 * (i & 31) on row sy.
   */
  lemma BitmapBitIsPixel(px: Bitmap, i: nat, j: nat)
    requires IsBitmap(px) && i < BitmapSize && j < 8
    ensures ColumnOf(i) * 8 + j < W && RowOf(i) < H
    ensures Unpack(BitmapByte(px, i), 8)[j] == px[ColumnOf(i) * 8 + j][RowOf(i)]
  {
    RowBound(i);
    var bits := RowBits(px, i);
    ByteOfRow(px, i);
    UnpackPack(bits);
    assert bits[j] == PixelAt(px, ColumnOf(i) * 8 + j, RowOf(i));
  }

  /** Every pixel of the screen is stored in exactly one bit of the bitmap. */
  lemma PixelLandsOnce(px: Bitmap, x: nat, y: nat)
    requires IsBitmap(px) && x < W && y < H
    ensures OffsetOf(x / 8, y) < BitmapSize
    ensures Unpack(BitmapByte(px, OffsetOf(x / 8, y)), 8)[x % 8] == px[x][y]
    ensures forall i :: 0 <= i < BitmapSize && ColumnOf(i) == x / 8 && RowOf(i) == y ==> i == OffsetOf(x / 8, y)
  {
    var i0 := OffsetOf(x / 8, y);
    AddressIsOffset(x / 8, y);
    BitmapBitIsPixel(px, i0, x % 8);
    assert ColumnOf(i0) * 8 + x % 8 == x;
    forall i | 0 <= i < BitmapSize && ColumnOf(i) == x / 8 && RowOf(i) == y
      ensures i == OffsetOf(x / 8, y)
    {
      OffsetIsAddress(i);
    }
  }

  /** The attribute bytes of the two modes: 768 (8x8 tiles) or 6144 (Timex 8x1 strips). */
  function AttrCount(timex: bool): nat
  {
    if timex then 0x1800 else 0x300
  }

  /** Plane k of `pal`. */
  function Layer(pal: array3<byte>, k: int): (g: Grid)
    requires pal.Length0 == 32 && pal.Length1 == H && pal.Length2 == 2 && 0 <= k < 2
    reads pal
    ensures IsGrid(g)
    ensures forall tx, ty :: 0 <= tx < 32 && 0 <= ty < H ==> g[tx][ty] == pal[tx, ty, k]
  {
    seq(32, tx requires 0 <= tx < 32 reads pal => seq(H, ty requires 0 <= ty < H reads pal => pal[tx, ty, k]))
  }

  /**
   * The ULA+ attribute byte `(p0 & 7) | ((p1 & 7) << 3) | ((p0 & 0x30) << 2)`:
   * ink from bits 0-2 of p0, paper from bits 0-2 of p1, palette bank from bits 4-5 of p0.
   */
  function UlaPlusAttr(p0: byte, p1: byte): byte
  {
    p0 % 8 + (p1 % 8) * 8 + ((p0 / 16) % 4) * 64
  }

  /** The three fields of a ULA+ attribute byte read back as they were packed. */
  lemma UlaPlusFields(p0: byte, p1: byte)
    ensures UlaPlusAttr(p0, p1) % 8 == p0 % 8
    ensures (UlaPlusAttr(p0, p1) / 8) % 8 == p1 % 8
    ensures UlaPlusAttr(p0, p1) / 64 == (p0 / 16) % 4
  {
    var b := UlaPlusAttr(p0, p1);
    assert b == ((p0 / 16) % 4 * 8 + p1 % 8) * 8 + p0 % 8;
    assert b / 8 == (p0 / 16) % 4 * 8 + p1 % 8;
  }

  /** Attribute byte i: the tile (i & 31, i >> 5), blank (both planes 0) outside the grid. */
  function AttrByte(p0: Grid, p1: Grid, mode: RenderMode, i: nat): byte
    requires IsGrid(p0) && IsGrid(p1)
  {
    var bx, row := i % 32, i / 32;
    var inGrid := row < (if mode.timex then H else H / 8);
    var a0, a1 := (if inGrid then p0[bx][row] else 0), (if inGrid then p1[bx][row] else 0);
    if mode.ulaPlus then UlaPlusAttr(a0, a1) else a0
  }

  /** Outside ULA+ mode attribute byte i is `pal[i & 0x1f][i >> 5][0]`: the blank tile is never used. */
  lemma AttrByteIsTile(p0: Grid, p1: Grid, mode: RenderMode, i: nat)
    requires IsGrid(p0) && IsGrid(p1) && i < AttrCount(mode.timex)
    ensures i / 32 < H
    ensures !mode.ulaPlus ==> AttrByte(p0, p1, mode, i) == p0[i % 32][i / 32]
    ensures mode.ulaPlus ==> AttrByte(p0, p1, mode, i) == UlaPlusAttr(p0[i % 32][i / 32], p1[i % 32][i / 32])
  {
  }

  /** Total length of the screen image `writescr` produces. */
  function FrameSize(mode: RenderMode): (n: nat)
    ensures n <= DisplayLength
    ensures n == 6912 <==> !mode.timex && !mode.ulaPlus
  {
    BitmapSize + AttrCount(mode.timex) + (if mode.ulaPlus then 64 else 0)
  }

  /** The screen image: bitmap, then attributes, then (ULA+ only) the palette. */
  function Screen(px: Bitmap, p0: Grid, p1: Grid, palent: seq<byte>, mode: RenderMode): (r: seq<byte>)
    requires IsBitmap(px) && IsGrid(p0) && IsGrid(p1) && |palent| == 64
    ensures |r| == FrameSize(mode)
  {
    seq(BitmapSize, i requires 0 <= i => BitmapByte(px, i))
    + seq(AttrCount(mode.timex), i requires 0 <= i => AttrByte(p0, p1, mode, i))
    + (if mode.ulaPlus then palent else [])
  }

  /** Appending a bit below a prefix, in terms of place values. */
  lemma Shift(p: int, bit: int, e: int)
    ensures (2 * p + bit) * e == p * (2 * e) + bit * e
  {
  }

  /** Packing one more bit doubles the value and adds the bit. */
  lemma PackSnoc(bs: seq<bool>, b: bool)
    ensures Pack(bs + [b]) == 2 * Pack(bs) + (if b then 1 else 0)
  {
    assert (bs + [b])[..|bs|] == bs;
  }

  /** One step of the `j` loop on the place values of the packed prefix. */
  lemma PackStep(bits: seq<bool>, j: nat)
    requires j < |bits| == 8
    ensures Pack(bits[..j + 1]) * Pow2(7 - j) == Pack(bits[..j]) * Pow2(8 - j) + (if bits[j] then Pow2(7 - j) else 0)
  {
    assert bits[..j + 1] == bits[..j] + [bits[j]];
    PackSnoc(bits[..j], bits[j]);
    Shift(Pack(bits[..j]), if bits[j] then 1 else 0, Pow2(7 - j));
  }

  /** The sum the `j` loop accumulates after j steps: bit k weighs 2^(7 - k). */
  function Weighted(bits: seq<bool>, j: nat): nat
    requires j <= |bits| == 8
  {
    if j == 0 then 0 else Weighted(bits, j - 1) + (if bits[j - 1] then Pow2(8 - j) else 0)
  }

  /** After j steps the sum is the packed prefix shifted into the high bits. */
  lemma {:induction false} WeightedIsPack(bits: seq<bool>, j: nat)
    requires j <= |bits| == 8
    ensures Weighted(bits, j) == Pack(bits[..j]) * Pow2(8 - j)
  {
    if j > 0 {
      WeightedIsPack(bits, j - 1);
      PackStep(bits, j - 1);
    }
  }

  /** The whole sum is the packed byte. */
  lemma WeightedIsByte(bits: seq<bool>)
    requires |bits| == 8
    ensures Weighted(bits, 8) == Pack(bits) < 0x100
  {
    WeightedIsPack(bits, 8);
    assert bits[..8] == bits;
    assert Pow2(8) == 0x100;
  }

  /** The array holds the bit plane. */
  ghost predicate Shows(npx: array2<bool>, px: Bitmap)
    reads npx
  {
    npx.Length0 == W && npx.Length1 == H && IsBitmap(px) &&
    forall x, y {:trigger npx[x, y]} :: 0 <= x < W && 0 <= y < H ==> npx[x, y] == px[x][y]
  }

  /** The inner `j` loop: the byte for bitmap offset i. */
  method PackByte(npx: array2<bool>, i: nat, ghost px: Bitmap) returns (b: byte)
    requires Shows(npx, px) && i < BitmapSize
    ensures b == BitmapByte(px, i)
  {
    var sx, sy := ColumnOf(i) * 8, RowOf(i);
    ghost var bits := RowBits(px, i);
    var acc := 0;
    var j := 0;
    while j < 8
      invariant 0 <= j <= 8
      invariant acc == Weighted(bits, j)
    {
      var pixel := if sx + j < W && sy < H then npx[sx + j, sy] else false;
      assert bits[j] == PixelAt(px, sx + j, sy);
      acc := acc + if pixel then Pow2(7 - j) else 0;
      j := j + 1;
    }
    WeightedIsByte(bits);
    b := acc;
  }

  /** The first loop of `writescr`: the 6144 bitmap bytes from `address` on. */
  method WriteBitmap(display: array<byte>, npx: array2<bool>, address: nat, ghost px: Bitmap) returns (next: nat)
    requires Shows(npx, px) && address + BitmapSize <= display.Length
    modifies display
    ensures next == address + BitmapSize
    ensures forall k :: 0 <= k < BitmapSize ==> display[address + k] == BitmapByte(px, k)
    ensures forall k :: 0 <= k < display.Length && !(address <= k < next) ==> display[k] == old(display[k])
  {
    next := address;
    var i := 0;
    while i < BitmapSize
      invariant 0 <= i <= BitmapSize && next == address + i
      invariant forall k :: 0 <= k < i ==> display[address + k] == BitmapByte(px, k)
      invariant forall k :: 0 <= k < display.Length && !(address <= k < next) ==> display[k] == old(display[k])
    {
      var b := PackByte(npx, i, px);
      display[next] := b;
      next := next + 1;
      i := i + 1;
    }
  }

  /** The second loop: one attribute byte per tile, from `address` on. */
  method WriteAttrs(display: array<byte>, pal: array3<byte>, mode: RenderMode, address: nat) returns (next: nat)
    requires pal.Length0 == 32 && pal.Length1 == H && pal.Length2 == 2
    requires address + AttrCount(mode.timex) <= display.Length
    modifies display
    ensures next == address + AttrCount(mode.timex)
    ensures forall k :: 0 <= k < AttrCount(mode.timex) ==> display[address + k] == AttrByte(Layer(pal, 0), Layer(pal, 1), mode, k)
    ensures forall k :: 0 <= k < display.Length && !(address <= k < next) ==> display[k] == old(display[k])
  {
    ghost var p0, p1 := Layer(pal, 0), Layer(pal, 1);
    var count := if mode.timex then 0x1800 else 0x300;
    next := address;
    var i := 0;
    while i < count
      invariant 0 <= i <= count == AttrCount(mode.timex) && next == address + i
      invariant forall k :: 0 <= k < i ==> display[address + k] == AttrByte(p0, p1, mode, k)
      invariant forall k :: 0 <= k < display.Length && !(address <= k < next) ==> display[k] == old(display[k])
    {
      var bx, row := i % 32, i / 32;
      var a0, a1 := 0, 0;
      if row < (if mode.timex then H else H / 8) {
        a0, a1 := pal[bx, row, 0], pal[bx, row, 1];
      }
      if mode.ulaPlus {
        display[next] := a0 % 8 + (a1 % 8) * 8 + ((a0 / 16) % 4) * 64;
      } else {
        display[next] := a0;
      }
      next := next + 1;
      i := i + 1;
    }
  }

  /** The ULA+ palette dump: the 64 entries of `palent` from `address` on. */
  method WritePalette(display: array<byte>, palent: array<byte>, address: nat) returns (next: nat)
    requires palent.Length == 64 && display != palent && address + 64 <= display.Length
    modifies display
    ensures next == address + 64
    ensures display[address..next] == palent[..]
    ensures forall k :: 0 <= k < display.Length && !(address <= k < next) ==> display[k] == old(display[k])
  {
    next := address;
    var p := 0;
    while p < 64
      invariant 0 <= p <= 64 && next == address + p
      invariant forall k :: 0 <= k < p ==> display[address + k] == palent[k]
      invariant forall k :: 0 <= k < display.Length && !(address <= k < next) ==> display[k] == old(display[k])
    {
      display[next] := palent[p];
      next := next + 1;
      p := p + 1;
    }
  }

  /**
   * `writescr`: fills `display` through the advancing `address`; nothing past
   * the frame is written.
   */
  method WriteScr(display: array<byte>, npx: array2<bool>, pal: array3<byte>, palent: array<byte>, mode: RenderMode)
    requires display.Length == DisplayLength && display != palent
    requires npx.Length0 == W && npx.Length1 == H
    requires pal.Length0 == 32 && pal.Length1 == H && pal.Length2 == 2
    requires palent.Length == 64
    modifies display
    ensures display[..FrameSize(mode)] == Screen(Snap(npx), Layer(pal, 0), Layer(pal, 1), palent[..], mode)
    ensures display[FrameSize(mode)..] == old(display[FrameSize(mode)..])
  {
    ghost var px := Snap(npx);
    assert Shows(npx, px);
    ghost var screen := Screen(px, Layer(pal, 0), Layer(pal, 1), palent[..], mode);
    var address := WriteBitmap(display, npx, 0, px);
    ghost var afterBitmap := display[..];
    address := WriteAttrs(display, pal, mode, address);
    ghost var afterAttrs := display[..];
    if mode.ulaPlus {
      address := WritePalette(display, palent, address);
    }
    assert address == FrameSize(mode);
    forall k | 0 <= k < FrameSize(mode)
      ensures display[k] == screen[k]
    {
      if k < BitmapSize {
        assert afterBitmap[k] == BitmapByte(px, k);
      } else if k < BitmapSize + AttrCount(mode.timex) {
        assert afterAttrs[k] == AttrByte(Layer(pal, 0), Layer(pal, 1), mode, k - BitmapSize);
      }
    }
  }
}
