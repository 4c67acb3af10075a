/**
 * `pickattrs`: for every attribute tile (8x8 pixels, or 8x1 in Timex mode)
 * an exhaustive search over the attribute bytes 1..127 whose ink is strictly
 * greater than their paper, keeping the first byte of least cost, where the
 * cost sums over the tile's pixels the distance to the nearer of ink and
 * paper.  In black-and-white mode every tile gets attribute 7.
 */
module Attrs {
  import opened Bytes
  import opened Colour
  import opened Frame

  /** What the search reads: the working image, the YUV table and the Timex flag. */
  datatype Scene = Scene(post: Image, palyuv: Palette, timex: bool)

  ghost predicate ValidScene(s: Scene) { IsImage(s.post) }

  /** Number of tile rows: 24 character rows, or 192 scanlines in Timex mode. */
  function TileRows(timex: bool): nat { if timex then H else H / 8 }

  /** Pixel rows per tile: 8, or 1 in Timex mode. */
  function TileHeight(timex: bool): nat { if timex then 1 else 8 }

  /**
   * The attribute bytes the search considers: standard Spectrum layout with
   * ink in bits 0-2, paper in bits 3-5, bright in bit 6 and flash (bit 7)
   * clear, ink strictly greater than paper.
   */
  predicate IsCandidate(a: int)
  {
    1 <= a < 128 && a % 8 > (a / 8) % 8
  }

  predicate InTile(timex: bool, tx: int, ty: int, dx: int, dy: int)
  {
    0 <= tx < 32 && 0 <= ty < TileRows(timex) && 0 <= dx < 8 && 0 <= dy < TileHeight(timex)
  }

  /** Pixel (dx, dy) of tile (tx, ty): `post[(x*8)+dx][TIMEX ? y : (y*8)+dy]`. */
  function TilePixel(s: Scene, tx: int, ty: int, dx: int, dy: int): Yuv
    requires ValidScene(s) && InTile(s.timex, tx, ty, dx, dy)
  {
    s.post[tx * 8 + dx][if s.timex then ty else ty * 8 + dy]
  }

  /** Cost of one pixel under attribute `a`: distance to the nearer of its ink and paper. */
  function PixelCost(palyuv: Palette, a: byte, p: Yuv): nat
    requires a < 128
  {
    Min(Dist(Ink(palyuv, a), p), Dist(Paper(palyuv, a), p))
  }

  /** Cost of the first `n` pixels of column `dx` of a tile. */
  function ColumnCost(s: Scene, tx: int, ty: int, a: byte, dx: int, n: nat): nat
    requires ValidScene(s) && a < 128 && n <= TileHeight(s.timex)
    requires InTile(s.timex, tx, ty, dx, 0)
  {
    if n == 0 then 0
    else ColumnCost(s, tx, ty, a, dx, n - 1) + PixelCost(s.palyuv, a, TilePixel(s, tx, ty, dx, n - 1))
  }

  /** Cost of the first `m` columns of a tile. */
  function CostUpTo(s: Scene, tx: int, ty: int, a: byte, m: nat): nat
    requires ValidScene(s) && a < 128 && m <= 8
    requires InTile(s.timex, tx, ty, 0, 0)
  {
    if m == 0 then 0
    else CostUpTo(s, tx, ty, a, m - 1) + ColumnCost(s, tx, ty, a, m - 1, TileHeight(s.timex))
  }

  /** The cost `d` the search computes for attribute `a` on tile (tx, ty). */
  function TileCost(s: Scene, tx: int, ty: int, a: byte): nat
    requires ValidScene(s) && a < 128
    requires InTile(s.timex, tx, ty, 0, 0)
  {
    CostUpTo(s, tx, ty, a, 8)
  }

  /**
   * `a` is what the search stores: a candidate whose cost no candidate beats,
   * and strictly cheaper than every smaller candidate (the first minimum).
   */
  ghost predicate IsBestAttr(s: Scene, tx: int, ty: int, a: byte)
    requires ValidScene(s) && InTile(s.timex, tx, ty, 0, 0)
  {
    && IsCandidate(a)
    && forall c: byte :: IsCandidate(c) ==>
         TileCost(s, tx, ty, a) <= TileCost(s, tx, ty, c) && (c < a ==> TileCost(s, tx, ty, c) > TileCost(s, tx, ty, a))
  }

  /** The search result is determined: at most one attribute is the first minimum. */
  lemma BestAttrUnique(s: Scene, tx: int, ty: int, a: byte, b: byte)
    requires ValidScene(s) && InTile(s.timex, tx, ty, 0, 0)
    requires IsBestAttr(s, tx, ty, a) && IsBestAttr(s, tx, ty, b)
    ensures a == b
  {
  }

  /** The `dy` loop: the summed cost of attribute `a` over column `dx` of a tile. */
  method ColumnCostOf(post: array2<Yuv>, palyuv: Palette, timex: bool, tx: int, ty: int, a: byte, dx: int, ghost s: Scene)
    returns (d: nat)
    requires Holds(post, s.post) && s.palyuv == palyuv && s.timex == timex
    requires InTile(timex, tx, ty, dx, 0) && a < 128
    ensures d == ColumnCost(s, tx, ty, a, dx, TileHeight(timex))
  {
    d := 0;
    var dy := 0;
    while dy < TileHeight(timex)
      invariant 0 <= dy <= TileHeight(timex)
      invariant d == ColumnCost(s, tx, ty, a, dx, dy)
    {
      var xyuv := post[tx * 8 + dx, if timex then ty else ty * 8 + dy];
      assert xyuv == TilePixel(s, tx, ty, dx, dy);
      var di := Dist(Ink(palyuv, a), xyuv);
      var dp := Dist(Paper(palyuv, a), xyuv);
      assert ColumnCost(s, tx, ty, a, dx, dy + 1) == d + PixelCost(palyuv, a, xyuv);
      d := d + Min(di, dp);
      dy := dy + 1;
    }
  }

  /** The `dx`/`dy` loops: the summed cost `d` of attribute `a` over one tile. */
  method TileCostOf(post: array2<Yuv>, palyuv: Palette, timex: bool, tx: int, ty: int, a: byte, ghost s: Scene)
    returns (d: nat)
    requires Holds(post, s.post) && s.palyuv == palyuv && s.timex == timex
    requires InTile(timex, tx, ty, 0, 0) && a < 128
    ensures d == TileCost(s, tx, ty, a)
  {
    d := 0;
    var dx := 0;
    while dx < 8
      invariant 0 <= dx <= 8
      invariant d == CostUpTo(s, tx, ty, a, dx)
    {
      var c := ColumnCostOf(post, palyuv, timex, tx, ty, a, dx, s);
      d := d + c;
      dx := dx + 1;
    }
  }

  /** The `a` loop for one tile: keeps the first attribute of least cost. */
  method PickTile(post: array2<Yuv>, palyuv: Palette, timex: bool, tx: int, ty: int, ghost s: Scene)
    returns (ma: byte)
    requires Holds(post, s.post) && s.palyuv == palyuv && s.timex == timex
    requires InTile(timex, tx, ty, 0, 0)
    ensures IsBestAttr(s, tx, ty, ma)
  {
    ma := 1;
    var mad := 0;  // ma and mad are first set when a == 1, itself a candidate
    var a := 1;
    while a < 128
      invariant 1 <= a <= 128
      invariant a > 1 ==> IsCandidate(ma) && ma < a && mad == TileCost(s, tx, ty, ma)
      invariant a > 1 ==> forall c: byte :: c < a && IsCandidate(c) ==>
                  mad <= TileCost(s, tx, ty, c) && (c < ma ==> TileCost(s, tx, ty, c) > mad)
    {
      var i := a % 8;
      var p := (a / 8) % 8;
      if i > p {  // otherwise `continue`
        var d := TileCostOf(post, palyuv, timex, tx, ty, a, s);
        if a == 1 || d < mad {
          mad := d;
          ma := a;
        }
      }
      a := a + 1;
    }
  }

  /**
   * `pickattrs`: every tile of the grid (32 x 24, or 32 x 192 in Timex mode)
   * receives 7 in black-and-white mode and otherwise the first least-cost
   * candidate; nothing else in `pal` changes.
   */
  method PickAttrs(post: array2<Yuv>, pal: array3<byte>, palyuv: Palette, mode: RenderMode)
    requires post.Length0 == W && post.Length1 == H
    requires pal.Length0 == 32 && pal.Length1 == H && pal.Length2 == 2
    modifies pal
    ensures forall tx, ty :: 0 <= tx < 32 && 0 <= ty < TileRows(mode.timex) ==>
              if mode.bw then pal[tx, ty, 0] == 7
              else IsBestAttr(Scene(Snap(post), palyuv, mode.timex), tx, ty, pal[tx, ty, 0])
    ensures forall tx, ty, k :: 0 <= tx < 32 && 0 <= ty < H && 0 <= k < 2 && (k == 1 || ty >= TileRows(mode.timex)) ==>
              pal[tx, ty, k] == old(pal[tx, ty, k])
  {
    ghost var s := Scene(Snap(post), palyuv, mode.timex);
    assert Holds(post, s.post);
    var x := 0;
    while x < 32
      invariant 0 <= x <= 32
      invariant forall tx, ty :: 0 <= tx < x && 0 <= ty < TileRows(mode.timex) ==>
                  if mode.bw then pal[tx, ty, 0] == 7 else IsBestAttr(s, tx, ty, pal[tx, ty, 0])
      invariant forall tx, ty, k :: 0 <= tx < 32 && 0 <= ty < H && 0 <= k < 2 && (k == 1 || ty >= TileRows(mode.timex) || tx >= x) ==>
                  pal[tx, ty, k] == old(pal[tx, ty, k])
    {
      var y := 0;
      while y < TileRows(mode.timex)
        invariant 0 <= y <= TileRows(mode.timex)
        invariant forall tx, ty :: 0 <= ty < TileRows(mode.timex) && (0 <= tx < x || (tx == x && ty < y)) ==>
                  if mode.bw then pal[tx, ty, 0] == 7 else IsBestAttr(s, tx, ty, pal[tx, ty, 0])
        invariant forall tx, ty, k ::
                    (0 <= tx < 32 && 0 <= ty < H && 0 <= k < 2 &&
                     (k == 1 || ty >= TileRows(mode.timex) || tx > x || (tx == x && ty >= y))) ==>
                    pal[tx, ty, k] == old(pal[tx, ty, k])
      {
        if mode.bw {
          pal[x, y, 0] := 7;
        } else {
          var ma := PickTile(post, palyuv, mode.timex, x, y, s);
          pal[x, y, 0] := ma;
        }
        y := y + 1;
      }
      x := x + 1;
    }
  }

  /** A column whose pixels are all ink or paper of `a` costs nothing. */
  lemma {:induction false} ColumnCostZero(s: Scene, tx: int, ty: int, a: byte, dx: int, n: nat)
    requires ValidScene(s) && a < 128 && n <= TileHeight(s.timex) && InTile(s.timex, tx, ty, dx, 0)
    requires forall dy :: 0 <= dy < n ==>
               TilePixel(s, tx, ty, dx, dy) == Ink(s.palyuv, a) || TilePixel(s, tx, ty, dx, dy) == Paper(s.palyuv, a)
    ensures ColumnCost(s, tx, ty, a, dx, n) == 0
  {
    if n > 0 {
      ColumnCostZero(s, tx, ty, a, dx, n - 1);
      var p := TilePixel(s, tx, ty, dx, n - 1);
      assert Dist(Ink(s.palyuv, a), p) == 0 || Dist(Paper(s.palyuv, a), p) == 0;
    }
  }

  lemma {:induction false} CostUpToZero(s: Scene, tx: int, ty: int, a: byte, m: nat)
    requires ValidScene(s) && a < 128 && m <= 8 && InTile(s.timex, tx, ty, 0, 0)
    requires forall dx, dy :: InTile(s.timex, tx, ty, dx, dy) ==>
               TilePixel(s, tx, ty, dx, dy) == Ink(s.palyuv, a) || TilePixel(s, tx, ty, dx, dy) == Paper(s.palyuv, a)
    ensures CostUpTo(s, tx, ty, a, m) == 0
  {
    if m > 0 {
      CostUpToZero(s, tx, ty, a, m - 1);
      ColumnCostZero(s, tx, ty, a, m - 1, TileHeight(s.timex));
    }
  }

  /** Conversely, a column that costs nothing under `a` is drawn only in ink and paper of `a`. */
  lemma {:induction false} ColumnCostZeroPixels(s: Scene, tx: int, ty: int, a: byte, dx: int, n: nat)
    requires ValidScene(s) && a < 128 && n <= TileHeight(s.timex) && InTile(s.timex, tx, ty, dx, 0)
    requires ColumnCost(s, tx, ty, a, dx, n) == 0
    ensures forall dy :: 0 <= dy < n ==>
              TilePixel(s, tx, ty, dx, dy) == Ink(s.palyuv, a) || TilePixel(s, tx, ty, dx, dy) == Paper(s.palyuv, a)
  {
    if n > 0 {
      ColumnCostZeroPixels(s, tx, ty, a, dx, n - 1);
      var p := TilePixel(s, tx, ty, dx, n - 1);
      assert PixelCost(s.palyuv, a, p) == 0;
      assert Dist(Ink(s.palyuv, a), p) == 0 || Dist(Paper(s.palyuv, a), p) == 0;
    }
  }

  /** A tile whose first `m` columns cost nothing under `a` is drawn there only in ink and paper of `a`. */
  lemma {:induction false} CostUpToZeroPixels(s: Scene, tx: int, ty: int, a: byte, m: nat)
    requires ValidScene(s) && a < 128 && m <= 8 && InTile(s.timex, tx, ty, 0, 0)
    requires CostUpTo(s, tx, ty, a, m) == 0
    ensures forall dx, dy :: InTile(s.timex, tx, ty, dx, dy) && dx < m ==>
              TilePixel(s, tx, ty, dx, dy) == Ink(s.palyuv, a) || TilePixel(s, tx, ty, dx, dy) == Paper(s.palyuv, a)
  {
    if m > 0 {
      CostUpToZeroPixels(s, tx, ty, a, m - 1);
      ColumnCostZeroPixels(s, tx, ty, a, m - 1, TileHeight(s.timex));
    }
  }

  /**
   * A tile drawn only in the two colours of a candidate attribute resolves
   * at zero cost: that candidate costs nothing, so neither does the one the
   * search keeps.  When both colours actually occur in the tile and differ,
   * the kept attribute shows exactly that pair of colours.
   */
  lemma TwoColourTileIsFree(s: Scene, tx: int, ty: int, a: byte, best: byte)
    requires ValidScene(s) && InTile(s.timex, tx, ty, 0, 0) && IsCandidate(a)
    requires forall dx, dy :: InTile(s.timex, tx, ty, dx, dy) ==>
               TilePixel(s, tx, ty, dx, dy) == Ink(s.palyuv, a) || TilePixel(s, tx, ty, dx, dy) == Paper(s.palyuv, a)
    requires IsBestAttr(s, tx, ty, best)
    ensures TileCost(s, tx, ty, a) == 0 && TileCost(s, tx, ty, best) == 0
    ensures Ink(s.palyuv, a) != Paper(s.palyuv, a) &&
            (exists dx, dy :: InTile(s.timex, tx, ty, dx, dy) && TilePixel(s, tx, ty, dx, dy) == Ink(s.palyuv, a)) &&
            (exists dx, dy :: InTile(s.timex, tx, ty, dx, dy) && TilePixel(s, tx, ty, dx, dy) == Paper(s.palyuv, a)) ==>
              {Ink(s.palyuv, best), Paper(s.palyuv, best)} == {Ink(s.palyuv, a), Paper(s.palyuv, a)}
  {
    CostUpToZero(s, tx, ty, a, 8);
    CostUpToZeroPixels(s, tx, ty, best, 8);
    var ink, paper := Ink(s.palyuv, a), Paper(s.palyuv, a);
    if ink != paper &&
       (exists dx, dy :: InTile(s.timex, tx, ty, dx, dy) && TilePixel(s, tx, ty, dx, dy) == ink) &&
       (exists dx, dy :: InTile(s.timex, tx, ty, dx, dy) && TilePixel(s, tx, ty, dx, dy) == paper)
    {
      var bi, bp := Ink(s.palyuv, best), Paper(s.palyuv, best);
      assert ink == bi || ink == bp;
      assert paper == bi || paper == bp;
    }
  }

  /**
   * A candidate that has colour code `c` as ink or paper: ink `c` over black
   * paper, or, for black itself, blue ink over paper `c`.
   */
  function UniformAttr(c: nat): (a: byte)
    requires c < 16
    ensures IsCandidate(a) && (InkIndex(a) == c || PaperIndex(a) == c)
  {
    var bright := if c >= 8 then 64 else 0;
    var colour := if c >= 8 then c - 8 else c;
    if colour == 0 then 1 + bright else colour + bright
  }

  /** A tile of one Spectrum colour `c` resolves at zero cost. */
  lemma UniformTileIsFree(s: Scene, tx: int, ty: int, c: nat, best: byte)
    requires ValidScene(s) && InTile(s.timex, tx, ty, 0, 0) && c < 16
    requires forall dx, dy :: InTile(s.timex, tx, ty, dx, dy) ==> TilePixel(s, tx, ty, dx, dy) == s.palyuv[c]
    requires IsBestAttr(s, tx, ty, best)
    ensures TileCost(s, tx, ty, best) == 0
  {
    var a := UniformAttr(c);
    assert Ink(s.palyuv, a) == s.palyuv[c] || Paper(s.palyuv, a) == s.palyuv[c];
    TwoColourTileIsFree(s, tx, ty, a, best);
  }
}
