/**
 * `dither`: error diffusion over a working copy `nyuv` of `post`, column by
 * column (`x` outer, `y` inner).  Each pixel becomes the nearer of its
 * tile's ink and paper (a tie goes to paper), and the per-channel error is
 * spread to the right (7/16), down-right (1/16), down-left (3/16) and down
 * (5/16) neighbours with every updated channel clamped to a byte.  With
 * `dithflow` constant TRUE the flow predicates reduce to the frame edges.
 *
 * `Work(s, x, y)` is the working copy just before pixel (x, y) in that
 * order; `Dither` is proved to write exactly the decisions it implies.
 */
module Dither {
  import opened Bytes
  import opened Colour
  import opened Frame
  import Attrs

  /** Everything `dither` reads: `post`, the attributes, the YUV table and the Timex flag. */
  datatype Setting = Setting(post: Image, attrs: Grid, palyuv: Palette, timex: bool)

  /** The attributes in use were produced by the search (or are the BW 7), so lie below 128. */
  ghost predicate ValidSetting(s: Setting)
  {
    && IsImage(s.post) && IsGrid(s.attrs)
    && forall tx, ty :: 0 <= tx < 32 && 0 <= ty < Attrs.TileRows(s.timex) ==> s.attrs[tx][ty] < 128
  }

  function AttrGrid(pal: array3<byte>): (g: Grid)
    requires pal.Length0 == 32 && pal.Length1 == H && pal.Length2 == 2
    reads pal
    ensures IsGrid(g)
    ensures forall tx, ty :: 0 <= tx < 32 && 0 <= ty < H ==> g[tx][ty] == pal[tx, ty, 0]
  {
    seq(32, tx requires 0 <= tx < 32 reads pal => seq(H, ty requires 0 <= ty < H reads pal => pal[tx, ty, 0]))
  }

  /** Attribute of the tile holding pixel (x, y): `pal[x/8][TIMEX ? y : y/8][0]`. */
  function AttrAt(s: Setting, x: int, y: int): (a: byte)
    requires ValidSetting(s) && 0 <= x < W && 0 <= y < H
    ensures a < 128
  {
    s.attrs[x / 8][if s.timex then y else y / 8]
  }

  /** `npx[x][y] = (di < dp)`: true when strictly nearer to ink than to paper; a tie goes to paper. */
  function Decide(palyuv: Palette, a: byte, p: Yuv): bool
    requires a < 128
  {
    Dist(Ink(palyuv, a), p) < Dist(Paper(palyuv, a), p)
  }

  /** The colour a decision picks. */
  function Chosen(palyuv: Palette, a: byte, ink: bool): Yuv
    requires a < 128
  {
    if ink then Ink(palyuv, a) else Paper(palyuv, a)
  }

  /** One diffused channel value: `v` less k/16 of the error `dy`, rounded down and clamped. */
  function Spread(v: byte, dy: int, k: int): byte
  {
    Clamp((16 * v - k * dy) / 16)
  }

  /**
   * The source computes the diffused value as `clamp(floor(v - dy*k/16.0))`
   * in double precision (exact here, as every operand is a small multiple of
   * 1/16); the integer floor division gives exactly that value.
   */
  lemma SpreadIsExact(v: byte, dy: int, k: int)
    ensures Spread(v, dy, k) == Clamp(((v as real) - (dy as real) * (k as real) / 16.0).Floor)
  {
    var e := 16 * v - k * dy;
    assert (v as real) - (dy as real) * (k as real) / 16.0 == (e as real) / 16.0;
    FloorDiv16(e);
  }

  /** Euclidean division by 16 is the floor of the real quotient. */
  lemma FloorDiv16(e: int)
    ensures ((e as real) / 16.0).Floor == e / 16
  {
    var q, r := e / 16, e % 16;
    assert e == 16 * q + r && 0 <= r < 16;
    assert (e as real) / 16.0 == q as real + (r as real) / 16.0;
  }

  /** `m` with pixel (x, y) replaced by `c`. */
  function Put(m: Image, x: int, y: int, c: Yuv): (r: Image)
    requires IsImage(m) && 0 <= x < W && 0 <= y < H
    ensures IsImage(r)
  {
    m[x := m[x][y := c]]
  }

  /** Whether (p, q) is one of the four neighbours the pixel (x, y) spreads its error to. */
  predicate Neighbour(x: int, y: int, p: int, q: int)
  {
    (p == x + 1 && q == y) || (p == x + 1 && q == y + 1) || (p == x - 1 && q == y + 1) || (p == x && q == y + 1)
  }

  /** `m` with channel `j` of pixel (p, q) replaced by `src` less k/16 of the error `dy`, clamped. */
  function SpreadTo(m: Image, p: int, q: int, src: byte, dy: int, k: int, j: int): (r: Image)
    requires IsImage(m) && 0 <= p < W && 0 <= q < H && 0 <= j < 3
    ensures IsImage(r)
  {
    Put(m, p, q, m[p][q].With(j, Spread(src, dy, k)))
  }

  /** The right neighbour's share, 7/16 (its source value taken from `post` on row 0). */
  function ToRight(post: Image, m: Image, x: int, y: int, dy: int, j: int): (r: Image)
    requires IsImage(post) && IsImage(m) && 0 <= x < W && 0 <= y < H && 0 <= j < 3
    ensures IsImage(r)
  {
    if x + 1 < W then SpreadTo(m, x + 1, y, (if y == 0 then post else m)[x + 1][y].At(j), dy, 7, j) else m
  }

  /** The down-right neighbour's share, 1/16 (its source value always taken from `post`). */
  function ToDiagonal(post: Image, m: Image, x: int, y: int, dy: int, j: int): (r: Image)
    requires IsImage(post) && IsImage(m) && 0 <= x < W && 0 <= y < H && 0 <= j < 3
    ensures IsImage(r)
  {
    if x + 1 < W && y + 1 < H then SpreadTo(m, x + 1, y + 1, post[x + 1][y + 1].At(j), dy, 1, j) else m
  }

  /** The down-left neighbour's share, 3/16, written into the column already finished. */
  function ToBack(m: Image, x: int, y: int, dy: int, j: int): (r: Image)
    requires IsImage(m) && 0 <= x < W && 0 <= y < H && 0 <= j < 3
    ensures IsImage(r)
  {
    if y + 1 < H && x > 0 then SpreadTo(m, x - 1, y + 1, m[x - 1][y + 1].At(j), dy, 3, j) else m
  }

  /** The lower neighbour's share, 5/16. */
  function ToBelow(m: Image, x: int, y: int, dy: int, j: int): (r: Image)
    requires IsImage(m) && 0 <= x < W && 0 <= y < H && 0 <= j < 3
    ensures IsImage(r)
  {
    if y + 1 < H then SpreadTo(m, x, y + 1, m[x][y + 1].At(j), dy, 5, j) else m
  }

  /** Channel `j` of the error of pixel (x, y), spread in the source's order. */
  function StepChannel(post: Image, m: Image, x: int, y: int, chosen: Yuv, j: int): (r: Image)
    requires IsImage(post) && IsImage(m) && 0 <= x < W && 0 <= y < H && 0 <= j < 3
    ensures IsImage(r)
  {
    var dy := chosen.At(j) - m[x][y].At(j);
    ToBelow(ToBack(ToDiagonal(post, ToRight(post, m, x, y, dy, j), x, y, dy, j), x, y, dy, j), x, y, dy, j)
  }

  /** The positions of the processing order: pixel (x, y) for y < H, then "column x finished" at y == H. */
  ghost predicate InOrder(x: int, y: int)
  {
    (0 <= x < W && 0 <= y <= H) || (x == W && y == 0)
  }

  /**
   * The working copy `nyuv` just before pixel (x, y) is processed: every
   * earlier column completely, and rows 0 .. y-1 of column x.
   */
  function Work(s: Setting, x: int, y: int): (m: Image)
    requires ValidSetting(s) && InOrder(x, y)
    ensures IsImage(m)
    decreases x, y, 0
  {
    if y > 0 then Diffused(s, x, y - 1, 3)
    else if x > 0 then Diffused(s, x - 1, H - 1, 3)
    else s.post
  }

  /** The bit `dither` stores in `npx[x][y]`, decided on the working copy before (x, y). */
  function DitherBit(s: Setting, x: int, y: int): bool
    requires ValidSetting(s) && 0 <= x < W && 0 <= y < H
    decreases x, y, 1
  {
    Decide(s.palyuv, AttrAt(s, x, y), Work(s, x, y)[x][y])
  }

  /** The working copy once channels 0 .. n-1 of the error of pixel (x, y) are spread (the `j` loop). */
  function Diffused(s: Setting, x: int, y: int, n: nat): (m: Image)
    requires ValidSetting(s) && 0 <= x < W && 0 <= y < H && n <= 3
    ensures IsImage(m)
    decreases x, y, n + 1
  {
    if n == 0 then Work(s, x, y)
    else StepChannel(s.post, Diffused(s, x, y, n - 1), x, y, Chosen(s.palyuv, AttrAt(s, x, y), DitherBit(s, x, y)), n - 1)
  }

  /** The colour the decision picks is the nearer of ink and paper; on a tie it is paper. */
  lemma DecisionIsNearest(s: Setting, x: int, y: int)
    requires ValidSetting(s) && 0 <= x < W && 0 <= y < H
    ensures var a, w := AttrAt(s, x, y), Work(s, x, y)[x][y];
            && Dist(Chosen(s.palyuv, a, DitherBit(s, x, y)), w) == Min(Dist(Ink(s.palyuv, a), w), Dist(Paper(s.palyuv, a), w))
            && (Dist(Ink(s.palyuv, a), w) == Dist(Paper(s.palyuv, a), w) ==> !DitherBit(s, x, y))
  {
  }

  /**
   * Cell (p, q) of `b` is that of `a` unless it is a neighbour of (x, y),
   * and agrees with it on every channel other than j.
   */
  ghost predicate Keeps(a: Image, b: Image, x: int, y: int, p: int, q: int, j: int)
    requires IsImage(a) && IsImage(b) && 0 <= p < W && 0 <= q < H
  {
    && (!Neighbour(x, y, p, q) ==> b[p][q] == a[p][q])
    && forall c :: 0 <= c < 3 && c != j ==> b[p][q].At(c) == a[p][q].At(c)
  }

  /** Updating channel j of a neighbour of (x, y) keeps every other cell and channel. */
  lemma SpreadToKeeps(m: Image, x: int, y: int, p0: int, q0: int, src: byte, dy: int, k: int, j: int, p: int, q: int)
    requires IsImage(m) && 0 <= p0 < W && 0 <= q0 < H && 0 <= j < 3 && 0 <= p < W && 0 <= q < H
    requires Neighbour(x, y, p0, q0)
    ensures Keeps(m, SpreadTo(m, p0, q0, src, dy, k, j), x, y, p, q, j)
  {
  }

  lemma KeepsChain(a: Image, b: Image, c: Image, x: int, y: int, p: int, q: int, j: int)
    requires IsImage(a) && IsImage(b) && IsImage(c) && 0 <= p < W && 0 <= q < H
    requires Keeps(a, b, x, y, p, q, j) && Keeps(b, c, x, y, p, q, j)
    ensures Keeps(a, c, x, y, p, q, j)
  {
  }

  /** One channel step changes only the four neighbours, and only in channel j. */
  lemma StepChannelKeeps(post: Image, m: Image, x: int, y: int, chosen: Yuv, j: int, p: int, q: int)
    requires IsImage(post) && IsImage(m) && 0 <= x < W && 0 <= y < H && 0 <= j < 3
    requires 0 <= p < W && 0 <= q < H
    ensures !Neighbour(x, y, p, q) ==> StepChannel(post, m, x, y, chosen, j)[p][q] == m[p][q]
    ensures forall c :: 0 <= c < 3 && c != j ==> StepChannel(post, m, x, y, chosen, j)[p][q].At(c) == m[p][q].At(c)
  {
    var dy := chosen.At(j) - m[x][y].At(j);
    var m1 := ToRight(post, m, x, y, dy, j);
    var m2 := ToDiagonal(post, m1, x, y, dy, j);
    var m3 := ToBack(m2, x, y, dy, j);
    var m4 := ToBelow(m3, x, y, dy, j);
    assert StepChannel(post, m, x, y, chosen, j) == m4;
    if x + 1 < W {
      SpreadToKeeps(m, x, y, x + 1, y, (if y == 0 then post else m)[x + 1][y].At(j), dy, 7, j, p, q);
    }
    if x + 1 < W && y + 1 < H {
      SpreadToKeeps(m1, x, y, x + 1, y + 1, post[x + 1][y + 1].At(j), dy, 1, j, p, q);
    }
    if y + 1 < H && x > 0 {
      SpreadToKeeps(m2, x, y, x - 1, y + 1, m2[x - 1][y + 1].At(j), dy, 3, j, p, q);
    }
    if y + 1 < H {
      SpreadToKeeps(m3, x, y, x, y + 1, m3[x][y + 1].At(j), dy, 5, j, p, q);
    }
    KeepsChain(m, m1, m2, x, y, p, q, j);
    KeepsChain(m, m2, m3, x, y, p, q, j);
    KeepsChain(m, m3, m4, x, y, p, q, j);
    assert Keeps(m, m4, x, y, p, q, j);
  }

  /**
   * While pixel (x, y) spreads its error, cells other than its four
   * neighbours keep their value, and the channels not yet reached keep theirs.
   */
  lemma {:induction false} DiffusedKeeps(s: Setting, x: int, y: int, n: nat, p: int, q: int)
    requires ValidSetting(s) && 0 <= x < W && 0 <= y < H && n <= 3 && 0 <= p < W && 0 <= q < H
    ensures !Neighbour(x, y, p, q) ==> Diffused(s, x, y, n)[p][q] == Work(s, x, y)[p][q]
    ensures forall c :: n <= c < 3 ==> Diffused(s, x, y, n)[p][q].At(c) == Work(s, x, y)[p][q].At(c)
  {
    if n > 0 {
      DiffusedKeeps(s, x, y, n - 1, p, q);
      var a := AttrAt(s, x, y);
      StepChannelKeeps(s.post, Diffused(s, x, y, n - 1), x, y, Chosen(s.palyuv, a, DitherBit(s, x, y)), n - 1, p, q);
    }
  }

  /**
   * Before pixel (x, y) is processed, every cell right of column x+1, and
   * the cells of column x+1 below row y (all of it when y == 0), still hold
   * their `post` value.
   */
  lemma {:induction false} PristineBefore(s: Setting, x: int, y: int, p: int, q: int)
    requires ValidSetting(s) && InOrder(x, y) && 0 <= p < W && 0 <= q < H
    requires p > x + 1 || (p == x + 1 && (q > y || y == 0))
    ensures Work(s, x, y)[p][q] == s.post[p][q]
    decreases x, y, 1
  {
    if y > 0 {
      PristineDown(s, x, y, p, q);
    } else if x > 0 {
      PristineAcross(s, x, p, q);
    } else {
      assert Work(s, x, y) == s.post;
    }
  }

  /** The step down a column of `PristineBefore`. */
  lemma {:induction false} PristineDown(s: Setting, x: int, y: int, p: int, q: int)
    requires ValidSetting(s) && 0 <= x < W && 0 < y <= H && 0 <= p < W && 0 <= q < H
    requires p > x + 1 || (p == x + 1 && q > y)
    ensures Work(s, x, y)[p][q] == s.post[p][q]
    decreases x, y, 0
  {
    PristineBefore(s, x, y - 1, p, q);
    KeptAcross(s, x, y, p, q);
  }

  /** The step to the top of the next column of `PristineBefore`. */
  lemma {:induction false} PristineAcross(s: Setting, x: int, p: int, q: int)
    requires ValidSetting(s) && 0 < x <= W && 0 <= p < W && 0 <= q < H && p > x
    ensures Work(s, x, 0)[p][q] == s.post[p][q]
    decreases x, 0, 0
  {
    PristineBefore(s, x - 1, H - 1, p, q);
    KeptAcross(s, x - 1, H, p, q);
  }

  /** A cell that is not a neighbour of (x, y - 1) is the same after that pixel as before it. */
  lemma KeptAcross(s: Setting, x: int, y: int, p: int, q: int)
    requires ValidSetting(s) && 0 <= x < W && 0 < y <= H && 0 <= p < W && 0 <= q < H
    requires !Neighbour(x, y - 1, p, q)
    ensures Work(s, x, y)[p][q] == Work(s, x, y - 1)[p][q]
  {
    DiffusedKeeps(s, x, y - 1, 3, p, q);
  }

  /**
   * The two places where `dither` reads `post` instead of the working copy
   * read the same value the working copy holds: the right neighbour on row 0
   * and the down-right neighbour (after the right neighbour's share of the
   * same channel is written).
   */
  lemma QuirkReadsAgree(s: Setting, x: int, y: int, j: int, dy: int)
    requires ValidSetting(s) && 0 <= x < W - 1 && 0 <= y < H && 0 <= j < 3
    ensures y == 0 ==> Diffused(s, x, y, j)[x + 1][y].At(j) == s.post[x + 1][y].At(j)
    ensures y + 1 < H ==>
              ToRight(s.post, Diffused(s, x, y, j), x, y, dy, j)[x + 1][y + 1].At(j) == s.post[x + 1][y + 1].At(j)
  {
    if y == 0 {
      DiffusedKeeps(s, x, y, j, x + 1, y);
      PristineBefore(s, x, y, x + 1, y);
    }
    if y + 1 < H {
      DiffusedKeeps(s, x, y, j, x + 1, y + 1);
      PristineBefore(s, x, y, x + 1, y + 1);
    }
  }

  /** One update `nyuv[p][q][j] = clamp(floor(src - dy*k/16))`. */
  method SpreadCell(nyuv: array2<Yuv>, p: int, q: int, src: byte, dy: int, k: int, j: int, ghost m: Image)
    requires 0 <= p < W && 0 <= q < H && 0 <= j < 3
    requires Holds(nyuv, m)
    modifies nyuv
    ensures Holds(nyuv, SpreadTo(m, p, q, src, dy, k, j))
  {
    nyuv[p, q] := nyuv[p, q].With(j, Spread(src, dy, k));
  }

  /** `nyuv` holds `m` plus the right neighbour's share. */
  method ShareRight(nyuv: array2<Yuv>, post: array2<Yuv>, x: int, y: int, dy: int, j: int, ghost P: Image, ghost m: Image)
    requires post.Length0 == W && post.Length1 == H && nyuv != post && Holds(post, P)
    requires 0 <= x < W && 0 <= y < H && 0 <= j < 3
    requires Holds(nyuv, m)
    modifies nyuv
    ensures Holds(nyuv, ToRight(P, m, x, y, dy, j))
  {
    if x + 1 < W {
      var src := if y == 0 then post[x + 1, y] else nyuv[x + 1, y];
      assert src == (if y == 0 then P else m)[x + 1][y];
      SpreadCell(nyuv, x + 1, y, src.At(j), dy, 7, j, m);
    }
  }

  /** `nyuv` holds `m` plus the down-right neighbour's share. */
  method ShareDiagonal(nyuv: array2<Yuv>, post: array2<Yuv>, x: int, y: int, dy: int, j: int, ghost P: Image, ghost m: Image)
    requires post.Length0 == W && post.Length1 == H && nyuv != post && Holds(post, P)
    requires 0 <= x < W && 0 <= y < H && 0 <= j < 3
    requires Holds(nyuv, m)
    modifies nyuv
    ensures Holds(nyuv, ToDiagonal(P, m, x, y, dy, j))
  {
    if x + 1 < W && y + 1 < H {
      SpreadCell(nyuv, x + 1, y + 1, post[x + 1, y + 1].At(j), dy, 1, j, m);
    }
  }

  /** `nyuv` holds `m` plus the down-left neighbour's share. */
  method ShareBack(nyuv: array2<Yuv>, x: int, y: int, dy: int, j: int, ghost m: Image)
    requires 0 <= x < W && 0 <= y < H && 0 <= j < 3
    requires Holds(nyuv, m)
    modifies nyuv
    ensures Holds(nyuv, ToBack(m, x, y, dy, j))
  {
    if y + 1 < H && x > 0 {
      SpreadCell(nyuv, x - 1, y + 1, nyuv[x - 1, y + 1].At(j), dy, 3, j, m);
    }
  }

  /** `nyuv` holds `m` plus the lower neighbour's share. */
  method ShareBelow(nyuv: array2<Yuv>, x: int, y: int, dy: int, j: int, ghost m: Image)
    requires 0 <= x < W && 0 <= y < H && 0 <= j < 3
    requires Holds(nyuv, m)
    modifies nyuv
    ensures Holds(nyuv, ToBelow(m, x, y, dy, j))
  {
    if y + 1 < H {
      SpreadCell(nyuv, x, y + 1, nyuv[x, y + 1].At(j), dy, 5, j, m);
    }
  }

  /** The `j` loop body: channel `j` of the error of pixel (x, y) spread over `nyuv`. */
  method SpreadChannel(nyuv: array2<Yuv>, post: array2<Yuv>, x: int, y: int, chosen: Yuv, j: int, ghost P: Image, ghost m: Image)
    requires post.Length0 == W && post.Length1 == H && nyuv != post && Holds(post, P)
    requires 0 <= x < W && 0 <= y < H && 0 <= j < 3
    requires Holds(nyuv, m)
    modifies nyuv
    ensures Holds(nyuv, StepChannel(P, m, x, y, chosen, j))
  {
    var dy := chosen.At(j) - nyuv[x, y].At(j);
    assert dy == chosen.At(j) - m[x][y].At(j);
    ShareRight(nyuv, post, x, y, dy, j, P, m);
    ghost var m1 := ToRight(P, m, x, y, dy, j);
    ShareDiagonal(nyuv, post, x, y, dy, j, P, m1);
    ghost var m2 := ToDiagonal(P, m1, x, y, dy, j);
    ghost var m3 := ToBack(m2, x, y, dy, j);
    assert StepChannel(P, m, x, y, chosen, j) == ToBelow(m3, x, y, dy, j);
    ShareBack(nyuv, x, y, dy, j, m2);
    ShareBelow(nyuv, x, y, dy, j, m3);
  }

  /** The working image `dither` starts from and the attributes it reads. */
  function SettingOf(post: array2<Yuv>, pal: array3<byte>, palyuv: Palette, timex: bool): Setting
    requires pal.Length0 == 32 && pal.Length1 == H && pal.Length2 == 2
    reads post, pal
  {
    Setting(Snap(post), AttrGrid(pal), palyuv, timex)
  }

  /** The decision: the tile's ink and paper from the attribute, and whether the pixel is strictly nearer to ink. */
  method DecidePixel(nyuv: array2<Yuv>, palyuv: Palette, x: int, y: int, a: byte, ghost s: Setting)
    returns (ink: bool, chosen: Yuv)
    requires 0 <= x < W && 0 <= y < H
    requires ValidSetting(s) && s.palyuv == palyuv && a == AttrAt(s, x, y)
    requires Holds(nyuv, Work(s, x, y))
    ensures ink == DitherBit(s, x, y)
    ensures chosen == Chosen(palyuv, a, ink)
  {
    var i, p, b := a % 8, (a / 8) % 8, a / 64;
    var iyuv, pyuv := palyuv[i + b * 8], palyuv[p + b * 8];
    assert iyuv == Ink(palyuv, a) && pyuv == Paper(palyuv, a);
    assert nyuv[x, y] == Work(s, x, y)[x][y];
    var di := Dist(iyuv, nyuv[x, y]);
    var dp := Dist(pyuv, nyuv[x, y]);
    ink := di < dp;
    chosen := if ink then iyuv else pyuv;
  }

  /** The body of the `y` loop: decide pixel (x, y) and spread its error. */
  method DitherPixel(nyuv: array2<Yuv>, post: array2<Yuv>, palyuv: Palette, npx: array2<bool>, x: int, y: int, a: byte,
                     ghost s: Setting)
    requires post.Length0 == W && post.Length1 == H && npx.Length0 == W && npx.Length1 == H && nyuv != post
    requires 0 <= x < W && 0 <= y < H
    requires ValidSetting(s) && Holds(post, s.post) && s.palyuv == palyuv && a == AttrAt(s, x, y)
    requires Holds(nyuv, Work(s, x, y))
    modifies nyuv, npx
    ensures Holds(nyuv, Diffused(s, x, y, 3))
    ensures npx[x, y] == DitherBit(s, x, y)
    ensures forall p, q :: 0 <= p < W && 0 <= q < H && (p != x || q != y) ==> npx[p, q] == old(npx[p, q])
  {
    var ink, chosen := DecidePixel(nyuv, palyuv, x, y, a, s);
    npx[x, y] := ink;
    SpreadPixel(nyuv, post, x, y, chosen, s);
  }

  /** The `j` loop: the three channels of the error of pixel (x, y), in order. */
  method SpreadPixel(nyuv: array2<Yuv>, post: array2<Yuv>, x: int, y: int, chosen: Yuv, ghost s: Setting)
    requires post.Length0 == W && post.Length1 == H && nyuv != post
    requires 0 <= x < W && 0 <= y < H
    requires ValidSetting(s) && Holds(post, s.post)
    requires chosen == Chosen(s.palyuv, AttrAt(s, x, y), DitherBit(s, x, y))
    requires Holds(nyuv, Work(s, x, y))
    modifies nyuv
    ensures Holds(nyuv, Diffused(s, x, y, 3))
  {
    var j := 0;
    while j < 3
      invariant 0 <= j <= 3
      invariant Holds(nyuv, Diffused(s, x, y, j))
    {
      ghost var m := Diffused(s, x, y, j);
      SpreadChannel(nyuv, post, x, y, chosen, j, s.post, m);
      assert Diffused(s, x, y, j + 1) == StepChannel(s.post, m, x, y, chosen, j);
      j := j + 1;
    }
  }

  /** What `DitherColumn` knows of `s`: it describes `post`, `pal` and `palyuv`. */
  ghost predicate Describes(s: Setting, post: array2<Yuv>, pal: array3<byte>, palyuv: Palette, timex: bool)
    reads post, pal
  {
    && ValidSetting(s) && Holds(post, s.post) && s.palyuv == palyuv && s.timex == timex
    && pal.Length0 == 32 && pal.Length1 == H && pal.Length2 == 2
    && forall tx, ty :: 0 <= tx < 32 && 0 <= ty < H ==> s.attrs[tx][ty] == pal[tx, ty, 0]
  }

  /** `bits` lists every decision of `s`. */
  ghost predicate AreDecisions(s: Setting, bits: seq<seq<bool>>)
  {
    && ValidSetting(s) && |bits| == W
    && (forall p :: 0 <= p < W ==> |bits[p]| == H)
    && forall p, q {:trigger bits[p][q]} :: 0 <= p < W && 0 <= q < H ==> bits[p][q] == DitherBit(s, p, q)
  }

  ghost function Decisions(s: Setting): (bits: seq<seq<bool>>)
    requires ValidSetting(s)
    ensures AreDecisions(s, bits)
  {
    seq(W, p requires 0 <= p < W => seq(H, q requires 0 <= q < H => DitherBit(s, p, q)))
  }

  /** Column x of `npx` holds its first y decisions, and every other entry its value in `orig`. */
  ghost predicate SoFar(npx: array2<bool>, orig: seq<seq<bool>>, bits: seq<seq<bool>>, x: int, y: int)
    reads npx
  {
    && npx.Length0 == W && npx.Length1 == H && 0 <= x < W
    && |orig| == W && (forall p :: 0 <= p < W ==> |orig[p]| == H)
    && |bits| == W && |bits[x]| == H
    && forall p, q :: 0 <= p < W && 0 <= q < H ==> npx[p, q] == (if p == x && q < y then bits[x][q] else orig[p][q])
  }

  /** One pass of the `y` loop: pixel (x, y) decided and its error spread. */
  method DitherCell(nyuv: array2<Yuv>, post: array2<Yuv>, pal: array3<byte>, palyuv: Palette, timex: bool,
                    npx: array2<bool>, x: int, y: int, ghost s: Setting, ghost bits: seq<seq<bool>>,
                    ghost orig: seq<seq<bool>>)
    requires nyuv != post && 0 <= x < W && 0 <= y < H
    requires Describes(s, post, pal, palyuv, timex) && AreDecisions(s, bits)
    requires Holds(nyuv, Work(s, x, y)) && SoFar(npx, orig, bits, x, y)
    modifies nyuv, npx
    ensures Holds(nyuv, Work(s, x, y + 1)) && SoFar(npx, orig, bits, x, y + 1)
  {
    var row := if timex then y else y / 8;
    var a := pal[x / 8, row, 0];
    assert a == AttrAt(s, x, y);
    DitherPixel(nyuv, post, palyuv, npx, x, y, a, s);
    assert Work(s, x, y + 1) == Diffused(s, x, y, 3);
    assert npx[x, y] == bits[x][y];
  }

  /** One pass of the `x` loop: column x, top to bottom. */
  method DitherColumn(nyuv: array2<Yuv>, post: array2<Yuv>, pal: array3<byte>, palyuv: Palette, timex: bool,
                      npx: array2<bool>, x: int, ghost s: Setting, ghost bits: seq<seq<bool>>)
    requires npx.Length0 == W && npx.Length1 == H && nyuv != post
    requires 0 <= x < W
    requires Describes(s, post, pal, palyuv, timex) && AreDecisions(s, bits)
    requires Holds(nyuv, Work(s, x, 0))
    modifies nyuv, npx
    ensures Holds(nyuv, Work(s, x + 1, 0))
    ensures forall q :: 0 <= q < H ==> npx[x, q] == bits[x][q]
    ensures forall p, q :: 0 <= p < W && 0 <= q < H && p != x ==> npx[p, q] == old(npx[p, q])
  {
    ghost var orig := Snap(npx);
    var y := 0;
    while y < H
      invariant 0 <= y <= H
      invariant Holds(nyuv, Work(s, x, y)) && SoFar(npx, orig, bits, x, y)
    {
      DitherCell(nyuv, post, pal, palyuv, timex, npx, x, y, s, bits, orig);
      y := y + 1;
    }
    ColumnDone(s, x);
  }

  /** The working copy after the last pixel of column x is the one before the top of column x + 1. */
  lemma ColumnDone(s: Setting, x: int)
    requires ValidSetting(s) && 0 <= x < W
    ensures Work(s, x + 1, 0) == Work(s, x, H)
  {
    assert Work(s, x + 1, 0) == Diffused(s, x, H - 1, 3);
  }

  /** `memcpy(nyuv, post, sizeof(post))`: a fresh working copy of `post`. */
  method Copy(post: array2<Yuv>, ghost P: Image) returns (nyuv: array2<Yuv>)
    requires Holds(post, P)
    ensures fresh(nyuv) && Holds(nyuv, P)
  {
    nyuv := new Yuv[W, H]((p, q) requires 0 <= p < W && 0 <= q < H reads post => post[p, q]);
  }

  /**
   * `dither` (classic, Timex and black-and-white modes): `npx` receives, for
   * every pixel, the decision the diffusion order implies; `post` and `pal`
   * are only read.
   */
  method Dither(post: array2<Yuv>, pal: array3<byte>, palyuv: Palette, mode: RenderMode, npx: array2<bool>)
    requires post.Length0 == W && post.Length1 == H
    requires npx.Length0 == W && npx.Length1 == H
    requires pal.Length0 == 32 && pal.Length1 == H && pal.Length2 == 2
    requires !mode.ulaPlus
    requires forall tx, ty :: 0 <= tx < 32 && 0 <= ty < Attrs.TileRows(mode.timex) ==> pal[tx, ty, 0] < 128
    modifies npx
    ensures ValidSetting(old(SettingOf(post, pal, palyuv, mode.timex)))
    ensures forall x, y :: 0 <= x < W && 0 <= y < H ==> npx[x, y] == DitherBit(old(SettingOf(post, pal, palyuv, mode.timex)), x, y)
  {
    ghost var s := SettingOf(post, pal, palyuv, mode.timex);
    assert Describes(s, post, pal, palyuv, mode.timex);
    ghost var bits := Decisions(s);
    var nyuv := Copy(post, s.post);
    assert Work(s, 0, 0) == s.post;
    DitherColumns(nyuv, post, pal, palyuv, mode.timex, npx, s, bits);
  }

  /** The `x` loop over a working copy that starts as `post`. */
  method DitherColumns(nyuv: array2<Yuv>, post: array2<Yuv>, pal: array3<byte>, palyuv: Palette, timex: bool,
                       npx: array2<bool>, ghost s: Setting, ghost bits: seq<seq<bool>>)
    requires npx.Length0 == W && npx.Length1 == H && nyuv != post
    requires Describes(s, post, pal, palyuv, timex) && AreDecisions(s, bits)
    requires Holds(nyuv, Work(s, 0, 0))
    modifies nyuv, npx
    ensures forall p, q :: 0 <= p < W && 0 <= q < H ==> npx[p, q] == bits[p][q]
  {
    var x := 0;
    while x < W
      invariant 0 <= x <= W
      invariant Holds(nyuv, Work(s, x, 0))
      invariant forall p, q :: 0 <= p < x && 0 <= q < H ==> npx[p, q] == bits[p][q]
    {
      DitherColumn(nyuv, post, pal, palyuv, timex, npx, x, s, bits);
      assert forall q :: 0 <= q < H ==> npx[x, q] == bits[x][q];
      x := x + 1;
    }
  }
}
