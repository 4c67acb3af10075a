/**
 * The host's working frame: the 256x192 `post` image of YUV triples, the
 * render-mode flags, and `apply_tweak`, which refreshes the clipped update
 * rectangle of `post` from the remote framebuffer.
 */
module Frame {
  import opened Bytes
  import opened Colour

  /** Width and height of the Spectrum screen in pixels. */
  const W: nat := 256
  const H: nat := 192

  /** The `render` flags: RENDER_TIMEX (1), RENDER_ULAPLUS (2), RENDER_BW (4). */
  datatype RenderMode = RenderMode(timex: bool, ulaPlus: bool, bw: bool)

  /** Reading the flags out of `render` with the IS_RENDER_* masks. */
  function ModeOf(render: byte): (m: RenderMode)
    ensures m.timex <==> render % 2 == 1
    ensures m.ulaPlus <==> (render / 2) % 2 == 1
    ensures m.bw <==> (render / 4) % 2 == 1
    ensures render == 0 ==> m == RenderMode(false, false, false)
  {
    RenderMode(render % 2 == 1, (render / 2) % 2 == 1, (render / 4) % 2 == 1)
  }

  /** A W x H image indexed `[x][y]`, as the source's `post[256][192]`. */
  type Image = seq<seq<Yuv>>

  ghost predicate IsImage(m: Image)
  {
    |m| == W && forall x :: 0 <= x < W ==> |m[x]| == H
  }

  /**
   * One plane of `pal[32][192][2]`, indexed `[x][y]`: the attribute (or ULA+
   * ink entry) plane or the ULA+ paper-entry plane.
   */
  type Grid = seq<seq<byte>>

  ghost predicate IsGrid(g: Grid)
  {
    |g| == 32 && forall tx :: 0 <= tx < 32 ==> |g[tx]| == H
  }

  /** The contents of a two-dimensional array as a sequence of columns. */
  function Snap<T>(a: array2<T>): (s: seq<seq<T>>)
    reads a
    ensures |s| == a.Length0
    ensures forall x :: 0 <= x < a.Length0 ==> |s[x]| == a.Length1
    ensures forall x, y :: 0 <= x < a.Length0 && 0 <= y < a.Length1 ==> s[x][y] == a[x, y]
  {
    seq(a.Length0, x requires 0 <= x < a.Length0 reads a =>
      seq(a.Length1, y requires 0 <= y < a.Length1 reads a => a[x, y]))
  }

  /** The array holds the image. */
  ghost predicate Holds(a: array2<Yuv>, m: Image)
    reads a
  {
    a.Length0 == W && a.Length1 == H && IsImage(m) &&
    forall p, q {:trigger a[p, q]} :: 0 <= p < W && 0 <= q < H ==> a[p, q] == m[p][q]
  }

  /**
   * The end of one side of the update rectangle: `min(start + len, limit)`
   * computed on 32-bit unsigned integers, so a sum past 2^32 wraps around.
   */
  function ClipEnd(start: u32, len: u32, limit: nat): (e: nat)
    ensures e <= limit
    ensures start + len < 0x1_0000_0000 ==> e == Min(start + len, limit)
    ensures start + len >= 0x1_0000_0000 ==> e < start  // a wrapped sum leaves nothing to update
  {
    Min((start + len) % 0x1_0000_0000, limit)
  }

  /** The pixel value `a` returned by `get`, split into `(a >> 16) & 255`, `(a >> 8) & 255`, `a & 255`. */
  function Channels(a: u32): Rgb
  {
    Rgb((a / 0x1_0000) % 0x100, (a / 0x100) % 0x100, a % 0x100)
  }

  /** Whether pixel (x, y) lies in the clipped rectangle `apply_tweak` refreshes. */
  predicate InUpdate(xs: u32, ys: u32, w: u32, h: u32, x: int, y: int)
  {
    xs <= x < ClipEnd(xs, w, W) && ys <= y < ClipEnd(ys, h, H)
  }

  /**
   * `apply_tweak`.  `fb(x, y)` is the remote framebuffer pixel that `get`
   * reads, and `transform` is the per-pixel floating-point pipeline
   * (RGB to HSV, the value/saturation/hue tweaks, the black-and-white
   * override, HSV to RGB, RGB to YUV), which this model leaves abstract.
   * Only the clipped rectangle changes; every other pixel keeps its value.
   */
  method ApplyTweak(post: array2<Yuv>, fb: (u32, u32) -> u32, transform: Rgb -> Yuv,
                    xs: u32, ys: u32, w: u32, h: u32)
    requires post.Length0 == W && post.Length1 == H
    modifies post
    ensures forall x, y :: 0 <= x < W && 0 <= y < H ==>
              post[x, y] == if InUpdate(xs, ys, w, h, x, y) then transform(Channels(fb(x, y))) else old(post[x, y])
  {
    var xk := ClipEnd(xs, w, W);
    var yk := ClipEnd(ys, h, H);
    var x := xs;
    while x < xk
      invariant xs <= x && (x <= xk || x == xs)
      invariant forall p, q :: 0 <= p < W && 0 <= q < H ==>
                  post[p, q] == if xs <= p < x && ys <= q < yk then transform(Channels(fb(p, q))) else old(post[p, q])
    {
      var y := ys;
      while y < yk
        invariant ys <= y && (y <= yk || y == ys)
        invariant forall p, q :: 0 <= p < W && 0 <= q < H ==>
                    post[p, q] == if (xs <= p < x && ys <= q < yk) || (p == x && ys <= q < y)
                                  then transform(Channels(fb(p, q))) else old(post[p, q])
      {
        post[x, y] := transform(Channels(fb(x, y)));
        y := y + 1;
      }
      x := x + 1;
    }
  }
}
