/** Decoded raster images as immutable pixel grids, and the four operations the
    skin renderer asks of its image libraries: rectangular extraction, "over"
    compositing at an offset, nearest-neighbour upscaling by an integer factor, and
    drawing a sequence of layers onto a canvas. */
module Images {
  import opened Results

  /** One 8-bit colour or alpha channel. */
  newtype Channel = c: int | 0 <= c < 256

  /** A straight (not premultiplied) RGBA pixel. */
  datatype Pixel = Rgba(r: Channel, g: Channel, b: Channel, a: Channel)

  /** The colour of a freshly created canvas: transparent black. */
  const Transparent := Rgba(0, 0, 0, 0)

  const Opaque: Channel := 255

  /** An axis-aligned rectangle: left, top, width, height. */
  datatype Rect = Rect(x: nat, y: nat, w: nat, h: nat)

  predicate Contains(r: Rect, px: nat, py: nat) {
    r.x <= px < r.x + r.w && r.y <= py < r.y + r.h
  }

  /** The rectangle lies inside a width x height image. */
  predicate Within(r: Rect, width: nat, height: nat) {
    r.x + r.w <= width && r.y + r.h <= height
  }

  /** The two rectangles share no pixel. */
  predicate Disjoint(a: Rect, b: Rect) {
    a.x + a.w <= b.x || b.x + b.w <= a.x || a.y + a.h <= b.y || b.y + b.h <= a.y
  }

  /** A grid stored row by row: rows[y][x] is the pixel in column x of row y. */
  datatype Raster = Raster(width: nat, height: nat, rows: seq<seq<Pixel>>)

  predicate WellFormed(img: Raster) {
    && |img.rows| == img.height
    && forall y | 0 <= y < |img.rows| :: |img.rows[y]| == img.width
  }

  type Image = img: Raster | WellFormed(img) witness Raster(0, 0, [])

  function At(img: Image, x: nat, y: nat): Pixel
    requires x < img.width && y < img.height
  {
    img.rows[y][x]
  }

  function Bounds(img: Image): Rect {
    Rect(0, 0, img.width, img.height)
  }

  /** Two images of the same size that agree on every pixel are the same image. */
  lemma Ext(a: Image, b: Image)
    requires a.width == b.width && a.height == b.height
    requires forall x: nat, y: nat | x < a.width && y < a.height :: At(a, x, y) == At(b, x, y)
    ensures a == b
  {
    forall y | 0 <= y < a.height
      ensures a.rows[y] == b.rows[y]
    {
      forall x | 0 <= x < a.width
        ensures a.rows[y][x] == b.rows[y][x]
      {
        assert At(a, x, y) == At(b, x, y);
      }
    }
  }

  /** A width x height canvas filled with one colour. */
  function Fill(width: nat, height: nat, colour: Pixel): (img: Image)
    ensures img.width == width && img.height == height
    ensures forall x: nat, y: nat | x < width && y < height :: At(img, x, y) == colour
  {
    Raster(width, height, seq(height, _ => seq(width, _ => colour)))
  }

  /** Every pixel of the rectangle has the given alpha. */
  ghost predicate AlphaIs(img: Image, r: Rect, alpha: Channel)
    requires Within(r, img.width, img.height)
  {
    forall x: nat, y: nat | Contains(r, x, y) :: At(img, x, y).a == alpha
  }

  // ---------------------------------------------------------------------------
  // Extraction (sharp's extract)
  // ---------------------------------------------------------------------------

  datatype ImageError = BadExtractArea

  /** Cuts the rectangle out of the image. A rectangle that is empty or does not
      lie entirely inside the image is an error: no partial image is produced. */
  function Extract(img: Image, area: Rect): (r: Result<Image, ImageError>)
    ensures r.Success? <==> area.w > 0 && area.h > 0 && Within(area, img.width, img.height)
    ensures r.Success? ==> r.value.width == area.w && r.value.height == area.h
    ensures r.Success? ==>
      forall i: nat, j: nat | i < area.w && j < area.h :: At(r.value, i, j) == At(img, area.x + i, area.y + j)
  {
    if area.w > 0 && area.h > 0 && Within(area, img.width, img.height) then
      Success(Cut(img, area))
    else
      Failure(BadExtractArea)
  }

  /** The rectangle's pixels, for a rectangle known to lie inside the image. */
  function Cut(img: Image, area: Rect): (part: Image)
    requires Within(area, img.width, img.height)
    ensures part.width == area.w && part.height == area.h
  {
    var rows := seq(area.h, j requires 0 <= j < area.h =>
      seq(area.w, i requires 0 <= i < area.w => At(img, area.x + i, area.y + j)));
    assert forall j | 0 <= j < area.h :: |rows[j]| == area.w;
    Raster(area.w, area.h, rows)
  }

  /** Extracting the whole image gives the image back. */
  lemma ExtractWhole(img: Image)
    requires img.width > 0 && img.height > 0
    ensures Extract(img, Bounds(img)) == Success(img)
  {
    Ext(Extract(img, Bounds(img)).value, img);
  }

  /** Extraction composes: a rectangle cut out of a cut-out is the shifted
      rectangle cut out of the original. */
  lemma ExtractTwice(img: Image, outer: Rect, inner: Rect)
    requires Extract(img, outer).Success?
    requires inner.w > 0 && inner.h > 0 && Within(inner, outer.w, outer.h)
    ensures Extract(Extract(img, outer).value, inner)
         == Extract(img, Rect(outer.x + inner.x, outer.y + inner.y, inner.w, inner.h))
  {
    var part := Extract(img, outer).value;
    var direct := Extract(img, Rect(outer.x + inner.x, outer.y + inner.y, inner.w, inner.h));
    if Extract(part, inner).Success? {
      Ext(Extract(part, inner).value, direct.value);
    }
  }

  // ---------------------------------------------------------------------------
  // Alpha compositing (sharp's composite, canvas drawImage)
  // ---------------------------------------------------------------------------

  /** How a partially transparent top pixel blends with the pixel under it
      (arguments: under, top). The libraries compute it in floating point with
      their own rounding; the model leaves it as a parameter. */
  type Mix = (Pixel, Pixel) -> Pixel

  /** The "over" operator: a fully transparent top pixel leaves the base pixel,
      a fully opaque one replaces it, anything between is blended. */
  function OverPixel(mix: Mix, under: Pixel, top: Pixel): Pixel {
    if top.a == 0 then under
    else if top.a == Opaque then top
    else mix(under, top)
  }

  /** The pixel at (x, y) of base once layer is laid over base with its top-left
      corner at (dx, dy). */
  function LayerPixel(mix: Mix, base: Image, layer: Image, dx: nat, dy: nat, x: nat, y: nat): Pixel
    requires x < base.width && y < base.height
  {
    if Contains(Rect(dx, dy, layer.width, layer.height), x, y)
    then OverPixel(mix, At(base, x, y), At(layer, x - dx, y - dy))
    else At(base, x, y)
  }

  /** Lays layer over base with its top-left corner at (dx, dy); the parts of the
      layer that fall outside base are clipped away. */
  function Composite(mix: Mix, base: Image, layer: Image, dx: nat, dy: nat): (r: Image)
    ensures r.width == base.width && r.height == base.height
    ensures forall x: nat, y: nat | x < r.width && y < r.height ::
      At(r, x, y) == LayerPixel(mix, base, layer, dx, dy, x, y)
  {
    Raster(base.width, base.height,
      seq(base.height, y requires 0 <= y < base.height =>
        seq(base.width, x requires 0 <= x < base.width => LayerPixel(mix, base, layer, dx, dy, x, y))))
  }

  /** Compositing a fully transparent layer leaves the base unchanged. */
  lemma CompositeClear(mix: Mix, base: Image, layer: Image, dx: nat, dy: nat)
    requires AlphaIs(layer, Bounds(layer), 0)
    ensures Composite(mix, base, layer, dx, dy) == base
  {
    var r := Composite(mix, base, layer, dx, dy);
    forall x: nat, y: nat | x < base.width && y < base.height
      ensures At(r, x, y) == At(base, x, y)
    {
      if Contains(Rect(dx, dy, layer.width, layer.height), x, y) {
        assert Contains(Bounds(layer), x - dx, y - dy);
      }
    }
    Ext(r, base);
  }

  /** Where a fully opaque layer lands, the result shows the layer and nothing of
      the base; elsewhere the base is unchanged. */
  lemma CompositeOpaque(mix: Mix, base: Image, layer: Image, dx: nat, dy: nat)
    requires AlphaIs(layer, Bounds(layer), Opaque)
    ensures forall x: nat, y: nat | x < base.width && y < base.height ::
      At(Composite(mix, base, layer, dx, dy), x, y)
        == if Contains(Rect(dx, dy, layer.width, layer.height), x, y)
           then At(layer, x - dx, y - dy) else At(base, x, y)
  {
    forall x: nat, y: nat | x < base.width && y < base.height &&
                            Contains(Rect(dx, dy, layer.width, layer.height), x, y)
      ensures At(layer, x - dx, y - dy).a == Opaque
    {
      assert Contains(Bounds(layer), x - dx, y - dy);
    }
  }

  // ---------------------------------------------------------------------------
  // Nearest-neighbour upscaling (sharp's resize with the nearest kernel)
  // ---------------------------------------------------------------------------

  lemma DivBelow(i: nat, k: nat, n: nat)
    requires k > 0 && i < n * k
    ensures i / k < n
  {
  }

  /** The pixel of img that lands at (x, y) once img is upscaled k times. */
  function Sample(img: Image, k: nat, x: nat, y: nat): Pixel
    requires k > 0 && x < img.width * k && y < img.height * k
  {
    DivBelow(x, k, img.width);
    DivBelow(y, k, img.height);
    At(img, x / k, y / k)
  }

  /** Scales the image up k times in both directions by replicating each source
      pixel into a k x k block; no pixel is interpolated. */
  function Upscale(img: Image, k: nat): (r: Image)
    requires k > 0
    ensures r.width == img.width * k && r.height == img.height * k
    ensures forall x: nat, y: nat | x < r.width && y < r.height :: At(r, x, y) == Sample(img, k, x, y)
  {
    Raster(img.width * k, img.height * k,
      seq(img.height * k, y requires 0 <= y < img.height * k =>
        seq(img.width * k, x requires 0 <= x < img.width * k => Sample(img, k, x, y))))
  }

  /** Keeps every k-th pixel in each direction, starting at the top-left corner. */
  function Decimate(img: Image, k: nat): (r: Image)
    requires k > 0
    ensures r.width == img.width / k && r.height == img.height / k
  {
    Raster(img.width / k, img.height / k,
      seq(img.height / k, y requires 0 <= y < img.height / k =>
        seq(img.width / k, x requires 0 <= x < img.width / k => DecimatePixel(img, k, x, y))))
  }

  function DecimatePixel(img: Image, k: nat, x: nat, y: nat): Pixel
    requires k > 0 && x < img.width / k && y < img.height / k
  {
    MulBelow(x, k, img.width);
    MulBelow(y, k, img.height);
    At(img, x * k, y * k)
  }

  lemma MulBelow(i: nat, k: nat, n: nat)
    requires k > 0 && i < n / k
    ensures i * k < n
  {
    assert (i + 1) * k <= (n / k) * k;
  }

  lemma MulDiv(i: nat, k: nat)
    requires k > 0
    ensures (i * k) / k == i
  {
    DivUnique(i * k, k, i, 0);
  }

  /** Nearest-neighbour upscaling loses nothing: keeping one pixel of each k x k
      block recovers the source exactly. */
  lemma DecimateUpscale(img: Image, k: nat)
    requires k > 0
    ensures Decimate(Upscale(img, k), k) == img
  {
    var up := Upscale(img, k);
    var back := Decimate(up, k);
    MulDiv(img.width, k);
    MulDiv(img.height, k);
    forall x: nat, y: nat | x < img.width && y < img.height
      ensures At(back, x, y) == At(img, x, y)
    {
      MulDiv(x, k);
      MulDiv(y, k);
      assert At(back, x, y) == At(up, x * k, y * k);
    }
    Ext(back, img);
  }

  lemma DivUnique(n: nat, d: nat, q: nat, r: nat)
    requires d > 0 && r < d && n == q * d + r
    ensures n / d == q
  {
    var q', r' := n / d, n % d;
    assert q' * d + r' == q * d + r;
    if q' > q {
      MulMono(q + 1, q', d);
    } else if q' < q {
      MulMono(q' + 1, q, d);
    }
  }

  lemma MulMono(a: nat, b: nat, d: nat)
    requires a <= b
    ensures a * d <= b * d
    ensures a * d + d == (a + 1) * d
  {
    assert b * d == a * d + (b - a) * d;
  }

  /** Upscaling a single-colour image gives a single-colour image: nearest-neighbour
      sampling blends nothing. */
  lemma UpscaleUniform(img: Image, k: nat, colour: Pixel)
    requires k > 0
    requires forall x: nat, y: nat | x < img.width && y < img.height :: At(img, x, y) == colour
    ensures forall x: nat, y: nat | x < img.width * k && y < img.height * k :: At(Upscale(img, k), x, y) == colour
  {
  }

  // ---------------------------------------------------------------------------
  // Drawing several layers onto a canvas (a sequence of drawImage calls)
  // ---------------------------------------------------------------------------

  /** One drawImage call: the layer drawn 1:1 with its top-left corner at (dx, dy). */
  datatype Placement = Placement(layer: Image, dx: nat, dy: nat)

  function Footprint(p: Placement): Rect {
    Rect(p.dx, p.dy, p.layer.width, p.layer.height)
  }

  /** The layer's pixel that lands on canvas pixel (x, y). */
  function Pick(p: Placement, x: nat, y: nat): Pixel
    requires Contains(Footprint(p), x, y)
  {
    At(p.layer, x - p.dx, y - p.dy)
  }

  /** No two placements cover a common pixel. */
  predicate PairwiseDisjoint(ps: seq<Placement>) {
    forall i, j | 0 <= i < j < |ps| :: Disjoint(Footprint(ps[i]), Footprint(ps[j]))
  }

  /** Draws the placements onto the canvas in order, each one "over" what is there. */
  function Assemble(mix: Mix, canvas: Image, ps: seq<Placement>): (r: Image)
    ensures r.width == canvas.width && r.height == canvas.height
    decreases |ps|
  {
    if ps == [] then canvas
    else Assemble(mix, Composite(mix, canvas, ps[0].layer, ps[0].dx, ps[0].dy), ps[1..])
  }

  /** With pairwise disjoint placements, each canvas pixel is decided by the one
      placement covering it, laid over the original canvas pixel; a pixel no
      placement covers keeps its original colour. */
  lemma {:induction false} AssemblePixel(mix: Mix, canvas: Image, ps: seq<Placement>, x: nat, y: nat)
    requires PairwiseDisjoint(ps)
    requires x < canvas.width && y < canvas.height
    ensures forall k | 0 <= k < |ps| && Contains(Footprint(ps[k]), x, y) ::
      At(Assemble(mix, canvas, ps), x, y) == OverPixel(mix, At(canvas, x, y), Pick(ps[k], x, y))
    ensures (forall k | 0 <= k < |ps| :: !Contains(Footprint(ps[k]), x, y)) ==>
      At(Assemble(mix, canvas, ps), x, y) == At(canvas, x, y)
    decreases |ps|
  {
    if ps != [] {
      var first := Composite(mix, canvas, ps[0].layer, ps[0].dx, ps[0].dy);
      var rest := ps[1..];
      assert PairwiseDisjoint(rest) by {
        forall i, j | 0 <= i < j < |rest|
          ensures Disjoint(Footprint(rest[i]), Footprint(rest[j]))
        {
          assert rest[i] == ps[i + 1] && rest[j] == ps[j + 1];
        }
      }
      AssemblePixel(mix, first, rest, x, y);
      assert Assemble(mix, canvas, ps) == Assemble(mix, first, rest);
      forall k | 0 <= k < |ps| && Contains(Footprint(ps[k]), x, y)
        ensures At(Assemble(mix, canvas, ps), x, y) == OverPixel(mix, At(canvas, x, y), Pick(ps[k], x, y))
      {
        if k == 0 {
          forall m | 0 <= m < |rest|
            ensures !Contains(Footprint(rest[m]), x, y)
          {
            assert rest[m] == ps[m + 1];
            assert Disjoint(Footprint(ps[0]), Footprint(ps[m + 1]));
          }
        } else {
          assert rest[k - 1] == ps[k];
          assert Disjoint(Footprint(ps[0]), Footprint(ps[k]));
        }
      }
      if forall k | 0 <= k < |ps| :: !Contains(Footprint(ps[k]), x, y) {
        forall m | 0 <= m < |rest|
          ensures !Contains(Footprint(rest[m]), x, y)
        {
          assert rest[m] == ps[m + 1];
        }
      }
    }
  }

  /** Disjoint draws commute: any reordering of the same placements yields the
      same canvas. */
  lemma AssembleOrderFree(mix: Mix, canvas: Image, ps: seq<Placement>, qs: seq<Placement>)
    requires PairwiseDisjoint(ps) && PairwiseDisjoint(qs)
    requires multiset(ps) == multiset(qs)
    ensures Assemble(mix, canvas, ps) == Assemble(mix, canvas, qs)
  {
    var a := Assemble(mix, canvas, ps);
    var b := Assemble(mix, canvas, qs);
    forall x: nat, y: nat | x < canvas.width && y < canvas.height
      ensures At(a, x, y) == At(b, x, y)
    {
      OrderFreePixel(mix, canvas, ps, qs, x, y);
    }
    Ext(a, b);
  }

  lemma OrderFreePixel(mix: Mix, canvas: Image, ps: seq<Placement>, qs: seq<Placement>, x: nat, y: nat)
    requires PairwiseDisjoint(ps) && PairwiseDisjoint(qs)
    requires multiset(ps) == multiset(qs)
    requires x < canvas.width && y < canvas.height
    ensures At(Assemble(mix, canvas, ps), x, y) == At(Assemble(mix, canvas, qs), x, y)
  {
    AssemblePixel(mix, canvas, ps, x, y);
    AssemblePixel(mix, canvas, qs, x, y);
    if k :| 0 <= k < |ps| && Contains(Footprint(ps[k]), x, y) {
      assert ps[k] in multiset(qs);
      var k' :| 0 <= k' < |qs| && qs[k'] == ps[k];
      assert Contains(Footprint(qs[k']), x, y);
    } else {
      forall k' | 0 <= k' < |qs|
        ensures !Contains(Footprint(qs[k']), x, y)
      {
        assert qs[k'] in multiset(ps);
        var k :| 0 <= k < |ps| && ps[k] == qs[k'];
      }
    }
  }
}
