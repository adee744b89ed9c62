/**
 * The pinhole camera: the size of the image in pixels, the half-extent of the
 * canvas it looks through (at distance 1, facing -z), the size of one pixel on
 * that canvas, and the render loop that fills an image pixel by pixel.
 *
 * `tan(fov / 2)` is supplied as `halfView`, `Matrix::new_identity()` as
 * `identity`; the inverse view transformation applied to a point is
 * `unproject`, vector normalisation is `normalize`, and the shading of the
 * rendered world is `colorAt`.
 */
module Cameras {
  import opened Options
  import opened Colors
  import opened Tuples
  import opened Matrices
  import opened Canvases
  import opened Rays
  import Netpbm

  datatype Camera = Camera(
    hsize: nat,
    vsize: nat,
    halfWidth: real,
    halfHeight: real,
    pixelSize: real,
    fieldOfView: real,
    transform: Matrix)

  /** `Camera::new`: sizes and field of view kept as given, the identity transform. */
  function NewCamera(hsize: nat, vsize: nat, fieldOfView: real, halfView: real, identity: Matrix): (c: Camera)
    requires 0 < hsize && 0 < vsize
    ensures c.hsize == hsize && c.vsize == vsize
    ensures c.fieldOfView == fieldOfView && c.transform == identity
  {
    var aspect := hsize as real / vsize as real;
    var halfWidth := if aspect >= 1.0 then halfView else halfView * aspect;
    var halfHeight := if aspect >= 1.0 then halfView / aspect else halfView;
    Camera(hsize, vsize, halfWidth, halfHeight, (halfWidth * 2.0) / hsize as real, fieldOfView, identity)
  }

  /** The wider of the two image sides is the one with aspect ratio at least 1. */
  lemma AspectAtLeastOne(h: real, v: real)
    requires 0.0 < h && 0.0 < v
    ensures h / v >= 1.0 <==> h >= v
  {
    assert (h / v) * v == h;
    if h / v >= 1.0 {
      assert (h / v) * v >= 1.0 * v;
    }
  }

  /**
   * The canvas has the proportions of the image, and its longer side spans
   * `halfView` on either side of the centre.
   */
  lemma NewCameraShape(hsize: nat, vsize: nat, fieldOfView: real, halfView: real, identity: Matrix)
    requires 0 < hsize && 0 < vsize
    ensures var c := NewCamera(hsize, vsize, fieldOfView, halfView, identity);
            c.halfWidth * vsize as real == c.halfHeight * hsize as real
    ensures var c := NewCamera(hsize, vsize, fieldOfView, halfView, identity);
            (hsize >= vsize ==> c.halfWidth == halfView) && (hsize <= vsize ==> c.halfHeight == halfView)
  {
    var h, v := hsize as real, vsize as real;
    var aspect := h / v;
    AspectAtLeastOne(h, v);
    assert aspect * v == h;
    if aspect >= 1.0 {
      assert (halfView / aspect) * aspect == halfView;
      assert (halfView / aspect) * h == (halfView / aspect) * aspect * v;
    } else {
      assert halfView * aspect * v == halfView * h;
    }
  }

  /**
   * One pixel has the same size along both axes: `hsize` pixels span the
   * canvas width and `vsize` pixels its height, and the size is `halfView`
   * over half the longer side.
   */
  lemma PixelSizeFromLongerSide(hsize: nat, vsize: nat, fieldOfView: real, halfView: real, identity: Matrix)
    requires 0 < hsize && 0 < vsize
    ensures var c := NewCamera(hsize, vsize, fieldOfView, halfView, identity);
            c.pixelSize * hsize as real == 2.0 * c.halfWidth && c.pixelSize * vsize as real == 2.0 * c.halfHeight
    ensures var c := NewCamera(hsize, vsize, fieldOfView, halfView, identity);
            c.pixelSize == 2.0 * halfView / (if hsize >= vsize then hsize else vsize) as real
  {
    var c := NewCamera(hsize, vsize, fieldOfView, halfView, identity);
    var h, v := hsize as real, vsize as real;
    NewCameraShape(hsize, vsize, fieldOfView, halfView, identity);
    assert c.pixelSize * h == 2.0 * c.halfWidth;
    assert c.pixelSize * v * h == 2.0 * c.halfHeight * h;
    assert c.pixelSize * v == 2.0 * c.halfHeight by {
      ScaleCancel(c.pixelSize * v, 2.0 * c.halfHeight, h);
    }
    if hsize < vsize {
      assert c.halfHeight == halfView;
      ScaleCancel(c.pixelSize, 2.0 * halfView / v, v);
    }
  }

  lemma ScaleCancel(a: real, b: real, k: real)
    requires 0.0 < k && a * k == b * k
    ensures a == b
  {
    assert (a - b) * k == 0.0;
  }

  /**
   * The Rust implementation's pixel-size tests: 200 x 125 and 125 x 200 give the same
   * pixel size, one hundredth of `halfView` (0.01 for a right-angle field of
   * view, whose `halfView` is 1).
   */
  lemma PixelSizeExamples(fieldOfView: real, halfView: real, identity: Matrix)
    ensures NewCamera(200, 125, fieldOfView, halfView, identity).pixelSize == halfView / 100.0
    ensures NewCamera(125, 200, fieldOfView, halfView, identity).pixelSize == halfView / 100.0
  {
    PixelSizeFromLongerSide(200, 125, fieldOfView, halfView, identity);
    PixelSizeFromLongerSide(125, 200, fieldOfView, halfView, identity);
  }

  /**
   * Where the centre of pixel (x, y) lies on the canvas, before the view
   * transformation: `x + 0.5` pixels left of the canvas's left edge seen from
   * behind (+x is to the left), `y + 0.5` pixels down from its top edge, at z = -1.
   */
  function CanvasPoint(c: Camera, x: nat, y: nat): (p: Tuple)
    ensures IsPoint(p) && p.z == -1.0
    ensures c.halfWidth - p.x == (x as real + 0.5) * c.pixelSize
    ensures c.halfHeight - p.y == (y as real + 0.5) * c.pixelSize
  {
    Point(c.halfWidth - (x as real + 0.5) * c.pixelSize, c.halfHeight - (y as real + 0.5) * c.pixelSize, -1.0)
  }

  /**
   * For a camera built by `Camera::new` with a positive `halfView`, every pixel
   * centre lies strictly inside the canvas.
   */
  lemma CanvasPointInside(hsize: nat, vsize: nat, fieldOfView: real, halfView: real, identity: Matrix, x: nat, y: nat)
    requires 0 < hsize && 0 < vsize && 0.0 < halfView
    requires x < hsize && y < vsize
    ensures var c := NewCamera(hsize, vsize, fieldOfView, halfView, identity);
            var p := CanvasPoint(c, x, y);
            -c.halfWidth < p.x < c.halfWidth && -c.halfHeight < p.y < c.halfHeight
  {
    var c := NewCamera(hsize, vsize, fieldOfView, halfView, identity);
    PixelSizeFromLongerSide(hsize, vsize, fieldOfView, halfView, identity);
    PixelSizePositive(hsize, vsize, fieldOfView, halfView, identity);
    WithinSpan(x, hsize, c.pixelSize, c.halfWidth);
    WithinSpan(y, vsize, c.pixelSize, c.halfHeight);
  }

  /** Pixels mirrored about the centre column (row) map to points mirrored about the canvas centre. */
  lemma CanvasPointMirror(hsize: nat, vsize: nat, fieldOfView: real, halfView: real, identity: Matrix, x: nat, y: nat)
    requires 0 < hsize && 0 < vsize
    requires x < hsize && y < vsize
    ensures var c := NewCamera(hsize, vsize, fieldOfView, halfView, identity);
            CanvasPoint(c, hsize - 1 - x, y).x == -CanvasPoint(c, x, y).x
            && CanvasPoint(c, x, vsize - 1 - y).y == -CanvasPoint(c, x, y).y
  {
    var c := NewCamera(hsize, vsize, fieldOfView, halfView, identity);
    PixelSizeFromLongerSide(hsize, vsize, fieldOfView, halfView, identity);
    Mirrored(x, hsize, c.pixelSize, c.halfWidth);
    Mirrored(y, vsize, c.pixelSize, c.halfHeight);
  }

  lemma PixelSizePositive(hsize: nat, vsize: nat, fieldOfView: real, halfView: real, identity: Matrix)
    requires 0 < hsize && 0 < vsize && 0.0 < halfView
    ensures 0.0 < NewCamera(hsize, vsize, fieldOfView, halfView, identity).pixelSize
  {
    PixelSizeFromLongerSide(hsize, vsize, fieldOfView, halfView, identity);
  }

  /** Pixel `i` of `n`, each `ps` wide and together spanning `2 * half`: its centre is strictly inside the span. */
  lemma WithinSpan(i: nat, n: nat, ps: real, half: real)
    requires i < n && 0.0 < ps && ps * n as real == 2.0 * half
    ensures -half < half - (i as real + 0.5) * ps < half
  {
    var k := i as real + 0.5;
    assert 0.0 < k * ps;
    assert k < n as real;
    assert k * ps < n as real * ps;
  }

  /** Pixels `i` and `n - 1 - i` of such a span are equally far from its centre, on opposite sides. */
  lemma Mirrored(i: nat, n: nat, ps: real, half: real)
    requires i < n && ps * n as real == 2.0 * half
    ensures half - ((n - 1 - i) as real + 0.5) * ps == -(half - (i as real + 0.5) * ps)
  {
    assert ((n - 1 - i) as real + 0.5) + (i as real + 0.5) == n as real;
  }

  /** The middle pixel of an odd-sized image looks through the centre of the canvas. */
  lemma CentrePixel(hsize: nat, vsize: nat, fieldOfView: real, halfView: real, identity: Matrix)
    requires hsize % 2 == 1 && vsize % 2 == 1
    ensures var c := NewCamera(hsize, vsize, fieldOfView, halfView, identity);
            CanvasPoint(c, hsize / 2, vsize / 2) == Tuple(0.0, 0.0, -1.0, 1.0)
  {
    var c := NewCamera(hsize, vsize, fieldOfView, halfView, identity);
    PixelSizeFromLongerSide(hsize, vsize, fieldOfView, halfView, identity);
    Middle(hsize, c.pixelSize, c.halfWidth);
    Middle(vsize, c.pixelSize, c.halfHeight);
  }

  lemma Middle(n: nat, ps: real, half: real)
    requires n % 2 == 1 && ps * n as real == 2.0 * half
    ensures half - ((n / 2) as real + 0.5) * ps == 0.0
  {
    assert (n / 2) as real * 2.0 + 1.0 == n as real;
    assert ((n / 2) as real + 0.5) * 2.0 == n as real;
  }

  /**
   * `ray_for_pixel`: the ray from the camera's position through the centre of
   * pixel (x, y); both points are taken back through the camera transform.
   */
  function RayForPixel(c: Camera, x: nat, y: nat, unproject: (Matrix, Tuple) -> Tuple, normalize: Tuple -> Tuple): (r: Ray)
    ensures r.origin == unproject(c.transform, Origin)
  {
    var pixel := unproject(c.transform, CanvasPoint(c, x, y));
    var origin := unproject(c.transform, Origin);
    Ray(origin, normalize(Tuples.Sub(pixel, origin)))
  }

  /**
   * With the identity as view transformation, the ray starts at the origin
   * and points at the pixel's canvas point.
   */
  lemma RayForPixelUntransformed(c: Camera, x: nat, y: nat, unproject: (Matrix, Tuple) -> Tuple, normalize: Tuple -> Tuple)
    requires forall p :: unproject(c.transform, p) == p
    ensures var r := RayForPixel(c, x, y, unproject, normalize);
            r.origin == Origin && r.direction == normalize(Tuples.Sub(CanvasPoint(c, x, y), Origin))
            && Tuples.Sub(CanvasPoint(c, x, y), Origin).z == -1.0 && IsVector(Tuples.Sub(CanvasPoint(c, x, y), Origin))
  {
    assert unproject(c.transform, Origin) == Origin;
    assert unproject(c.transform, CanvasPoint(c, x, y)) == CanvasPoint(c, x, y);
  }

  /**
   * The Rust implementation's centre-ray test: on a 201 x 101 image with the identity
   * transform, pixel (100, 50) gives the ray from the origin straight down -z.
   */
  lemma RayThroughCentre(fieldOfView: real, halfView: real, identity: Matrix, unproject: (Matrix, Tuple) -> Tuple, normalize: Tuple -> Tuple)
    requires forall p :: unproject(identity, p) == p
    requires normalize(Tuple(0.0, 0.0, -1.0, 0.0)) == Tuple(0.0, 0.0, -1.0, 0.0)
    ensures RayForPixel(NewCamera(201, 101, fieldOfView, halfView, identity), 100, 50, unproject, normalize)
         == Ray(Origin, Tuple(0.0, 0.0, -1.0, 0.0))
  {
    var c := NewCamera(201, 101, fieldOfView, halfView, identity);
    CentrePixel(201, 101, fieldOfView, halfView, identity);
    RayForPixelUntransformed(c, 100, 50, unproject, normalize);
    assert Tuples.Sub(CanvasPoint(c, 100, 50), Origin) == Tuple(0.0, 0.0, -1.0, 0.0);
  }

  /**
   * The colour `render` gives pixel (x, y) as written: the shaded colour of its
   * ray for every column but the last and every row but the last; black there.
   */
  function RenderedAsWritten(c: Camera, x: nat, y: nat, colorAt: Ray -> Color, unproject: (Matrix, Tuple) -> Tuple, normalize: Tuple -> Tuple): Color
  {
    if x + 1 < c.hsize && y + 1 < c.vsize then colorAt(RayForPixel(c, x, y, unproject, normalize)) else Black
  }

  /**
   * Writes the shaded colour of every pixel of row `y` in columns `0..upto`
   * into `image` and leaves every other pixel as it was.
   */
  method RenderRow(c: Camera, image: Canvas, y: nat, upto: nat, colorAt: Ray -> Color, unproject: (Matrix, Tuple) -> Tuple, normalize: Tuple -> Tuple)
    requires image.Valid() && image.width == c.hsize && image.height == c.vsize
    requires y < c.vsize && upto <= c.hsize
    modifies image
    ensures image.Valid() && image.width == c.hsize && image.height == c.vsize
    ensures forall i: nat :: i < upto ==> image.ReadPixel(i, y) == Some(colorAt(RayForPixel(c, i, y, unproject, normalize)))
    ensures forall i: nat, j: nat :: (j != y || upto <= i) ==> image.ReadPixel(i, j) == old(image.ReadPixel(i, j))
    ensures image.cursorX == old(image.cursorX) && image.cursorY == old(image.cursorY)
  {
    for x := 0 to upto
      invariant image.Valid() && image.width == c.hsize && image.height == c.vsize
      invariant image.cursorX == old(image.cursorX) && image.cursorY == old(image.cursorY)
      invariant forall i: nat :: i < x ==> image.ReadPixel(i, y) == Some(colorAt(RayForPixel(c, i, y, unproject, normalize)))
      invariant forall i: nat, j: nat :: (j != y || x <= i) ==> image.ReadPixel(i, j) == old(image.ReadPixel(i, j))
    {
      var ray := RayForPixel(c, x, y, unproject, normalize);
      image.WritePixel(x, y, colorAt(ray));
    }
  }

  /**
   * `render`: a fresh `hsize` x `vsize` image; the loops stop one short of the
   * last column and the last row, which stay black. Both sizes must be at
   * least 1, since `size - 1` underflows otherwise.
   */
  method Render(c: Camera, colorAt: Ray -> Color, unproject: (Matrix, Tuple) -> Tuple, normalize: Tuple -> Tuple) returns (image: Canvas)
    requires 1 <= c.hsize && 1 <= c.vsize
    ensures fresh(image) && image.Valid()
    ensures image.width == c.hsize && image.height == c.vsize
    ensures forall x: nat, y: nat :: x < c.hsize && y < c.vsize ==>
              image.ReadPixel(x, y) == Some(RenderedAsWritten(c, x, y, colorAt, unproject, normalize))
    ensures image.cursorX == 0 && image.cursorY == 0 && image.Remaining() == image.RowMajor()
  {
    image := new Canvas(c.hsize, c.vsize);
    for y := 0 to c.vsize - 1
      invariant image.Valid() && image.width == c.hsize && image.height == c.vsize
      invariant image.cursorX == 0 && image.cursorY == 0
      invariant forall i: nat, j: nat :: i < c.hsize && j < c.vsize ==>
                  image.ReadPixel(i, j) == Some(if j < y && i + 1 < c.hsize then colorAt(RayForPixel(c, i, j, unproject, normalize)) else Black)
    {
      RenderRow(c, image, y, c.hsize - 1, colorAt, unproject, normalize);
    }
    image.FromStart();
  }

  /** Rendering with the loops over the full ranges: every pixel gets the shaded colour of its ray. */
  method RenderAllPixels(c: Camera, colorAt: Ray -> Color, unproject: (Matrix, Tuple) -> Tuple, normalize: Tuple -> Tuple) returns (image: Canvas)
    ensures fresh(image) && image.Valid()
    ensures image.width == c.hsize && image.height == c.vsize
    ensures forall x: nat, y: nat :: x < c.hsize && y < c.vsize ==>
              image.ReadPixel(x, y) == Some(colorAt(RayForPixel(c, x, y, unproject, normalize)))
    ensures image.cursorX == 0 && image.cursorY == 0 && image.Remaining() == image.RowMajor()
  {
    image := new Canvas(c.hsize, c.vsize);
    for y := 0 to c.vsize
      invariant image.Valid() && image.width == c.hsize && image.height == c.vsize
      invariant image.cursorX == 0 && image.cursorY == 0
      invariant forall i: nat, j: nat :: i < c.hsize && j < y ==>
                  image.ReadPixel(i, j) == Some(colorAt(RayForPixel(c, i, j, unproject, normalize)))
    {
      RenderRow(c, image, y, c.hsize, colorAt, unproject, normalize);
    }
    image.FromStart();
  }

  /**
   * A 2 x 2 image of a world that is white wherever one looks: as written, the
   * corner pixel (1, 1) stays black; with the full loops it is white.
   */
  method RenderCornerExample(fieldOfView: real, identity: Matrix, unproject: (Matrix, Tuple) -> Tuple, normalize: Tuple -> Tuple)
    returns (asWritten: Option<Color>, corrected: Option<Color>)
    ensures asWritten == Some(Black) && corrected == Some(White)
  {
    var c := Camera(2, 2, 1.0, 1.0, 1.0, fieldOfView, identity);
    var white := (r: Ray) => White;
    var first := Render(c, white, unproject, normalize);
    asWritten := first.ReadPixel(1, 1);
    var second := RenderAllPixels(c, white, unproject, normalize);
    corrected := second.ReadPixel(1, 1);
  }

  /** The rendered image's pixels in row-major order: the order `add_canvas` reads them in. */
  function RenderedPixels(c: Camera, colorAt: Ray -> Color, unproject: (Matrix, Tuple) -> Tuple, normalize: Tuple -> Tuple): (ps: seq<Color>)
    requires 1 <= c.hsize
    ensures |ps| == c.hsize * c.vsize
  {
    seq(c.hsize * c.vsize, k requires 0 <= k => RenderedAsWritten(c, k % c.hsize, k / c.hsize, colorAt, unproject, normalize))
  }

  /** Entry `y * hsize + x` of the row-major list is the colour `render` gives pixel (x, y). */
  lemma RenderedPixelsAt(c: Camera, colorAt: Ray -> Color, unproject: (Matrix, Tuple) -> Tuple, normalize: Tuple -> Tuple, x: nat, y: nat)
    requires x < c.hsize && y < c.vsize
    ensures y * c.hsize + x < |RenderedPixels(c, colorAt, unproject, normalize)|
    ensures RenderedPixels(c, colorAt, unproject, normalize)[y * c.hsize + x] == RenderedAsWritten(c, x, y, colorAt, unproject, normalize)
  {
    PixelIndexInRange(x, y, c.hsize, c.vsize);
    RowAndColumn(x, y, c.hsize);
  }

  lemma PixelIndexInRange(x: nat, y: nat, w: nat, h: nat)
    requires x < w && y < h
    ensures y * w + x < w * h
  {
    Canvas.MulStep(y, h, w);
  }

  lemma RowAndColumn(x: nat, y: nat, w: nat)
    requires x < w
    ensures (y * w + x) % w == x && (y * w + x) / w == y
  {
    var n := y * w + x;
    var q, r := n / w, n % w;
    assert n == q * w + r && 0 <= r < w;
    if q < y {
      Canvas.MulStep(q, y, w);
      assert false;
    } else if y < q {
      Canvas.MulStep(y, q, w);
      assert false;
    }
  }

  /** Read row by row, the image `Render` returns is the list RenderedPixels. */
  lemma RenderedRowMajor(c: Camera, image: Canvas, colorAt: Ray -> Color, unproject: (Matrix, Tuple) -> Tuple, normalize: Tuple -> Tuple)
    requires 1 <= c.hsize && image.Valid() && image.width == c.hsize && image.height == c.vsize
    requires forall x: nat, y: nat :: x < c.hsize && y < c.vsize ==>
               image.ReadPixel(x, y) == Some(RenderedAsWritten(c, x, y, colorAt, unproject, normalize))
    ensures image.RowMajor() == RenderedPixels(c, colorAt, unproject, normalize)
  {
    var pixels := RenderedPixels(c, colorAt, unproject, normalize);
    image.CursorInRange();
    assert |image.RowMajor()| == c.vsize * c.hsize == |pixels|;
    forall k: nat | k < |pixels|
      ensures image.RowMajor()[k] == pixels[k]
    {
      RenderedEntry(c, image, colorAt, unproject, normalize, k);
    }
  }

  lemma RenderedEntry(c: Camera, image: Canvas, colorAt: Ray -> Color, unproject: (Matrix, Tuple) -> Tuple, normalize: Tuple -> Tuple, k: nat)
    requires 1 <= c.hsize && image.Valid() && image.width == c.hsize && image.height == c.vsize
    requires forall x: nat, y: nat :: x < c.hsize && y < c.vsize ==>
               image.ReadPixel(x, y) == Some(RenderedAsWritten(c, x, y, colorAt, unproject, normalize))
    requires k < c.hsize * c.vsize
    ensures k < |image.RowMajor()| && k < |RenderedPixels(c, colorAt, unproject, normalize)|
    ensures image.RowMajor()[k] == RenderedPixels(c, colorAt, unproject, normalize)[k]
  {
    var x, y := k % c.hsize, k / c.hsize;
    image.RowMajorIndex(k);
    assert image.ReadPixel(x, y) == Some(image.RowMajor()[k]);
  }

  /**
   * What the demo scenes do with a camera: `Ppm::new`, then
   * `add_canvas(camera.render(&world))`. The file holds the header and then
   * the rendered pixels, row by row, packed into lines of at most 70
   * characters that read back as those pixels' bytes.
   */
  method RenderToPpm(c: Camera, colorAt: Ray -> Color, unproject: (Matrix, Tuple) -> Tuple, normalize: Tuple -> Tuple, filename: string)
    returns (lines: seq<string>)
    requires 1 <= c.hsize && 1 <= c.vsize
    ensures lines == Netpbm.Header(c.hsize, c.vsize) + Netpbm.PackLines(Netpbm.PixelStrings(RenderedPixels(c, colorAt, unproject, normalize)))
    ensures forall i :: 3 <= i < |lines| ==> |lines[i]| <= Netpbm.MaxLineLen
    ensures Netpbm.DecodeBody(lines[3..]) == Some(Netpbm.ToBytes(RenderedPixels(c, colorAt, unproject, normalize)))
  {
    var image := Render(c, colorAt, unproject, normalize);
    RenderedRowMajor(c, image, colorAt, unproject, normalize);
    lines := WriteImage(image, filename, RenderedPixels(c, colorAt, unproject, normalize));
  }

  /** `Ppm::new(filename)` followed by `add_canvas(image)`, for an image whose iteration is still to come. */
  method WriteImage(image: Canvas, filename: string, ghost pixels: seq<Color>) returns (lines: seq<string>)
    requires image.Valid() && image.Remaining() == pixels
    modifies image
    ensures lines == Netpbm.Header(old(image.width), old(image.height)) + Netpbm.PackLines(Netpbm.PixelStrings(pixels))
    ensures forall i :: 3 <= i < |lines| ==> |lines[i]| <= Netpbm.MaxLineLen
    ensures Netpbm.DecodeBody(lines[3..]) == Some(Netpbm.ToBytes(pixels))
  {
    var file := new Netpbm.Ppm(filename);
    file.AddCanvas(image);
    lines := file.lines;
    assert lines == [] + Netpbm.Header(old(image.width), old(image.height)) + Netpbm.PackLines(Netpbm.PixelStrings(pixels));
  }
}
