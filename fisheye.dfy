/** One mapper region of a camera (FisheyeMapper): which output pixels it claims
    and the camera pixel each of them shows. The floating-point lens geometry is
    the `lens` field; everything after it (clamping, indexing, the scan of the
    canvas) is integer code and is modelled exactly. */
module Fisheye {
  import opened Pixels

  /** The lens geometry of a mapper: from output pixel (x, y) and the camera
      resolution to the rounded, not yet clamped, camera pixel; None when the
      projection rejects the pixel. It stands for the affine transform into
      rendering space, the variant's rendering_2_world (ground-plane or
      panoramic), world_2_camera_view and Math.round. */
  type Lens = (int, int, Dim) -> Option<Point>

  /** A mapper region: its bounds rectangle in canvas pixels, its optional mask
      (indexed mask[x][y]) and its lens. */
  datatype Mapper = Mapper(boundsX: int, boundsY: int, boundsWidth: int, boundsHeight: int,
                           mask: Option<seq<seq<bool>>>, lens: Lens)
  {
    /** The mask, if any, has the canvas's dimensions, as `new boolean[width][height]` gives it. */
    predicate ValidFor(out: Dim)
    {
      mask.Some? ==>
        |mask.value| == out.width && forall x :: 0 <= x < |mask.value| ==> |mask.value[x]| == out.height
    }
  }

  function Min(a: int, b: int): int { if a <= b then a else b }

  function Max(a: int, b: int): int { if a >= b then a else b }

  /** Math.max(Math.min(v, dim - 1), 0): the nearest coordinate inside a frame of
      `dim` pixels. */
  function Clamp(v: int, dim: int): (r: int)
    ensures dim >= 1 ==> 0 <= r < dim
    ensures dim >= 1 && 0 <= v < dim ==> r == v
    ensures dim >= 1 && v < 0 ==> r == 0
    ensures dim >= 1 && v >= dim ==> r == dim - 1
    ensures dim < 1 ==> r == 0
  {
    Max(Min(v, dim - 1), 0)
  }

  /** The camera pixel index of a lens result: both coordinates clamped into the
      frame, then cameraImageY * width + cameraImageX. */
  function CameraIndex(p: Point, cam: Dim): int
  {
    Clamp(p.y, cam.height) * cam.width + Clamp(p.x, cam.width)
  }

  /** A lens result is never dropped for lying outside the frame: its index always
      lies in the frame, decodes to the clamped coordinates, and an in-frame
      result keeps its own coordinates. */
  lemma CameraIndexInFrame(p: Point, cam: Dim)
    requires cam.width >= 1 && cam.height >= 1
    ensures 0 <= CameraIndex(p, cam) < Size(cam)
    ensures CameraIndex(p, cam) % cam.width == Clamp(p.x, cam.width)
    ensures CameraIndex(p, cam) / cam.width == Clamp(p.y, cam.height)
    ensures 0 <= p.x < cam.width && 0 <= p.y < cam.height ==> CameraIndex(p, cam) == p.y * cam.width + p.x
  {
    RowMajor(Clamp(p.x, cam.width), Clamp(p.y, cam.height), cam.width, cam.height);
  }

  /** The rejection test of output_image_2_rendering: the pixel lies inside the
      half-open bounds rectangle and, when there is a mask, the mask is set there. */
  predicate InRegion(m: Mapper, out: Dim, x: int, y: int)
    requires m.ValidFor(out) && 0 <= x < out.width && 0 <= y < out.height
  {
    !(x < m.boundsX || x >= m.boundsX + m.boundsWidth || y < m.boundsY || y >= m.boundsY + m.boundsHeight)
    && (m.mask.None? || m.mask.value[x][y])
  }

  /** The whole per-pixel pipeline for output pixel (x, y): the region test, the
      lens, then clamping and indexing. */
  function PixelCam(m: Mapper, out: Dim, cam: Dim, x: int, y: int): (r: Option<int>)
    requires m.ValidFor(out) && 0 <= x < out.width && 0 <= y < out.height
    ensures r.Some? <==> InRegion(m, out, x, y) && m.lens(x, y, cam).Some?
  {
    if !InRegion(m, out, x, y) then None
    else match m.lens(x, y, cam)
      case None => None
      case Some(p) => Some(CameraIndex(p, cam))
  }

  /** The pipeline's camera index is never negative, and lies in the camera frame
      whenever the frame has at least one pixel. */
  lemma PixelCamInFrame(m: Mapper, out: Dim, cam: Dim, x: int, y: int)
    requires m.ValidFor(out) && 0 <= x < out.width && 0 <= y < out.height
    ensures PixelCam(m, out, cam, x, y).Some? ==> 0 <= PixelCam(m, out, cam, x, y).value
    ensures PixelCam(m, out, cam, x, y).Some? && cam.width >= 1 && cam.height >= 1 ==>
              PixelCam(m, out, cam, x, y).value < Size(cam)
  {
    if PixelCam(m, out, cam, x, y).Some? {
      var p := m.lens(x, y, cam).value;
      MulNonNegative(Clamp(p.y, cam.height), cam.width);
      if cam.width >= 1 && cam.height >= 1 {
        CameraIndexInFrame(p, cam);
      }
    }
  }

  /** The pipeline for the output pixel with row-major index o. */
  function EmitAt(m: Mapper, out: Dim, cam: Dim, o: int): Option<int>
    requires m.ValidFor(out) && 0 <= o < Size(out)
  {
    PixelCoords(o, out.width, out.height);
    PixelCam(m, out, cam, o % out.width, o / out.width)
  }

  /** The table entries one pixel contributes. */
  function Entry(p: int, e: Option<int>): seq<Pair>
  {
    match e
    case None => []
    case Some(c) => [Pair(p, c)]
  }

  /** The table the scan has emitted before reaching pixel (x, y) in row-major order. */
  function Scan(m: Mapper, out: Dim, cam: Dim, y: nat, x: nat): (r: seq<Pair>)
    requires m.ValidFor(out) && x <= out.width && (y < out.height || (y == out.height && x == 0))
    decreases y, x
  {
    if x == 0 then
      if y == 0 then []
      else Scan(m, out, cam, y - 1, out.width)
    else
      Scan(m, out, cam, y, x - 1) + Entry(y * out.width + (x - 1), PixelCam(m, out, cam, x - 1, y))
  }

  /** The scan emits at most one entry per pixel. */
  lemma {:induction false} ScanLength(m: Mapper, out: Dim, cam: Dim, y: nat, x: nat)
    requires m.ValidFor(out) && x <= out.width && (y < out.height || (y == out.height && x == 0))
    decreases y, x
    ensures |Scan(m, out, cam, y, x)| <= y * out.width + x
  {
    if x == 0 {
      if y > 0 {
        RowStep(y - 1, out.width, out.height);
        ScanLength(m, out, cam, y - 1, out.width);
      }
    } else {
      ScanLength(m, out, cam, y, x - 1);
    }
  }

  /** The scanned table lists output pixels in strictly increasing order, each one
      before (x, y). */
  lemma {:induction false} ScanIncreasing(m: Mapper, out: Dim, cam: Dim, y: nat, x: nat)
    requires m.ValidFor(out) && x <= out.width && (y < out.height || (y == out.height && x == 0))
    decreases y, x
    ensures Increasing(Scan(m, out, cam, y, x)) && OutsBelow(Scan(m, out, cam, y, x), y * out.width + x)
  {
    if x == 0 {
      if y > 0 {
        RowStep(y - 1, out.width, out.height);
        ScanIncreasing(m, out, cam, y - 1, out.width);
      }
    } else {
      RowMajorBound(x - 1, y, out.width, out.height);
      ScanIncreasing(m, out, cam, y, x - 1);
    }
  }

  /** The scanned camera indices are never negative, and lie in the camera frame
      whenever the frame has at least one pixel. */
  lemma {:induction false} ScanInFrame(m: Mapper, out: Dim, cam: Dim, y: nat, x: nat)
    requires m.ValidFor(out) && x <= out.width && (y < out.height || (y == out.height && x == 0))
    decreases y, x
    ensures forall k :: 0 <= k < |Scan(m, out, cam, y, x)| ==> 0 <= Scan(m, out, cam, y, x)[k].cam
    ensures cam.width >= 1 && cam.height >= 1 ==> CamsBelow(Scan(m, out, cam, y, x), Size(cam))
  {
    if x == 0 {
      if y > 0 {
        ScanInFrame(m, out, cam, y - 1, out.width);
      }
    } else {
      ScanInFrame(m, out, cam, y, x - 1);
      PixelCamInFrame(m, out, cam, x - 1, y);
    }
  }

  /** The table of a mapper: the scan of the whole canvas. */
  function MapperPairs(m: Mapper, out: Dim, cam: Dim): (r: seq<Pair>)
    requires m.ValidFor(out)
    ensures Increasing(r) && OutsBelow(r, Size(out))
  {
    ScanIncreasing(m, out, cam, out.height, 0);
    Scan(m, out, cam, out.height, 0)
  }

  /** A pixel is in the scanned table exactly when it comes before (x, y) and the
      pipeline accepts it, and then with the camera index the pipeline produced. */
  lemma {:induction false} ScanMembership(m: Mapper, out: Dim, cam: Dim, y: nat, x: nat, o: int, c: int)
    requires m.ValidFor(out) && x <= out.width && (y < out.height || (y == out.height && x == 0))
    decreases y, x
    ensures y * out.width + x <= Size(out)
    ensures Pair(o, c) in Scan(m, out, cam, y, x) <==> 0 <= o < y * out.width + x && EmitAt(m, out, cam, o) == Some(c)
  {
    if x == 0 {
      if y > 0 {
        RowStep(y - 1, out.width, out.height);
        ScanMembership(m, out, cam, y - 1, out.width, o, c);
      } else {
        MulNonNegative(0, out.width);
      }
    } else {
      RowMajor(x - 1, y, out.width, out.height);
      ScanMembership(m, out, cam, y, x - 1, o, c);
    }
  }

  /** Membership in a mapper's table, for every output pixel of the canvas. */
  lemma MapperPairsMembership(m: Mapper, out: Dim, cam: Dim, o: int, c: int)
    requires m.ValidFor(out)
    ensures Pair(o, c) in MapperPairs(m, out, cam) <==> 0 <= o < Size(out) && EmitAt(m, out, cam, o) == Some(c)
  {
    ScanMembership(m, out, cam, out.height, 0, o, c);
  }

  /** A mapper's table has an entry for output pixel o exactly when the pipeline
      accepts o. */
  lemma MapperCovers(m: Mapper, out: Dim, cam: Dim, o: int)
    requires m.ValidFor(out) && 0 <= o < Size(out)
    ensures Covers(MapperPairs(m, out, cam), o) <==> EmitAt(m, out, cam, o).Some?
  {
    var ps := MapperPairs(m, out, cam);
    var e := EmitAt(m, out, cam, o);
    if e.Some? {
      MapperPairsMembership(m, out, cam, o, e.value);
      var k :| 0 <= k < |ps| && ps[k] == Pair(o, e.value);
    } else {
      forall k | 0 <= k < |ps| ensures ps[k].out != o {
        MapperPairsMembership(m, out, cam, ps[k].out, ps[k].cam);
      }
    }
  }

  /** Output pixel (x, y) is in a mapper's table exactly when it lies in the bounds
      rectangle, the mask (if any) allows it and the lens accepts it. A lens result
      outside the camera frame does not remove the pixel: it is clamped. */
  lemma MapperTableRegion(m: Mapper, out: Dim, cam: Dim, x: int, y: int)
    requires m.ValidFor(out) && 0 <= x < out.width && 0 <= y < out.height
    ensures Covers(MapperPairs(m, out, cam), y * out.width + x) <==>
              m.boundsX <= x < m.boundsX + m.boundsWidth && m.boundsY <= y < m.boundsY + m.boundsHeight
              && (m.mask.Some? ==> m.mask.value[x][y])
              && m.lens(x, y, cam).Some?
  {
    RowMajor(x, y, out.width, out.height);
    MapperCovers(m, out, cam, y * out.width + x);
  }

  /** Row y + 1 of a w-by-h canvas starts w pixels after row y, within the canvas. */
  lemma RowStep(y: int, w: nat, h: nat)
    requires 0 <= y < h
    ensures 0 <= y * w && y * w + w == (y + 1) * w && (y + 1) * w <= w * h
  {
    MulNonNegative(y, w);
    MulNonNegative(h - 1 - y, w);
  }

  /** FisheyeMapper.getMap: scan the canvas row by row, run each pixel through the
      pipeline, append {outputIndex, cameraIndex} for every accepted pixel, and
      return the used prefix of the buffer. */
  method GetMap(m: Mapper, out: Dim, cam: Dim) returns (r: array<int>)
    requires m.ValidFor(out)
    ensures fresh(r)
    ensures r[..] == Flat(MapperPairs(m, out, cam))
  {
    var table := new int[2 * Size(out)];
    var i := 0;
    var outputImageY := 0;
    while outputImageY < out.height
      invariant 0 <= outputImageY <= out.height
      invariant i == 2 * |Scan(m, out, cam, outputImageY, 0)| <= table.Length
      invariant table[..i] == Flat(Scan(m, out, cam, outputImageY, 0))
    {
      i := ScanRow(m, out, cam, table, i, outputImageY);
      assert Scan(m, out, cam, outputImageY + 1, 0) == Scan(m, out, cam, outputImageY, out.width);
      outputImageY := outputImageY + 1;
    }
    r := CopyOf(table, i);
  }

  /** The first i ints of the buffer hold the table of the pixels before (x, y). */
  ghost predicate Scanned(m: Mapper, out: Dim, cam: Dim, table: array<int>, i: nat, y: nat, x: nat)
    reads table
  {
    m.ValidFor(out) && x <= out.width && y < out.height && table.Length == 2 * Size(out) &&
    i == 2 * |Scan(m, out, cam, y, x)| <= table.Length && table[..i] == Flat(Scan(m, out, cam, y, x))
  }

  /** The inner loop of getMap: scans row outputImageY left to right, appending the
      entries of its mapped pixels to the first i ints of the buffer. */
  method ScanRow(m: Mapper, out: Dim, cam: Dim, table: array<int>, i0: nat, outputImageY: nat) returns (i: nat)
    requires Scanned(m, out, cam, table, i0, outputImageY, 0)
    modifies table
    ensures Scanned(m, out, cam, table, i, outputImageY, out.width)
    ensures forall k :: i <= k < table.Length ==> table[k] == old(table[k])
  {
    i := i0;
    var outputImageX := 0;
    while outputImageX < out.width
      invariant Scanned(m, out, cam, table, i, outputImageY, outputImageX)
      invariant forall k :: i <= k < table.Length ==> table[k] == old(table[k])
    {
      i := ScanPixel(m, out, cam, table, i, outputImageX, outputImageY);
      outputImageX := outputImageX + 1;
    }
  }

  /** The body of getMap's inner loop: run pixel (x, y) through the pipeline and, when
      it is accepted, append {outputImageIndex, cameraImageIndex} to the buffer. */
  method ScanPixel(m: Mapper, out: Dim, cam: Dim, table: array<int>, i0: nat, outputImageX: nat, outputImageY: nat)
    returns (i: nat)
    requires Scanned(m, out, cam, table, i0, outputImageY, outputImageX) && outputImageX < out.width
    modifies table
    ensures Scanned(m, out, cam, table, i, outputImageY, outputImageX + 1)
    ensures forall k :: i <= k < table.Length ==> table[k] == old(table[k])
  {
    ScanRoom(m, out, cam, outputImageY, outputImageX);
    var outputImageIndex := outputImageY * out.width + outputImageX;
    ghost var before := Scan(m, out, cam, outputImageY, outputImageX);
    var cameraImageIndex := PixelCam(m, out, cam, outputImageX, outputImageY);
    i := i0;
    if cameraImageIndex.Some? {
      Put(table, i, before, Pair(outputImageIndex, cameraImageIndex.value));
      i := i + 2;
    } else {
      assert before + [] == before;
    }
  }

  /** Before pixel (x, y) is scanned the table has fewer entries than the canvas has
      pixels, so the 2 * width * height buffer has room for one more. */
  lemma ScanRoom(m: Mapper, out: Dim, cam: Dim, y: nat, x: nat)
    requires m.ValidFor(out) && x < out.width && y < out.height
    ensures |Scan(m, out, cam, y, x)| < Size(out)
  {
    ScanLength(m, out, cam, y, x);
    RowMajorBound(x, y, out.width, out.height);
  }

  /** Arrays.copyOf(a, n) for n <= a.length: a new array holding the first n elements. */
  method CopyOf(a: array<int>, n: nat) returns (r: array<int>)
    requires n <= a.Length
    ensures fresh(r) && r[..] == a[..n]
  {
    r := new int[n];
    forall k | 0 <= k < n {
      r[k] := a[k];
    }
    assert r[..] == a[..n];
  }
}
