# VideoMapper pixel-mapping engine in Dafny

VideoMapper composites live camera frames onto one output canvas. It does not
run any per-frame geometry. Each camera owns a list of mapper regions. Each
region decides which canvas pixels it claims and which camera pixel each of
them shows, and the camera merges its regions into one flat lookup table
`{outputIndex0, cameraIndex0, outputIndex1, cameraIndex1, ...}`. On every
frame the camera copies `frame[cameraIndex]` into `canvas[outputIndex]` for
each entry. The table is rebuilt only when the frame resolution changes.

The project models that engine:

- `pixels.dfy` (module `Pixels`) holds the shared values: resolutions, table
  entries `Pair(out, cam)`, the flat `int[]` layout `Flat`, and row-major
  index arithmetic.
- `fisheye.dfy` (module `Fisheye`) models one mapper region
  (`FisheyeMapper`). It covers the bounds and mask rejection of
  `output_image_2_rendering`, the clamping and indexing of
  `camera_view_2_camera_image`, and the nested row/column scan of `getMap`.
  That scan is an imperative method filling an `array<int>` and trimming it
  like `Arrays.copyOf`. It is proved equal to the specification function
  `MapperPairs`.
- `mapping_table.dfy` (module `MappingTable`) states
  `CameraConfiguration.getMap` as functions. It starts from a dense table of
  `-1`. Each mapper's table is written over it in list order, so the last
  writer wins. The first pass counts the kept slots and the second pass
  compacts them into an array of exactly `2 * n` ints. `LastWriter` defines
  the result pixel by pixel, independently of the dense table, and the lemmas
  connect the two definitions.
- `compositor.dfy` (module `Compositor`) gives the effect of `processFrame`
  on the canvas as a function, and proves which value each canvas pixel shows
  after a frame.
- `camera.dfy` (module `Camera`) holds the class `CameraConfiguration`:
  - its state: the canvas resolution, the mappers, the shared output pixel
    array, the last camera resolution and the cached table;
  - the imperative `GetMap` with its four loops, proved to return
    `Flat(CameraTable(...))`;
  - `ProcessFrame`, proved to write `Composite(...)` into the output pixels;
  - `HandleSample`, which keeps the cached table when the resolution is
    unchanged and rebuilds it otherwise.

The floating-point lens geometry is not modelled. Each mapper has a `lens`
field that takes an output pixel and the camera resolution to the rounded,
not yet clamped camera coordinate, or to `None` when the projection rejects
the pixel. Everything the integer code does with that result is modelled
exactly.

The compaction keeps a dense slot only when `0 < c < width * height` (lines
354 and 361). So an output pixel whose last writer maps it to camera pixel 0
is dropped as if no mapper had written it. A range `[0, width * height)`
would keep it. The model follows the code:
`MappingTable.CameraPixelZeroDropped` states this, and
`Compositor.CompositeCameraTable` shows that such a pixel keeps its previous
canvas value.

## Model

All source paths are in `src/java/rabuchanan2077/video/VideoMapper.java`.

| member | source | states |
|---|---|---|
| Fisheye.InRegion | src/java/rabuchanan2077/video/VideoMapper.java:531-537 | the definition of the rejection test of `output_image_2_rendering`: the pixel lies in the half-open bounds rectangle and, when there is a mask, `mask[x][y]` is set; `PixelCam` and `MapperTableRegion` characterise it |
| Fisheye.Clamp | src/java/rabuchanan2077/video/VideoMapper.java:522-523 | the clamped coordinate lies in `[0, dim)` for a non-empty frame; an in-frame value is kept; a value below the frame becomes 0 and one above it becomes `dim - 1` |
| Fisheye.CameraIndex | src/java/rabuchanan2077/video/VideoMapper.java:484 | the definition of `cameraImageIndex`, `y * width + x` of the lens result with both coordinates clamped as on lines 522-523; `CameraIndexInFrame` characterises it |
| Fisheye.CameraIndexInFrame | src/java/rabuchanan2077/video/VideoMapper.java:484 | the camera index of a clamped lens result is always inside the camera frame; division and remainder by the width recover the clamped coordinates; an in-frame result keeps its own `y * width + x` |
| Fisheye.PixelCam | src/java/rabuchanan2077/video/VideoMapper.java:455-484 | an output pixel yields a camera index exactly when it passes the region test and the lens accepts it |
| Fisheye.PixelCamInFrame | src/java/rabuchanan2077/video/VideoMapper.java:476-484 | the camera index of an accepted pixel is never negative, and is below `width * height` of a non-empty camera frame |
| Fisheye.Scan | src/java/rabuchanan2077/video/VideoMapper.java:452-487 | the definition of the entries the nested scan has emitted before pixel `(x, y)` in row-major order; `ScanLength`, `ScanIncreasing`, `ScanInFrame` and `ScanMembership` characterise it |
| Fisheye.ScanLength | src/java/rabuchanan2077/video/VideoMapper.java:450-488 | the scan emits at most one entry per pixel visited, so the `2 * width * height` buffer never overflows |
| Fisheye.ScanIncreasing | src/java/rabuchanan2077/video/VideoMapper.java:452-487 | the scan lists output indices in strictly increasing order, each below the index of the next pixel to visit |
| Fisheye.ScanInFrame | src/java/rabuchanan2077/video/VideoMapper.java:452-487 | every camera index the scan emits is non-negative, and inside a non-empty camera frame |
| Fisheye.ScanMembership | src/java/rabuchanan2077/video/VideoMapper.java:452-487 | an entry `(o, c)` is in the scan so far exactly when pixel `o` was visited and the pipeline gave it `c` |
| Fisheye.MapperPairs | src/java/rabuchanan2077/video/VideoMapper.java:448-490 | a mapper's table has strictly increasing output indices, all inside the canvas |
| Fisheye.MapperPairsMembership | src/java/rabuchanan2077/video/VideoMapper.java:448-490 | `(o, c)` is in a mapper's table exactly when `o` is a canvas pixel and the pipeline maps it to `c` |
| Fisheye.MapperCovers | src/java/rabuchanan2077/video/VideoMapper.java:448-490 | a mapper's table has an entry for canvas pixel `o` exactly when the pipeline accepts `o` |
| Fisheye.MapperTableRegion | src/java/rabuchanan2077/video/VideoMapper.java:529-537 | pixel `(x, y)` has an entry exactly when it lies in the half-open bounds rectangle, the mask (if any) is set at `[x][y]` and the lens accepts it; a result outside the camera frame is clamped, not dropped |
| Fisheye.GetMap | src/java/rabuchanan2077/video/VideoMapper.java:448-490 | `getMap` returns a fresh array holding exactly the flat layout of the mapper's table |
| Fisheye.ScanRow | src/java/rabuchanan2077/video/VideoMapper.java:453-487 | the inner loop extends the buffer prefix from the table before row `y` to the table through the end of row `y`, and leaves the buffer past the new prefix as it was |
| Fisheye.ScanPixel | src/java/rabuchanan2077/video/VideoMapper.java:455-486 | one loop body appends the entry of pixel `(x, y)`, if any, and leaves the buffer prefix as the flat table through `(x, y)`, and the buffer past that prefix as it was |
| Fisheye.ScanRoom | src/java/rabuchanan2077/video/VideoMapper.java:450 | before any pixel is visited, the table has fewer entries than the canvas has pixels |
| Fisheye.CopyOf | src/java/rabuchanan2077/video/VideoMapper.java:489 | the result is a fresh array equal to the first `n` elements |
| Pixels.Put | src/java/rabuchanan2077/video/VideoMapper.java:485-486 | two appended ints extend the flat layout by one entry and leave the rest of the buffer as it was |
| MappingTable.Overlay | src/java/rabuchanan2077/video/VideoMapper.java:348-350 | the definition of writing a table's entries over a dense array in table order, keeping its length; `OverlayHit` and `OverlayMiss` characterise it |
| MappingTable.OverlayHit | src/java/rabuchanan2077/video/VideoMapper.java:348-350 | writing a table with increasing output indices leaves each entry's camera index in its slot |
| MappingTable.OverlayMiss | src/java/rabuchanan2077/video/VideoMapper.java:348-350 | a slot no entry names keeps its previous value |
| MappingTable.OverlayMapper | src/java/rabuchanan2077/video/VideoMapper.java:346-350 | after one mapper's writes, slot `o` holds that mapper's camera index if it accepts `o`, and its old value otherwise |
| MappingTable.DenseOf | src/java/rabuchanan2077/video/VideoMapper.java:342-351 | the definition of the dense array: `-1` in every slot of the canvas, then each mapper's table written over it in list order; `DenseIsLastWriter` characterises it |
| MappingTable.LastWriterWins | src/java/rabuchanan2077/video/VideoMapper.java:346-350 | `LastWriter` gives `c` for pixel `o` exactly when some mapper writes `c` to `o` and no later mapper writes `o` |
| MappingTable.NoneAfterSnoc | src/java/rabuchanan2077/video/VideoMapper.java:346 | "no later mapper writes `o`" over a list splits into the same claim over all but the last mapper, plus silence of the last one |
| MappingTable.LastWriterNone | src/java/rabuchanan2077/video/VideoMapper.java:342-350 | `LastWriter` gives nothing exactly when no mapper writes `o` |
| MappingTable.DenseIsLastWriter | src/java/rabuchanan2077/video/VideoMapper.java:342-351 | each slot of the dense table holds the last writer's camera index, and `-1` where no mapper writes |
| MappingTable.KeptCount | src/java/rabuchanan2077/video/VideoMapper.java:352-357 | the definition of the counting pass over the first `i` slots; `CompactLength` and `KeptCountMono` characterise it |
| MappingTable.Compact | src/java/rabuchanan2077/video/VideoMapper.java:358-366 | the definition of the filling pass's entries for the kept slots among the first `i`, in slot order; `CompactLength`, `CompactMembership` and `CompactWellFormed` characterise it |
| MappingTable.CompactLength | src/java/rabuchanan2077/video/VideoMapper.java:352-365 | the count of the first pass equals the number of entries the second pass writes, so the `2 * n` array is filled exactly |
| MappingTable.KeptCountMono | src/java/rabuchanan2077/video/VideoMapper.java:353-356 | counting over more slots never gives fewer kept ones |
| MappingTable.CompactMembership | src/java/rabuchanan2077/video/VideoMapper.java:359-365 | `(o, c)` is in the compacted table exactly when `o` is a slot, `c` is its dense value and `0 < c < camera pixels` |
| MappingTable.CompactWellFormed | src/java/rabuchanan2077/video/VideoMapper.java:359-365 | the compacted table lists slots in increasing order with only kept values |
| MappingTable.CameraTable | src/java/rabuchanan2077/video/VideoMapper.java:340-367 | the camera's table has increasing output indices inside the canvas and camera indices inside the frame |
| MappingTable.CameraTableMembership | src/java/rabuchanan2077/video/VideoMapper.java:340-367 | `(o, c)` is in the camera's table exactly when `o` is a canvas pixel, its last writer gives `c`, and `0 < c < camera pixels` |
| MappingTable.CameraPixelZeroDropped | src/java/rabuchanan2077/video/VideoMapper.java:354 | a pixel whose last writer maps it to camera pixel 0 has no entry in the camera's table |
| Compositor.Composite | src/java/rabuchanan2077/video/VideoMapper.java:320-324 | the definition of the canvas after the entries' frame pixels are copied to their output pixels in table order, keeping its length; `CompositeHit`, `CompositeMiss` and `CompositeCameraTable` characterise it |
| Compositor.CompositeHit | src/java/rabuchanan2077/video/VideoMapper.java:320-324 | after a frame, the output pixel of each entry shows the frame's pixel at the entry's camera index |
| Compositor.CompositeMiss | src/java/rabuchanan2077/video/VideoMapper.java:320-324 | an output pixel the table does not name keeps its previous value |
| Compositor.CompositeCameraTable | src/java/rabuchanan2077/video/VideoMapper.java:315-367 | after a frame, canvas pixel `o` shows `frame[c]` when its last writer gives `c` with `0 < c < camera pixels`, and keeps its previous value otherwise |
| Camera.CameraConfiguration.constructor | src/java/rabuchanan2077/video/VideoMapper.java:223-265 | a new camera holds its mappers, has seen no frame and has no table |
| Camera.CameraConfiguration.GetMap | src/java/rabuchanan2077/video/VideoMapper.java:340-367 | `getMap` returns a fresh array holding exactly the flat layout of `CameraTable` for the current camera resolution |
| Camera.CameraConfiguration.ProcessFrame | src/java/rabuchanan2077/video/VideoMapper.java:315-324 | the output pixels become `Composite` of their old values, the cached table and the frame; the frame and the table are untouched |
| Camera.CameraConfiguration.HandleSample | src/java/rabuchanan2077/video/VideoMapper.java:288-308 | afterwards the resolution is `(w, h)` and a valid table exists; it is the old array when the resolution was already `(w, h)` with a table, and a new one otherwise; the frame is composited when present, and the canvas is unchanged when it is absent |
| Camera.Overwrite | src/java/rabuchanan2077/video/VideoMapper.java:347-350 | the inner loop leaves the dense array equal to the old one overwritten by the mapper's table |
| Camera.Draw | src/java/rabuchanan2077/video/VideoMapper.java:320-324 | the loop of `processFrame` leaves the canvas equal to `Composite` of its old value, the table and the frame |
| Camera.Fill | src/java/rabuchanan2077/video/VideoMapper.java:357-366 | the second pass returns a fresh array holding exactly the flat compacted table |

## Left out

- Lens geometry (lines 434-444, 492-499, 504-514, 556-646): the affine transform into rendering space, the ground-plane and panoramic `rendering_2_world`, `world_2_camera_view` and `Math.round` are floating point. They are the `lens` parameter of each mapper. The `(int)` cast of the rounded value is part of that parameter.
- Bounds, flip and rotate parsing (lines 383-385, 420-432): the model takes the bounds rectangle in canvas pixels.
- Mask construction from the layout image (lines 386-401): each mapper is given its mask, or none. With a mask colour but no layout image the source's mask is all false, which the model covers as one such mask. With no mask colour, parsing it fails (line 389), the exception is swallowed and there is no mask, which the model covers as `None`.
- Fisheye.GetMap: does not model 32-bit overflow of `2 * width * height` or of `y * width + x`, because the model's integers are unbounded. The same holds for the index arithmetic of `CameraConfiguration.getMap`.
- Camera.CameraConfiguration.constructor: requires at least one mapper. The source throws `RuntimeException` in that case (lines 261-262), and the model does not represent a failed configuration. Reading the camera properties and loading mapper classes by reflection (lines 225-260) are replaced by parameters.
- Camera.CameraConfiguration.ProcessFrame: requires the frame to hold at least `width * height` pixels and to be distinct from the canvas. With a shorter buffer the source throws on `get`.
- Camera.CameraConfiguration.HandleSample: takes the caps' width and height and the mapped frame (null when `buffer.map` fails) as parameters. For `w * h` it makes the same demands as `ProcessFrame`.
- Locking and the memory-mapped mirror (lines 52, 119-125, 317, 326-337): the `outputLock_`, the `FileLock` and the copy to `/tmp/VideoMapper.videoFrame` are I/O. They do not change the canvas.
- GStreamer (lines 267-286, 290-292, 302-308): the pipeline, the AppSink, the pulling thread, `sample.dispose` and `buffer.unmap` are not modelled. Several cameras drawing into one canvas from their own threads are not modelled either.
- The FPS counter and timer (lines 54, 150-154, 281) and the Swing display, `repaint` and `main` (lines 56-82, 157-196, 310-312) are not modelled.
- Byte order of the frame and of the mirror (lines 107-110, 274) is not modelled: pixels are plain `int` values.
