# A model of a small ray tracer's exact core

This project models the discrete and exact-arithmetic parts of a small Rust
ray tracer in Dafny. Floating-point values are modelled as `real`. Opaque
numeric operations are parameters of the functions that use them:

- `sqrt`, `tan(fov / 2)`, the matrix inverse, normalisation, the surface
  normal and the shading of a world;
- each parameter carries only the property its caller relies on.

| module | file | models |
|---|---|---|
| `Colors` | colors.dfy | `Color`, channel-wise `+`, `-`, scalar `*`, the Hadamard product, the epsilon equality, and the channel-to-byte conversion (`ColorU8`) |
| `Tuples` | tuples.dfy | homogeneous tuples, `is_point`/`is_vector`, and the componentwise arithmetic the rays use |
| `Matrices` | matrices.dfy | the storage of `Matrix<ROWS, COLS>` built by `new` and `new_init` |
| `Canvases` | canvas.dfy | the pixel buffer (`class Canvas`): bounds-checked reads and writes in place, and the row-major iterator cursor `_x`/`_y` |
| `Netpbm` | ppm.dfy | the plain "P3" PPM writer (`class Ppm`): the header, the pixel strings, and the greedy packing of pixel strings into lines of at most 70 characters |
| `Text`, `Seqs`, `Options` | text.dfy, seqs.dfy, options.dfy | decimal rendering, joining and splitting on a space, concatenation of rows, and `Option` |
| `Worlds` | worlds.dfy | the world (`class World`): an ordered list of spheres and an ordered list of point lights |
| `Rays` | rays.dfy | `Ray::position`, the sphere test, `hit`, `intersections_in_world` with its stable sort, and `prepare_computation` |
| `Cameras` | cameras.dfy | `Camera::new`, the pre-transform half of `ray_for_pixel`, and `render` |

The properties proved include:

- A canvas write is seen by the matching read, and no other pixel changes.
- The iterator yields the pixels in row-major order, then rewinds.
- The pixel lines of a PPM file each fit in 70 characters.
- The pixel lines read back as the canvas's bytes, in order, none lost or
  split. The packing is greedy.
- The sphere test returns exactly the distances at which the ray meets the
  sphere, in ascending order.
- `hit` returns the earliest of the nearest non-negative intersections.
- The world's intersections come out as a sorted, stable permutation of the
  per-object lists.
- The flipped normal always faces the eye.
- The camera's canvas has the image's proportions, and every pixel centre
  falls inside it.
- `render` colours every pixel except the last row and the last column.

## Model

| member | source | states |
|---|---|---|
| Tuples.WOneIsPoint | src/tuple.rs:9-15 | `IsPoint`/`IsVector` (`is_point`/`is_vector`): w = 1 makes a tuple a point and not a vector |
| Tuples.WZeroIsVector | src/tuple.rs:9-15 | w = 0 makes a tuple a vector and not a point |
| Tuples.NeverBoth | src/tuple.rs:9-15 | no tuple is both; any other w is neither |
| Tuples.ClassifiedByWAlone | src/tuple.rs:9-15 | tuples with equal w are classified alike, whatever x, y and z are |
| Tuples.KindsOfSums | src/rays.rs:54-56 | for the componentwise `Add`, `Sub` and `Scale`: point + vector is a point; point - point, vector + vector and a vector scaled by any factor are vectors |
| Tuples.DotOfNeg | src/rays.rs:106-109 | negating one side negates the dot product, which the normal flip relies on |
| Tuples.DotSelfNonNegative | src/rays.rs:66 | a tuple's dot product with itself is never negative |
| Tuples.DotExpand | src/rays.rs:65-69 | \|s + t d\|^2 = t^2 (d.d) + 2t (d.s) + s.s |
| Matrices.New | src/matrices.rs:6-9 | ROWS rows of COLS entries, every entry 0.0, for any shape |
| Matrices.NewInit | src/matrices.rs:11-13 | the supplied entries read back unaltered at every (i, j), with the given shape |
| Matrices.NewInitExamples | src/matrices.rs:20-38 | the entries the tests read back from `new_init` and `new` |
| Colors.AddSubInverse | src/color.rs:40-58 | for the channel-wise `Add` and `Sub`: subtracting what was added, or adding back what was subtracted, restores the colour |
| Colors.AddCommutes | src/color.rs:40-46 | colour addition is commutative |
| Colors.HadamardCommutes | src/color.rs:77-83 | the Hadamard product is commutative |
| Colors.ScaleIsHadamardWithGrey | src/color.rs:64-83 | scaling by k equals the Hadamard product with grey (k, k, k); white is its unit |
| Colors.ScaleDistributesOverAdd | src/color.rs:40-71 | scaling distributes over addition |
| Colors.ArithmeticExamples | src/color.rs:110-135 | `Add`, `Sub`, `Scale` and `Hadamard` give the sums, differences and products of the tests exactly |
| Colors.EqReflexive | src/color.rs:86-91 | every colour equals itself |
| Colors.EqSymmetric | src/color.rs:86-91 | equality is symmetric |
| Colors.EqMeansChannelsClose | src/color.rs:86-91 | `Eq` (`eq` with EPSILON = 1e-5): equal exactly when each channel differs by less than 1e-5 either way |
| Colors.EqNotTransitive | src/color.rs:86-91 | three colours exist with a = b and b = c but a != c |
| Colors.NeIsNotEq | src/color.rs:93-95 | `Ne` (`ne`) is the negation of `Eq` |
| Colors.Round | src/color.rs:20 | `round` gives the nearest integer; a half goes away from zero |
| Colors.SaturateToByte | src/color.rs:20 | the cast to `u8` is 0 below the range, 255 above it, and the value inside it |
| Colors.NormalizeU8Part | src/color.rs:19-21 | 0 for part <= 0; 255 for part >= 1; in between, a byte within half a unit of part*255 (the rounded value) |
| Colors.NormalizeU8PartMonotone | src/color.rs:19-21 | a larger channel never gives a smaller byte |
| Colors.NormalizeU8PartExamples | src/color.rs:138-152 | the byte values of the tests (0.3 gives 77, 0.5 gives 128, -10.1 gives 0), and 1.5 gives 255 as the PPM test expects |
| Colors.NormalizeU8Channelwise | src/color.rs:28-34 | `NormalizeU8` (`normalize_u8`): each byte depends only on its own channel, converted the same way |
| Text.Dec | src/ppm.rs:42 | the decimal rendering: non-empty, digits only, no space, at most 3 characters below 1000 |
| Text.ParseDecOfDec | src/ppm.rs:42 | reading back a decimal rendering gives the number |
| Text.JoinAppend | src/ppm.rs:30 | joining two non-empty lists puts one space between their joins |
| Text.Split | src/ppm.rs:30 | splitting on a space gives at least one part |
| Text.SplitJoin | src/ppm.rs:30 | splitting the join of space-free strings gives the strings back |
| Canvases.Canvas.constructor | src/canvas.rs:18-36 | `height` rows of `width` pixels, all black; cursor at (0, 0); what remains to iterate is the whole canvas in row-major order |
| Canvases.Canvas.ReadPixel | src/canvas.rs:45-52 | `Some` exactly when x < width and y < height, holding the stored colour; otherwise `None` |
| Canvases.Canvas.WritePixel | src/canvas.rs:38-43 | an in-bounds write reads back; every other pixel reads as before; an out-of-bounds write changes nothing; size and cursor kept |
| Canvases.Step | src/canvas.rs:58-73 | the cursor step of `next`: inside the grid it moves to the next row-major index, never past the end position (`_y` = height, `_x` = 0); from the end position it rewinds to row 0 |
| Canvases.Canvas.Next | src/canvas.rs:58-73 | yields the pixel under the cursor and steps the cursor row by row; past the last row it yields `None` and rewinds; the yielded pixel is the head of what remained |
| Canvases.Canvas.CursorInRange | src/canvas.rs:67-71 | with width >= 1 the cursor's row-major index is at most width*height, and equals it exactly when `_y` = height |
| Canvases.Canvas.RemainingFromCursor | src/canvas.rs:58-73 | what the iterator still yields is the row-major pixel list from the cursor's index on |
| Canvases.Canvas.FromStart | src/canvas.rs:58-73 | with the cursor at (0, 0) the iterator still has every pixel to yield, in row-major order |
| Canvases.Canvas.RowMajorIndex | src/canvas.rs:113-124 | the k-th yielded pixel is `read_pixel(k mod width, k div width)` |
| Canvases.PendingRows | src/canvas.rs:58-73 | from the start of a row, the walk visits that row and every later row, in order |
| Canvases.PendingIsSuffix | src/canvas.rs:58-73 | from (x, y) the walk yields the rest of row y, then every later row |
| Canvases.WriteAndReadExample | src/canvas.rs:93-110 | on a 20 x 10 canvas the written red pixel reads back, its neighbour reads black, and writes at (21, 3) and (2, 13) leave nothing to read at (20, 3) and (2, 13) |
| Canvases.IterateExample | src/canvas.rs:112-124 | on a 20 x 10 canvas with red written at (10, 3) and (2, 5), 200 calls of `next` yield red at calls 20 * 3 + 10 and 20 * 5 + 2 and black at the first and the last call; the next call yields nothing |
| Netpbm.U8String | src/ppm.rs:40-43 | a byte triple is written as three decimals with single spaces, 5 to 11 characters; `PixelString` (`color_to_ppm_string`) is this applied to `NormalizeU8` of the colour |
| Netpbm.SplitU8String | src/ppm.rs:40-43 | splitting a pixel string on spaces gives its three channel decimals |
| Netpbm.Pack | src/ppm.rs:27-37 | the greedy packing returns at least one line, and the open line stays at its head |
| Netpbm.JoinLinesAt | src/ppm.rs:30 | each written line is its group of strings joined with spaces |
| Netpbm.PixelStringsAt | src/ppm.rs:27-28 | the i-th pixel string is the string of the i-th pixel yielded |
| Netpbm.U8Strings | src/ppm.rs:40-43 | one string per triple, in order |
| Netpbm.ToBytes | src/color.rs:28-34 | one byte triple per pixel, in order |
| Netpbm.LineLenAppend | src/ppm.rs:34 | adding a string grows `linelen` by its length plus one |
| Netpbm.LineLenIsJoinedLengthPlusOne | src/ppm.rs:29-35 | the running `linelen` of a non-empty line is its joined length plus one; an empty line has 0 and joins to "" |
| Netpbm.PackKeepsOrder | src/ppm.rs:27-37 | the lines concatenated give back every string in order: none lost, duplicated or reordered |
| Netpbm.PackBounded | src/ppm.rs:29-35 | if each string fits, every line's `linelen` is at most 70 + 1 |
| Netpbm.PackIsGreedy | src/ppm.rs:29-33 | a line is closed only when the next string would push it past 70, and every string that fits goes on the open line |
| Netpbm.PackStep | src/ppm.rs:29-35 | the next string closes the open line exactly when `linelen` + its length > 70 |
| Netpbm.PackAdvance | src/ppm.rs:27-36 | the loop's closed lines plus the packing of what remains stay equal to the packing of all strings |
| Netpbm.JoinLinesAppend | src/ppm.rs:30 | joining lines distributes over appending groups |
| Netpbm.PackedStep | src/ppm.rs:28-35 | one loop turn keeps the closed lines, the open line and `linelen` in step with the packing |
| Netpbm.PackClose | src/ppm.rs:37 | the final push completes the packing |
| Netpbm.PixelLines | src/ppm.rs:27-37 | after any earlier lines, the pixel lines each fit in 70 characters and read back as the pixels' bytes |
| Netpbm.PackLinesFit | src/ppm.rs:11 | every pixel line is at most 70 characters when every pixel string is |
| Netpbm.NoPixelsGiveOneEmptyLine | src/ppm.rs:37 | with no pixels, one empty line is still written |
| Netpbm.ParseByte | src/ppm.rs:42 | a word is accepted only as the decimal of the byte returned |
| Netpbm.ParseByteOfDec | src/ppm.rs:42 | the decimal of a byte reads back as the byte |
| Netpbm.DecodeWordsOfBytes | src/ppm.rs:40-43 | the channel words of triples, regrouped in threes, give the triples |
| Netpbm.SplitJoinedTriples | src/ppm.rs:30 | splitting a joined line of pixel strings gives the channel words in order |
| Netpbm.DecodeLineOfTriples | src/ppm.rs:30 | a pixel line reads back as the triples it was written from |
| Netpbm.DecodeGroups | src/ppm.rs:27-37 | any grouping of the strings into lines reads back as the triples: no pixel split across lines |
| Netpbm.BodyRoundTrip | src/ppm.rs:99-110 | the pixel lines of any pixels read back as those pixels' bytes, in row-major order |
| Netpbm.HeaderRoundTrip | src/ppm.rs:49-53 | `Header`, the lines `add_header` pushes: the header is three lines: "P3", then width and height as two decimals that read back, then "255" |
| Netpbm.HeaderExample | src/ppm.rs:89-96 | a 5 x 3 canvas gets the header "P3", "5 3", "255" |
| Netpbm.AddCanvasExample | src/ppm.rs:89-96 | adding a new 5 x 3 canvas to an empty file makes its first three lines "P3", "5 3", "255" |
| Netpbm.Ppm.constructor | src/ppm.rs:14-20 | a new file has no lines |
| Netpbm.Ppm.AddHeader | src/ppm.rs:49-53 | appends exactly "P3", "w h", "255"; earlier lines unchanged |
| Netpbm.Ppm.AddCanvas | src/ppm.rs:22-38 | appends the header and then the greedy packing of the row-major pixel strings; earlier lines unchanged; each pixel line at most 70 characters; the pixel lines read back as the canvas's bytes |
| Netpbm.Ppm.PlacePixel | src/ppm.rs:28-35 | one loop turn of `add_canvas` keeps the packing state |
| Netpbm.Ppm.AddPixels | src/ppm.rs:24-37 | the loop over the iterator appends the packing of every remaining pixel's string, with the final line pushed |
| Worlds.World.constructor | src/world.rs:11-16 | a new world has no objects and no lights |
| Worlds.World.AddObject | src/main.rs:219-223 | the sphere is appended last; earlier objects and all lights unchanged |
| Worlds.World.AddLight | src/main.rs:212-216 | the light is appended last; earlier lights and all objects unchanged |
| Worlds.SceneOrder | src/main.rs:211-223 | example: pushing one light and then spheres a and b leaves the objects [a, b] and the lights [light] |
| Rays.PositionAtZero | src/rays.rs:54-56 | `Position` (`Ray::position`): position(0) is the origin; a point moved along a vector stays a point |
| Rays.PositionDifference | src/rays.rs:54-56 | going from distance s to distance t moves by (t - s) times the direction |
| Rays.PositionAlongX | src/rays.rs:142-149 | from (2, 3, 4) along x, the point at every distance t is (2 + t, 3, 4) |
| Rays.Intersects | src/rays.rs:60-81 | 0 or 2 intersections, 0 exactly when the discriminant is negative, all tagged with the sphere |
| Rays.OnUnitSphereIsRoot | src/rays.rs:65-68 | the point at t lies on the unit sphere exactly when a t^2 + b t + c = 0 with the source's a, b, c |
| Rays.QuadraticRoots | src/rays.rs:69-77 | with r^2 the discriminant, t is a root exactly when 2at + b = r or -r |
| Rays.SolveLinear | src/rays.rs:72-76 | 2at + b = v exactly when t = (v - b) / 2a |
| Rays.RootsExactly | src/rays.rs:69-79 | `Roots`, the pushes of `intersects`: the two pushed distances are exactly the real roots; nothing is pushed when there is none |
| Rays.NoRoot | src/rays.rs:69-70 | a negative discriminant leaves no real root |
| Rays.IntersectsExactly | src/rays.rs:60-81 | the returned distances are exactly those at which the ray meets the sphere: none missed, none made up |
| Rays.RootsOrdered | src/rays.rs:72-77 | with a > 0 and sqrt >= 0, the first pushed distance is at most the second |
| Rays.IntersectsOrdered | src/rays.rs:66-77 | the two intersections come nearest first |
| Rays.IntersectsTangent | src/rays.rs:151-159 | the tangent ray meets the sphere twice at distance 5 |
| Rays.IntersectsMiss | src/rays.rs:161-167 | the ray passing above the sphere misses it |
| Rays.IntersectsAlongZ | src/rays.rs:169-187 | a ray along z from (0, 0, oz) meets the unit sphere at -oz - 1 and 1 - oz, in that order |
| Rays.IntersectsInside | src/rays.rs:169-177 | from the centre the distances are -1 and 1 |
| Rays.IntersectsBehind | src/rays.rs:179-187 | with the sphere behind the ray the distances are -6 and -4, both tagged with the sphere |
| Rays.Hit | src/rays.rs:30-46 | `None` exactly when every distance is negative, including the empty list; otherwise the index of a non-negative distance that is minimal among non-negative ones and strictly below every earlier one |
| Rays.HitUnique | src/rays.rs:36-41 | at most one index meets the hit conditions |
| Rays.HitOfSorted | src/rays.rs:30-46 | in a sorted list, the hit is the first non-negative entry |
| Rays.HitExamples | src/rays.rs:207-243 | the tests' hits: none when all are negative; index 0, 1 and 3 in the others |
| Rays.InsertSorted | src/rays.rs:90 | inserting into a sorted list keeps it sorted and adds one entry |
| Rays.InsertPermutes | src/rays.rs:90 | inserting adds exactly that entry |
| Rays.InsertAtDistance | src/rays.rs:90 | an inserted entry goes before the entries at its own distance; other entries keep their order |
| Rays.SortByTSorted | src/rays.rs:90 | `SortByT`, the model of `sort_by` on `t`: the sort gives a sorted permutation of its input |
| Rays.SortByTStable | src/rays.rs:90 | the sort is stable: entries at equal distance keep their order |
| Rays.GatheredShape | src/rays.rs:86-89 | `Gathered`, the list the loop over `objects` builds before sorting: each object adds nothing or a pair, so the count is even; every entry names one of the objects visited |
| Rays.GatheredAppend | src/rays.rs:87-88 | a sphere added to a world later contributes its intersections after those of the earlier objects, which stay the same |
| Rays.IntersectionsInWorld | src/rays.rs:85-92 | the result is sorted ascending, is a permutation of the per-object lists in `objects` order, and keeps entries at equal distance in that order |
| Rays.PrepareComputation | src/rays.rs:101-118 | t and the sphere copied; the point is position(t); eyev is -direction; `inside` exactly when normal.eyev < 0; the normal is negated exactly then; afterwards normalv.eyev >= 0 |
| Rays.PrepareComputationOutside | src/rays.rs:295-315 | a hit from outside: point (0, 0, -1), eyev and normal (0, 0, -1), not inside |
| Rays.PrepareComputationInside | src/rays.rs:317-328 | a hit from inside: point (0, 0, 1), eyev (0, 0, -1), the normal turned to (0, 0, -1), inside |
| Cameras.NewCamera | src/camera.rs:33-41 | sizes and field of view kept as given; the transform is the identity |
| Cameras.AspectAtLeastOne | src/camera.rs:22-23 | the aspect ratio is at least 1 exactly when hsize >= vsize |
| Cameras.NewCameraShape | src/camera.rs:22-32 | half_width / half_height = hsize / vsize, and the longer side's half-extent is half_view |
| Cameras.PixelSizeFromLongerSide | src/camera.rs:38 | hsize pixels span 2 half_width and vsize pixels span 2 half_height; the pixel size is 2 half_view / max(hsize, vsize) |
| Cameras.PixelSizeExamples | src/camera.rs:111-121 | 200 x 125 and 125 x 200 give the same pixel size, half_view / 100 (0.01 at a right-angle field of view) |
| Cameras.CanvasPoint | src/camera.rs:75-81 | pixel (x, y) maps to (half_width - (x + 0.5) ps, half_height - (y + 0.5) ps, -1), a point |
| Cameras.CanvasPointInside | src/camera.rs:75-81 | for a positive half_view every pixel centre lies strictly inside the canvas |
| Cameras.CanvasPointMirror | src/camera.rs:75-81 | pixels mirrored about the centre column or row map to mirrored canvas points |
| Cameras.CentrePixel | src/camera.rs:75-81 | the middle pixel of an odd-sized image maps to (0, 0, -1) |
| Cameras.RayForPixel | src/camera.rs:74-94 | the ray starts at the camera transform's image of the origin |
| Cameras.RayForPixelUntransformed | src/camera.rs:83-93 | with the identity transform the ray starts at the origin and points along the vector to the pixel's canvas point |
| Cameras.RayThroughCentre | src/camera.rs:179-185 | on a 201 x 101 image, pixel (100, 50) gives the ray from the origin along -z |
| Cameras.RenderRow | src/camera.rs:64-68 | the columns of one row up to a bound get the colour of their pixel's ray; every other pixel and the iterator cursor are unchanged |
| Cameras.Render | src/camera.rs:60-72 | a fresh hsize x vsize canvas; pixel (x, y) has its ray's colour when x < hsize - 1 and y < vsize - 1, and is black otherwise; the cursor is at (0, 0), so the whole image is still to be iterated |
| Cameras.RenderAllPixels | src/camera.rs:63-64 | with the loops over the full ranges, every pixel has its ray's colour; the cursor is at (0, 0) |
| Cameras.RenderedPixels | src/camera.rs:60-72 | the rendered pixels in row-major order number hsize * vsize |
| Cameras.RenderedPixelsAt | src/camera.rs:60-72 | entry y * hsize + x of that list is the colour `render` gives pixel (x, y) |
| Cameras.RenderedRowMajor | src/canvas.rs:58-73 | the image `Render` returns, read row by row as `next` reads it, is that list |
| Cameras.WriteImage | src/main.rs:315-316 | `Ppm::new` then `add_canvas(image)` gives exactly the header and the packing of the pixels the image still has to yield, each pixel line at most 70 characters and reading back as those pixels' bytes |
| Cameras.RenderToPpm | src/main.rs:315-316 | `add_canvas(camera.render(&world))` on a new file gives the header and then the greedy packing of the rendered pixels' strings in row-major order; each pixel line is at most 70 characters and reads back as the rendered pixels' bytes |
| Cameras.RenderCornerExample | src/camera.rs:63-64 | a 2 x 2 render of a world that is white everywhere leaves pixel (1, 1) black; the full loops make it white |

## Left out

- `Ppm::write_file` (file output, panics on I/O errors) is not modelled. The model ends at the list of lines.
- `src/main.rs` is not modelled: argument handling, demo scenes, the projectile simulation and the Phong demo. Its scene set-up pushes are modelled as `World.AddObject`/`World.AddLight`, and its `add_canvas(camera.render(&world))` as `Cameras.RenderToPpm`.
- `lighting` is not modelled, because it needs float `powf`, `normalize`, and the materials. `World::color_at` appears only as the `colorAt` parameter of `Render`, so the world reaches the render loop only through it.
- `Camera::set_view_transformation` and `Ray::transform` are not modelled. These are float linear algebra over `invert`, `cross`, `normalize` and `new_identity`, which are not part of this model.
  - `ray_for_pixel`'s inverse transform appears only as the `unproject` parameter, and its normalisation only as `normalize`.
  - `intersects` is given the ray already taken into the sphere's coordinates (the `toObject` parameter).
  - `normal_at` is the `normalAt` parameter.
- `src/shapes.rs` is not modelled. A sphere is reduced to its transformation, and its material is left out. Intersections name a sphere by its index in `World.objects` instead of holding a reference.
- The test world of `intersections_for_default_world` (`World::default_world`) is not part of this model.
- f64 behaviour is out of scope: NaN, infinities, rounding error, and `total_cmp`'s ordering of NaN. `b.powf(2.0)` is taken as `b * b`.
- Rays.Intersects: requires a non-zero a = dot(direction, direction). With a = 0 the source divides by zero and gets NaN or infinities. `Rays.IntersectionsInWorld` requires the same of every object (`Traceable`).
- Rays.IntersectionsInWorld: `sort_by` is the standard library's stable sort. Its result is given by a stable insertion sort (`SortByT`), and the proofs are about that definition: sortedness, permutation and stability. These three properties determine any stable sort's result.
- Rays.RootsOrdered: `sqrt` is any function that returns the non-negative square root of a non-negative argument (`IsSqrt`). The examples that need concrete square roots assume only that.
- Cameras.NewCamera: requires hsize and vsize to be at least 1. Otherwise the aspect ratio or the pixel size divides by zero in f64. `tan(fov / 2)` is the `halfView` parameter.
- Cameras.Render: requires hsize and vsize to be at least 1. Otherwise `hsize - 1` on `usize` underflows.
- Netpbm.Ppm.AddPixels: collects the closed lines in a local and appends them to `lines` once, after the loop. The source pushes each one as it is closed. The resulting list is the same.
- Netpbm.Ppm.AddCanvas: takes the canvas by reference. The source consumes it, and the model's contract speaks only of the canvas's state on entry.
- Canvases.Canvas.Next: the source's `usize` cursor never overflows in practice, so it is modelled as `nat`.

## Findings

| source | as written | input that shows it | evidently intended | confidence | as-written member | corrected member |
|---|---|---|---|---|---|---|
| src/camera.rs:63-64 | `for y in 0..self.vsize - 1` and `for x in 0..self.hsize - 1` stop one short, because Rust ranges exclude their upper bound | any camera, e.g. 2 x 2 with a world that is white everywhere: pixel (1, 1), and all of the last row and column, stay black | loops over `0..self.vsize` and `0..self.hsize`, so every pixel is rendered | high; not executed | Cameras.Render (with Cameras.RenderCornerExample) | Cameras.RenderAllPixels |
