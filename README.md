# bevy-equirect: equirectangular image to six-layer cube map, in Dafny

This project models the core of `bevy-equirect`, a Bevy plugin that turns one
panoramic (equirectangular) image into a cube-map texture of six layers, and
proves properties of that model. Three modules follow the two source files:

- `Convert` (`convert.dfy`, from `src/convert.rs`): the closed `CubeSide`
  enumeration and `CubeSide::ALL`; the face-to-layer table
  `get_cubemap_index` and its inverse; the face-direction formula
  `get_xyz_form_pixel_coords` and the UV map `get_uv_from_angles` as
  real-valued functions; the per-face byte copy `gen_face` as an imperative
  method over an array, proved equal to the specification function
  `FaceBytes`; the byte layout of a face; and a proof that the face does not
  depend on the order in which pixels are visited.
- `Cubemap` (`cubemap.dfy`, from `cubemap_from_equirectangular` in
  `src/lib.rs`): the image record; the cube-map data as a value, the six
  faces one after another in layer order; the six slots of the output
  buffer; the assembly loop over `CubeSide::ALL`, proved to produce that
  value; and the cube-map metadata.
- `Manager` (`manager.dfy`, from `EquirectManager` and `apply_equirect` in
  `src/lib.rs`): the map of pending conversions keyed by source id, with a
  counter standing for the image handle provider. It has a pure
  specification (`Load`, `Step`, `ApplyAll`) and a class `EquirectManager`
  whose methods are proved against it.

The sampling step of `gen_face` is abstract. That step runs `normalize`,
`atan2`, `asin` and `floor` in `f32`. The model replaces it with a parameter
`sample: Sampler`. A `Sampler` maps a side, a destination pixel `(x, y)`,
`res` and the source size to a source pixel `(px, py)`. Callers must supply
a sampler that stays inside the source image (`SamplesInBounds`).

Three places where the code behaves in a way a reader might not expect; the model follows the code:

- On `Added`, the code publishes the cube map but keeps the pending entry
  (src/lib.rs:35-41). Entries are dropped only on `Unused` or `Removed`
  (src/lib.rs:42-44). So the model keeps the entry, which means a second
  `Added` for the same id converts again (`AddedPublishes`).
- The loop in `gen_face` visits x in the outer loop and y in the inner one
  (src/convert.rs:40). The byte layout is still row-major, `(y * res + x) * bpp`.
- `res >= 2` is needed only by the direction formula, because it divides by
  `res - 1`. `GenFace` and the assembly accept any `res`, since the sampler
  is abstract.

## Model

| member | source | states |
|---|---|---|
| `Convert.AllListsEverySideOnce` | src/convert.rs:21-28 | `ALL` has six entries, every side occurs in it, and no two entries are equal |
| `Convert.CubemapIndex` | src/convert.rs:55-64 | the layer of every side is below 6 |
| `Convert.CubemapIndexBijective` | src/convert.rs:55-64 | `get_cubemap_index` is a bijection from the six sides onto 0..5 (X→0, NegX→1, NegY→2, Y→3, NegZ→4, Z→5), with `SideAtLayer` as its two-sided inverse, and it is injective |
| `Convert.AllCoversEveryLayer` | src/convert.rs:21-28 | iterating `ALL` reaches every layer 0..5, and no layer twice |
| `Convert.PixelOffset` | src/convert.rs:75-76 | for `res >= 2` and `pixel < res` the offset is in [-1, 1]; it is -1 at pixel 0, +1 at pixel `res - 1`, and 0 at the centre pixel of an odd `res` |
| `Convert.XyzFromPixelCoords` | src/convert.rs:74-85 | the direction of every pixel of a face has the coordinate on that face's axis fixed at +1 or -1, by the side's sign; `DirectionOnFace` bounds the other two and `FaceCentre` gives the centre pixel |
| `Convert.DirectionOnFace` | src/convert.rs:74-85 | for each side, the direction of every in-range pixel has its dominant coordinate fixed at +1 (X, Y, Z) or -1 (NegX, NegY, NegZ), and the other two coordinates in [-1, 1] |
| `Convert.DominantAxisIdentifiesSide` | src/convert.rs:77-84 | two sides with the same dominant axis and sign are the same side, so the six formulas place pixels on six distinct cube faces |
| `Convert.FaceCentre` | src/convert.rs:74-85 | for odd `res` the centre pixel of every face maps to the unit vector along that face's axis |
| `Convert.UvFromAngles` | src/convert.rs:71-73 | theta in [-π, π] gives u in [0, 1] (0 at -π, 1 at π); phi in [-π/2, π/2] gives v in [0, 1] (0.5 at phi = 0) |
| `Convert.SourceOffset` | src/convert.rs:46 | the source offset of a pixel with `px < w`, with its `bpp` bytes, lies inside the byte stripe `[py * w * bpp, (py + 1) * w * bpp)` of row `py`; `SourceSliceInBounds` bounds it by the buffer |
| `Convert.DestOffset` | src/convert.rs:47 | the destination offset of a pixel with `x < res`, with its `bpp` bytes, lies inside the stripe `[y * res * bpp, (y + 1) * res * bpp)` of row `y`; `DestSliceInBounds` bounds it by the face |
| `Convert.SourceSliceInBounds` | src/convert.rs:44-49 | when `px < w` and `py < h`, the source offset `(py * w + px) * bpp` plus `bpp` stays within `w * h * bpp` bytes, so the copy reads in bounds |
| `Convert.DestSliceInBounds` | src/convert.rs:47-48 | the `bpp` bytes at `(y * res + x) * bpp` lie in the `res * res * bpp` buffer for every in-range `(x, y)` |
| `Convert.ByteOwnership` | src/convert.rs:47-48 | byte `k < bpp` of pixel `(x, y)` lies in the buffer and is owned by `(x, y)` at offset `k` |
| `Convert.ByteCovered` | src/convert.rs:38-48 | every byte of the face buffer belongs to some in-range pixel at offset `j % bpp`, so the pixel ranges cover the buffer |
| `Convert.PixelRangesTile` | src/convert.rs:40-48 | byte `j` belongs to pixel `(x, y)` exactly when it lies in `[(y * res + x) * bpp, +bpp)`, so the pixel ranges are pairwise disjoint and tile the buffer |
| `Convert.Spliced` | src/convert.rs:48-49 | `copy_from_slice` into `buf[at .. at + n]` sets byte `at + i` to byte `i` of the source slice and leaves every byte outside the range as it was |
| `Convert.CopyInto` | src/convert.rs:48-49 | the in-place slice copy leaves the array equal to `Spliced` of its old contents |
| `Convert.FaceBytes` | src/convert.rs:37-39 | the face buffer has exactly `res * res * bpp` bytes |
| `Convert.FaceByteAt` | src/convert.rs:44-49 | byte `k` of destination pixel `(x, y)` equals byte `k` of the source pixel the sampler picks for it; both indices are in bounds |
| `Convert.FacePixel` | src/convert.rs:44-49 | the `bpp` bytes of destination pixel `(x, y)` are `data[index .. index + bpp]` for `index = (py * w + px) * bpp` |
| `Convert.GenFace` | src/convert.rs:29-54 | the zeroed buffer filled by the x-outer, y-inner copy loop equals `FaceBytes`; its loop invariant says every pixel visited so far holds its final bytes |
| `Convert.CopyPixel` | src/convert.rs:41-49 | one loop iteration, as a value: the buffer keeps its `res * res * bpp` bytes (what it writes is `CopyPixelAt`) |
| `Convert.CopyPixelAt` | src/convert.rs:46-49 | one iteration for pixel `p` sets exactly the bytes owned by `p`, each to its value in `FaceBytes`, and leaves every other byte unchanged |
| `Convert.GenFacePixel` | src/convert.rs:41-49 | the loop body on the array leaves it equal to `CopyPixel` of its old contents at `(x, y)` |
| `Convert.CopyPixelKeepsDone` | src/convert.rs:40-49 | the iteration at `(x, y)` extends the set of finished pixels from those before `(x, y)` in x-outer, y-inner order to those up to and including it |
| `Convert.Paint` | src/convert.rs:40-50 | running the loop body over any sequence of in-range pixels keeps the buffer at `res * res * bpp` bytes (what it writes is `PaintAt`) |
| `Convert.PaintAt` | src/convert.rs:40-50 | after copying the pixels of any order, a byte holds its face value if its pixel was visited and its old value otherwise |
| `Convert.PaintOrderIndependent` | src/convert.rs:40-50 | every visiting order that covers all pixels gives the same result, `FaceBytes`, from any starting buffer |
| `Convert.LoopOrder` | src/convert.rs:40 | the x-outer, y-inner order has `res * res` steps, all at in-range pixels |
| `Convert.LoopOrderStep` | src/convert.rs:40 | step `x * res + y` of that order visits pixel `(x, y)` |
| `Convert.LoopOrderVisitsEachPixelOnce` | src/convert.rs:40 | that order visits every pixel, and no two steps visit the same pixel: every pixel is written exactly once |
| `Convert.LoopOrderPaintsFace` | src/convert.rs:39-53 | copying pixels in that order into the zeroed buffer gives `FaceBytes` |
| `Cubemap.Face` | src/lib.rs:96-102 | each face passed to the copy has `face_size = res * res * bpp` bytes |
| `Cubemap.Faces` | src/lib.rs:95-102 | there are six faces, each of `face_size` bytes, and entry `k` is the face of the side whose index is `k` |
| `Cubemap.CubemapData` | src/lib.rs:92-94 | the output buffer has `6 * face_size` bytes |
| `Cubemap.CubemapImage` | src/lib.rs:109-124 | the result is a 2-D image of width and height `res` with 6 array layers, in the source's format, with a cube view, whose data is present and has `6 * face_size` bytes; `CubemapLayer` gives the content of each layer |
| `Cubemap.ConcatLength` | src/lib.rs:93-94 | blocks of `n` bytes each, placed one after another, fill exactly `count * n` bytes |
| `Cubemap.ConcatBlock` | src/lib.rs:103-106 | in such a buffer the `n` bytes from `n * k` on are block `k`, so slot `[face_size * k, +face_size)` holds layer `k` |
| `Cubemap.ConcatOfBlocks` | src/lib.rs:95-107 | a buffer of `count * n` bytes whose every slot `k` holds block `k` is that concatenation, so the six slots together cover the whole output |
| `Cubemap.SlotsDisjoint` | src/lib.rs:103-104 | the slots of two different layers do not overlap |
| `Cubemap.CubemapLayer` | src/lib.rs:95-107 | layer `k` of the buffer is the face of the side whose index is `k` |
| `Cubemap.CubemapSlot` | src/lib.rs:103-106 | the slot `[face_size * get_cubemap_index(side), +face_size)` holds that side's `gen_face` output |
| `Cubemap.SlotPixel` | src/lib.rs:103-106 | in any buffer whose slot of `side` holds its face, the bytes of pixel `(x, y)` in that slot are the sampled source pixel's bytes |
| `Cubemap.CubemapPixel` | src/lib.rs:95-107 | pixel `(x, y)` of a side's layer holds the bytes of the source pixel the sampler picks for it |
| `Cubemap.SlotCopyKeepsDone` | src/lib.rs:103-106 | copying a side's face into its slot puts that face there and keeps every slot already filled |
| `Cubemap.AllSlotsDone` | src/lib.rs:95-107 | once every side of `ALL` is in its slot, the buffer equals `CubemapData` |
| `Cubemap.CubemapFromEquirectangular` | src/lib.rs:90-125 | the assembly loop yields `CubemapImage`: width = height = `res`, 6 layers, 2D, the source's format, view dimension Cube, `6 * face_size` bytes, and each side's slot holds its `gen_face` output |
| `Manager.LoadTracks` | src/lib.rs:67-75 | after a load the source is tracked, the returned id is its entry's dst, and earlier entries are unchanged |
| `Manager.LoadFirstWins` | src/lib.rs:67-75 | loading a tracked source returns its existing dst, leaves the map and the handle counter unchanged, and keeps the first `res` |
| `Manager.LoadFresh` | src/lib.rs:69-73 | loading an untracked source inserts `{src, dst, res}` with one newly reserved dst, distinct from every dst in use |
| `Manager.Load` | src/lib.rs:67-75 | after a load the requested source has an entry, and the id returned is that entry's destination; `LoadFirstWins` and `LoadFresh` give the two branches of `entry().or_insert_with` |
| `Manager.LoadPreservesValid` | src/lib.rs:67-75 | loading keeps entries keyed by their source and dsts pairwise distinct and below the handle counter |
| `Manager.LoadAll` | src/lib.rs:60-76 | a sequence of loads returns one dst per call |
| `Manager.LoadAllTracks` | src/lib.rs:60-76 | after a sequence of loads every requested source is tracked with the dst its call returned, and earlier entries survive |
| `Manager.SameDstIffSameSource` | src/lib.rs:67-73 | two calls in a sequence return the same dst exactly when they name the same source |
| `Manager.AddedPublishes` | src/lib.rs:35-41 | `Added{id}` for a tracked id stores the conversion of its source at its dst and changes no other image; untracked, it changes nothing; the map is never modified |
| `Manager.RemovalDropsEntry` | src/lib.rs:42-44 | `Unused{id}` or `Removed{id}` deletes exactly key `id`, keeps every other entry, and touches no image |
| `Manager.Step` | src/lib.rs:35-44 | one event never adds or changes an entry of the map, and never removes an image from the store; `AddedPublishes` and `RemovalDropsEntry` give the two branches |
| `Manager.ApplyAll` | src/lib.rs:34-45 | a batch of events never removes an image from the store |
| `Manager.ApplyAllShrinks` | src/lib.rs:29-46 | a batch of events only removes entries (the result is a submap) and keeps the map valid |
| `Manager.ApplyAllWritesOnlyTrackedDsts` | src/lib.rs:34-45 | a batch of events changes the image store only at dsts of entries tracked when it starts |
| `Manager.CancelledPublishesNothing` | src/lib.rs:34-45 | after `Unused{id}` or `Removed{id}`, no later event of the batch publishes anything at that entry's dst, a later `Added{id}` included |
| `Manager.EquirectManager.constructor` | src/lib.rs:78-88 | a new manager has an empty map and a valid state |
| `Manager.EquirectManager.ReserveHandle` | src/lib.rs:71 | reserving a handle returns the counter and advances it by one |
| `Manager.EquirectManager.LoadEquirectAsCubemap` | src/lib.rs:60-76 | the method's new state and result equal `Load` of the old state, and it keeps the manager valid |
| `Manager.ApplyEquirect` | src/lib.rs:29-46 | the event loop's final map and image store equal `ApplyAll` of the batch, and it keeps the manager valid |

## Left out

- `get_angles_from_xyz` (src/convert.rs:65-70) and the `floor(u * w)` sampling (src/convert.rs:44-45): these are `f32` computations (normalise, atan2, asin). They are replaced by the abstract `Sampler`, and `SamplesInBounds` is a precondition.
- Out-of-range sampling: `u` or `v` can be exactly 1.0, and the model takes both cases out by the precondition `SamplesInBounds`. With odd `res`, the centre pixel of face Y has direction (0, 1, 0), so `v` is 1.0 and `py = floor(1.0 * h) = h` indexes past the source. Face Y is in `ALL`, so with odd `res` every call of `cubemap_from_equirectangular` panics. On face Z at odd `res`, the centre column has theta = atan2(+0, -z) = π, so `u` is 1.0 and `px = w`. The offset `py * w * bpp + w * bpp` then reads the first pixel of the next source row without any error; it panics only when `py = h - 1`. Neither the panic nor the wrong pixel is modelled.
- `Convert.UvFromAngles`: written over reals, with the exact value of Rust's `f32::consts::PI` (0x40490FDB, 3.1415927410125732421875); `f32` rounding of the division and addition is not modelled.
- `Convert.XyzFromPixelCoords`, `Convert.PixelOffset`: real arithmetic idealises the `f32` division. The `res < 2` case (a division by zero, or `u32` underflow of `res - 1`) is a precondition.
- `u32` overflow of `face_size`, `out_size` and the byte offsets (src/lib.rs:92-93, src/convert.rs:38, 46-47): the model uses unbounded naturals. `FaceInput` and `Convertible` require the sizes to fit in `u32`; wrap-around is not modelled.
- `unwrap()` on a missing source image or missing pixel data (src/lib.rs:38, 99): both are preconditions (`StepDefined`, `Convertible`), not panics.
- `Plugin::build` (src/lib.rs:21-27): system scheduling is Bevy's. `FromWorld` is modelled only as the constructor; reading resources from the world is left out.
- `AssetServer::load`: the source id it returns is an input of `LoadEquirectAsCubemap`. Path resolution and asynchronous loading belong to Bevy.
- `AssetHandleProvider::reserve_handle` is a counter. `Handle` reference counting, and `Unused` events it may cause, are not modelled.
- `Image::new`: the image is a record of the fields the conversion sets. Bevy's own checks inside `Image::new`, and view-descriptor fields left at their defaults, are not modelled.
- `EventReader`: the events of one run of the system are a sequence. Cursor state across runs is Bevy's.
- `examples/runtime.rs`, `examples/minimal.rs`: application glue (command-line arguments, camera and skybox setup).
- Concurrency: the source has none in this logic, and ECS scheduling belongs to the host.
