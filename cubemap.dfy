/** Model of `cubemap_from_equirectangular` in `src/lib.rs`: six faces,
    each generated by `gen_face`, copied into one buffer at the slot of
    their layer, and wrapped in an image described as a cube map. */
module Cubemap {
  import opened Convert

  datatype Option<T> = None | Some(value: T)

  datatype Extent3d = Extent3d(width: nat, height: nat, depthOrArrayLayers: nat)

  datatype TextureDimension = D1 | D2 | D3

  datatype TextureViewDimension = D1 | D2 | D2Array | Cube | CubeArray | D3

  /** The one field of the view descriptor the conversion sets; every other
      field keeps its default. */
  datatype TextureViewDescriptor = TextureViewDescriptor(dimension: Option<TextureViewDimension>)

  datatype RenderAssetUsages = MainWorld | RenderWorld | MainAndRenderWorld

  /** The parts of an image the conversion reads or writes. */
  datatype Image = Image(
    size: Extent3d,
    dimension: TextureDimension,
    format: TextureFormat,
    data: Option<seq<u8>>,
    usage: RenderAssetUsages,
    textureViewDescriptor: Option<TextureViewDescriptor>)
  {
    function Width(): nat { size.width }
    function Height(): nat { size.height }
    function PixelSize(): nat { format.pixelSize }
  }

  /** Bytes in one face of a cube map of resolution `res`. */
  function FaceSize(res: nat, bpp: nat): nat {
    res * res * bpp
  }

  /** What the conversion needs of its source: pixel data present (the
      source unwraps it), exactly width * height * bpp bytes of it, an
      in-bounds sampler on every side, and sizes within `u32`. */
  predicate Convertible(equirect: Image, res: nat, sample: Sampler) {
    equirect.data.Some? &&
    SourceFits(equirect.data.value, equirect.Width(), equirect.Height(), equirect.PixelSize(), res, sample)
  }

  predicate SourceFits(data: seq<u8>, width: nat, height: nat, bpp: nat, res: nat, sample: Sampler) {
    && |data| == width * height * bpp
    && |data| < U32_LIMIT
    && 6 * FaceSize(res, bpp) < U32_LIMIT
    && forall side: CubeSide :: SamplesInBounds(sample, side, res, width, height)
  }

  lemma ConvertibleFace(equirect: Image, res: nat, sample: Sampler, side: CubeSide)
    requires Convertible(equirect, res, sample)
    ensures FaceInput(side, equirect.Width(), equirect.Height(), equirect.data.value, res,
                      equirect.PixelSize(), sample)
  {
  }

  /** The face `gen_face` produces for `side` from this source. */
  function Face(equirect: Image, res: nat, sample: Sampler, side: CubeSide): (face: seq<u8>)
    requires Convertible(equirect, res, sample)
    ensures |face| == FaceSize(res, equirect.PixelSize())
  {
    ConvertibleFace(equirect, res, sample, side);
    FaceBytes(side, equirect.Width(), equirect.Height(), equirect.data.value, res, equirect.PixelSize(), sample)
  }

  // ---------------------------------------------------------------------
  // The cube map's data, as a value

  /** The faces in layer order: entry `k` is the face of the side whose
      index is `k`. */
  function Faces(equirect: Image, res: nat, sample: Sampler): (faces: seq<seq<u8>>)
    requires Convertible(equirect, res, sample)
    ensures |faces| == 6 && Uniform(faces, FaceSize(res, equirect.PixelSize()))
    ensures forall k :: 0 <= k < 6 ==> faces[k] == Face(equirect, res, sample, SideAtLayer(k))
  {
    seq(6, k requires 0 <= k < 6 => Face(equirect, res, sample, SideAtLayer(k)))
  }

  /** The pixel data of the cube map: the six faces in layer order. */
  function CubemapData(equirect: Image, res: nat, sample: Sampler): (data: seq<u8>)
    requires Convertible(equirect, res, sample)
    ensures |data| == 6 * FaceSize(res, equirect.PixelSize())
  {
    ConcatLength(Faces(equirect, res, sample), FaceSize(res, equirect.PixelSize()));
    Concat(Faces(equirect, res, sample))
  }

  /** The image `cubemap_from_equirectangular` returns. */
  function CubemapImage(equirect: Image, res: nat, sample: Sampler): (image: Image)
    requires Convertible(equirect, res, sample)
    ensures image.Width() == res && image.Height() == res && image.size.depthOrArrayLayers == 6
    ensures image.dimension == TextureDimension.D2 && image.format == equirect.format
    ensures image.data.Some? && |image.data.value| == 6 * FaceSize(res, image.PixelSize())
    ensures image.textureViewDescriptor == Some(TextureViewDescriptor(Some(TextureViewDimension.Cube)))
  {
    Image(Extent3d(res, res, 6), TextureDimension.D2, equirect.format,
          Some(CubemapData(equirect, res, sample)), RenderWorld,
          Some(TextureViewDescriptor(Some(TextureViewDimension.Cube))))
  }

  // ---------------------------------------------------------------------
  // Buffers made of equal-sized blocks

  /** The blocks, one after another. */
  function Concat(blocks: seq<seq<u8>>): seq<u8>
  {
    if blocks == [] then [] else blocks[0] + Concat(blocks[1..])
  }

  /** Every block has `n` bytes. */
  predicate Uniform(blocks: seq<seq<u8>>, n: nat) {
    forall k :: 0 <= k < |blocks| ==> |blocks[k]| == n
  }

  lemma {:induction false} ConcatLength(blocks: seq<seq<u8>>, n: nat)
    requires Uniform(blocks, n)
    ensures |Concat(blocks)| == |blocks| * n
  {
    if blocks != [] {
      ConcatLength(blocks[1..], n);
    }
  }

  /** Dropping the bytes of the first `m` blocks leaves the other blocks. */
  lemma {:induction false} ConcatDrop(blocks: seq<seq<u8>>, n: nat, m: nat)
    requires Uniform(blocks, n) && m <= |blocks|
    ensures n * m <= |Concat(blocks)| && Concat(blocks)[n * m ..] == Concat(blocks[m ..])
  {
    ConcatLength(blocks, n);
    MulMonotone(m, |blocks|, n);
    if m == 0 {
      assert blocks[0 ..] == blocks;
    } else {
      var rest := blocks[1..];
      ConcatDrop(rest, n, m - 1);
      assert rest[m - 1 ..] == blocks[m ..];
      assert n * m == n + n * (m - 1);
      DropAppend(blocks[0], Concat(rest), n * (m - 1));
    }
  }

  lemma DropAppend(a: seq<u8>, b: seq<u8>, t: nat)
    requires t <= |b|
    ensures (a + b)[|a| + t ..] == b[t ..]
  {
  }

  /** The `n` bytes from `n * k` on are block `k`. */
  lemma ConcatBlock(blocks: seq<seq<u8>>, n: nat, k: nat)
    requires Uniform(blocks, n) && k < |blocks|
    ensures n * k + n <= |Concat(blocks)| && Concat(blocks)[n * k .. n * k + n] == blocks[k]
  {
    ConcatDrop(blocks, n, k);
    var rest := blocks[k ..];
    assert Concat(rest) == blocks[k] + Concat(rest[1..]);
    TakeOfDrop(Concat(blocks), n * k, n);
  }

  lemma TakeOfDrop(a: seq<u8>, i: nat, n: nat)
    requires i <= |a| && n <= |a[i ..]|
    ensures i + n <= |a| && a[i .. i + n] == a[i ..][.. n]
  {
  }

  /** A buffer whose every block-sized slice is the matching block is the
      concatenation of the blocks. */
  lemma {:induction false} ConcatOfBlocks(out: seq<u8>, blocks: seq<seq<u8>>, n: nat)
    requires Uniform(blocks, n) && |out| == |blocks| * n
    requires forall k :: 0 <= k < |blocks| ==> n * k + n <= |out| && out[n * k .. n * k + n] == blocks[k]
    ensures out == Concat(blocks)
  {
    if blocks != [] {
      var rest := blocks[1..];
      assert |out| == n + |rest| * n;
      var tail := out[n ..];
      forall k | 0 <= k < |rest| ensures n * k + n <= |tail| && tail[n * k .. n * k + n] == rest[k] {
        assert n * (k + 1) == n + n * k;
        assert n * (k + 1) + n <= |out| && out[n * (k + 1) .. n * (k + 1) + n] == blocks[k + 1];
        SliceOfDrop(out, n, n * k, n * k + n);
      }
      ConcatOfBlocks(tail, rest, n);
      assert out[n * 0 .. n * 0 + n] == blocks[0];
      assert out == out[.. n] + tail;
    }
  }

  lemma SliceOfDrop(a: seq<u8>, i: nat, lo: nat, hi: nat)
    requires lo <= hi && i + hi <= |a|
    ensures a[i ..][lo .. hi] == a[i + lo .. i + hi]
  {
  }

  /** The slot of layer `k` in a buffer of six faces of `faceSize` bytes. */
  function Slot(buf: seq<u8>, faceSize: nat, k: nat): (r: seq<u8>)
    requires k < 6 && |buf| == 6 * faceSize
    ensures |r| == faceSize
  {
    SlotInBounds(faceSize, k);
    buf[faceSize * k .. faceSize * k + faceSize]
  }

  lemma SlotInBounds(faceSize: nat, k: nat)
    requires k < 6
    ensures faceSize * k + faceSize <= 6 * faceSize
  {
    MulMonotone(k + 1, 6, faceSize);
  }

  /** Layer `k` of the cube map is the face of the side whose index is `k`. */
  lemma CubemapLayer(equirect: Image, res: nat, sample: Sampler, k: nat)
    requires Convertible(equirect, res, sample) && k < 6
    ensures Slot(CubemapData(equirect, res, sample), FaceSize(res, equirect.PixelSize()), k) ==
              Face(equirect, res, sample, SideAtLayer(k))
  {
    ConcatBlock(Faces(equirect, res, sample), FaceSize(res, equirect.PixelSize()), k);
  }

  /** The slot of `side` in the cube map holds that side's face. */
  lemma CubemapSlot(equirect: Image, res: nat, sample: Sampler, side: CubeSide)
    requires Convertible(equirect, res, sample)
    ensures GenFaceInSlot(CubemapData(equirect, res, sample), equirect, res, sample, side)
  {
    CubemapIndexBijective();
    CubemapLayer(equirect, res, sample, CubemapIndex(side));
  }

  /** End to end: the bytes of pixel (x, y) on `side` of the cube map are
      the bytes of the source pixel the sampler picks for it. */
  lemma CubemapPixel(equirect: Image, res: nat, sample: Sampler, side: CubeSide, x: nat, y: nat)
    requires Convertible(equirect, res, sample)
    requires x < res && y < res
    ensures var bpp := equirect.PixelSize();
            var o := FaceSize(res, bpp) * CubemapIndex(side) + DestOffset(x, y, res, bpp);
            var s := SourceOffset(sample(side, x, y, res, equirect.Width(), equirect.Height()), equirect.Width(), bpp);
            o + bpp <= 6 * FaceSize(res, bpp) && s + bpp <= |equirect.data.value| &&
            CubemapData(equirect, res, sample)[o .. o + bpp] == equirect.data.value[s .. s + bpp]
  {
    CubemapSlot(equirect, res, sample, side);
    SlotPixel(CubemapData(equirect, res, sample), equirect, res, sample, side, x, y);
  }

  /** In any buffer whose slot of `side` holds that side's face, pixel (x, y)
      of the slot holds the bytes of the sampled source pixel. */
  lemma SlotPixel(data: seq<u8>, equirect: Image, res: nat, sample: Sampler, side: CubeSide, x: nat, y: nat)
    requires Convertible(equirect, res, sample)
    requires GenFaceInSlot(data, equirect, res, sample, side)
    requires x < res && y < res
    ensures var bpp := equirect.PixelSize();
            var o := FaceSize(res, bpp) * CubemapIndex(side) + DestOffset(x, y, res, bpp);
            var s := SourceOffset(sample(side, x, y, res, equirect.Width(), equirect.Height()), equirect.Width(), bpp);
            o + bpp <= 6 * FaceSize(res, bpp) && s + bpp <= |equirect.data.value| &&
            data[o .. o + bpp] == equirect.data.value[s .. s + bpp]
  {
    var bpp := equirect.PixelSize();
    var faceSize := FaceSize(res, bpp);
    var face := Face(equirect, res, sample, side);
    var src := equirect.data.value;
    var s := SourceOffset(sample(side, x, y, res, equirect.Width(), equirect.Height()), equirect.Width(), bpp);
    var d := DestOffset(x, y, res, bpp);
    assert s + bpp <= |src| && d + bpp <= faceSize && face[d .. d + bpp] == src[s .. s + bpp] by {
      ConvertibleFace(equirect, res, sample, side);
      FacePixel(side, equirect.Width(), equirect.Height(), src, res, bpp, sample, x, y);
    }
    SlotInBounds(faceSize, CubemapIndex(side));
    SliceOfSlice(data, face, src, faceSize * CubemapIndex(side), faceSize, d, s, bpp);
  }

  /** A slice of a slice is a slice of the whole: if `a` holds `b` at
      `base`, and `b` holds a copy of `c[s .. s + m]` at `d`, then so does `a`
      at `base + d`. */
  lemma SliceOfSlice(a: seq<u8>, b: seq<u8>, c: seq<u8>, base: nat, n: nat, d: nat, s: nat, m: nat)
    requires base + n <= |a| && a[base .. base + n] == b
    requires d + m <= n && s + m <= |c| && b[d .. d + m] == c[s .. s + m]
    ensures base + d + m <= |a| && a[base + d .. base + d + m] == c[s .. s + m]
  {
    forall i | d <= i < d + m ensures a[base + i] == b[i] {
      assert a[base .. base + n][i] == a[base + i];
    }
    assert a[base + d .. base + d + m] == b[d .. d + m];
  }

  // ---------------------------------------------------------------------
  // The assembly loop

  /** The slot of every side in `sides` holds that side's face. */
  predicate SlotsDone(out: seq<u8>, equirect: Image, res: nat, sample: Sampler, sides: seq<CubeSide>)
    requires Convertible(equirect, res, sample)
  {
    && |out| == 6 * FaceSize(res, equirect.PixelSize())
    && forall side :: side in sides ==> GenFaceInSlot(out, equirect, res, sample, side)
  }

  /** The slots of two different layers do not overlap. */
  lemma SlotsDisjoint(faceSize: nat, k: nat, l: nat)
    requires k < l
    ensures faceSize * k + faceSize <= faceSize * l
  {
    MulMonotone(k + 1, l, faceSize);
  }

  /** Writing over `[at, at + |src|)` leaves a slice outside it unchanged. */
  lemma SplicedElsewhere(buf: seq<u8>, at: nat, src: seq<u8>, c: nat, n: nat)
    requires at + |src| <= |buf| && c + n <= |buf|
    requires c + n <= at || at + |src| <= c
    ensures Spliced(buf, at, src)[c .. c + n] == buf[c .. c + n]
  {
    var r := Spliced(buf, at, src);
    forall i | c <= i < c + n ensures r[i] == buf[i] {
    }
  }

  lemma SplicedHere(buf: seq<u8>, at: nat, src: seq<u8>)
    requires at + |src| <= |buf|
    ensures Spliced(buf, at, src)[at .. at + |src|] == src
  {
    var r := Spliced(buf, at, src);
    forall i | at <= i < at + |src| ensures r[i] == src[i - at] {
    }
  }

  /** Copying the face of `side` into its slot adds `side` to the finished
      sides and keeps every other finished slot. */
  lemma SlotCopyKeepsDone(before: seq<u8>, equirect: Image, res: nat, sample: Sampler,
                          sides: seq<CubeSide>, side: CubeSide)
    requires Convertible(equirect, res, sample)
    requires SlotsDone(before, equirect, res, sample, sides)
    ensures FaceSize(res, equirect.PixelSize()) * CubemapIndex(side) + FaceSize(res, equirect.PixelSize()) <= |before|
    ensures SlotsDone(Spliced(before, FaceSize(res, equirect.PixelSize()) * CubemapIndex(side),
                              Face(equirect, res, sample, side)),
                      equirect, res, sample, sides + [side])
  {
    var faceSize := FaceSize(res, equirect.PixelSize());
    var at := faceSize * CubemapIndex(side);
    var face := Face(equirect, res, sample, side);
    SlotInBounds(faceSize, CubemapIndex(side));
    var after := Spliced(before, at, face);
    forall other | other in sides + [side] ensures GenFaceInSlot(after, equirect, res, sample, other) {
      var c := faceSize * CubemapIndex(other);
      SlotInBounds(faceSize, CubemapIndex(other));
      if other == side {
        SplicedHere(before, at, face);
      } else {
        assert other in sides;
        CubemapIndexBijective();
        if CubemapIndex(other) < CubemapIndex(side) {
          SlotsDisjoint(faceSize, CubemapIndex(other), CubemapIndex(side));
        } else {
          SlotsDisjoint(faceSize, CubemapIndex(side), CubemapIndex(other));
        }
        SplicedElsewhere(before, at, face, c, faceSize);
      }
    }
  }

  /** Once every side of `ALL` is in its slot, the buffer is the cube map. */
  lemma AllSlotsDone(out: seq<u8>, equirect: Image, res: nat, sample: Sampler)
    requires Convertible(equirect, res, sample)
    requires SlotsDone(out, equirect, res, sample, ALL)
    ensures out == CubemapData(equirect, res, sample)
  {
    var faceSize := FaceSize(res, equirect.PixelSize());
    var faces := Faces(equirect, res, sample);
    forall k | 0 <= k < 6 ensures faceSize * k + faceSize <= |out| && out[faceSize * k .. faceSize * k + faceSize] == faces[k] {
      AllCoversEveryLayer();
      CubemapIndexBijective();
      assert GenFaceInSlot(out, equirect, res, sample, SideAtLayer(k));
      SlotInBounds(faceSize, k);
    }
    ConcatOfBlocks(out, faces, faceSize);
  }

  /** `cubemap_from_equirectangular`: for each side of `CubeSide::ALL`,
      generate its face and copy it into the slot of its layer; then build a
      `res` x `res` image of 6 layers, 2D, in the source's format, viewed as
      a cube map. */
  method CubemapFromEquirectangular(equirect: Image, cubemapRes: nat, sample: Sampler) returns (image: Image)
    requires Convertible(equirect, cubemapRes, sample)
    ensures image == CubemapImage(equirect, cubemapRes, sample)
    ensures image.Width() == cubemapRes && image.Height() == cubemapRes
    ensures image.size.depthOrArrayLayers == 6 && image.dimension == TextureDimension.D2
    ensures image.format == equirect.format
    ensures image.textureViewDescriptor == Some(TextureViewDescriptor(Some(TextureViewDimension.Cube)))
    ensures image.data.Some? && |image.data.value| == 6 * FaceSize(cubemapRes, equirect.PixelSize())
    ensures forall side: CubeSide :: GenFaceInSlot(image.data.value, equirect, cubemapRes, sample, side)
  {
    var format := equirect.format;
    var faceSize := cubemapRes * cubemapRes * format.pixelSize;
    var outSize := faceSize * 6;
    var out := new u8[outSize](_ => 0);
    for i := 0 to |ALL|
      invariant SlotsDone(out[..], equirect, cubemapRes, sample, ALL[..i])
    {
      var face := ALL[i];
      ConvertibleFace(equirect, cubemapRes, sample, face);
      var data := GenFace(face, equirect.Width(), equirect.Height(), equirect.data.value, cubemapRes, format, sample);
      var index := faceSize * CubemapIndex(face);
      assert data == Face(equirect, cubemapRes, sample, face);
      assert index == FaceSize(cubemapRes, equirect.PixelSize()) * CubemapIndex(face);
      ghost var before := out[..];
      SlotCopyKeepsDone(before, equirect, cubemapRes, sample, ALL[..i], face);
      CopyInto(out, index, data);
      assert ALL[..i + 1] == ALL[..i] + [face];
    }
    AllSlotsDone(out[..], equirect, cubemapRes, sample);
    image := Image(Extent3d(cubemapRes, cubemapRes, 6), TextureDimension.D2, format, Some(out[..]),
                   RenderWorld, Some(TextureViewDescriptor(Some(TextureViewDimension.Cube))));
    forall side: CubeSide ensures GenFaceInSlot(image.data.value, equirect, cubemapRes, sample, side) {
      CubemapSlot(equirect, cubemapRes, sample, side);
    }
  }

  /** The slot of `side` in `data` holds the face `gen_face` makes for it. */
  predicate GenFaceInSlot(data: seq<u8>, equirect: Image, res: nat, sample: Sampler, side: CubeSide)
    requires Convertible(equirect, res, sample)
  {
    && |data| == 6 * FaceSize(res, equirect.PixelSize())
    && Slot(data, FaceSize(res, equirect.PixelSize()), CubemapIndex(side)) == Face(equirect, res, sample, side)
  }
}
