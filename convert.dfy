/** Model of `src/convert.rs`: the six cube sides, their layer table, the
    face-direction formula, the UV map, and the per-face byte copy `gen_face`.

    The floating-point sampling step (normalise, atan2, asin, floor) is not
    modelled: it is a parameter `sample` that, for a side and a destination
    pixel, names the source pixel to copy. */
module Convert {

  /** A byte, as Rust's `u8`. */
  newtype u8 = x: int | 0 <= x < 256

  /** Exclusive upper bound of Rust's `u32`. */
  const U32_LIMIT: nat := 0x1_0000_0000

  /** The one attribute of a texture format the conversion uses: its pixel
      size in bytes. `tag` keeps distinct formats of one size distinct. */
  datatype TextureFormat = TextureFormat(tag: nat, pixelSize: nat)

  datatype CubeSide = X | NegX | Y | NegY | Z | NegZ

  /** `CubeSide::ALL`, in its declared order. */
  const ALL: seq<CubeSide> := [X, NegX, Y, NegY, Z, NegZ]

  lemma AllListsEverySideOnce()
    ensures |ALL| == 6
    ensures forall s: CubeSide :: s in ALL
    ensures forall i, j :: 0 <= i < j < |ALL| ==> ALL[i] != ALL[j]
  {
    forall s: CubeSide ensures s in ALL {
      match s
      case X => assert ALL[0] == s;
      case NegX => assert ALL[1] == s;
      case Y => assert ALL[2] == s;
      case NegY => assert ALL[3] == s;
      case Z => assert ALL[4] == s;
      case NegZ => assert ALL[5] == s;
    }
  }

  // ---------------------------------------------------------------------
  // Face-to-layer table

  /** `get_cubemap_index`: the array layer the side occupies. */
  function CubemapIndex(side: CubeSide): (r: nat)
    ensures r < 6
  {
    match side
    case X => 0
    case NegX => 1
    case NegY => 2
    case Y => 3
    case Z => 5
    case NegZ => 4
  }

  /** The side stored in layer `k`; the inverse table of `CubemapIndex`. */
  function SideAtLayer(k: nat): CubeSide
    requires k < 6
  {
    if k == 0 then X
    else if k == 1 then NegX
    else if k == 2 then NegY
    else if k == 3 then Y
    else if k == 4 then NegZ
    else Z
  }

  /** The layer table is a bijection from the six sides onto 0..5, with
      `SideAtLayer` its inverse. */
  lemma CubemapIndexBijective()
    ensures forall s: CubeSide :: SideAtLayer(CubemapIndex(s)) == s
    ensures forall k: nat :: k < 6 ==> CubemapIndex(SideAtLayer(k)) == k
    ensures forall a: CubeSide, b: CubeSide :: CubemapIndex(a) == CubemapIndex(b) ==> a == b
  {
    forall s: CubeSide ensures SideAtLayer(CubemapIndex(s)) == s {
      match s
      case X => case NegX => case Y => case NegY => case Z => case NegZ =>
    }
    forall k: nat | k < 6 ensures CubemapIndex(SideAtLayer(k)) == k {
      if k == 0 {} else if k == 1 {} else if k == 2 {} else if k == 3 {} else if k == 4 {} else {}
    }
    forall a: CubeSide, b: CubeSide | CubemapIndex(a) == CubemapIndex(b) ensures a == b {
      assert SideAtLayer(CubemapIndex(a)) == a;
      assert SideAtLayer(CubemapIndex(b)) == b;
    }
  }

  /** The declared order of `ALL` visits the layers 0, 1, 3, 2, 5, 4: every
      layer exactly once. */
  lemma AllCoversEveryLayer()
    ensures forall k: nat :: k < 6 ==> SideAtLayer(k) in ALL
    ensures forall i, j :: 0 <= i < j < |ALL| ==> CubemapIndex(ALL[i]) != CubemapIndex(ALL[j])
  {
    CubemapIndexBijective();
    AllListsEverySideOnce();
  }

  // ---------------------------------------------------------------------
  // Projection: face pixel -> direction (real-valued idealisation)

  datatype Vec3 = Vec3(x: real, y: real, z: real)
  datatype Vec2 = Vec2(x: real, y: real)

  /** The normalised offset `(pixel / (res - 1)) * 2 - 1` of one pixel
      coordinate. */
  function PixelOffset(pixel: nat, res: nat): (r: real)
    requires res >= 2
    ensures pixel < res ==> -1.0 <= r <= 1.0
    ensures pixel == 0 ==> r == -1.0
    ensures pixel == res - 1 ==> r == 1.0
    ensures res % 2 == 1 && pixel == (res - 1) / 2 ==> r == 0.0
  {
    var d := (res - 1) as real;
    var q := pixel as real / d;
    assert pixel < res ==> 0.0 <= q <= 1.0 by {
      if pixel < res {
        DivAtMostOne(pixel as real, d);
      }
    }
    assert pixel == res - 1 ==> q == 1.0 by {
      if pixel == res - 1 {
        DivSelf(d);
      }
    }
    assert res % 2 == 1 && pixel == (res - 1) / 2 ==> q == 0.5 by {
      if res % 2 == 1 && pixel == (res - 1) / 2 {
        CentreIsHalf(pixel, res);
        DivHalf(pixel as real, d);
      }
    }
    q * 2.0 - 1.0
  }

  lemma DivAtMostOne(a: real, d: real)
    requires 0.0 <= a <= d && d > 0.0
    ensures 0.0 <= a / d <= 1.0
  {
  }

  lemma DivSelf(d: real)
    requires d > 0.0
    ensures d / d == 1.0
  {
  }

  lemma DivHalf(a: real, d: real)
    requires d > 0.0 && a * 2.0 == d
    ensures a / d == 0.5
  {
  }

  lemma CentreIsHalf(pixel: nat, res: nat)
    requires res >= 2 && res % 2 == 1 && pixel == (res - 1) / 2
    ensures pixel as real * 2.0 == (res - 1) as real
  {
    assert pixel * 2 == res - 1;
  }

  /** `get_xyz_form_pixel_coords`: the unnormalised direction of a face pixel. */
  function XyzFromPixelCoords(side: CubeSide, pixelX: nat, pixelY: nat, res: nat): (v: Vec3)
    requires res >= 2
    ensures Component(v, DominantAxis(side)) == DominantSign(side)
  {
    var offsetX := PixelOffset(pixelX, res);
    var offsetY := PixelOffset(pixelY, res);
    match side
    case X => Vec3(1.0, offsetY, offsetX)
    case NegX => Vec3(-1.0, offsetY, -offsetX)
    case Y => Vec3(offsetX, 1.0, offsetY)
    case NegY => Vec3(offsetX, -1.0, offsetY)
    case Z => Vec3(offsetX, offsetY, 1.0)
    case NegZ => Vec3(-offsetX, offsetY, -1.0)
  }

  datatype Axis = AxisX | AxisY | AxisZ

  function Component(v: Vec3, a: Axis): real {
    match a
    case AxisX => v.x
    case AxisY => v.y
    case AxisZ => v.z
  }

  /** The axis a side faces along, and the sign of that direction. */
  function DominantAxis(side: CubeSide): Axis {
    match side
    case X => AxisX
    case NegX => AxisX
    case Y => AxisY
    case NegY => AxisY
    case Z => AxisZ
    case NegZ => AxisZ
  }

  function DominantSign(side: CubeSide): real {
    if side in {X, Y, Z} then 1.0 else -1.0
  }

  /** Every pixel of a face lies on that face of the cube [-1,1]^3: the
      dominant coordinate is fixed at +1 or -1, the other two are in [-1,1]. */
  lemma DirectionOnFace(side: CubeSide, pixelX: nat, pixelY: nat, res: nat)
    requires res >= 2 && pixelX < res && pixelY < res
    ensures Component(XyzFromPixelCoords(side, pixelX, pixelY, res), DominantAxis(side)) == DominantSign(side)
    ensures forall a: Axis :: a != DominantAxis(side) ==>
              -1.0 <= Component(XyzFromPixelCoords(side, pixelX, pixelY, res), a) <= 1.0
  {
  }

  /** The face's dominant axis and sign identify the side. */
  lemma DominantAxisIdentifiesSide(a: CubeSide, b: CubeSide)
    requires DominantAxis(a) == DominantAxis(b) && DominantSign(a) == DominantSign(b)
    ensures a == b
  {
  }

  /** For odd `res`, the centre pixel of a face points straight along the
      face's axis. */
  lemma FaceCentre(side: CubeSide, res: nat)
    requires res >= 2 && res % 2 == 1
    ensures var v := XyzFromPixelCoords(side, (res - 1) / 2, (res - 1) / 2, res);
            Component(v, DominantAxis(side)) == DominantSign(side) &&
            forall a: Axis :: a != DominantAxis(side) ==> Component(v, a) == 0.0
  {
  }

  /** Rust's `f32::consts::PI` (bit pattern 0x40490FDB), exactly, as a real. */
  const PI: real := 3.1415927410125732421875

  /** `get_uv_from_angles`: `angles` is (phi, theta); the result is (u, v). */
  function UvFromAngles(angles: Vec2): (uv: Vec2)
    ensures -PI <= angles.y <= PI ==> 0.0 <= uv.x <= 1.0
    ensures -PI / 2.0 <= angles.x <= PI / 2.0 ==> 0.0 <= uv.y <= 1.0
    ensures angles.y == -PI ==> uv.x == 0.0
    ensures angles.y == PI ==> uv.x == 1.0
    ensures angles.x == 0.0 ==> uv.y == 0.5
  {
    Vec2(angles.y / (2.0 * PI) + 0.5, angles.x / PI + 0.5)
  }

  // ---------------------------------------------------------------------
  // Sampling, abstracted

  datatype SourcePixel = SourcePixel(px: nat, py: nat)

  /** The source pixel chosen for destination pixel (x, y) of a side, given
      `res`, the source width and the source height. */
  type Sampler = (CubeSide, nat, nat, nat, nat, nat) -> SourcePixel

  /** The sampler never leaves the source image on this side. */
  predicate SamplesInBounds(sample: Sampler, side: CubeSide, res: nat, width: nat, height: nat) {
    forall x: nat, y: nat :: x < res && y < res ==>
      sample(side, x, y, res, width, height).px < width &&
      sample(side, x, y, res, width, height).py < height
  }

  /** What `gen_face` needs of its inputs: a source buffer of exactly
      width * height * bpp bytes, an in-bounds sampler, and sizes that the
      source's `u32` offsets can hold. */
  predicate FaceInput(side: CubeSide, width: nat, height: nat, data: seq<u8>, res: nat, bpp: nat, sample: Sampler) {
    && |data| == width * height * bpp
    && |data| < U32_LIMIT
    && res * res * bpp < U32_LIMIT
    && SamplesInBounds(sample, side, res, width, height)
  }

  // ---------------------------------------------------------------------
  // Byte layout of a face

  /** Byte offset of a source pixel (src/convert.rs:46): an in-row pixel's
      bytes lie inside the byte stripe of its row. */
  function SourceOffset(p: SourcePixel, width: nat, bpp: nat): (o: nat)
    ensures p.px < width ==> p.py * width * bpp <= o && o + bpp <= (p.py + 1) * width * bpp
  {
    if p.px < width then RowStripe(p.px, p.py, width, bpp); p.py * width * bpp + p.px * bpp
    else p.py * width * bpp + p.px * bpp
  }

  /** Byte offset of destination pixel (x, y) (src/convert.rs:47), inside the
      stripe of row y. */
  function DestOffset(x: nat, y: nat, res: nat, bpp: nat): (o: nat)
    ensures x < res ==> y * res * bpp <= o && o + bpp <= (y + 1) * res * bpp
  {
    if x < res then RowStripe(x, y, res, bpp); y * res * bpp + x * bpp
    else y * res * bpp + x * bpp
  }

  /** Pixel `x` of row `y` starts inside that row's stripe of `width * bpp`
      bytes and ends inside it. */
  lemma RowStripe(x: nat, y: nat, width: nat, bpp: nat)
    requires x < width
    ensures y * width * bpp + x * bpp + bpp <= (y + 1) * width * bpp
  {
    MulMonotone(x + 1, width, bpp);
    assert (y + 1) * width * bpp == y * width * bpp + width * bpp;
  }

  datatype Pixel = Pixel(x: nat, y: nat)

  /** The destination pixel whose bytes include byte `j` of a face. */
  function PixelOfByte(j: nat, res: nat, bpp: nat): Pixel {
    if res == 0 || bpp == 0 then Pixel(0, 0)
    else
      var p := NatDiv(j, bpp);
      Pixel(p % res, NatDiv(p, res))
  }

  /** Division of naturals, as the source's unsigned `/`. */
  function NatDiv(n: nat, d: nat): (q: nat)
    requires d > 0
    ensures q * d <= n < q * d + d
  {
    MulCancelLt(-1, n / d, d);
    n / d
  }

  lemma DivModOf(n: nat, d: nat, q: nat, r: nat)
    requires 0 < d && r < d && n == q * d + r
    ensures n / d == q && n % d == r
  {
    var q', r' := n / d, n % d;
    assert (q - q') * d == r' - r;
    MulCancelLt(q - q', 1, d);
    MulCancelLt(q' - q, 1, d);
  }

  lemma MulCancelLt(a: int, b: int, c: nat)
    requires a * c < b * c
    ensures a < b
  {
  }

  lemma MulMonotone(a: nat, b: nat, c: nat)
    requires a <= b
    ensures a * c <= b * c
  {
  }

  lemma PositiveFactors(a: nat, b: nat, c: nat)
    requires 0 < a * b * c
    ensures a > 0 && b > 0 && c > 0
  {
  }

  /** A source pixel inside the image has all its bytes inside the buffer. */
  lemma SourceSliceInBounds(p: SourcePixel, width: nat, height: nat, bpp: nat)
    requires p.px < width && p.py < height
    ensures SourceOffset(p, width, bpp) + bpp <= width * height * bpp
  {
    calc {
      SourceOffset(p, width, bpp) + bpp;
    ==
      (p.py * width + (p.px + 1)) * bpp;
    <= { MulMonotone(p.py * width + (p.px + 1), (p.py + 1) * width, bpp); }
      (p.py + 1) * width * bpp;
    <= { MulMonotone(p.py + 1, height, width * bpp); }
      height * (width * bpp);
    ==
      width * height * bpp;
    }
  }

  /** The bytes of an in-range destination pixel lie in the face buffer. */
  lemma DestSliceInBounds(res: nat, bpp: nat, x: nat, y: nat)
    requires x < res && y < res
    ensures DestOffset(x, y, res, bpp) + bpp <= res * res * bpp
  {
    SourceSliceInBounds(SourcePixel(x, y), res, res, bpp);
  }

  /** Byte `k` of destination pixel (x, y) is owned by (x, y), at offset `k`. */
  lemma ByteOwnership(res: nat, bpp: nat, x: nat, y: nat, k: nat)
    requires x < res && y < res && k < bpp
    ensures DestOffset(x, y, res, bpp) + k < res * res * bpp
    ensures PixelOfByte(DestOffset(x, y, res, bpp) + k, res, bpp) == Pixel(x, y)
    ensures (DestOffset(x, y, res, bpp) + k) % bpp == k
  {
    var p := y * res + x;
    var j := DestOffset(x, y, res, bpp) + k;
    assert j == p * bpp + k;
    DivModOf(j, bpp, p, k);
    DivModOf(p, res, y, x);
    DestSliceInBounds(res, bpp, x, y);
  }

  /** Every byte of the face belongs to one in-range pixel, at offset
      `j % bpp` of that pixel's range. */
  lemma ByteCovered(j: nat, res: nat, bpp: nat)
    requires j < res * res * bpp
    ensures res > 0 && bpp > 0
    ensures PixelOfByte(j, res, bpp).x < res && PixelOfByte(j, res, bpp).y < res
    ensures j == DestOffset(PixelOfByte(j, res, bpp).x, PixelOfByte(j, res, bpp).y, res, bpp) + j % bpp
  {
    PositiveFactors(res, res, bpp);
    var p := NatDiv(j, bpp);
    DivModOf(j, bpp, p, j - p * bpp);
    MulCancelLt(p, res * res, bpp);
    var row := NatDiv(p, res);
    var col := p - row * res;
    DivModOf(p, res, row, col);
    MulCancelLt(row, res, res);
    assert PixelOfByte(j, res, bpp) == Pixel(col, row);
    assert DestOffset(col, row, res, bpp) == (row * res + col) * bpp;
  }

  /** The byte ranges of the destination pixels are pairwise disjoint and
      cover the face: byte `j` belongs to (x, y) exactly when it lies in
      `[DestOffset(x, y), DestOffset(x, y) + bpp)`. */
  lemma PixelRangesTile(j: nat, res: nat, bpp: nat, x: nat, y: nat)
    requires j < res * res * bpp && x < res && y < res
    ensures PixelOfByte(j, res, bpp) == Pixel(x, y) <==>
              DestOffset(x, y, res, bpp) <= j < DestOffset(x, y, res, bpp) + bpp
    ensures PixelOfByte(j, res, bpp) == Pixel(x, y) ==> j % bpp == j - DestOffset(x, y, res, bpp)
  {
    ByteCovered(j, res, bpp);
    var o := DestOffset(x, y, res, bpp);
    if o <= j < o + bpp {
      ByteOwnership(res, bpp, x, y, j - o);
    }
  }

  /** `buf` with `src` written over it from offset `at` on: what
      `copy_from_slice` leaves in `buf[at .. at + |src|]`, the rest unchanged. */
  function Spliced(buf: seq<u8>, at: nat, src: seq<u8>): (r: seq<u8>)
    requires at + |src| <= |buf|
    ensures |r| == |buf|
    ensures forall j :: 0 <= j < |r| ==> r[j] == if at <= j < at + |src| then src[j - at] else buf[j]
  {
    buf[..at] + src + buf[at + |src| ..]
  }

  /** `out[at .. at + |src|].copy_from_slice(src)`. */
  method CopyInto(out: array<u8>, at: nat, src: seq<u8>)
    requires at + |src| <= out.Length
    modifies out
    ensures out[..] == Spliced(old(out[..]), at, src)
  {
    forall j | at <= j < at + |src| {
      out[j] := src[j - at];
    }
  }

  // ---------------------------------------------------------------------
  // The face, as a value

  /** Byte `j` of the face: byte `j % bpp` of the source pixel sampled for
      the destination pixel that owns `j`. */
  function FaceByte(side: CubeSide, width: nat, height: nat, data: seq<u8>, res: nat, bpp: nat,
                    sample: Sampler, j: nat): u8
    requires FaceInput(side, width, height, data, res, bpp, sample)
    requires j < res * res * bpp
  {
    ByteCovered(j, res, bpp);
    var p := PixelOfByte(j, res, bpp);
    var s := sample(side, p.x, p.y, res, width, height);
    SourceSliceInBounds(s, width, height, bpp);
    data[SourceOffset(s, width, bpp) + j % bpp]
  }

  /** The face buffer `gen_face` produces. */
  function FaceBytes(side: CubeSide, width: nat, height: nat, data: seq<u8>, res: nat, bpp: nat,
                     sample: Sampler): (face: seq<u8>)
    requires FaceInput(side, width, height, data, res, bpp, sample)
    ensures |face| == res * res * bpp
  {
    seq(res * res * bpp, j requires 0 <= j < res * res * bpp =>
      FaceByte(side, width, height, data, res, bpp, sample, j))
  }

  /** Byte `k` of destination pixel (x, y) is byte `k` of the source pixel
      the sampler picks for it; both positions are in bounds. */
  lemma FaceByteAt(side: CubeSide, width: nat, height: nat, data: seq<u8>, res: nat, bpp: nat,
                   sample: Sampler, x: nat, y: nat, k: nat)
    requires FaceInput(side, width, height, data, res, bpp, sample)
    requires x < res && y < res && k < bpp
    ensures SourceOffset(sample(side, x, y, res, width, height), width, bpp) + k < |data|
    ensures DestOffset(x, y, res, bpp) + k < res * res * bpp
    ensures FaceBytes(side, width, height, data, res, bpp, sample)[DestOffset(x, y, res, bpp) + k] ==
              data[SourceOffset(sample(side, x, y, res, width, height), width, bpp) + k]
  {
    var j := DestOffset(x, y, res, bpp) + k;
    ByteOwnership(res, bpp, x, y, k);
    SourceSliceInBounds(sample(side, x, y, res, width, height), width, height, bpp);
    assert FaceBytes(side, width, height, data, res, bpp, sample)[j] ==
             FaceByte(side, width, height, data, res, bpp, sample, j);
  }

  /** The `bpp` bytes of destination pixel (x, y) are a copy of the `bpp`
      bytes of the source pixel the sampler picks for it. */
  lemma FacePixel(side: CubeSide, width: nat, height: nat, data: seq<u8>, res: nat, bpp: nat,
                  sample: Sampler, x: nat, y: nat)
    requires FaceInput(side, width, height, data, res, bpp, sample)
    requires x < res && y < res
    ensures SourceOffset(sample(side, x, y, res, width, height), width, bpp) + bpp <= |data|
    ensures DestOffset(x, y, res, bpp) + bpp <= res * res * bpp
    ensures var s := SourceOffset(sample(side, x, y, res, width, height), width, bpp);
            var o := DestOffset(x, y, res, bpp);
            FaceBytes(side, width, height, data, res, bpp, sample)[o .. o + bpp] == data[s .. s + bpp]
  {
    var s := SourceOffset(sample(side, x, y, res, width, height), width, bpp);
    var o := DestOffset(x, y, res, bpp);
    var face := FaceBytes(side, width, height, data, res, bpp, sample);
    SourceSliceInBounds(sample(side, x, y, res, width, height), width, height, bpp);
    DestSliceInBounds(res, bpp, x, y);
    forall j | o <= j < o + bpp ensures face[j] == data[s + (j - o)] {
      FaceByteAt(side, width, height, data, res, bpp, sample, x, y, j - o);
    }
    assert face[o .. o + bpp] == data[s .. s + bpp];
  }

  // ---------------------------------------------------------------------
  // gen_face

  /** One iteration of `gen_face`'s loop: copy the bytes of the source pixel
      sampled for `p` into the bytes of `p` in `buf`. */
  function CopyPixel(buf: seq<u8>, p: Pixel, side: CubeSide, width: nat, height: nat, data: seq<u8>,
                     res: nat, bpp: nat, sample: Sampler): (r: seq<u8>)
    requires FaceInput(side, width, height, data, res, bpp, sample)
    requires |buf| == res * res * bpp && p.x < res && p.y < res
    ensures |r| == |buf|
  {
    var s := sample(side, p.x, p.y, res, width, height);
    var index := SourceOffset(s, width, bpp);
    SourceSliceInBounds(s, width, height, bpp);
    DestSliceInBounds(res, bpp, p.x, p.y);
    Spliced(buf, DestOffset(p.x, p.y, res, bpp), data[index .. index + bpp])
  }

  /** One iteration sets exactly the bytes of its pixel, each to its value in
      the finished face, and leaves every other byte as it was. */
  lemma CopyPixelAt(buf: seq<u8>, p: Pixel, side: CubeSide, width: nat, height: nat, data: seq<u8>,
                    res: nat, bpp: nat, sample: Sampler, j: nat)
    requires FaceInput(side, width, height, data, res, bpp, sample)
    requires |buf| == res * res * bpp && p.x < res && p.y < res && j < |buf|
    ensures CopyPixel(buf, p, side, width, height, data, res, bpp, sample)[j] ==
              if PixelOfByte(j, res, bpp) == p
              then FaceBytes(side, width, height, data, res, bpp, sample)[j]
              else buf[j]
  {
    var s := sample(side, p.x, p.y, res, width, height);
    var index := SourceOffset(s, width, bpp);
    var o := DestOffset(p.x, p.y, res, bpp);
    SourceSliceInBounds(s, width, height, bpp);
    DestSliceInBounds(res, bpp, p.x, p.y);
    var src := data[index .. index + bpp];
    var r := CopyPixel(buf, p, side, width, height, data, res, bpp, sample);
    assert r == Spliced(buf, o, src);
    if PixelOfByte(j, res, bpp) == p {
      assert o <= j < o + bpp by {
        PixelRangesTile(j, res, bpp, p.x, p.y);
      }
      assert r[j] == src[j - o];
      assert FaceBytes(side, width, height, data, res, bpp, sample)[j] == src[j - o] by {
        FaceByteAt(side, width, height, data, res, bpp, sample, p.x, p.y, j - o);
      }
    } else {
      assert !(o <= j < o + bpp) by {
        PixelRangesTile(j, res, bpp, p.x, p.y);
      }
      assert r[j] == buf[j];
    }
  }

  /** `CubeSide::gen_face`: a zeroed buffer of `res * res * bpp` bytes; for
      each x, then each y, copy the bytes of the sampled source pixel into
      destination pixel (x, y). */
  method GenFace(side: CubeSide, width: nat, height: nat, data: seq<u8>, res: nat,
                 format: TextureFormat, sample: Sampler) returns (face: seq<u8>)
    requires FaceInput(side, width, height, data, res, format.pixelSize, sample)
    ensures face == FaceBytes(side, width, height, data, res, format.pixelSize, sample)
  {
    var bpp := format.pixelSize;
    var outSize := res * res * bpp;
    var out := new u8[outSize](_ => 0);
    var x := 0;
    while x < res
      invariant 0 <= x <= res
      invariant DoneBefore(out[..], side, width, height, data, res, bpp, sample, x, 0)
    {
      var y := 0;
      while y < res
        invariant 0 <= y <= res
        invariant DoneBefore(out[..], side, width, height, data, res, bpp, sample, x, y)
      {
        ghost var before := out[..];
        GenFacePixel(out, side, width, height, data, res, bpp, sample, x, y);
        CopyPixelKeepsDone(before, side, width, height, data, res, bpp, sample, x, y);
        y := y + 1;
      }
      DoneNextColumn(out[..], side, width, height, data, res, bpp, sample, x);
      x := x + 1;
    }
    DoneAll(out[..], side, width, height, data, res, bpp, sample);
    face := out[..];
  }

  /** The body of `gen_face`'s loop for destination pixel (x, y): sample a
      source pixel and copy its bytes into those of (x, y). */
  method GenFacePixel(out: array<u8>, side: CubeSide, width: nat, height: nat, data: seq<u8>,
                      res: nat, bpp: nat, sample: Sampler, x: nat, y: nat)
    requires FaceInput(side, width, height, data, res, bpp, sample)
    requires out.Length == res * res * bpp && x < res && y < res
    modifies out
    ensures out[..] == CopyPixel(old(out[..]), Pixel(x, y), side, width, height, data, res, bpp, sample)
  {
    var p := sample(side, x, y, res, width, height);
    var index := SourceOffset(p, width, bpp);
    var outIndex := DestOffset(x, y, res, bpp);
    SourceSliceInBounds(p, width, height, bpp);
    DestSliceInBounds(res, bpp, x, y);
    CopyInto(out, outIndex, data[index .. index + bpp]);
  }

  /** Pixel `p` is visited before (x, y) by a loop over x, then y. */
  predicate Before(p: Pixel, x: nat, y: nat) {
    p.x < x || (p.x == x && p.y < y)
  }

  /** Every byte of a pixel visited before (x, y) holds its value in the
      finished face. */
  predicate DoneBefore(out: seq<u8>, side: CubeSide, width: nat, height: nat, data: seq<u8>,
                       res: nat, bpp: nat, sample: Sampler, x: nat, y: nat)
    requires FaceInput(side, width, height, data, res, bpp, sample)
  {
    && |out| == res * res * bpp
    && forall j :: 0 <= j < |out| && Before(PixelOfByte(j, res, bpp), x, y) ==>
         out[j] == FaceBytes(side, width, height, data, res, bpp, sample)[j]
  }

  /** The loop body for (x, y) extends the finished part by that pixel. */
  lemma CopyPixelKeepsDone(before: seq<u8>, side: CubeSide, width: nat, height: nat, data: seq<u8>,
                           res: nat, bpp: nat, sample: Sampler, x: nat, y: nat)
    requires FaceInput(side, width, height, data, res, bpp, sample)
    requires x < res && y < res
    requires DoneBefore(before, side, width, height, data, res, bpp, sample, x, y)
    ensures DoneBefore(CopyPixel(before, Pixel(x, y), side, width, height, data, res, bpp, sample),
                       side, width, height, data, res, bpp, sample, x, y + 1)
  {
    var after := CopyPixel(before, Pixel(x, y), side, width, height, data, res, bpp, sample);
    forall j | 0 <= j < |after| && Before(PixelOfByte(j, res, bpp), x, y + 1)
      ensures after[j] == FaceBytes(side, width, height, data, res, bpp, sample)[j]
    {
      CopyPixelAt(before, Pixel(x, y), side, width, height, data, res, bpp, sample, j);
    }
  }

  lemma DoneNextColumn(out: seq<u8>, side: CubeSide, width: nat, height: nat, data: seq<u8>,
                       res: nat, bpp: nat, sample: Sampler, x: nat)
    requires FaceInput(side, width, height, data, res, bpp, sample)
    requires DoneBefore(out, side, width, height, data, res, bpp, sample, x, res)
    ensures DoneBefore(out, side, width, height, data, res, bpp, sample, x + 1, 0)
  {
    forall j | 0 <= j < |out| && Before(PixelOfByte(j, res, bpp), x + 1, 0)
      ensures out[j] == FaceBytes(side, width, height, data, res, bpp, sample)[j]
    {
      ByteCovered(j, res, bpp);
    }
  }

  lemma DoneAll(out: seq<u8>, side: CubeSide, width: nat, height: nat, data: seq<u8>,
                res: nat, bpp: nat, sample: Sampler)
    requires FaceInput(side, width, height, data, res, bpp, sample)
    requires DoneBefore(out, side, width, height, data, res, bpp, sample, res, 0)
    ensures out == FaceBytes(side, width, height, data, res, bpp, sample)
  {
    var face := FaceBytes(side, width, height, data, res, bpp, sample);
    forall j | 0 <= j < |out| ensures out[j] == face[j] {
      ByteCovered(j, res, bpp);
    }
  }

  // ---------------------------------------------------------------------
  // Order independence

  /** Run the loop body for each pixel of `order`, in that order. */
  function Paint(buf: seq<u8>, order: seq<Pixel>, side: CubeSide, width: nat, height: nat, data: seq<u8>,
                 res: nat, bpp: nat, sample: Sampler): (r: seq<u8>)
    requires FaceInput(side, width, height, data, res, bpp, sample)
    requires |buf| == res * res * bpp
    requires forall i :: 0 <= i < |order| ==> order[i].x < res && order[i].y < res
    ensures |r| == |buf|
    decreases |order|
  {
    if order == [] then buf
    else Paint(CopyPixel(buf, order[0], side, width, height, data, res, bpp, sample), order[1..],
               side, width, height, data, res, bpp, sample)
  }

  /** After painting in any order, a byte holds its face value if its pixel
      was painted, and its old value otherwise. */
  lemma {:induction false} PaintAt(buf: seq<u8>, order: seq<Pixel>, side: CubeSide, width: nat, height: nat,
                                   data: seq<u8>, res: nat, bpp: nat, sample: Sampler, j: nat)
    requires FaceInput(side, width, height, data, res, bpp, sample)
    requires |buf| == res * res * bpp
    requires forall i :: 0 <= i < |order| ==> order[i].x < res && order[i].y < res
    requires j < |buf|
    ensures Paint(buf, order, side, width, height, data, res, bpp, sample)[j] ==
              if PixelOfByte(j, res, bpp) in order
              then FaceBytes(side, width, height, data, res, bpp, sample)[j]
              else buf[j]
    decreases |order|
  {
    if order != [] {
      var p := order[0];
      var buf' := CopyPixel(buf, p, side, width, height, data, res, bpp, sample);
      PaintAt(buf', order[1..], side, width, height, data, res, bpp, sample, j);
      CopyPixelAt(buf, p, side, width, height, data, res, bpp, sample, j);
      assert order == [p] + order[1..];
    }
  }

  /** The face does not depend on the order the pixels are visited in: any
      order that visits every pixel, from any starting buffer, yields it. */
  lemma PaintOrderIndependent(buf: seq<u8>, order: seq<Pixel>, side: CubeSide, width: nat, height: nat,
                              data: seq<u8>, res: nat, bpp: nat, sample: Sampler)
    requires FaceInput(side, width, height, data, res, bpp, sample)
    requires |buf| == res * res * bpp
    requires forall i :: 0 <= i < |order| ==> order[i].x < res && order[i].y < res
    requires forall x: nat, y: nat :: x < res && y < res ==> Pixel(x, y) in order
    ensures Paint(buf, order, side, width, height, data, res, bpp, sample) ==
              FaceBytes(side, width, height, data, res, bpp, sample)
  {
    var r := Paint(buf, order, side, width, height, data, res, bpp, sample);
    forall j | 0 <= j < |buf| ensures r[j] == FaceBytes(side, width, height, data, res, bpp, sample)[j] {
      ByteCovered(j, res, bpp);
      PaintAt(buf, order, side, width, height, data, res, bpp, sample, j);
    }
  }

  /** The visiting order of `gen_face`'s loop: x outer, y inner. */
  function LoopOrder(res: nat): (order: seq<Pixel>)
    ensures |order| == res * res
    ensures forall i :: 0 <= i < |order| ==> order[i].x < res && order[i].y < res
  {
    var order := seq(res * res, i requires 0 <= i < res * res => Pixel(i / res, i % res));
    assert forall i :: 0 <= i < |order| ==> order[i].x < res && order[i].y < res by {
      forall i | 0 <= i < |order| ensures order[i].x < res && order[i].y < res {
        StepInRange(res, i);
      }
    }
    order
  }

  lemma StepInRange(res: nat, i: nat)
    requires i < res * res
    ensures i / res < res && i % res < res
  {
    PositiveFactors(res, res, 1);
    assert (i / res) * res <= i;
    MulCancelLt(i / res, res, res);
  }

  /** That order visits every pixel exactly once: every pixel occurs in it
      (at step `x * res + y`, by `LoopOrderStep`) and no two steps coincide. */
  lemma LoopOrderVisitsEachPixelOnce(res: nat)
    ensures forall x: nat, y: nat :: x < res && y < res ==> Pixel(x, y) in LoopOrder(res)
    ensures forall i, j :: 0 <= i < j < |LoopOrder(res)| ==> LoopOrder(res)[i] != LoopOrder(res)[j]
  {
    forall x: nat, y: nat | x < res && y < res ensures Pixel(x, y) in LoopOrder(res) {
      LoopOrderStep(res, x, y);
    }
    forall i, j | 0 <= i < j < |LoopOrder(res)| ensures LoopOrder(res)[i] != LoopOrder(res)[j] {
      LoopOrderInjective(res, i, j);
    }
  }

  lemma LoopOrderStep(res: nat, x: nat, y: nat)
    requires x < res && y < res
    ensures x * res + y < res * res && LoopOrder(res)[x * res + y] == Pixel(x, y)
  {
    MulMonotone(x + 1, res, res);
    DivModOf(x * res + y, res, x, y);
  }

  lemma LoopOrderInjective(res: nat, i: nat, j: nat)
    requires i < j < res * res
    ensures LoopOrder(res)[i] != LoopOrder(res)[j]
  {
    PositiveFactors(res, res, 1);
    assert i == (i / res) * res + i % res;
    assert j == (j / res) * res + j % res;
  }

  /** Painting a zeroed buffer in `gen_face`'s own loop order gives the face. */
  lemma LoopOrderPaintsFace(side: CubeSide, width: nat, height: nat, data: seq<u8>, res: nat, bpp: nat,
                            sample: Sampler)
    requires FaceInput(side, width, height, data, res, bpp, sample)
    ensures Paint(seq(res * res * bpp, _ => 0), LoopOrder(res), side, width, height, data, res, bpp, sample) ==
              FaceBytes(side, width, height, data, res, bpp, sample)
  {
    var o := LoopOrder(res);
    LoopOrderVisitsEachPixelOnce(res);
    PaintOrderIndependent(seq(res * res * bpp, _ => 0), o, side, width, height, data, res, bpp, sample);
  }
}
