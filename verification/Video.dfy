/**
 The pixel converters of agent/src/video.rs: packed pictures become the planar YUV 4:2:0 that the encoder takes, the
 captured ones scaled on the way.
 */
module Video {
  import opened Bytes

  datatype Rgb = Rgb(r: byte, g: byte, b: byte)

  /** The pictures that are converted: as captured from a screen, with a row length of its own, or decoded JPEG. */
  datatype Picture = Bgra(frame: Bytes, stride: nat) | Rgb24(pixels: Bytes) | L8(pixels: Bytes) | Cmyk32(pixels: Bytes)

  /** The formats of decoded JPEG. */
  datatype PixelFormat = FormatRgb24 | FormatL8 | FormatCmyk32 | FormatL16

  // ---------- Colours ----------

  /** An arithmetic shift by 8 rounds down, as division by a positive number does here. */
  function Luma(p: Rgb): int {
    (66 * p.r + 129 * p.g + 25 * p.b + 128) / 256 + 16
  }

  function ChromaU(p: Rgb): int {
    (-38 * p.r - 74 * p.g + 112 * p.b + 128) / 256 + 128
  }

  function ChromaV(p: Rgb): int {
    (112 * p.r - 94 * p.g - 18 * p.b + 128) / 256 + 128
  }

  function Clamp(x: int): byte {
    if x < 0 then 0 else if x > 255 then 255 else x
  }

  /** Clamping never changes anything: luma stays in 16..235, chroma in 16..240. */
  lemma ClampChangesNothing(p: Rgb)
    ensures 16 <= Luma(p) <= 235 && Clamp(Luma(p)) == Luma(p)
    ensures 16 <= ChromaU(p) <= 240 && Clamp(ChromaU(p)) == ChromaU(p)
    ensures 16 <= ChromaV(p) <= 240 && Clamp(ChromaV(p)) == ChromaV(p)
  {
  }

  /** Grey has no chroma, and a brighter grey is not darker. */
  lemma GreyStaysGrey(a: byte, b: byte)
    requires a <= b
    ensures ChromaU(Rgb(a, a, a)) == 128 && ChromaV(Rgb(a, a, a)) == 128
    ensures Luma(Rgb(a, a, a)) <= Luma(Rgb(b, b, b))
  {
  }

  // ---------- Scaling ----------

  /** The step through the source for one step through the destination, with 16 binary places. */
  function Scale(src: nat, dst: nat): nat
    requires src > 0
  {
    if dst > 1 then (src - 1) * 0x1_0000 / (dst - 1) else 0
  }

  function Min(a: nat, b: nat): nat {
    if a < b then a else b
  }

  function SourceIndex(d: nat, src: nat, dst: nat): nat
    requires src > 0
  {
    Min(d * Scale(src, dst) / 0x1_0000, src - 1)
  }

  lemma Multiple(n: nat, m: int)
    requires n > 0
    ensures m >= 1 ==> n * m >= n
    ensures m <= -1 ==> n * m + n <= 0
  {
  }

  /** Quotient and remainder are the only numbers that make up a number. */
  lemma DivModIs(q: nat, r: nat, n: nat)
    requires r < n
    ensures Row(Area(n, q) + r, n) == q && Column(Area(n, q) + r, n) == r
    ensures (q * n + r) / n == q
  {
    var x := q * n + r;
    var k := x / n;
    assert x == n * k + x % n;
    assert n * (q - k) == x % n - r by {
      assert n * (q - k) == n * q - n * k;
    }
    Multiple(n, q - k);
  }

  lemma ScaledIsSmall(d: nat, src: nat, dst: nat)
    requires src > 0 && d < dst
    ensures d * Scale(src, dst) <= (src - 1) * 0x1_0000
  {
    if dst > 1 {
      var s := Scale(src, dst);
      assert s * (dst - 1) <= (src - 1) * 0x1_0000;
      assert d * s <= (dst - 1) * s;
    }
  }

  /** The bound on the source index is never needed, and the index never goes back. */
  lemma MinNeverBinds(d: nat, src: nat, dst: nat)
    requires src > 0 && d < dst
    ensures d * Scale(src, dst) / 0x1_0000 <= src - 1
    ensures SourceIndex(d, src, dst) == d * Scale(src, dst) / 0x1_0000
    ensures d + 1 < dst ==> SourceIndex(d, src, dst) <= SourceIndex(d + 1, src, dst)
  {
    ScaledIsSmall(d, src, dst);
    if d + 1 < dst {
      ScaledIsSmall(d + 1, src, dst);
      assert d * Scale(src, dst) <= (d + 1) * Scale(src, dst);
    }
  }

  /** Without a change of size, every sample is taken from its own place. */
  lemma SameSizeCopies(d: nat, size: nat)
    requires d < size
    ensures SourceIndex(d, size, size) == d
  {
    if size > 1 {
      DivModIs(0x1_0000, 0, size - 1);
      DivModIs(d, 0, 0x1_0000);
    }
  }

  /** The sample is at most one pixel, and what the 16 places lose, away from its exact place. */
  lemma SampleIsNear(d: nat, src: nat, dst: nat)
    requires src > 0 && d < dst && dst > 1
    ensures SourceIndex(d, src, dst) * (dst - 1) <= d * (src - 1)
    ensures d * (src - 1) * 0x1_0000 < (SourceIndex(d, src, dst) + 1) * 0x1_0000 * (dst - 1) + d * (dst - 1)
  {
    MinNeverBinds(d, src, dst);
    var s, i := Scale(src, dst), SourceIndex(d, src, dst);
    var n := dst - 1;
    assert i * 0x1_0000 <= d * s < (i + 1) * 0x1_0000;
    assert s * n <= (src - 1) * 0x1_0000 < (s + 1) * n;
    Products(d, s, n, i, src - 1);
  }

  lemma Products(d: nat, s: nat, n: nat, i: nat, m: nat)
    requires n > 0 && i * 0x1_0000 <= d * s < (i + 1) * 0x1_0000 && s * n <= m * 0x1_0000 < (s + 1) * n
    ensures i * n <= d * m
    ensures d * m * 0x1_0000 < (i + 1) * 0x1_0000 * n + d * n
  {
    LowerProduct(d, s, n, i, m);
    UpperProduct(d, s, n, i, m);
  }

  lemma LowerProduct(d: nat, s: nat, n: nat, i: nat, m: nat)
    requires i * 0x1_0000 <= d * s && s * n <= m * 0x1_0000
    ensures i * n <= d * m
  {
    assert i * 0x1_0000 * n <= d * s * n;
    assert d * (s * n) <= d * (m * 0x1_0000);
  }

  lemma UpperProduct(d: nat, s: nat, n: nat, i: nat, m: nat)
    requires n > 0 && d * s < (i + 1) * 0x1_0000 && m * 0x1_0000 < (s + 1) * n
    ensures d * m * 0x1_0000 < (i + 1) * 0x1_0000 * n + d * n
  {
    assert d * (m * 0x1_0000) <= d * ((s + 1) * n);
    assert d * ((s + 1) * n) == d * s * n + d * n;
    assert d * s * n < (i + 1) * 0x1_0000 * n;
  }

  /** The number of places in h rows of width w, which is also where the row below them starts. */
  function Area(w: nat, h: nat): nat {
    h * w
  }

  lemma NoRows(w: nat)
    ensures Area(w, 0) == 0
  {
  }

  lemma RowEnds(w: nat, y: nat, h: nat)
    requires y < h
    ensures Area(w, y + 1) == Area(w, y) + w <= Area(w, h)
  {
    assert (y + 1) * w <= h * w;
  }

  /** The column and the row of the k-th place in rows of width w. */
  function Column(k: nat, w: nat): (x: nat)
    requires w > 0
    ensures x < w
  {
    k % w
  }

  function Row(k: nat, w: nat): nat
    requires w > 0
  {
    k / w
  }

  lemma PlaceIsInside(k: nat, w: nat, h: nat)
    requires w > 0 && k < Area(w, h)
    ensures Row(k, w) < h && Area(w, Row(k, w)) + Column(k, w) == k
  {
    var y := k / w;
    assert k == w * y + k % w;
    if y >= h {
      assert w * y >= w * h;
    }
  }

  /** Where the loops over a plane of width w write in their x-th column of the y-th row. */
  function Place(w: nat, x: nat, y: nat): nat {
    Area(w, y) + x
  }

  /** They meet every place of the plane once, and no place outside of it. */
  lemma EachPlaceOnce(w: nat, h: nat)
    requires w > 0
    ensures forall x, y | 0 <= x < w && 0 <= y < h ::
              Place(w, x, y) < Area(w, h) && Column(Place(w, x, y), w) == x && Row(Place(w, x, y), w) == y
    ensures forall k | 0 <= k < Area(w, h) ::
              Column(k, w) < w && Row(k, w) < h && Place(w, Column(k, w), Row(k, w)) == k
  {
    hide Area, Column, Row;
    forall x, y | 0 <= x < w && 0 <= y < h
      ensures Place(w, x, y) < Area(w, h) && Column(Place(w, x, y), w) == x && Row(Place(w, x, y), w) == y
    {
      DivModIs(y, x, w);
      RowEnds(w, y, h);
    }
    forall k | 0 <= k < Area(w, h)
      ensures Column(k, w) < w && Row(k, w) < h && Place(w, Column(k, w), Row(k, w)) == k
    {
      PlaceIsInside(k, w, h);
    }
  }

  // ---------- Pictures ----------

  const BLACK := Rgb(0, 0, 0)

  /** The place of a pixel in the bytes of a picture. */
  function Offset(p: Picture, width: nat, x: nat, y: nat): nat {
    match p
    case Bgra(_, stride) => y * stride + x * 4
    case Rgb24(_) => (y * width + x) * 3
    case L8(_) => y * width + x
    case Cmyk32(_) => (y * width + x) * 4
  }

  /** The colour of a pixel; a CMYK picture is taken to be black all over. */
  function PixelAt(p: Picture, width: nat, x: nat, y: nat): Rgb {
    var i := Offset(p, width, x, y);
    match p
    case Bgra(frame, _) => if i + 2 < |frame| then Rgb(frame[i + 2], frame[i + 1], frame[i]) else BLACK
    case Rgb24(pixels) => if i + 2 < |pixels| then Rgb(pixels[i], pixels[i + 1], pixels[i + 2]) else BLACK
    case L8(pixels) => if i < |pixels| then Rgb(pixels[i], pixels[i], pixels[i]) else BLACK
    case Cmyk32(_) => BLACK
  }

  /** The picture has all its pixels; the last row of a captured one may end with its last pixel. */
  predicate Covers(p: Picture, width: nat, height: nat) {
    match p
    case Bgra(frame, stride) => width * 4 <= stride && height > 0 && (height - 1) * stride + width * 4 <= |frame|
    case Rgb24(pixels) => width * height * 3 <= |pixels|
    case L8(pixels) => width * height <= |pixels|
    case Cmyk32(pixels) => width * height * 4 <= |pixels|
  }

  lemma PixelIsInside(p: Picture, width: nat, height: nat, x: nat, y: nat)
    requires Covers(p, width, height) && x < width && y < height
    ensures match p
            case Bgra(frame, _) => Offset(p, width, x, y) + 3 < |frame|
            case Rgb24(pixels) => Offset(p, width, x, y) + 2 < |pixels|
            case L8(pixels) => Offset(p, width, x, y) < |pixels|
            case Cmyk32(pixels) => Offset(p, width, x, y) + 3 < |pixels|
  {
    match p
    case Bgra(_, stride) =>
      assert y * stride <= (height - 1) * stride;
    case _ =>
      assert (y + 1) * width <= height * width;
      assert y * width + x + 1 <= (y + 1) * width;
  }

  /** A picture, its size, and the size that it gets. */
  datatype Job = Job(picture: Picture, srcW: nat, srcH: nat, w: nat, h: nat) {
    /** The converters take even sizes, and pictures with a pixel. */
    predicate Valid() {
      srcW > 0 && srcH > 0 && w % 2 == 0 && h % 2 == 0 && Covers(picture, srcW, srcH)
    }

    function Sample(dx: nat, dy: nat): Rgb
      requires Valid()
    {
      PixelAt(picture, srcW, SourceIndex(dx, srcW, w), SourceIndex(dy, srcH, h))
    }

    /** The number of pixels of a chroma plane. */
    function Quarter(): nat {
      Area(w / 2, h / 2)
    }

    /** The bytes of the planes by their place. */
    function Y(k: nat): byte
      requires Valid() && w > 0
    {
      Clamp(Luma(Sample(Column(k, w), Row(k, w))))
    }

    /** The chroma of a pixel. */
    function UAt(dx: nat, dy: nat): byte
      requires Valid()
    {
      Clamp(ChromaU(Sample(dx, dy)))
    }

    function VAt(dx: nat, dy: nat): byte
      requires Valid()
    {
      Clamp(ChromaV(Sample(dx, dy)))
    }

    function U(k: nat): byte
      requires Valid() && w > 0
    {
      UAt(Column(k, w / 2) * 2, Row(k, w / 2) * 2)
    }

    function V(k: nat): byte
      requires Valid() && w > 0
    {
      VAt(Column(k, w / 2) * 2, Row(k, w / 2) * 2)
    }
  }

  lemma QuarterIs(w: nat, h: nat)
    requires w % 2 == 0 && h % 2 == 0
    ensures Area(w, h) == 4 * Area(w / 2, h / 2)
  {
    var a, b := w / 2, h / 2;
    assert w == 2 * a && h == 2 * b;
    assert (2 * a) * (2 * b) == 4 * (a * b);
  }

  method ReadPixel(job: Job, sx: nat, sy: nat) returns (c: Rgb)
    requires job.Valid() && sx < job.srcW && sy < job.srcH
    ensures c == PixelAt(job.picture, job.srcW, sx, sy)
  {
    PixelIsInside(job.picture, job.srcW, job.srcH, sx, sy);
    match job.picture {
      case Bgra(frame, stride) =>
        var i := sy * stride + sx * 4;
        return Rgb(frame[i + 2], frame[i + 1], frame[i]);
      case Rgb24(pixels) =>
        var i := (sy * job.srcW + sx) * 3;
        return Rgb(pixels[i], pixels[i + 1], pixels[i + 2]);
      case L8(pixels) =>
        var i := sy * job.srcW + sx;
        return Rgb(pixels[i], pixels[i], pixels[i]);
      case Cmyk32(_) =>
        return BLACK;
    }
  }

  /** The pixel that a pixel of the destination is taken from. */
  method ReadSample(job: Job, dx: nat, scaleX: nat, dy: nat, sy: nat) returns (c: Rgb)
    requires job.Valid() && dx < job.w && scaleX == Scale(job.srcW, job.w) && sy == SourceIndex(dy, job.srcH, job.h)
    ensures c == job.Sample(dx, dy)
  {
    var sx := Min(dx * scaleX / 0x1_0000, job.srcW - 1);
    c := ReadPixel(job, sx, sy);
  }

  method FillLumaRow(job: Job, yuv: array<byte>, dy: nat)
    requires job.Valid() && job.w > 0 && dy < job.h && Area(job.w, dy) + job.w <= yuv.Length
    modifies yuv
    ensures var start := Area(job.w, dy);
            && (forall k | start <= k < start + job.w :: yuv[k] == job.Y(k))
            && (forall k | 0 <= k < start || start + job.w <= k < yuv.Length :: yuv[k] == old(yuv[k]))
  {
    hide Area, SourceIndex, Scale, Covers, Job.Sample, Luma, Clamp, Row, Column;
    var w := job.w;
    var scaleX, sy := Scale(job.srcW, w), SourceIndex(dy, job.srcH, job.h);
    var start := Area(w, dy);
    var dx := 0;
    while dx < w
      invariant 0 <= dx <= w
      invariant forall k | start <= k < start + dx :: yuv[k] == job.Y(k)
      invariant forall k | 0 <= k < start || start + w <= k < yuv.Length :: yuv[k] == old(yuv[k])
    {
      var c := ReadSample(job, dx, scaleX, dy, sy);
      DivModIs(dy, dx, w);
      yuv[start + dx] := Clamp(Luma(c));
      dx := dx + 1;
    }
  }

  method FillLuma(job: Job, yuv: array<byte>)
    requires job.Valid() && job.w > 0 && Area(job.w, job.h) <= yuv.Length
    modifies yuv
    ensures forall k | 0 <= k < Area(job.w, job.h) :: yuv[k] == job.Y(k)
    ensures forall k | Area(job.w, job.h) <= k < yuv.Length :: yuv[k] == old(yuv[k])
  {
    hide Area, Job.Y;
    ghost var area, start := Area(job.w, job.h), 0;
    NoRows(job.w);
    var dy := 0;
    while dy < job.h
      invariant 0 <= dy <= job.h && start == Area(job.w, dy) <= area
      invariant forall k | 0 <= k < start :: yuv[k] == job.Y(k)
      invariant forall k | area <= k < yuv.Length :: yuv[k] == old(yuv[k])
    {
      RowEnds(job.w, dy, job.h);
      FillLumaRow(job, yuv, dy);
      dy, start := dy + 1, start + job.w;
    }
  }

  /** One row of both chroma planes, from every other pixel of a row. */
  method FillChromaRow(job: Job, yuv: array<byte>, dy: nat, uRow: nat, vRow: nat)
    requires job.Valid() && dy < job.h && uRow + job.w / 2 <= vRow && vRow + job.w / 2 <= yuv.Length
    modifies yuv
    ensures forall k | uRow <= k < uRow + job.w / 2 :: yuv[k] == job.UAt((k - uRow) * 2, dy)
    ensures forall k | vRow <= k < vRow + job.w / 2 :: yuv[k] == job.VAt((k - vRow) * 2, dy)
    ensures forall k | 0 <= k < yuv.Length && !(uRow <= k < uRow + job.w / 2) && !(vRow <= k < vRow + job.w / 2) ::
              yuv[k] == old(yuv[k])
  {
    hide SourceIndex, Scale, Covers, Job.Sample, ChromaU, ChromaV, Clamp;
    var scaleX, sy := Scale(job.srcW, job.w), SourceIndex(dy, job.srcH, job.h);
    var dx := 0;
    while dx < job.w
      invariant 0 <= dx <= job.w && dx % 2 == 0
      invariant forall k | uRow <= k < uRow + dx / 2 :: yuv[k] == job.UAt((k - uRow) * 2, dy)
      invariant forall k | vRow <= k < vRow + dx / 2 :: yuv[k] == job.VAt((k - vRow) * 2, dy)
      invariant forall k | 0 <= k < yuv.Length && !(uRow <= k < uRow + job.w / 2) && !(vRow <= k < vRow + job.w / 2) ::
                  yuv[k] == old(yuv[k])
    {
      var c := ReadSample(job, dx, scaleX, dy, sy);
      yuv[uRow + dx / 2] := Clamp(ChromaU(c));
      yuv[vRow + dx / 2] := Clamp(ChromaV(c));
      dx := dx + 2;
    }
  }

  /** A row's pixels are those that belong at its places. */
  lemma RowPlaces(job: Job, r: nat, k: nat)
    requires job.Valid() && job.w > 0 && k < job.w / 2
    ensures var i := Area(job.w / 2, r) + k;
            job.U(i) == job.UAt(k * 2, r * 2) && job.V(i) == job.VAt(k * 2, r * 2)
  {
    DivModIs(r, k, job.w / 2);
  }

  lemma AllRowPlaces(job: Job, r: nat)
    requires job.Valid() && job.w > 0
    ensures var row := Area(job.w / 2, r);
            && (forall k | row <= k < row + job.w / 2 :: job.U(k) == job.UAt((k - row) * 2, r * 2))
            && (forall k | row <= k < row + job.w / 2 :: job.V(k) == job.VAt((k - row) * 2, r * 2))
  {
    hide Area, Job.U, Job.V, Job.UAt, Job.VAt;
    var row := Area(job.w / 2, r);
    forall k | row <= k < row + job.w / 2
      ensures job.U(k) == job.UAt((k - row) * 2, r * 2) && job.V(k) == job.VAt((k - row) * 2, r * 2)
    {
      RowPlaces(job, r, k - row);
    }
  }

  /** The r-th row of both planes, at its places. */
  method PlaceChromaRow(job: Job, yuv: array<byte>, r: nat, uStart: nat, vStart: nat)
    requires job.Valid() && job.w > 0 && r < job.h / 2
    requires var next := Area(job.w / 2, r) + job.w / 2;
             uStart + next <= vStart && vStart + next <= yuv.Length
    modifies yuv
    ensures var row := Area(job.w / 2, r);
            && (forall k | uStart + row <= k < uStart + row + job.w / 2 :: yuv[k] == job.U(k - uStart))
            && (forall k | vStart + row <= k < vStart + row + job.w / 2 :: yuv[k] == job.V(k - vStart))
            && (forall k | 0 <= k < uStart + row :: yuv[k] == old(yuv[k]))
            && (forall k | vStart <= k < vStart + row :: yuv[k] == old(yuv[k]))
  {
    hide Area, Job.U, Job.V, Job.UAt, Job.VAt;
    AllRowPlaces(job, r);
    FillChromaRow(job, yuv, r * 2, uStart + Area(job.w / 2, r), vStart + Area(job.w / 2, r));
  }

  method FillChroma(job: Job, yuv: array<byte>, uStart: nat, vStart: nat)
    requires job.Valid() && job.w > 0 && uStart + job.Quarter() <= vStart && vStart + job.Quarter() <= yuv.Length
    modifies yuv
    ensures forall k | uStart <= k < uStart + job.Quarter() :: yuv[k] == job.U(k - uStart)
    ensures forall k | vStart <= k < vStart + job.Quarter() :: yuv[k] == job.V(k - vStart)
    ensures forall k | 0 <= k < uStart :: yuv[k] == old(yuv[k])
  {
    hide Area, Job.U, Job.V;
    var half := job.w / 2;
    ghost var q, row := job.Quarter(), 0;
    NoRows(half);
    var dy, r := 0, 0;
    while dy < job.h
      invariant dy == 2 * r && dy <= job.h && row == Area(half, r) <= q
      invariant forall k | uStart <= k < uStart + row :: yuv[k] == job.U(k - uStart)
      invariant forall k | vStart <= k < vStart + row :: yuv[k] == job.V(k - vStart)
      invariant forall k | 0 <= k < uStart :: yuv[k] == old(yuv[k])
    {
      RowEnds(half, r, job.h / 2);
      PlaceChromaRow(job, yuv, r, uStart, vStart);
      dy, r, row := dy + 2, r + 1, row + half;
    }
  }

  /** Every byte of the planes is the one that belongs at its place, and there are no others. */
  predicate IsPlanar(s: Bytes, job: Job)
    requires job.Valid() && job.w > 0
  {
    var q := job.Quarter();
    && |s| == 6 * q
    && (forall k | 0 <= k < 4 * q :: s[k] == job.Y(k))
    && (forall k | 4 * q <= k < 5 * q :: s[k] == job.U(k - 4 * q))
    && (forall k | 5 * q <= k < 6 * q :: s[k] == job.V(k - 5 * q))
  }

  /** The conversion of captured and of decoded pictures. */
  method Convert(job: Job) returns (yuv: array<byte>)
    requires job.Valid() && job.w > 0
    ensures fresh(yuv) && yuv.Length == Area(job.w, job.h) * 3 / 2 && IsPlanar(yuv[..], job)
  {
    QuarterIs(job.w, job.h);
    hide Area, Job.Y, Job.U, Job.V;
    var frameSize := Area(job.w, job.h);
    yuv := new byte[frameSize * 3 / 2](_ => 0);
    FillLuma(job, yuv);
    FillChroma(job, yuv, frameSize, frameSize + frameSize / 4);
  }

  // ---------- Which byte is which colour ----------

  /** The place of the c-th byte of a pixel of a decoded picture in colour. */
  function RgbPlace(width: nat, x: nat, y: nat, c: nat): nat {
    (y * width + x) * 3 + c
  }

  /** The place of the c-th byte of a pixel of a captured picture. */
  function CapturedPlace(stride: nat, x: nat, y: nat, c: nat): nat {
    y * stride + x * 4 + c
  }

  /** A captured and a decoded picture that show the same: the first three bytes of a captured pixel go backwards. */
  predicate ShowTheSame(frame: Bytes, stride: nat, pixels: Bytes, width: nat, height: nat) {
    forall x, y, c | 0 <= x < width && 0 <= y < height && 0 <= c < 3 ::
      RgbPlace(width, x, y, c) < |pixels| && CapturedPlace(stride, x, y, 2 - c) < |frame|
      && pixels[RgbPlace(width, x, y, c)] == frame[CapturedPlace(stride, x, y, 2 - c)]
  }

  lemma SamePixel(frame: Bytes, stride: nat, pixels: Bytes, width: nat, height: nat, x: nat, y: nat)
    requires ShowTheSame(frame, stride, pixels, width, height) && x < width && y < height
    ensures PixelAt(Bgra(frame, stride), width, x, y) == PixelAt(Rgb24(pixels), width, x, y)
  {
    assert RgbPlace(width, x, y, 0) < |pixels| && RgbPlace(width, x, y, 1) < |pixels| && RgbPlace(width, x, y, 2) < |pixels|;
  }

  lemma SourceIsInside(job: Job, dx: nat, dy: nat)
    requires job.Valid()
    ensures SourceIndex(dx, job.srcW, job.w) < job.srcW && SourceIndex(dy, job.srcH, job.h) < job.srcH
  {
  }

  /** Converting a captured picture gives what converting the decoded picture that shows the same gives. */
  lemma CapturedIsDecoded(captured: Job, decoded: Job, a: Bytes, b: Bytes)
    requires captured.picture.Bgra? && decoded.picture.Rgb24? && captured == decoded.(picture := captured.picture)
    requires captured.Valid() && decoded.Valid() && captured.w > 0
    requires ShowTheSame(captured.picture.frame, captured.picture.stride, decoded.picture.pixels, captured.srcW, captured.srcH)
    requires IsPlanar(a, captured) && IsPlanar(b, decoded)
    ensures a == b
  {
    forall dx, dy ensures captured.Sample(dx, dy) == decoded.Sample(dx, dy) {
      SourceIsInside(captured, dx, dy);
      SamePixel(captured.picture.frame, captured.picture.stride, decoded.picture.pixels, captured.srcW, captured.srcH,
                SourceIndex(dx, captured.srcW, captured.w), SourceIndex(dy, captured.srcH, captured.h));
    }
    hide Job.Sample, Luma, ChromaU, ChromaV, Clamp, ShowTheSame, Column, Row;
    var q := captured.Quarter();
    forall k | 0 <= k < 6 * q ensures a[k] == b[k] {
    }
  }

  /** A grey picture and one in colour whose pixels have its value three times. */
  predicate ShowsGrey(grey: Bytes, pixels: Bytes) {
    |pixels| == 3 * |grey| && forall i | 0 <= i < |pixels| :: pixels[i] == grey[i / 3]
  }

  lemma GreyPixel(grey: Bytes, pixels: Bytes, width: nat, x: nat, y: nat)
    requires ShowsGrey(grey, pixels)
    ensures PixelAt(L8(grey), width, x, y) == PixelAt(Rgb24(pixels), width, x, y)
  {
    var i := y * width + x;
    assert Offset(L8(grey), width, x, y) == i && Offset(Rgb24(pixels), width, x, y) == 3 * i;
    assert 3 * i / 3 == i && (3 * i + 1) / 3 == i && (3 * i + 2) / 3 == i;
  }

  /** Converting a grey picture gives what converting the same picture in colour gives. */
  lemma GreyIsDecoded(grey: Job, colour: Job, a: Bytes, b: Bytes)
    requires grey.picture.L8? && colour.picture.Rgb24? && grey == colour.(picture := grey.picture)
    requires grey.Valid() && colour.Valid() && grey.w > 0 && ShowsGrey(grey.picture.pixels, colour.picture.pixels)
    requires IsPlanar(a, grey) && IsPlanar(b, colour)
    ensures a == b
  {
    forall dx, dy ensures grey.Sample(dx, dy) == colour.Sample(dx, dy) {
      GreyPixel(grey.picture.pixels, colour.picture.pixels, grey.srcW,
                SourceIndex(dx, grey.srcW, grey.w), SourceIndex(dy, grey.srcH, grey.h));
    }
    hide Job.Sample, Luma, ChromaU, ChromaV, Clamp, ShowsGrey, Column, Row;
    var q := grey.Quarter();
    forall k | 0 <= k < 6 * q ensures a[k] == b[k] {
    }
  }

  /** A decoded picture with more of one colour, and with no less or more of the others. */
  predicate HasMore(more: Bytes, less: Bytes, colour: nat) {
    && |more| == |less|
    && forall i | 0 <= i < |more| :: if i % 3 == colour then more[i] >= less[i] else more[i] == less[i]
  }

  lemma MorePixel(more: Bytes, less: Bytes, colour: nat, width: nat, x: nat, y: nat)
    requires HasMore(more, less, colour) && RgbPlace(width, x, y, 2) < |more| && colour < 3
    ensures var p, q := PixelAt(Rgb24(more), width, x, y), PixelAt(Rgb24(less), width, x, y);
            && (if colour == 0 then p.r >= q.r else p.r == q.r)
            && (if colour == 1 then p.g >= q.g else p.g == q.g)
            && (if colour == 2 then p.b >= q.b else p.b == q.b)
  {
    var i := RgbPlace(width, x, y, 0);
    assert i == 3 * (y * width + x);
  }

  /** How luma and chroma go with red (0), green (1) and blue (2). */
  lemma MoreOfOne(p: Rgb, q: Rgb, colour: nat)
    requires if colour == 0 then p.r >= q.r else p.r == q.r
    requires if colour == 1 then p.g >= q.g else p.g == q.g
    requires if colour == 2 then p.b >= q.b else p.b == q.b
    ensures Luma(p) >= Luma(q)
    ensures if colour == 2 then ChromaU(p) >= ChromaU(q) else ChromaU(p) <= ChromaU(q)
    ensures if colour == 0 then ChromaV(p) >= ChromaV(q) else ChromaV(p) <= ChromaV(q)
  {
  }

  lemma MoreSample(more: Job, less: Job, colour: nat, dx: nat, dy: nat)
    requires more.picture.Rgb24? && less.picture.Rgb24? && more == less.(picture := more.picture)
    requires more.Valid() && less.Valid() && more.w > 0 && colour < 3
    requires HasMore(more.picture.pixels, less.picture.pixels, colour)
    ensures Clamp(Luma(more.Sample(dx, dy))) >= Clamp(Luma(less.Sample(dx, dy)))
    ensures if colour == 2 then more.UAt(dx, dy) >= less.UAt(dx, dy) else more.UAt(dx, dy) <= less.UAt(dx, dy)
    ensures if colour == 0 then more.VAt(dx, dy) >= less.VAt(dx, dy) else more.VAt(dx, dy) <= less.VAt(dx, dy)
  {
    SourceIsInside(more, dx, dy);
    var x, y := SourceIndex(dx, more.srcW, more.w), SourceIndex(dy, more.srcH, more.h);
    PixelIsInside(more.picture, more.srcW, more.srcH, x, y);
    MorePixel(more.picture.pixels, less.picture.pixels, colour, more.srcW, x, y);
    MoreOfOne(more.Sample(dx, dy), less.Sample(dx, dy), colour);
    hide Job.Sample, Luma, ChromaU, ChromaV, HasMore, PixelAt;
  }

  lemma MoreAt(more: Job, less: Job, colour: nat, k: nat)
    requires more.picture.Rgb24? && less.picture.Rgb24? && more == less.(picture := more.picture)
    requires more.Valid() && less.Valid() && more.w > 0 && colour < 3
    requires HasMore(more.picture.pixels, less.picture.pixels, colour)
    ensures more.Y(k) >= less.Y(k)
    ensures if colour == 2 then more.U(k) >= less.U(k) else more.U(k) <= less.U(k)
    ensures if colour == 0 then more.V(k) >= less.V(k) else more.V(k) <= less.V(k)
  {
    var w := more.w;
    assert w / 2 > 0;
    hide Job.Sample, Job.UAt, Job.VAt, Luma, Clamp, HasMore, Column, Row, Job.Valid;
    MoreSample(more, less, colour, Column(k, w), Row(k, w));
    MoreSample(more, less, colour, Column(k, w / 2) * 2, Row(k, w / 2) * 2);
  }

  /** No byte of a plane is less, or none is more. */
  predicate Goes(a: Bytes, b: Bytes, from: nat, to: nat, up: bool)
    requires from <= to <= |a| && to <= |b|
  {
    forall k | from <= k < to :: if up then a[k] >= b[k] else a[k] <= b[k]
  }

  lemma LumaGoes(more: Job, less: Job, colour: nat, a: Bytes, b: Bytes, q: nat)
    requires more.picture.Rgb24? && less.picture.Rgb24? && more == less.(picture := more.picture)
    requires more.Valid() && less.Valid() && more.w > 0 && colour < 3 && q == more.Quarter() == less.Quarter()
    requires HasMore(more.picture.pixels, less.picture.pixels, colour)
    requires IsPlanar(a, more) && IsPlanar(b, less)
    ensures |a| == |b| == 6 * q && Goes(a, b, 0, 4 * q, true)
  {
    hide Job.Y, Job.U, Job.V, HasMore, Job.Quarter, Job.Valid;
    forall k | 0 <= k < 4 * q ensures a[k] >= b[k] {
      MoreAt(more, less, colour, k);
    }
  }

  lemma UGoes(more: Job, less: Job, colour: nat, a: Bytes, b: Bytes, q: nat)
    requires more.picture.Rgb24? && less.picture.Rgb24? && more == less.(picture := more.picture)
    requires more.Valid() && less.Valid() && more.w > 0 && colour < 3 && q == more.Quarter() == less.Quarter()
    requires HasMore(more.picture.pixels, less.picture.pixels, colour)
    requires IsPlanar(a, more) && IsPlanar(b, less)
    ensures |a| == |b| == 6 * q && Goes(a, b, 4 * q, 5 * q, colour == 2)
  {
    hide Job.Y, Job.U, Job.V, HasMore, Job.Quarter, Job.Valid;
    forall k | 4 * q <= k < 5 * q ensures if colour == 2 then a[k] >= b[k] else a[k] <= b[k] {
      MoreAt(more, less, colour, k - 4 * q);
    }
  }

  lemma VGoes(more: Job, less: Job, colour: nat, a: Bytes, b: Bytes, q: nat)
    requires more.picture.Rgb24? && less.picture.Rgb24? && more == less.(picture := more.picture)
    requires more.Valid() && less.Valid() && more.w > 0 && colour < 3 && q == more.Quarter() == less.Quarter()
    requires HasMore(more.picture.pixels, less.picture.pixels, colour)
    requires IsPlanar(a, more) && IsPlanar(b, less)
    ensures |a| == |b| == 6 * q && Goes(a, b, 5 * q, 6 * q, colour == 0)
  {
    hide Job.Y, Job.U, Job.V, HasMore, Job.Quarter, Job.Valid;
    forall k | 5 * q <= k < 6 * q ensures if colour == 0 then a[k] >= b[k] else a[k] <= b[k] {
      MoreAt(more, less, colour, k - 5 * q);
    }
  }

  /**
   More of a colour anywhere in a decoded picture makes nothing darker; more red makes V no less and U no more, more blue
   makes U no less and V no more, and more green makes neither of them more.
   */
  lemma MoreColour(more: Job, less: Job, colour: nat, a: Bytes, b: Bytes)
    requires more.picture.Rgb24? && less.picture.Rgb24? && more == less.(picture := more.picture)
    requires more.Valid() && less.Valid() && more.w > 0 && colour < 3
    requires HasMore(more.picture.pixels, less.picture.pixels, colour)
    requires IsPlanar(a, more) && IsPlanar(b, less)
    ensures var q := more.Quarter();
            && |a| == |b| == 6 * q
            && Goes(a, b, 0, 4 * q, true) && Goes(a, b, 4 * q, 5 * q, colour == 2) && Goes(a, b, 5 * q, 6 * q, colour == 0)
  {
    var q := more.Quarter();
    assert less.Quarter() == q;
    hide Job.Y, Job.U, Job.V, HasMore, Job.Quarter, Job.Valid, Goes;
    LumaGoes(more, less, colour, a, b, q);
    UGoes(more, less, colour, a, b, q);
    VGoes(more, less, colour, a, b, q);
  }

  /** The primary colours, white and black, as BT.601 has them in its limited range. */
  lemma Primaries()
    ensures Luma(Rgb(255, 0, 0)) == 82 && ChromaU(Rgb(255, 0, 0)) == 90 && ChromaV(Rgb(255, 0, 0)) == 240
    ensures Luma(Rgb(0, 255, 0)) == 144 && ChromaU(Rgb(0, 255, 0)) == 54 && ChromaV(Rgb(0, 255, 0)) == 34
    ensures Luma(Rgb(0, 0, 255)) == 41 && ChromaU(Rgb(0, 0, 255)) == 240 && ChromaV(Rgb(0, 0, 255)) == 110
    ensures Luma(Rgb(255, 255, 255)) == 235 && Luma(BLACK) == 16
  {
  }

  /** The size of a pixel in a format, if it is one that can be converted. */
  function BytesPerPixel(format: PixelFormat): Option<nat> {
    match format
    case FormatRgb24 => Some(3)
    case FormatL8 => Some(1)
    case FormatCmyk32 => Some(4)
    case FormatL16 => None
  }

  function Decoded(format: PixelFormat, pixels: Bytes): Picture {
    match format
    case FormatL8 => L8(pixels)
    case FormatCmyk32 => Cmyk32(pixels)
    case _ => Rgb24(pixels)
  }

  /** A decoded JPEG; there is no result for a format that is not supported, or when it has too few bytes. */
  method ConvertJpeg(pixels: Bytes, format: PixelFormat, srcW: nat, srcH: nat, w: nat, h: nat)
      returns (r: Option<array<byte>>)
    requires srcW > 0 && srcH > 0 && w > 0 && w % 2 == 0 && h % 2 == 0
    ensures r.Some? <==> BytesPerPixel(format).Some? && srcW * srcH * BytesPerPixel(format).value <= |pixels|
    ensures r.Some? ==>
              var job := Job(Decoded(format, pixels), srcW, srcH, w, h);
              job.Valid() && IsPlanar(r.value[..], job)
  {
    var bytesPerPixel := BytesPerPixel(format);
    if bytesPerPixel.None? {
      return None;
    }
    if |pixels| < srcW * srcH * bytesPerPixel.value {
      return None;
    }
    var job := Job(Decoded(format, pixels), srcW, srcH, w, h);
    var yuv := Convert(job);
    return Some(yuv);
  }

  /** A grey JPEG becomes a picture without colour. */
  lemma GreyJpegIsGrey(job: Job, k: nat)
    requires job.Valid() && job.w > 0 && job.picture.L8?
    ensures job.U(k) == 128 && job.V(k) == 128
  {
    var c := job.Sample(Column(k, job.w / 2) * 2, Row(k, job.w / 2) * 2);
    GreyStaysGrey(c.r, c.r);
    ClampChangesNothing(c);
  }

  /** A CMYK JPEG becomes black, whatever it shows. */
  lemma CmykJpegIsBlack(job: Job, k: nat)
    requires job.Valid() && job.w > 0 && job.picture.Cmyk32?
    ensures job.Y(k) == 16 && job.U(k) == 128 && job.V(k) == 128
  {
  }

  // ---------- Cameras ----------

  /** The byte of a packed picture, with 4 bytes for 2 pixels, that belongs to the k-th place of a chroma plane. */
  function YuyvOffset(w: nat, k: nat): nat
    requires w >= 2
  {
    (Area(w, Row(k, w / 2) * 2) + Column(k, w / 2) * 2) * 2
  }

  predicate IsUnpacked(s: Bytes, src: Bytes, w: nat, q: nat)
    requires w >= 2
  {
    && |s| == 6 * q && 8 * q <= |src|
    && (forall k | 0 <= k < 4 * q :: s[k] == src[k * 2])
    && (forall k | 4 * q <= k < 5 * q ::
          YuyvOffset(w, k - 4 * q) + 3 < |src| && s[k] == src[YuyvOffset(w, k - 4 * q) + 1])
    && (forall k | 5 * q <= k < 6 * q ::
          YuyvOffset(w, k - 5 * q) + 3 < |src| && s[k] == src[YuyvOffset(w, k - 5 * q) + 3])
  }

  /** A byte of a packed picture: four are for two pixels side by side, with the luma of each and the chroma of both. */
  function Packed(src: Bytes, w: nat, x: nat, y: nat, c: nat): int {
    var i := Place(w, x * 2, y) * 2 + c;
    if i < |src| then src[i] else -1
  }

  /** Luma is that of each pixel, the first and the third byte of the four. */
  lemma LumaIsUnpacked(s: Bytes, src: Bytes, w: nat, h: nat, x: nat, y: nat)
    requires w >= 2 && w % 2 == 0 && h % 2 == 0 && x < w / 2 && y < h
    requires IsUnpacked(s, src, w, Area(w, h) / 4)
    ensures Place(w, 2 * x, y) + 1 < |s|
    ensures s[Place(w, 2 * x, y)] == Packed(src, w, x, y, 0) && s[Place(w, 2 * x, y) + 1] == Packed(src, w, x, y, 2)
  {
    hide Area, Place, YuyvOffset;
    PairIsInside(w, h, x, y);
    var k := Place(w, x * 2, y);
    assert s[k] == src[k * 2] && s[k + 1] == src[(k + 1) * 2];
  }

  lemma PairIsInside(w: nat, h: nat, x: nat, y: nat)
    requires w >= 2 && w % 2 == 0 && h % 2 == 0 && x < w / 2 && y < h
    ensures Place(w, x * 2, y) + 1 < Area(w, h) == 4 * (Area(w, h) / 4)
  {
    hide Area, Place, Column, Row;
    QuarterIs(w, h);
    EachPlaceOnce(w, h);
    NextPlace(w, x * 2, y);
  }

  lemma NextPlace(w: nat, x: nat, y: nat)
    ensures Place(w, x + 1, y) == Place(w, x, y) + 1
  {
    hide Area;
  }

  /** Chroma is that of the even rows, with U as the second byte of the four and V as the last. */
  lemma ChromaIsUnpacked(s: Bytes, src: Bytes, w: nat, h: nat, x: nat, y: nat)
    requires w >= 2 && w % 2 == 0 && h % 2 == 0 && x < w / 2 && y < h / 2
    requires IsUnpacked(s, src, w, Area(w, h) / 4)
    ensures var half, place := w / 2, Place(w / 2, x, y);
            && Area(w, h) + Area(half, h / 2) + place < |s|
            && s[Area(w, h) + place] == Packed(src, w, x, 2 * y, 1)
            && s[Area(w, h) + Area(half, h / 2) + place] == Packed(src, w, x, 2 * y, 3)
  {
    var half, k := w / 2, Place(w / 2, x, y);
    hide Area, Place, YuyvOffset;
    ChromaPlace(w, h, x, y);
    var q := Area(w, h) / 4;
    assert s[4 * q + k] == src[YuyvOffset(w, k) + 1] && s[5 * q + k] == src[YuyvOffset(w, k) + 3] by {
      ChromaAt(s, src, w, q, k);
    }
  }

  lemma ChromaPlace(w: nat, h: nat, x: nat, y: nat)
    requires w >= 2 && w % 2 == 0 && h % 2 == 0 && x < w / 2 && y < h / 2
    ensures var k := Place(w / 2, x, y);
            && k < Area(w / 2, h / 2) == Area(w, h) / 4 && Area(w, h) == 4 * (Area(w, h) / 4)
            && YuyvOffset(w, k) == Place(w, x * 2, 2 * y) * 2
  {
    hide Area, Column, Row;
    QuarterIs(w, h);
    EachPlaceOnce(w / 2, h / 2);
  }

  lemma ChromaAt(s: Bytes, src: Bytes, w: nat, q: nat, k: nat)
    requires w >= 2 && IsUnpacked(s, src, w, q) && k < q
    ensures YuyvOffset(w, k) + 3 < |src| && |s| == 6 * q
    ensures s[4 * q + k] == src[YuyvOffset(w, k) + 1] && s[5 * q + k] == src[YuyvOffset(w, k) + 3]
  {
    hide YuyvOffset;
    var i, j := 4 * q + k, 5 * q + k;
    assert i - 4 * q == k && j - 5 * q == k;
    assert YuyvOffset(w, i - 4 * q) + 3 < |src| && s[i] == src[YuyvOffset(w, i - 4 * q) + 1];
    assert s[j] == src[YuyvOffset(w, j - 5 * q) + 3];
  }

  method CopyLuma(src: Bytes, w: nat, h: nat, yuv: array<byte>)
    requires Area(w, h) * 2 <= |src| && Area(w, h) <= yuv.Length
    modifies yuv
    ensures forall k | 0 <= k < Area(w, h) :: yuv[k] == src[k * 2]
  {
    hide Area;
    NoRows(w);
    ghost var start := 0;
    var row := 0;
    while row < h
      invariant 0 <= row <= h && start == Area(w, row) <= Area(w, h)
      invariant forall k | 0 <= k < start :: yuv[k] == src[k * 2]
    {
      RowEnds(w, row, h);
      var col := 0;
      while col < w
        invariant 0 <= col <= w && start == Area(w, row) && start + w <= Area(w, h)
        invariant forall k | 0 <= k < start + col :: yuv[k] == src[k * 2]
      {
        var i := (Area(w, row) + col) * 2;
        yuv[Area(w, row) + col] := src[i];
        col := col + 1;
      }
      row, start := row + 1, start + w;
    }
  }

  method CopyChromaRow(src: Bytes, w: nat, start: nat, yuv: array<byte>, uRow: nat, vRow: nat)
    requires w % 2 == 0 && start * 2 + w * 2 <= |src| && uRow + w / 2 <= vRow && vRow + w / 2 <= yuv.Length
    modifies yuv
    ensures forall k | uRow <= k < uRow + w / 2 :: yuv[k] == src[(start + (k - uRow) * 2) * 2 + 1]
    ensures forall k | vRow <= k < vRow + w / 2 :: yuv[k] == src[(start + (k - vRow) * 2) * 2 + 3]
    ensures forall k | 0 <= k < yuv.Length && !(uRow <= k < uRow + w / 2) && !(vRow <= k < vRow + w / 2) ::
              yuv[k] == old(yuv[k])
  {
    var col := 0;
    while col < w
      invariant 0 <= col <= w && col % 2 == 0
      invariant forall k | uRow <= k < uRow + col / 2 :: yuv[k] == src[(start + (k - uRow) * 2) * 2 + 1]
      invariant forall k | vRow <= k < vRow + col / 2 :: yuv[k] == src[(start + (k - vRow) * 2) * 2 + 3]
      invariant forall k | 0 <= k < yuv.Length && !(uRow <= k < uRow + w / 2) && !(vRow <= k < vRow + w / 2) ::
                  yuv[k] == old(yuv[k])
    {
      var i := (start + col) * 2;
      yuv[uRow + col / 2] := src[i + 1];
      yuv[vRow + col / 2] := src[i + 3];
      col := col + 2;
    }
  }

  lemma YuyvPlaces(w: nat, h: nat, r: nat)
    requires w >= 2 && w % 2 == 0 && r < h / 2
    ensures var row, start := Area(w / 2, r), Area(w, r * 2);
            && (forall k | row <= k < row + w / 2 :: YuyvOffset(w, k) == (start + (k - row) * 2) * 2)
            && start + w <= Area(w, h)
  {
    RowEnds(w, r * 2, h);
    hide Area;
    var row := Area(w / 2, r);
    forall k | row <= k < row + w / 2 ensures YuyvOffset(w, k) == (Area(w, r * 2) + (k - row) * 2) * 2 {
      DivModIs(r, k - row, w / 2);
    }
  }

  /** The r-th row of both chroma planes, at its places. */
  method PlaceCopiedRow(src: Bytes, w: nat, h: nat, r: nat, yuv: array<byte>, uStart: nat, vStart: nat)
    requires w >= 2 && w % 2 == 0 && r < h / 2 && Area(w, h) * 2 <= |src|
    requires var next := Area(w / 2, r) + w / 2;
             uStart + next <= vStart && vStart + next <= yuv.Length
    modifies yuv
    ensures var row := Area(w / 2, r);
            && (forall k | row <= k < row + w / 2 :: YuyvOffset(w, k) + 3 < |src|)
            && (forall k | uStart + row <= k < uStart + row + w / 2 :: yuv[k] == src[YuyvOffset(w, k - uStart) + 1])
            && (forall k | vStart + row <= k < vStart + row + w / 2 :: yuv[k] == src[YuyvOffset(w, k - vStart) + 3])
            && (forall k | 0 <= k < uStart + row :: yuv[k] == old(yuv[k]))
            && (forall k | vStart <= k < vStart + row :: yuv[k] == old(yuv[k]))
  {
    hide Area, YuyvOffset;
    YuyvPlaces(w, h, r);
    CopyChromaRow(src, w, Area(w, r * 2), yuv, uStart + Area(w / 2, r), vStart + Area(w / 2, r));
  }

  method CopyChroma(src: Bytes, w: nat, h: nat, yuv: array<byte>, uStart: nat, vStart: nat)
    requires w >= 2 && w % 2 == 0 && h % 2 == 0 && Area(w, h) * 2 <= |src|
    requires uStart + Area(w / 2, h / 2) <= vStart && vStart + Area(w / 2, h / 2) <= yuv.Length
    modifies yuv
    ensures var q := Area(w / 2, h / 2);
            && (forall k | 0 <= k < q :: YuyvOffset(w, k) + 3 < |src|)
            && (forall k | uStart <= k < uStart + q :: yuv[k] == src[YuyvOffset(w, k - uStart) + 1])
            && (forall k | vStart <= k < vStart + q :: yuv[k] == src[YuyvOffset(w, k - vStart) + 3])
    ensures forall k | 0 <= k < uStart :: yuv[k] == old(yuv[k])
  {
    hide Area, YuyvOffset;
    var half := w / 2;
    ghost var q, row := Area(half, h / 2), 0;
    NoRows(half);
    var dy, r := 0, 0;
    while dy < h
      invariant dy == 2 * r && dy <= h && row == Area(half, r) <= q
      invariant forall k | 0 <= k < row :: YuyvOffset(w, k) + 3 < |src|
      invariant forall k | 0 <= k < uStart :: yuv[k] == old(yuv[k])
      invariant forall k | uStart <= k < uStart + row :: yuv[k] == src[YuyvOffset(w, k - uStart) + 1]
      invariant forall k | vStart <= k < vStart + row :: yuv[k] == src[YuyvOffset(w, k - vStart) + 3]
    {
      RowEnds(half, r, h / 2);
      PlaceCopiedRow(src, w, h, r, yuv, uStart, vStart);
      dy, r, row := dy + 2, r + 1, row + half;
    }
  }

  method YuyvToYuv420(src: Bytes, w: nat, h: nat) returns (yuv: array<byte>)
    requires w >= 2 && w % 2 == 0 && h % 2 == 0 && Area(w, h) * 2 <= |src|
    ensures fresh(yuv) && yuv.Length == Area(w, h) * 3 / 2 && IsUnpacked(yuv[..], src, w, Area(w / 2, h / 2))
  {
    QuarterIs(w, h);
    hide Area, YuyvOffset;
    var frameSize := Area(w, h);
    yuv := new byte[frameSize * 3 / 2](_ => 0);
    CopyLuma(src, w, h, yuv);
    CopyChroma(src, w, h, yuv, frameSize, frameSize + frameSize / 4);
  }
}
