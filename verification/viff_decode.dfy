/**
 * What the VIFF reader makes of a file, stated as functions: the colormap
 * stage with its map-scheme resolution and size guards, the data stage
 * with its size guard and byte conversion, the raster built from the
 * converted bytes, one image at an offset, and the list of images a file
 * holds when each image is followed directly by the next identifier byte.
 */
module ViffDecode {
  import opened Bits
  import opened Wrappers
  import opened QuantumTypes
  import opened ViffFormat
  import opened ViffSamples
  import opened ViffRaster

  /** A decoded image is either colormapped (a colormap and one index per
    * pixel) or direct colour (one pixel per pixel), in row order. */
  datatype Raster = Indexed(colormap: seq<Pixel>, indexes: seq<nat>) | Direct(pixels: seq<Pixel>)

  /** An image as the reader returns it: its width and height (the header's
    * `rows` and `columns`), depth, whether it has a matte, its comment
    * property and its raster. */
  datatype ViffImage = ViffImage(columns: nat, rows: nat, depth: nat, matte: bool,
                                 comment: Option<seq<byte>>, raster: Raster)

  /** One decoded image and the offset just past its data. */
  datatype Decoded = Decoded(image: ViffImage, next: nat)

  /** The colormap stage's result: the colormap the image carries, if any,
    * and the offset just past the map bytes. */
  datatype MapRead = MapRead(colormap: Option<seq<Pixel>>, next: nat)

  /** 8 bits per sample when the header says at most 8, else 16. */
  function DepthOf(h: Header): (d: nat)
    ensures d == 8 || d == 16
  {
    if h.xBitsPerPixel <= 8 then 8 else 16
  }

  /** The size of the ramp the reader allocates for a file without a map
    * and with fewer than three bands: two entries for bits, 256 for one
    * byte per sample, otherwise by depth. */
  function RampColors(h: Header): (c: nat)
    ensures c == 2 || c == 256 || c == 65536
    ensures h.storage == TypBit ==> c == 2
    ensures h.storage == Typ1Byte ==> c == 256
  {
    if h.storage == TypBit then 2
    else if h.storage == MapTyp1Byte then 256
    else if DepthOf(h) <= 8 then 256 else 65536
  }

  /** The sample type of a map storage type; a map without a storage type
    * is read one byte per entry. */
  function MapSampleStorage(mapStorage: nat): (s: nat)
    ensures SampleBytes(s) == MapEntryBytes(mapStorage)
  {
    if mapStorage == MapTyp2Byte then Typ2Byte
    else if mapStorage == MapTyp4Byte then Typ4Byte
    else if mapStorage == MapTypFloat then TypFloat
    else if mapStorage == MapTypDouble then TypDouble
    else Typ1Byte
  }

  /** Samples the reader swaps into host order: 16- and 32-bit integers and
    * floats of a big-endian file. */
  predicate Swaps(storage: nat, lsb: bool)
  {
    !lsb && (storage == Typ2Byte || storage == Typ4Byte || storage == TypFloat)
  }

  /** A buffer after the swap into host order over its first `length` bytes. */
  function InHostOrder(b: seq<byte>, storage: nat, lsb: bool, length: nat): (r: seq<byte>)
    requires length % SampleBytes(storage) == 0 && length <= |b|
    ensures |r| == |b|
  {
    if Swaps(storage, lsb) then HostOrder(b, SampleBytes(storage), length) else b
  }

  /** The number of map bytes: entry size times columns times rows. */
  function MapBytes(h: Header): nat
  {
    MapEntryBytes(h.mapStorage) * h.mapColumns * h.mapRows
  }

  lemma MapBytesCount(h: Header)
    ensures MapBytes(h) % MapEntryBytes(h.mapStorage) == 0
    ensures MapBytes(h) / MapEntryBytes(h.mapStorage) == h.mapRows * h.mapColumns
  {
    var e := MapEntryBytes(h.mapStorage);
    assert MapBytes(h) == e * (h.mapRows * h.mapColumns);
    DivUnique(MapBytes(h), e, h.mapRows * h.mapColumns, 0);
  }

  lemma PlanesFit(mapRows: nat, colors: nat)
    requires mapRows >= 1
    ensures colors <= mapRows * colors
    ensures mapRows >= 2 ==> 2 * colors <= mapRows * colors
    ensures mapRows >= 3 ==> 3 * colors <= mapRows * colors
  {
    MulMono(1, mapRows, colors);
    if mapRows >= 2 {
      MulMono(2, mapRows, colors);
    }
    if mapRows >= 3 {
      MulMono(3, mapRows, colors);
    }
  }

  /** The colormap the map planes at `at` give. */
  function PlaneColormap(blob: seq<byte>, at: nat, h: Header, codec: RealCodec): (m: seq<Pixel>)
    requires h.mapRows >= 1 && at + MapBytes(h) <= |blob|
    ensures |m| == h.mapColumns
  {
    var storage := MapSampleStorage(h.mapStorage);
    var count := MapBytes(h);
    MapBytesCount(h);
    var values := Samples(InHostOrder(blob[at..at + count], storage, LsbFirst(h.machineDependency), count), storage, codec);
    PlanesFit(h.mapRows, h.mapColumns);
    PlaneMap(values, h.mapColumns, h.mapRows)
  }

  /** The colormap stage at offset `at`. Without map rows the scheme is
    * none: fewer than three bands get a ramp, more get no colormap and no
    * map bytes are read. Schemes one-per-band and shared read
    * `MapBytes(h)` bytes of planes, after three guards: the map size and
    * the map row count against the blob size, and the bytes actually
    * present. Any other scheme is refused. */
  function ReadMap(blob: seq<byte>, at: nat, h: Header, codec: RealCodec): (r: Result<MapRead, ViffError>)
    ensures r.Success? ==> at <= r.value.next
    ensures r.Success? && MapScheme(h) == MsNone ==>
      r.value.next == at && (r.value.colormap.Some? <==> h.bands < 3)
    ensures r.Success? && MapScheme(h) != MsNone ==>
      r.value.next == at + MapBytes(h) <= |blob| && r.value.colormap.Some? && |r.value.colormap.value| == h.mapColumns
    ensures MapScheme(h) !in {MsNone, MsOnePerBand, MsShared} ==> r == Failure(ColormapTypeNotSupported)
    ensures MapScheme(h) != MsNone && MapBytes(h) > |blob| ==> r.Failure?
  {
    var scheme := MapScheme(h);
    if scheme == MsNone then
      if h.bands < 3 then Success(MapRead(Some(Ramp(RampColors(h))), at))
      else Success(MapRead(None, at))
    else if scheme == MsOnePerBand || scheme == MsShared then
      var count := MapBytes(h);
      if count > |blob| then Failure(InsufficientImageDataInFile)
      else if h.mapRows > h.mapRows * MapEntryBytes(h.mapStorage) then Failure(ImproperImageHeader)
      else if h.mapRows > |blob| then Failure(InsufficientImageDataInFile)
      else if at + count > |blob| then Failure(InsufficientImageDataInFile)
      else Success(MapRead(Some(PlaneColormap(blob, at, h, codec)), at + count))
    else Failure(ColormapTypeNotSupported)
  }

  /** Pixels in the image. */
  function PixelCount(h: Header): nat
  {
    h.columns * h.rows
  }

  /** Bytes of sample data: sample size times `MaxPackets`. */
  function DataBytes(h: Header): nat
  {
    SampleBytes(h.storage) * MaxPackets(h)
  }

  /** The length of the reader's sample buffer: the larger of the pixel
    * count and `MaxPackets`, times the sample size. */
  function BufferLength(h: Header): nat
  {
    (if PixelCount(h) > MaxPackets(h) then PixelCount(h) else MaxPackets(h)) * SampleBytes(h.storage)
  }

  lemma BufferFits(h: Header)
    ensures DataBytes(h) <= BufferLength(h)
    ensures DataBytes(h) % SampleBytes(h.storage) == 0
    ensures MaxPackets(h) <= BufferLength(h) / SampleBytes(h.storage)
    ensures PixelCount(h) <= BufferLength(h) / SampleBytes(h.storage)
    ensures MaxPackets(h) <= BufferLength(h) && PixelCount(h) <= BufferLength(h)
  {
    var b := SampleBytes(h.storage);
    var m := if PixelCount(h) > MaxPackets(h) then PixelCount(h) else MaxPackets(h);
    MulMono(MaxPackets(h), m, b);
    MulMono(1, b, m);
    DivUnique(DataBytes(h), b, MaxPackets(h), 0);
    DivUnique(BufferLength(h), b, m, 0);
  }

  /** The data guard: the data size against the blob size, then the bytes
    * actually present from `at`. */
  function DataError(blob: seq<byte>, at: nat, h: Header): (e: Option<ViffError>)
    ensures e.None? <==> at + DataBytes(h) <= |blob|
  {
    if DataBytes(h) > |blob| then Some(ImproperImageHeader)
    else if at + DataBytes(h) > |blob| then Some(ImproperImageHeader)
    else None
  }

  /** The sample data read into a zeroed buffer of `BufferLength(h)` bytes. */
  function Padded(blob: seq<byte>, at: nat, h: Header): (b: seq<byte>)
    requires at + DataBytes(h) <= |blob|
    ensures |b| == BufferLength(h)
  {
    BufferFits(h);
    blob[at..at + DataBytes(h)] + seq(BufferLength(h) - DataBytes(h), _ => 0)
  }

  /** Whether the reader rescales the samples: only without a map, and not
    * for one-byte samples nor for bits, whose bytes are packed pixels. */
  predicate Rescales(storage: nat, mapNone: bool)
  {
    mapNone && storage != Typ1Byte && storage != TypBit
  }

  /** The scaling the reader applies to the first `n` samples of a buffer. */
  function ScalingFor(b: seq<byte>, storage: nat, codec: RealCodec, n: nat, mapNone: bool): Scaling
    requires 1 <= n <= |b| / SampleBytes(storage)
  {
    if Rescales(storage, mapNone) then
      var s := Samples(b, storage, codec)[..n];
      ScaleOf(Least(s), Greatest(s))
    else Unscaled
  }

  /** The buffer after the swap and the conversion of the first `n`
    * samples to bytes. */
  function ConvertedData(b: seq<byte>, storage: nat, lsb: bool, codec: RealCodec, length: nat, n: nat, mapNone: bool): (r: seq<byte>)
    requires length % SampleBytes(storage) == 0 && length <= |b|
    requires 1 <= n <= |b| / SampleBytes(storage)
    ensures |r| == |b|
  {
    var host := InHostOrder(b, storage, lsb, length);
    ConvertedBuffer(host, storage, codec, n, mapNone, ScalingFor(host, storage, codec, n, mapNone))
  }

  /** Facts the checked header guarantees. */
  lemma CheckedHeader(h: Header, blobSize: nat)
    requires CheckHeader(h, blobSize).None?
    ensures h.rows >= 1 && h.columns >= 1
    ensures 1 <= MaxPackets(h)
    ensures h.storage != TypBit ==> MaxPackets(h) == PixelCount(h) * h.bands
  {
    if h.storage == TypBit {
      MulMono(1, (h.rows + 7) / 8, h.columns);
    } else {
      MulMono(1, h.columns * h.rows, h.bands);
    }
  }

  /** The raster from the converted bytes: bitmaps unpack against a
    * two-entry ramp, colormapped data takes one index per byte, and direct
    * colour gathers its planes. */
  function RasterOf(h: Header, colormap: Option<seq<Pixel>>, data: seq<byte>): Raster
    requires MaxPackets(h) <= |data| && PixelCount(h) <= |data|
    requires h.storage != TypBit && colormap.None? ==> 3 <= h.bands <= 4 && MaxPackets(h) == PixelCount(h) * h.bands
  {
    var n := PixelCount(h);
    if h.storage == TypBit then
      assert h.columns * Stride(h.rows) == MaxPackets(h);
      Indexed(Ramp(2), Bitmap(data, h.rows, h.columns))
    else if colormap.Some? then Indexed(colormap.value, ByteIndexes(data, n))
    else
      MulMono(3, h.bands, n);
      Direct(PlanarPixels(data, n, h.bands == 4))
  }

  /** The converted sample buffer of the data at `at`. */
  function SampleData(blob: seq<byte>, at: nat, h: Header, codec: RealCodec): (r: seq<byte>)
    requires CheckHeader(h, |blob|).None? && DataError(blob, at, h).None?
    ensures |r| == BufferLength(h)
  {
    CheckedHeader(h, |blob|);
    BufferFits(h);
    ConvertedData(Padded(blob, at, h), h.storage, LsbFirst(h.machineDependency), codec,
                  DataBytes(h), MaxPackets(h), MapScheme(h) == MsNone)
  }

  /** The image a checked header, its colormap stage and the sample data at
    * `at` give. */
  function ImageOf(blob: seq<byte>, at: nat, h: Header, colormap: Option<seq<Pixel>>, codec: RealCodec): ViffImage
    requires CheckHeader(h, |blob|).None? && DataError(blob, at, h).None?
    requires colormap.None? ==> MapScheme(h) == MsNone && h.bands >= 3
  {
    CheckedHeader(h, |blob|);
    BufferFits(h);
    var data := SampleData(blob, at, h, codec);
    ViffImage(h.rows, h.columns, DepthOf(h), h.bands == 4, CommentProperty(h), RasterOf(h, colormap, data))
  }

  /** The data stage of one image: the data guard, then the image and the
    * offset just past its sample bytes. */
  function DecodeData(blob: seq<byte>, at: nat, h: Header, colormap: Option<seq<Pixel>>, codec: RealCodec): (r: Result<Decoded, ViffError>)
    requires CheckHeader(h, |blob|).None?
    requires colormap.None? ==> MapScheme(h) == MsNone && h.bands >= 3
    ensures r.Success? <==> at + DataBytes(h) <= |blob|
    ensures r.Success? ==> r.value.next == at + DataBytes(h)
    ensures r.Failure? ==> r.error == ImproperImageHeader
  {
    var de := DataError(blob, at, h);
    if de.Some? then Failure(de.value)
    else Success(Decoded(ImageOf(blob, at, h, colormap, codec), at + DataBytes(h)))
  }

  /** What follows a checked header at `at`: the colormap stage, then the
    * data stage. */
  function DecodeBody(blob: seq<byte>, at: nat, h: Header, codec: RealCodec): (r: Result<Decoded, ViffError>)
    requires CheckHeader(h, |blob|).None?
    ensures r.Success? ==> at <= r.value.next <= |blob|
  {
    var mr := ReadMap(blob, at, h, codec);
    if mr.Failure? then Failure(mr.error)
    else DecodeData(blob, mr.value.next, h, mr.value.colormap, codec)
  }

  /** The header at offset `off`, parsed and then checked against the
    * blob's size. */
  function HeaderAt(blob: seq<byte>, off: nat): (r: Result<Header, ViffError>)
    ensures r.Success? ==> off + HeaderSize <= |blob| && CheckHeader(r.value, |blob|).None?
    ensures (off >= |blob| || blob[off] != Identifier) ==> r == Failure(NotAVIFFImage)
  {
    var hr := ParseHeader(blob, off);
    if hr.Failure? then Failure(hr.error)
    else
      var check := CheckHeader(hr.value, |blob|);
      if check.Some? then Failure(check.value) else hr
  }

  /** The image at offset `off`: the header and its checks, the colormap
    * stage, the data guard, and the raster of the converted data. */
  function ReadOne(blob: seq<byte>, off: nat, codec: RealCodec): (r: Result<Decoded, ViffError>)
    ensures r.Success? ==> off + HeaderSize <= r.value.next <= |blob|
    ensures (off >= |blob| || blob[off] != Identifier) ==> r == Failure(NotAVIFFImage)
  {
    var hr := HeaderAt(blob, off);
    if hr.Failure? then Failure(hr.error)
    else DecodeBody(blob, off + HeaderSize, hr.value, codec)
  }

  /** Images read so far, ahead of the result of reading the rest. */
  function Prepend(images: seq<ViffImage>, rest: Result<seq<ViffImage>, ViffError>): (r: Result<seq<ViffImage>, ViffError>)
    ensures r.Failure? <==> rest.Failure?
  {
    if rest.Failure? then Failure(rest.error) else Success(images + rest.value)
  }

  lemma PrependNil(rest: Result<seq<ViffImage>, ViffError>)
    ensures Prepend([], rest) == rest
  {
    if rest.Success? {
      assert [] + rest.value == rest.value;
    }
  }

  lemma PrependTwice(images: seq<ViffImage>, more: seq<ViffImage>, rest: Result<seq<ViffImage>, ViffError>)
    ensures Prepend(images, Prepend(more, rest)) == Prepend(images + more, rest)
  {
    if rest.Success? {
      assert images + (more + rest.value) == images + more + rest.value;
    }
  }

  /** The images from offset `off` on: after each image, another follows
    * when the next byte is the identifier; any failure fails the whole
    * read. */
  function ReadAll(blob: seq<byte>, off: nat, codec: RealCodec): (r: Result<seq<ViffImage>, ViffError>)
    ensures r.Success? ==> |r.value| >= 1
    decreases |blob| - off
  {
    var one := ReadOne(blob, off, codec);
    if one.Failure? then Failure(one.error)
    else
      var next := one.value.next;
      if next < |blob| && blob[next] == Identifier then
        Prepend([one.value.image], ReadAll(blob, next, codec))
      else Success([one.value.image])
  }
}
