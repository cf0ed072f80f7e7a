/**
 * The VIFF reader's steps, in the order the coder performs them: the
 * colormap read into a buffer, swapped in place and applied plane by
 * plane; the sample buffer read, swapped, scanned and converted in place;
 * the raster filled from it; and the loop over the images of a file. Each
 * method is proved to produce what the functions of `ViffDecode` describe.
 * One step is the corrected one rather than the coder's: packed bitmap
 * bytes are not rescaled (`ViffFindings.BitmapRescaled` models the coder's
 * rescale and shows the difference).
 */
module ViffReader {
  import opened Bits
  import opened Wrappers
  import opened QuantumTypes
  import opened ViffFormat
  import opened ViffSamples
  import opened ViffRaster
  import opened ViffDecode

  /** Swaps the first `length` bytes of a buffer into host order when the
    * file is big-endian and the samples are 16- or 32-bit. */
  method ToHostOrder(buf: array<byte>, storage: nat, lsb: bool, length: nat)
    requires length % SampleBytes(storage) == 0 && length <= buf.Length
    modifies buf
    ensures buf[..] == InHostOrder(old(buf[..]), storage, lsb, length)
  {
    if Swaps(storage, lsb) {
      if storage == Typ2Byte {
        SwapShorts(buf, length);
      } else {
        SwapLongs(buf, length);
      }
    }
  }

  /** The colormap stage. */
  method ReadColormap(blob: seq<byte>, at: nat, h: Header, codec: RealCodec) returns (r: Result<MapRead, ViffError>)
    ensures r == ReadMap(blob, at, h, codec)
  {
    var scheme := if h.mapRows == 0 then MsNone else h.mapScheme;
    if scheme == MsNone {
      if h.bands < 3 {
        var colors := if h.storage == TypBit then 2
          else if h.storage == MapTyp1Byte then 256
          else if DepthOf(h) <= 8 then 256 else 65536;
        return Success(MapRead(Some(Ramp(colors)), at));
      }
      return Success(MapRead(None, at));
    } else if scheme == MsOnePerBand || scheme == MsShared {
      var bytesPerPixel := MapEntryBytes(h.mapStorage);
      var colors := h.mapColumns;
      var count := bytesPerPixel * colors * h.mapRows;
      if count > |blob| {
        return Failure(InsufficientImageDataInFile);
      }
      // The allocation's own ramp is overwritten entry by entry below; only
      // its opacity survives.
      var colormap := new Pixel[colors](_ => Gray(0));
      if h.mapRows > h.mapRows * bytesPerPixel {
        return Failure(ImproperImageHeader);
      }
      if h.mapRows > |blob| {
        return Failure(InsufficientImageDataInFile);
      }
      if at + count > |blob| {
        return Failure(InsufficientImageDataInFile);
      }
      var raw := new byte[count](i requires 0 <= i < count => blob[at + i]);
      assert raw[..] == blob[at..at + count];
      var storage := MapSampleStorage(h.mapStorage);
      MapBytesCount(h);
      ToHostOrder(raw, storage, LsbFirst(h.machineDependency), count);
      var values := Samples(raw[..], storage, codec);
      LoadColormap(colormap, values, h.mapRows);
      return Success(MapRead(Some(colormap[..]), at + count));
    } else {
      return Failure(ColormapTypeNotSupported);
    }
  }

  /** The data stage: the zeroed buffer holding the sample bytes, swapped
    * into host order, scanned for its range when the samples are rescaled,
    * and converted in place. */
  method ReadSamples(blob: seq<byte>, at: nat, h: Header, codec: RealCodec) returns (pixels: array<byte>)
    requires CheckHeader(h, |blob|).None? && DataError(blob, at, h).None?
    ensures pixels.Length == BufferLength(h)
    ensures pixels[..] == SampleData(blob, at, h, codec)
  {
    CheckedHeader(h, |blob|);
    BufferFits(h);
    var count := DataBytes(h);
    var length := BufferLength(h);
    var maxPackets := MaxPackets(h);
    var mapNone := if h.mapRows == 0 then true else h.mapScheme == MsNone;
    pixels := new byte[length](i requires 0 <= i < length => if i < count then blob[at + i] else 0);
    assert pixels[..] == Padded(blob, at, h);
    ToHostOrder(pixels, h.storage, LsbFirst(h.machineDependency), count);
    var sc := Unscaled;
    if mapNone && h.storage != Typ1Byte && h.storage != TypBit {
      var minValue, maxValue := ScanRange(pixels, h.storage, codec, maxPackets);
      sc := ScaleOf(minValue, maxValue);
    }
    ConvertSamples(pixels, h.storage, codec, maxPackets, mapNone, sc);
  }

  /** The raster filled from the converted sample buffer. */
  method FillRaster(h: Header, colormap: Option<seq<Pixel>>, data: array<byte>) returns (raster: Raster)
    requires h.rows >= 1 && h.columns >= 1
    requires MaxPackets(h) <= data.Length && PixelCount(h) <= data.Length
    requires h.storage != TypBit && colormap.None? ==> 3 <= h.bands <= 4 && MaxPackets(h) == PixelCount(h) * h.bands
    ensures raster == RasterOf(h, colormap, data[..])
  {
    var n := PixelCount(h);
    if h.storage == TypBit {
      assert h.columns * Stride(h.rows) == MaxPackets(h);
      var indexes := UnpackBitmap(data, h.rows, h.columns);
      raster := Indexed(Ramp(2), indexes);
    } else if colormap.Some? {
      var indexes := CopyIndexes(data, n);
      raster := Indexed(colormap.value, indexes);
    } else {
      MulMono(3, h.bands, n);
      var gathered := GatherPlanar(data, n, h.bands == 4);
      raster := Direct(gathered);
    }
  }

  /** The image from the sample data at `at`. */
  method BuildImage(blob: seq<byte>, at: nat, h: Header, colormap: Option<seq<Pixel>>, codec: RealCodec) returns (image: ViffImage)
    requires CheckHeader(h, |blob|).None? && DataError(blob, at, h).None?
    requires colormap.None? ==> MapScheme(h) == MsNone && h.bands >= 3
    ensures image == ImageOf(blob, at, h, colormap, codec)
  {
    var data := ReadSamples(blob, at, h, codec);
    CheckedHeader(h, |blob|);
    BufferFits(h);
    var raster := FillRaster(h, colormap, data);
    image := ViffImage(h.rows, h.columns, DepthOf(h), h.bands == 4, CommentProperty(h), raster);
  }

  /** The data stage of one image at `at`. */
  method ReadData(blob: seq<byte>, at: nat, h: Header, colormap: Option<seq<Pixel>>, codec: RealCodec) returns (r: Result<Decoded, ViffError>)
    requires CheckHeader(h, |blob|).None?
    requires colormap.None? ==> MapScheme(h) == MsNone && h.bands >= 3
    ensures r == DecodeData(blob, at, h, colormap, codec)
  {
    var de := DataError(blob, at, h);
    if de.Some? {
      return Failure(de.value);
    }
    var image := BuildImage(blob, at, h, colormap, codec);
    return Success(Decoded(image, at + DataBytes(h)));
  }

  /** The colormap and data stages after a checked header. */
  method ReadBody(blob: seq<byte>, at: nat, h: Header, codec: RealCodec) returns (r: Result<Decoded, ViffError>)
    requires CheckHeader(h, |blob|).None?
    ensures r == DecodeBody(blob, at, h, codec)
  {
    var mr := ReadColormap(blob, at, h, codec);
    if mr.Failure? {
      return Failure(mr.error);
    }
    r := ReadData(blob, mr.value.next, h, mr.value.colormap, codec);
  }

  /** One image at offset `off`. */
  method ReadOneImage(blob: seq<byte>, off: nat, codec: RealCodec) returns (r: Result<Decoded, ViffError>)
    ensures r == ReadOne(blob, off, codec)
  {
    var hr := HeaderAt(blob, off);
    if hr.Failure? {
      return Failure(hr.error);
    }
    r := ReadBody(blob, off + HeaderSize, hr.value, codec);
  }

  /** The reader's loop over the images of a file: after each image, one
    * more byte is read, and another image follows when it is the
    * identifier. */
  method ReadVIFFImage(blob: seq<byte>, codec: RealCodec) returns (r: Result<seq<ViffImage>, ViffError>)
    ensures r == ReadAll(blob, 0, codec)
  {
    var images: seq<ViffImage> := [];
    var off := 0;
    PrependNil(ReadAll(blob, 0, codec));
    while true
      invariant ReadAll(blob, 0, codec) == Prepend(images, ReadAll(blob, off, codec))
      decreases |blob| - off
    {
      var one := ReadOneImage(blob, off, codec);
      if one.Failure? {
        return Failure(one.error);
      }
      var next := one.value.next;
      PrependTwice(images, [one.value.image], ReadAll(blob, next, codec));
      images := images + [one.value.image];
      if !(next < |blob| && blob[next] == Identifier) {
        return Success(images);
      }
      off := next;
    }
  }
}
