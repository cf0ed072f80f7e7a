/**
 * How the VIFF reader turns the converted bytes into an image: the
 * colormap built from the map planes, the linear ramps it allocates when
 * the file has no map, the LSB-first unpacking of bitmaps, the index copy
 * for colormapped data and the planar gathering of direct colour.
 */
module ViffRaster {
  import opened Bits
  import opened QuantumTypes
  import opened ViffSamples

  /** A gray, opaque colormap entry. */
  function Gray(q: Quantum): Pixel
  {
    Pixel(q, q, q, OpaqueOpacity)
  }

  /** The linear gray ramp `AcquireImageColormap` allocates: entry `i` is
    * `i * (QuantumRange / (colors - 1))`, for the three sizes the reader
    * asks for. */
  function Ramp(colors: nat): (m: seq<Pixel>)
    requires colors == 2 || colors == 256 || colors == 65536
    ensures |m| == colors && m[0] == Gray(0) && m[colors - 1] == Gray(QuantumRange)
    ensures colors == 256 ==> forall i :: 0 <= i < 256 ==> m[i] == Gray(ScaleCharToQuantum(i))
  {
    if colors == 2 then [Gray(0), Gray(QuantumRange)]
    else if colors == 256 then seq(256, i requires 0 <= i < 256 => Gray(257 * i))
    else seq(65536, i requires 0 <= i < 65536 => Gray(i))
  }

  /** The quantum a map value gives: its `(unsigned char)` conversion,
    * scaled up. */
  function MapQuantum(v: real): Quantum
  {
    ScaleCharToQuantum(ToUChar(v))
  }

  /** The colormap `colors` entries long that map planes give: plane 0 sets
    * all three channels of entry `j`; plane 1, when present, overrides its
    * green and plane 2 its blue. Planes past the third are ignored. */
  function PlaneMap(values: seq<real>, colors: nat, mapRows: nat): (m: seq<Pixel>)
    requires mapRows >= 1 && colors <= |values|
    requires mapRows >= 2 ==> 2 * colors <= |values|
    requires mapRows >= 3 ==> 3 * colors <= |values|
    ensures |m| == colors
  {
    seq(colors, j requires 0 <= j < colors =>
      Pixel(MapQuantum(values[j]),
            MapQuantum(if mapRows >= 2 then values[colors + j] else values[j]),
            MapQuantum(if mapRows >= 3 then values[2 * colors + j] else values[j]),
            OpaqueOpacity))
  }

  /** Entry `j` of a colormap that started as `e`, after the first `i` map
    * values are applied. */
  function Loaded(e: Pixel, values: seq<real>, colors: nat, i: nat, j: nat): Pixel
    requires j < colors && i <= |values|
  {
    e.(red := if j < i then MapQuantum(values[j]) else e.red,
       green := if colors + j < i then MapQuantum(values[colors + j])
                else if j < i then MapQuantum(values[j]) else e.green,
       blue := if 2 * colors + j < i then MapQuantum(values[2 * colors + j])
               else if j < i then MapQuantum(values[j]) else e.blue)
  }

  /** Applying value `i` changes only the entry it addresses. */
  lemma LoadedStep(e: Pixel, values: seq<real>, colors: nat, i: nat, j: nat)
    requires j < colors && i < |values|
    ensures var q, before := MapQuantum(values[i]), Loaded(e, values, colors, i, j);
      Loaded(e, values, colors, i + 1, j) ==
        if j == i then before.(red := q, green := q, blue := q)
        else if colors + j == i then before.(green := q)
        else if 2 * colors + j == i then before.(blue := q)
        else before
  {
  }

  /** The reader's colormap loop over the `mapRows * colors` values in file
    * order, into a colormap that starts out opaque. */
  method LoadColormap(colormap: array<Pixel>, values: seq<real>, mapRows: nat)
    requires mapRows >= 1 && |values| == mapRows * colormap.Length
    requires forall j :: 0 <= j < colormap.Length ==> colormap[j].opacity == OpaqueOpacity
    modifies colormap
    ensures 3 * colormap.Length <= |values| || mapRows < 3
    ensures 2 * colormap.Length <= |values| || mapRows < 2
    ensures colormap[..] == PlaneMap(values, colormap.Length, mapRows)
  {
    var colors := colormap.Length;
    ghost var init := colormap[..];
    var i := 0;
    while i < |values|
      invariant 0 <= i <= |values|
      invariant forall j :: 0 <= j < colors ==> colormap[j] == Loaded(init[j], values, colors, i, j)
    {
      var q := MapQuantum(values[i]);
      if i < colors {
        colormap[i] := colormap[i].(red := q, green := q, blue := q);
      } else if i < 2 * colors {
        DivUnique(i, colors, 1, i - colors);
        colormap[i % colors] := colormap[i % colors].(green := q);
      } else if i < 3 * colors {
        DivUnique(i, colors, 2, i - 2 * colors);
        colormap[i % colors] := colormap[i % colors].(blue := q);
      }
      forall j | 0 <= j < colors
        ensures colormap[j] == Loaded(init[j], values, colors, i + 1, j)
      {
        LoadedStep(init[j], values, colors, i, j);
      }
      i := i + 1;
    }
    ghost var two := mapRows >= 2;
    ghost var three := mapRows >= 3;
    if two {
      MulMono(2, mapRows, colors);
    } else {
      assert |values| == colors;
    }
    if three {
      MulMono(3, mapRows, colors);
    } else if two {
      assert |values| == 2 * colors;
    }
    forall j | 0 <= j < colors
      ensures colormap[j] == PlaneMap(values, colors, mapRows)[j]
    {
      assert init[j].opacity == OpaqueOpacity;
      assert colors + j < |values| <==> two;
      assert 2 * colors + j < |values| <==> three;
    }
  }

  /** Bytes per bitmap row: one per eight pixels, the last one partial. */
  function Stride(columns: nat): nat
  {
    (columns + 7) / 8
  }

  /** The index of pixel `x` of the bitmap row that starts at byte `at`:
    * bit `x mod 8` of byte `x / 8`, least significant first; a set bit is
    * entry 0 (black), a clear bit entry 1 (white). */
  function BitIndex(data: seq<byte>, at: nat, x: nat): (k: nat)
    requires at + x / 8 < |data|
    ensures k <= 1
  {
    if Bit(data[at + x / 8], x % 8) then 0 else 1
  }

  /** One bitmap row. */
  function BitRow(data: seq<byte>, at: nat, columns: nat): (r: seq<nat>)
    requires at + Stride(columns) <= |data|
    ensures |r| == columns
  {
    seq(columns, x requires 0 <= x < columns => BitIndex(data, at, x))
  }

  /** The first `rows` bitmap rows, each `Stride(columns)` bytes. */
  function Bitmap(data: seq<byte>, columns: nat, rows: nat): (r: seq<nat>)
    requires rows * Stride(columns) <= |data|
    ensures |r| == rows * columns
  {
    if rows == 0 then []
    else
      MulMono(rows - 1, rows, Stride(columns));
      Bitmap(data, columns, rows - 1) + BitRow(data, (rows - 1) * Stride(columns), columns)
  }

  /** Pixel `x + bit` of a row, for `x` a multiple of eight, is bit `bit`
    * of byte `x / 8`. */
  lemma BitIndexInByte(data: seq<byte>, at: nat, x: nat, bit: nat)
    requires x % 8 == 0 && bit < 8 && at + x / 8 < |data|
    ensures (x + bit) / 8 == x / 8
    ensures BitIndex(data, at, x + bit) == if Bit(data[at + x / 8], bit) then 0 else 1
  {
    assert (x + bit) / 8 == x / 8 && (x + bit) % 8 == bit;
  }

  /** The reader's loop over the bits of one byte, least significant first:
    * a set bit gives index 0, a clear bit index 1. */
  method UnpackByte(indexes: array<nat>, x: nat, b: byte, count: nat)
    requires count <= 8 && x + count <= indexes.Length
    modifies indexes
    ensures forall k :: 0 <= k < indexes.Length ==>
      indexes[k] == if x <= k < x + count then (if Bit(b, k - x) then 0 else 1) else old(indexes[k])
  {
    var bit := 0;
    while bit < count
      invariant 0 <= bit <= count
      invariant forall k :: 0 <= k < indexes.Length ==>
        indexes[k] == if x <= k < x + bit then (if Bit(b, k - x) then 0 else 1) else old(indexes[k])
    {
      indexes[x + bit] := if Bit(b, bit) then 0 else 1;
      bit := bit + 1;
    }
  }

  /** The reader's loop over one bitmap row starting at byte `at`: eight
    * pixels per whole byte while at least eight columns remain (the source
    * compares against `columns - 7` as a signed value), then the remaining
    * columns from one more byte. */
  method UnpackRow(data: array<byte>, at: nat, columns: nat) returns (row: seq<nat>)
    requires at + Stride(columns) <= data.Length
    ensures row == BitRow(data[..], at, columns)
  {
    ghost var d := data[..];
    var indexes := new nat[columns];
    var p := at;
    var x := 0;
    while x + 7 < columns
      invariant x % 8 == 0 && x <= columns
      invariant p == at + x / 8
      invariant forall k :: 0 <= k < x ==> indexes[k] == BitIndex(d, at, k)
    {
      UnpackByte(indexes, x, data[p], 8);
      forall k | x <= k < x + 8
        ensures indexes[k] == BitIndex(d, at, k)
      {
        BitIndexInByte(d, at, x, k - x);
      }
      p := p + 1;
      x := x + 8;
    }
    if columns % 8 != 0 {
      UnpackByte(indexes, x, data[p], columns % 8);
      forall k | x <= k < columns
        ensures indexes[k] == BitIndex(d, at, k)
      {
        BitIndexInByte(d, at, x, k - x);
      }
    }
    row := indexes[..];
  }

  /** The reader's bitmap loop, row by row, each row `Stride(columns)`
    * bytes on from the last. */
  method UnpackBitmap(data: array<byte>, columns: nat, rows: nat) returns (indexes: seq<nat>)
    requires rows * Stride(columns) <= data.Length
    ensures indexes == Bitmap(data[..], columns, rows)
  {
    indexes := [];
    var p := 0;
    var y := 0;
    while y < rows
      invariant 0 <= y <= rows
      invariant p == y * Stride(columns)
      invariant indexes == Bitmap(data[..], columns, y)
    {
      MulMono(y + 1, rows, Stride(columns));
      var row := UnpackRow(data, p, columns);
      indexes := indexes + row;
      p := p + Stride(columns);
      y := y + 1;
    }
  }

  /** The bytes of the converted data that hold pixels, as indexes. */
  function ByteIndexes(data: seq<byte>, n: nat): (r: seq<nat>)
    requires n <= |data|
  {
    seq(n, i requires 0 <= i < n => data[i] as nat)
  }

  /** The reader's loop for colormapped data: one index per byte. */
  method CopyIndexes(data: array<byte>, n: nat) returns (indexes: seq<nat>)
    requires n <= data.Length
    ensures indexes == ByteIndexes(data[..], n)
  {
    indexes := [];
    var p := 0;
    while p < n
      invariant 0 <= p <= n && |indexes| == p
      invariant forall i :: 0 <= i < p ==> indexes[i] == data[i]
    {
      indexes := indexes + [data[p] as nat];
      p := p + 1;
    }
  }

  /** Pixel `p` of planar data with `n` pixels per plane: red, green and
    * blue at `p`, `p + n` and `p + 2n`, and with a matte the alpha at
    * `p + 3n`. */
  function PlanarPixel(data: seq<byte>, n: nat, matte: bool, p: nat): Pixel
    requires p < n && (if matte then 4 * n else 3 * n) <= |data|
  {
    Pixel(ScaleCharToQuantum(data[p]), ScaleCharToQuantum(data[p + n]), ScaleCharToQuantum(data[p + 2 * n]),
          if matte then QuantumRange - ScaleCharToQuantum(data[p + 3 * n]) else OpaqueOpacity)
  }

  /** The `n` pixels of planar data. */
  function PlanarPixels(data: seq<byte>, n: nat, matte: bool): seq<Pixel>
    requires (if matte then 4 * n else 3 * n) <= |data|
  {
    seq(n, p requires 0 <= p < n => PlanarPixel(data, n, matte, p))
  }

  /** The reader's direct-colour loop, pixel by pixel in row order. */
  method GatherPlanar(data: array<byte>, n: nat, matte: bool) returns (pixels: seq<Pixel>)
    requires (if matte then 4 * n else 3 * n) <= data.Length
    ensures pixels == PlanarPixels(data[..], n, matte)
  {
    pixels := [];
    var p := 0;
    while p < n
      invariant 0 <= p <= n && |pixels| == p
      invariant forall i :: 0 <= i < p ==> pixels[i] == PlanarPixel(data[..], n, matte, i)
    {
      var opacity := if matte then QuantumRange - ScaleCharToQuantum(data[p + 3 * n]) else OpaqueOpacity;
      pixels := pixels + [Pixel(ScaleCharToQuantum(data[p]), ScaleCharToQuantum(data[p + n]),
                                ScaleCharToQuantum(data[p + 2 * n]), opacity)];
      p := p + 1;
    }
  }
}
