/**
 * `src/utils/imageProcessor.ts`, `processImageData`: after the dimension check,
 * a nested loop turns the flat RGBA bytes of `getImageData` into a row-major
 * `height x width` grid, reading pixel `(x, y)` from bytes `i .. i+3` with
 * `i = (y * width + x) * 4`.
 */
module ImageProcessor {
  import opened Wrappers
  import opened SkinTypes
  import opened SkinDimensions

  datatype ProcessedImage = ProcessedImage(pixels: PixelGrid, width: int, height: int)

  datatype ImageError = InvalidDimensions | NoCanvasContext

  function ErrorMessage(e: ImageError): string {
    match e
    case InvalidDimensions =>
      "Invalid skin dimensions. Please use a 64x32, 64x64, or 128x128 Minecraft skin."
    case NoCanvasContext => "Failed to create canvas context"
  }

  /** The shape of what `getImageData(0, 0, width, height)` returns: four bytes
      per pixel. */
  predicate IsImageData(data: seq<byte>, width: int, height: int) {
    width >= 0 && height >= 0 && |data| == width * height * 4
  }

  lemma MulLe(a: int, b: int, c: nat)
    ensures a <= b ==> a * c <= b * c
  {
  }

  /** Row `y` of a `width`-wide image begins after `y` whole rows: any offset in
      row `y` is below any offset in a later row. */
  lemma RowOffsetsOrdered(width: nat, x: nat, y: nat, x': nat, y': nat)
    requires x < width && y < y'
    ensures y * width + x < y' * width + x'
  {
    assert (y + 1) * width == y * width + width;
    MulLe(y + 1, y', width);
  }

  lemma OffsetInRange(width: nat, height: nat, x: nat, y: nat)
    requires x < width && y < height
    ensures y * width + x < width * height
  {
    RowOffsetsOrdered(width, x, y, 0, height);
    assert height * width == width * height;
  }

  /** Every byte a pixel reads lies inside the buffer. */
  lemma IndexInBounds(width: nat, height: nat, x: nat, y: nat)
    requires x < width && y < height
    ensures (y * width + x) * 4 + 3 < width * height * 4
  {
    RowOffsetsOrdered(width, x, y, 0, height);
    assert height * width == width * height;
  }

  /** The pixel the loop builds at column `x` of row `y`. */
  function PixelAt(data: seq<byte>, width: nat, height: nat, x: nat, y: nat): Color
    requires IsImageData(data, width, height) && x < width && y < height
  {
    IndexInBounds(width, height, x, y);
    var i := (y * width + x) * 4;
    Color(data[i], data[i + 1], data[i + 2], data[i + 3])
  }

  /** The grid the loop builds, written with the loop's own index formula. */
  function Grid(data: seq<byte>, width: nat, height: nat): (g: PixelGrid)
    requires IsImageData(data, width, height)
  {
    seq(height, y requires 0 <= y < height =>
      seq(width, x requires 0 <= x < width => PixelAt(data, width, height, x, y)))
  }

  /** `processImageData` once the image has loaded: `validate` is the dimension
      check it is given, `hasContext` whether the canvas yields a 2D context, and
      `data` the bytes read back from the canvas. */
  method ProcessImageData(
    imgWidth: int, imgHeight: int,
    validate: (int, int) -> Option<Dimensions>,
    hasContext: bool,
    data: seq<byte>)
    returns (r: Result<ProcessedImage, ImageError>)
    requires validate(imgWidth, imgHeight).Some? ==>
      IsImageData(data, validate(imgWidth, imgHeight).value.width, validate(imgWidth, imgHeight).value.height)
    ensures validate(imgWidth, imgHeight).None? ==> r == Failure(InvalidDimensions)
    ensures validate(imgWidth, imgHeight).Some? && !hasContext ==> r == Failure(NoCanvasContext)
    ensures validate(imgWidth, imgHeight).Some? && hasContext ==>
      var d := validate(imgWidth, imgHeight).value;
      && r.Success?
      && r.value.width == d.width && r.value.height == d.height
      && r.value.pixels == Grid(data, d.width, d.height)
  {
    var dims := validate(imgWidth, imgHeight);
    if dims.None? {
      return Failure(InvalidDimensions);
    }
    if !hasContext {
      return Failure(NoCanvasContext);
    }
    var width: nat, height: nat := dims.value.width, dims.value.height;
    var pixelData: PixelGrid := [];
    var y := 0;
    while y < height
      invariant 0 <= y <= height
      invariant |pixelData| == y
      invariant forall yy :: 0 <= yy < y ==> pixelData[yy] == Grid(data, width, height)[yy]
    {
      var row: seq<Color> := [];
      var x := 0;
      while x < width
        invariant 0 <= x <= width
        invariant |row| == x
        invariant forall xx :: 0 <= xx < x ==> row[xx] == PixelAt(data, width, height, xx, y)
      {
        var i := (y * width + x) * 4;
        IndexInBounds(width, height, x, y);
        row := row + [Color(data[i], data[i + 1], data[i + 2], data[i + 3])];
        x := x + 1;
      }
      pixelData := pixelData + [row];
      y := y + 1;
    }
    return Success(ProcessedImage(pixelData, width, height));
  }

  /** Reference reading of the buffer: consecutive groups of four bytes. */
  function Pixels(bytes: seq<byte>): (px: seq<Color>)
    requires |bytes| % 4 == 0
    ensures |px| == |bytes| / 4
    decreases |bytes|
  {
    if bytes == [] then []
    else [Color(bytes[0], bytes[1], bytes[2], bytes[3])] + Pixels(bytes[4..])
  }

  /** The bytes of a run of pixels, as a PNG encoder writes them. */
  function Channels(px: seq<Color>): (bytes: seq<byte>)
    ensures |bytes| == 4 * |px|
  {
    if px == [] then [] else [px[0].r, px[0].g, px[0].b, px[0].a] + Channels(px[1..])
  }

  /** Reference reading of a run of pixels as `height` rows of `width`. */
  function Rows(px: seq<Color>, width: nat, height: nat): (g: PixelGrid)
    requires |px| == width * height
    ensures |g| == height
    decreases height
  {
    if height == 0 then []
    else
      assert |px| == width * (height - 1) + width;
      [px[..width]] + Rows(px[width..], width, height - 1)
  }

  /** The pixels of a grid, row after row. */
  function Concat(g: PixelGrid): seq<Color> {
    if g == [] then [] else g[0] + Concat(g[1..])
  }

  lemma {:induction false} PixelsAt(bytes: seq<byte>, j: nat)
    requires |bytes| % 4 == 0 && j < |bytes| / 4
    ensures Pixels(bytes)[j] == Color(bytes[4 * j], bytes[4 * j + 1], bytes[4 * j + 2], bytes[4 * j + 3])
    decreases j
  {
    if j > 0 {
      PixelsAt(bytes[4..], j - 1);
    }
  }

  lemma RowStart(y: nat, width: nat)
    requires y > 0
    ensures (y - 1) * width + width == y * width
    ensures width * (y - 1) + width == width * y
  {
  }

  lemma {:induction false} RowsShape(px: seq<Color>, width: nat, height: nat, y: nat)
    requires |px| == width * height && y < height
    ensures |Rows(px, width, height)[y]| == width
    decreases y
  {
    RowStart(height, width);
    if y > 0 {
      RowsShape(px[width..], width, height - 1, y - 1);
    }
  }

  lemma {:induction false} RowsAt(px: seq<Color>, width: nat, height: nat, x: nat, y: nat)
    requires |px| == width * height && x < width && y < height
    ensures |Rows(px, width, height)[y]| == width && y * width + x < |px|
    ensures Rows(px, width, height)[y][x] == px[y * width + x]
    decreases y
  {
    RowStart(height, width);
    RowsShape(px, width, height, y);
    OffsetInRange(width, height, x, y);
    if y == 0 {
      assert Rows(px, width, height)[0] == px[..width];
    } else {
      var rest := px[width..];
      var tail := Rows(rest, width, height - 1);
      assert Rows(px, width, height)[y] == tail[y - 1];
      RowsAt(rest, width, height - 1, x, y - 1);
      RowStart(y, width);
      OffsetInRange(width, height - 1, x, y - 1);
      var j := (y - 1) * width + x;
      assert tail[y - 1][x] == rest[j];
      assert j + width == y * width + x;
    }
  }

  /** The loop's index formula reads the image exactly as the reference does:
      groups of four bytes, cut into rows of `width`. */
  lemma GridMatchesReference(data: seq<byte>, width: nat, height: nat)
    requires IsImageData(data, width, height)
    ensures |data| % 4 == 0 && |Pixels(data)| == width * height
    ensures Grid(data, width, height) == Rows(Pixels(data), width, height)
  {
    var g, ref := Grid(data, width, height), Rows(Pixels(data), width, height);
    forall y | 0 <= y < height ensures g[y] == ref[y] {
      RowsShape(Pixels(data), width, height, y);
      forall x | 0 <= x < width ensures g[y][x] == ref[y][x] {
        RowsAt(Pixels(data), width, height, x, y);
        IndexInBounds(width, height, x, y);
        PixelsAt(data, y * width + x);
      }
    }
  }

  lemma {:induction false} ChannelsOfPixels(bytes: seq<byte>)
    requires |bytes| % 4 == 0
    ensures Channels(Pixels(bytes)) == bytes
    decreases |bytes|
  {
    if bytes != [] {
      ChannelsOfPixels(bytes[4..]);
      assert bytes == bytes[..4] + bytes[4..];
    }
  }

  lemma {:induction false} ConcatOfRows(px: seq<Color>, width: nat, height: nat)
    requires |px| == width * height
    ensures Concat(Rows(px, width, height)) == px
    decreases height
  {
    if height > 0 {
      assert |px| == width * (height - 1) + width;
      ConcatOfRows(px[width..], width, height - 1);
      assert px == px[..width] + px[width..];
    }
  }

  /** Round trip: writing the grid's pixels back out, row by row, gives back
      exactly the bytes that were read, alpha included. */
  lemma GridRoundTrip(data: seq<byte>, width: nat, height: nat)
    requires IsImageData(data, width, height)
    ensures Channels(Concat(Grid(data, width, height))) == data
  {
    GridMatchesReference(data, width, height);
    ConcatOfRows(Pixels(data), width, height);
    ChannelsOfPixels(data);
  }

  /** Two different pixels read disjoint groups of four bytes. */
  lemma PixelReadsDisjoint(width: nat, height: nat, x: nat, y: nat, x': nat, y': nat)
    requires x < width && y < height && x' < width && y' < height
    requires (x, y) != (x', y')
    ensures (y * width + x) * 4 + 4 <= (y' * width + x') * 4 ||
            (y' * width + x') * 4 + 4 <= (y * width + x) * 4
  {
    if y < y' {
      RowOffsetsOrdered(width, x, y, x', y');
    } else if y' < y {
      RowOffsetsOrdered(width, x', y', x, y);
    }
  }

  /** Every byte of the buffer is read by a pixel of the grid: byte `k` is
      channel `k % 4` of pixel `(p % width, p / width)` with `p = k / 4`. */
  lemma EveryByteRead(width: nat, height: nat, k: nat)
    requires k < width * height * 4
    ensures width > 0
    ensures var p := k / 4; var x, y := p % width, p / width;
      y < height && (y * width + x) * 4 + k % 4 == k
  {
    var p := k / 4;
    assert width != 0;
    var x, y := p % width, p / width;
    assert p == y * width + x;
    assert p < width * height;
    MulLe(height, y, width);
    assert height * width == width * height;
  }
}
