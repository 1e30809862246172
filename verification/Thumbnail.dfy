/** `renderDrawingThumbnailPng` of src/drawing-thumbnail.ts: an 8 by 8 drawing as a 32 by 32 image. */
module Thumbnail {
  import opened Common
  import opened Crc32
  import opened Png

  const SIZE := 32
  const PLANE := 4096

  predicate IsHex(c: char) {
    '0' <= c <= '9' || 'a' <= c <= 'f'
  }

  /** A palette colour as drawings carry it: a hash and six lower-case hexadecimal digits. */
  type Colour = s: string |
    |s| == 7 && s[0] == '#' && forall i :: 1 <= i < 7 ==> IsHex(s[i])
    witness "#000000"

  /** An index is None where the drawing is transparent. */
  datatype Drawing = Drawing(palette: seq<Colour>, indices: seq<Option<int>>)

  datatype RenderError = GridIncomplete | ColourMissing | NotEncoded(error: PngError)

  function HexValue(c: char): (v: nat)
    requires IsHex(c)
    ensures v < 16
  {
    if c <= '9' then (c - '0') as int else 10 + (c - 'a') as int
  }

  function HexDigit(v: nat): (c: char)
    requires v < 16
    ensures IsHex(c) && HexValue(c) == v
  {
    if v < 10 then '0' + v as char else 'a' + (v - 10) as char
  }

  lemma HexDigitOfValue(c: char)
    requires IsHex(c)
    ensures HexDigit(HexValue(c)) == c
  {
  }

  function Rgb(colour: Colour): (r: Bytes)
    ensures |r| == 3
  {
    [ 16 * HexValue(colour[1]) + HexValue(colour[2]),
      16 * HexValue(colour[3]) + HexValue(colour[4]),
      16 * HexValue(colour[5]) + HexValue(colour[6]) ]
  }

  function Hex(rgb: Bytes): Colour
    requires |rgb| == 3
  {
    [ '#', HexDigit(rgb[0] / 16), HexDigit(rgb[0] % 16), HexDigit(rgb[1] / 16), HexDigit(rgb[1] % 16),
      HexDigit(rgb[2] / 16), HexDigit(rgb[2] % 16) ]
  }

  lemma HexPair(a: char, b: char)
    requires IsHex(a) && IsHex(b)
    ensures var v := 16 * HexValue(a) + HexValue(b);
      v < 256 && HexDigit(v / 16) == a && HexDigit(v % 16) == b
  {
    hide HexValue, HexDigit;
    HexDigitOfValue(a);
    HexDigitOfValue(b);
  }

  lemma HexOfRgb(colour: Colour)
    ensures Hex(Rgb(colour)) == colour
  {
    hide HexValue, HexDigit;
    HexPair(colour[1], colour[2]);
    HexPair(colour[3], colour[4]);
    HexPair(colour[5], colour[6]);
  }

  /** Red, green and blue in this order, two digits each. */
  lemma RgbSpelled(colour: Colour, k: nat)
    requires k < 3
    ensures var high, low := colour[1 + 2 * k], colour[2 + 2 * k];
      Rgb(colour)[k] == 16 * (if high in "0123456789" then high as int - 48 else high as int - 87)
                        + (if low in "0123456789" then low as int - 48 else low as int - 87)
  {
  }

  // ----- cells and bytes

  predicate CellPresent(drawing: Drawing, cell: nat) {
    cell < |drawing.indices|
  }

  predicate CellDrawn(drawing: Drawing, cell: nat)
    requires CellPresent(drawing, cell)
  {
    drawing.indices[cell].None? || 0 <= drawing.indices[cell].value < |drawing.palette|
  }

  predicate CellGood(drawing: Drawing, cell: nat) {
    CellPresent(drawing, cell) && CellDrawn(drawing, cell)
  }

  predicate Complete(drawing: Drawing) {
    forall cell | 0 <= cell < 64 :: CellGood(drawing, cell)
  }

  /** What a cell shows: a colour, or nothing. */
  function Shown(drawing: Drawing, cell: nat): Option<Colour>
    requires CellGood(drawing, cell)
  {
    if drawing.indices[cell].None? then None else Some(drawing.palette[drawing.indices[cell].value])
  }

  function CellBytes(drawing: Drawing, cell: nat): (r: Bytes)
    requires CellGood(drawing, cell)
    ensures |r| == 4
  {
    match Shown(drawing, cell)
    case None => [0, 0, 0, 0]
    case Some(colour) => Rgb(colour) + [255]
  }

  /** The cell whose block holds the pixel at (x, y). */
  function CellAt(x: nat, y: nat): (cell: nat)
    requires x < SIZE && y < SIZE
    ensures cell < 64
  {
    y / 4 * 8 + x / 4
  }

  function CellOfPixel(pixel: nat): (cell: nat)
    requires pixel < SIZE * SIZE
    ensures cell < 64
  {
    CellAt(pixel % SIZE, pixel / SIZE)
  }

  function Plane(drawing: Drawing): (r: Bytes)
    requires Complete(drawing)
    ensures |r| == PLANE
  {
    seq(PLANE, i requires 0 <= i < PLANE => CellBytes(drawing, CellOfPixel(i / 4))[i % 4])
  }

  /** The first cell in reading order that cannot be drawn. */
  function FirstBad(drawing: Drawing, from: nat): nat
    requires from <= 64
    decreases 64 - from
  {
    if from == 64 || !CellGood(drawing, from) then from else FirstBad(drawing, from + 1)
  }

  function BadCell(drawing: Drawing, cell: nat): RenderError {
    if !CellPresent(drawing, cell) then GridIncomplete else ColourMissing
  }

  lemma {:induction false} FirstBadIs(drawing: Drawing, from: nat, cell: nat)
    requires from <= cell <= 64 && (cell < 64 ==> !CellGood(drawing, cell))
    requires forall c :: from <= c < cell ==> CellGood(drawing, c)
    ensures FirstBad(drawing, from) == cell
    decreases cell - from
  {
    if from < cell {
      FirstBadIs(drawing, from + 1, cell);
    }
  }

  function RenderSpec(codec: Codec, drawing: Drawing): Result<Bytes, RenderError> {
    var bad := FirstBad(drawing, 0);
    if bad < 64 then Err(BadCell(drawing, bad))
    else
      FirstBadNone(drawing, 0);
      match PngSpec(codec, Plane(drawing), SIZE, SIZE, 4)
      case Err(error) => Err(NotEncoded(error))
      case Ok(file) => Ok(file)
  }

  lemma {:induction false} FirstBadNone(drawing: Drawing, from: nat)
    requires from <= 64 && FirstBad(drawing, from) >= 64
    ensures forall cell :: from <= cell < 64 ==> CellGood(drawing, cell)
    decreases 64 - from
  {
    if from < 64 {
      FirstBadNone(drawing, from + 1);
    }
  }

  /** Every cell before a pixel's own was met at an earlier pixel. */
  lemma EarlierCells(pixel: nat, cell: nat)
    requires pixel < SIZE * SIZE && cell < CellOfPixel(pixel)
    ensures CornerOf(cell) < pixel
  {
    var x, y, cx, cy := pixel % SIZE, pixel / SIZE, cell % 8, cell / 8;
    if cy < y / 4 {
      assert cy * 4 + 4 <= y;
    } else {
      assert cy == y / 4 && cx < x / 4;
    }
  }

  /** The pixel at the upper left of a cell's block. */
  function CornerOf(cell: nat): nat {
    cell / 8 * 4 * SIZE + cell % 8 * 4
  }

  lemma CornerShowsCell(cell: nat)
    requires cell < 64
    ensures CornerOf(cell) < SIZE * SIZE && CellOfPixel(CornerOf(cell)) == cell
  {
    var x, y := cell % 8 * 4, cell / 8 * 4;
    PixelPosition(x, y);
  }

  lemma PixelPosition(x: nat, y: nat)
    requires x < SIZE && y < SIZE
    ensures (y * SIZE + x) / SIZE == y && (y * SIZE + x) % SIZE == x
    ensures CellOfPixel(y * SIZE + x) == CellAt(x, y)
  {
  }

  /** The plane after so many pixels in reading order: drawn before, clear from there on. */
  ghost predicate Drawn(drawing: Drawing, plane: Bytes, count: nat) {
    && |plane| == PLANE && count <= SIZE * SIZE
    && (forall p :: 0 <= p < count ==>
         CellGood(drawing, CellOfPixel(p)) && plane[4 * p..4 * p + 4] == CellBytes(drawing, CellOfPixel(p)))
    && (forall p :: count <= p < SIZE * SIZE ==> plane[4 * p..4 * p + 4] == [0, 0, 0, 0])
  }

  lemma OtherPixel(before: Bytes, colour: Bytes, pixel: nat, p: nat)
    requires |before| == PLANE && |colour| == 4 && pixel < SIZE * SIZE && p < SIZE * SIZE && p != pixel
    ensures (before[..4 * pixel] + colour + before[4 * pixel + 4..])[4 * p..4 * p + 4] == before[4 * p..4 * p + 4]
  {
  }

  lemma DrawnNext(drawing: Drawing, before: Bytes, after: Bytes, pixel: nat)
    requires Drawn(drawing, before, pixel) && pixel < SIZE * SIZE && CellGood(drawing, CellOfPixel(pixel))
    requires after == before[..4 * pixel] + CellBytes(drawing, CellOfPixel(pixel)) + before[4 * pixel + 4..]
    ensures Drawn(drawing, after, pixel + 1)
  {
    var colour := CellBytes(drawing, CellOfPixel(pixel));
    forall p | 0 <= p < SIZE * SIZE && p != pixel ensures after[4 * p..4 * p + 4] == before[4 * p..4 * p + 4] {
      OtherPixel(before, colour, pixel, p);
    }
    assert after[4 * pixel..4 * pixel + 4] == colour;
  }

  /** A transparent cell leaves its pixel clear. */
  lemma DrawnClear(drawing: Drawing, plane: Bytes, pixel: nat)
    requires Drawn(drawing, plane, pixel) && pixel < SIZE * SIZE
    ensures plane == plane[..4 * pixel] + [0, 0, 0, 0] + plane[4 * pixel + 4..]
  {
    assert plane[4 * pixel..4 * pixel + 4] == [0, 0, 0, 0];
    assert plane == plane[..4 * pixel] + plane[4 * pixel..4 * pixel + 4] + plane[4 * pixel + 4..];
  }

  lemma DrawnBad(drawing: Drawing, plane: Bytes, pixel: nat)
    requires Drawn(drawing, plane, pixel) && pixel < SIZE * SIZE && !CellGood(drawing, CellOfPixel(pixel))
    ensures FirstBad(drawing, 0) == CellOfPixel(pixel)
  {
    forall c | 0 <= c < CellOfPixel(pixel) ensures CellGood(drawing, c) {
      EarlierCells(pixel, c);
      CornerShowsCell(c);
      assert CellGood(drawing, CellOfPixel(CornerOf(c)));
    }
    FirstBadIs(drawing, 0, CellOfPixel(pixel));
  }

  lemma DrawnAll(drawing: Drawing, plane: Bytes)
    requires Drawn(drawing, plane, SIZE * SIZE)
    ensures Complete(drawing) && plane == Plane(drawing) && FirstBad(drawing, 0) == 64
  {
    forall c | 0 <= c < 64 ensures CellGood(drawing, c) {
      CornerShowsCell(c);
      assert CellGood(drawing, CellOfPixel(CornerOf(c)));
    }
    FirstBadIs(drawing, 0, 64);
    forall i | 0 <= i < PLANE ensures plane[i] == Plane(drawing)[i] {
      assert plane[4 * (i / 4)..4 * (i / 4) + 4][i % 4] == plane[i];
    }
  }

  method DrawPixel(drawing: Drawing, pixels: array<Byte>, pixel: nat) returns (error: Option<RenderError>)
    requires Drawn(drawing, pixels[..], pixel) && pixel < SIZE * SIZE && pixels.Length == PLANE
    modifies pixels
    ensures error.None? ==> CellGood(drawing, CellOfPixel(pixel)) && Drawn(drawing, pixels[..], pixel + 1)
    ensures error.Some? ==>
      FirstBad(drawing, 0) == CellOfPixel(pixel) && error.value == BadCell(drawing, CellOfPixel(pixel))
  {
    hide Drawn, FirstBad, Rgb;
    var cell := CellOfPixel(pixel);
    if |drawing.indices| <= cell {
      DrawnBad(drawing, pixels[..], pixel);
      return Some(GridIncomplete);
    }
    var paletteIndex := drawing.indices[cell];
    ghost var before := pixels[..];
    if paletteIndex.None? {
      DrawnClear(drawing, before, pixel);
      DrawnNext(drawing, before, before, pixel);
      return None;
    }
    if !(0 <= paletteIndex.value < |drawing.palette|) {
      DrawnBad(drawing, pixels[..], pixel);
      return Some(ColourMissing);
    }
    var colour := Rgb(drawing.palette[paletteIndex.value]);
    var offset := pixel * 4;
    pixels[offset] := colour[0];
    pixels[offset + 1] := colour[1];
    pixels[offset + 2] := colour[2];
    pixels[offset + 3] := 255;
    assert colour + [255] == [colour[0], colour[1], colour[2], 255];
    assert pixels[..] == before[..4 * pixel] + CellBytes(drawing, cell) + before[4 * pixel + 4..];
    DrawnNext(drawing, before, pixels[..], pixel);
    return None;
  }

  method RenderDrawingThumbnailPng(codec: Codec, drawing: Drawing) returns (r: Result<Bytes, RenderError>)
    ensures r == RenderSpec(codec, drawing)
  {
    hide PngSpec, FirstBad, Drawn, Plane;
    var pixels := new Byte[PLANE](_ => 0);
    NothingDrawn(drawing, pixels[..]);
    for targetY := 0 to SIZE
      invariant fresh(pixels) && Drawn(drawing, pixels[..], targetY * SIZE)
    {
      for targetX := 0 to SIZE
        invariant fresh(pixels) && Drawn(drawing, pixels[..], targetY * SIZE + targetX)
      {
        var error := DrawPixel(drawing, pixels, targetY * SIZE + targetX);
        if error.Some? {
          return Err(error.value);
        }
      }
    }
    DrawnAll(drawing, pixels[..]);
    var encoded := EncodePng(codec, pixels, SIZE, SIZE, 4);
    match encoded
    case Err(error) => return Err(NotEncoded(error));
    case Ok(file) => return Ok(file);
  }

  lemma NothingDrawn(drawing: Drawing, plane: Bytes)
    requires |plane| == PLANE && forall i :: 0 <= i < PLANE ==> plane[i] == 0
    ensures Drawn(drawing, plane, 0)
  {
  }

  // ----- the drawing can be read back

  /** Reads one pixel of an image with four channels: nothing where it is transparent. */
  function Sample(image: Image, x: nat, y: nat): Option<Colour>
    requires image.channels == 4 && image.width == SIZE && |image.pixels| == PLANE && x < SIZE && y < SIZE
  {
    var at := (y * SIZE + x) * 4;
    if image.pixels[at + 3] == 0 then None else Some(Hex(image.pixels[at..at + 3]))
  }

  /** The pixel's fourth channel: 255 is opaque. */
  function Opacity(image: Image, x: nat, y: nat): Byte
    requires image.channels == 4 && image.width == SIZE && |image.pixels| == PLANE && x < SIZE && y < SIZE
  {
    image.pixels[(y * SIZE + x) * 4 + 3]
  }

  /**
   The thumbnail decodes, and any one pixel out of each 4 by 4 block gives the cell of the
   drawing back, opaque where it has a colour and transparent where it has none.
   */
  lemma ThumbnailShowsDrawing(codec: Codec, drawing: Drawing)
    requires Lossless(codec) && RenderSpec(codec, drawing).Ok?
    ensures Complete(drawing)
    ensures var image := Decode(codec, RenderSpec(codec, drawing).value);
      && image.Some?
      && image.value.width == 32 && image.value.height == 32 && image.value.channels == 4
      && |image.value.pixels| == PLANE
      && forall x, y :: 0 <= x < SIZE && 0 <= y < SIZE ==>
           && Sample(image.value, x, y) == Shown(drawing, CellAt(x, y))
           && Opacity(image.value, x, y) == if Shown(drawing, CellAt(x, y)).Some? then 255 else 0
  {
    var image := DecodedThumbnail(codec, drawing);
    hide Decode, Sample, Plane, Shown, CellAt, RenderSpec, Lossless;
    forall x, y | 0 <= x < SIZE && 0 <= y < SIZE
      ensures Sample(image, x, y) == Shown(drawing, CellAt(x, y))
      ensures Opacity(image, x, y) == if Shown(drawing, CellAt(x, y)).Some? then 255 else 0
    {
      SampleCell(drawing, x, y);
    }
  }

  lemma DecodedThumbnail(codec: Codec, drawing: Drawing) returns (image: Image)
    requires Lossless(codec) && RenderSpec(codec, drawing).Ok?
    ensures Complete(drawing) && image == Image(SIZE, SIZE, 4, Plane(drawing))
    ensures Decode(codec, RenderSpec(codec, drawing).value) == Some(image)
  {
    hide PngSpec, Decode, FirstBad, Plane;
    FirstBadNone(drawing, 0);
    DecodeEncoded(codec, Plane(drawing), SIZE, SIZE, 4);
    image := Image(SIZE, SIZE, 4, Plane(drawing));
  }

  lemma PlaneAt(drawing: Drawing, pixel: nat)
    requires Complete(drawing) && pixel < SIZE * SIZE
    ensures Plane(drawing)[4 * pixel..4 * pixel + 4] == CellBytes(drawing, CellOfPixel(pixel))
  {
    hide CellBytes, CellOfPixel;
    forall k | 0 <= k < 4 ensures Plane(drawing)[4 * pixel + k] == CellBytes(drawing, CellOfPixel(pixel))[k] {
      assert (4 * pixel + k) / 4 == pixel && (4 * pixel + k) % 4 == k;
    }
  }

  lemma SampleCell(drawing: Drawing, x: nat, y: nat)
    requires Complete(drawing) && x < SIZE && y < SIZE
    ensures var image := Image(SIZE, SIZE, 4, Plane(drawing));
      && Sample(image, x, y) == Shown(drawing, CellAt(x, y))
      && Opacity(image, x, y) == if Shown(drawing, CellAt(x, y)).Some? then 255 else 0
  {
    hide Plane, CellOfPixel, CellAt, CellBytes, Hex, Shown, CellGood;
    PixelPosition(x, y);
    PlaneAt(drawing, y * SIZE + x);
    CellRead(drawing, CellAt(x, y));
    PixelSlice(Plane(drawing), (y * SIZE + x) * 4);
  }

  lemma PixelSlice(plane: Bytes, at: nat)
    requires at + 4 <= |plane|
    ensures plane[at + 3] == plane[at..at + 4][3]
    ensures plane[at..at + 3] == plane[at..at + 4][..3]
  {
  }

  lemma CellRead(drawing: Drawing, cell: nat)
    requires CellGood(drawing, cell)
    ensures var bytes := CellBytes(drawing, cell);
      && Shown(drawing, cell) == (if bytes[3] == 0 then None else Some(Hex(bytes[..3])))
      && bytes[3] == if Shown(drawing, cell).Some? then 255 else 0
  {
    hide Rgb, Hex;
    if Shown(drawing, cell).Some? {
      HexOfRgb(Shown(drawing, cell).value);
      assert CellBytes(drawing, cell)[..3] == Rgb(Shown(drawing, cell).value);
    }
  }
}
