/**
 The PNG writer of src/drawing-thumbnail.ts, and a reader written apart from it after RFC 2083.

 Deflate and inflate are a pair of functions; the writer's results hold for every pair that
 loses nothing.
 */
module Png {
  import opened Common
  import opened Crc32

  type Bytes = seq<Byte>

  datatype Codec = Codec(deflate: Bytes -> Bytes, inflate: Bytes -> Option<Bytes>)

  ghost predicate Lossless(codec: Codec) {
    forall raw :: codec.inflate(codec.deflate(raw)) == Some(raw)
  }

  datatype PngError = DimensionMismatch | RangeError

  datatype Image = Image(width: nat, height: nat, channels: nat, pixels: Bytes)

  const SIGNATURE: Bytes := [0x89, 0x50, 0x4e, 0x47, 0x0d, 0x0a, 0x1a, 0x0a]
  const IHDR: Bytes := [0x49, 0x48, 0x44, 0x52]
  const IDAT: Bytes := [0x49, 0x44, 0x41, 0x54]
  const IEND: Bytes := [0x49, 0x45, 0x4e, 0x44]

  // ----- big-endian words

  function BigEndian(n: Word): (r: Bytes)
    ensures |r| == 4
  {
    var high := n / 256;
    var higher := high / 256;
    [higher / 256, higher % 256, high % 256, n % 256]
  }

  function FromBigEndian(s: Bytes): Word
    requires |s| == 4
  {
    var a: int, b: int, c: int, d: int := s[0], s[1], s[2], s[3];
    ((a * 256 + b) * 256 + c) * 256 + d
  }

  lemma BigEndianRoundTrip(n: Word)
    ensures FromBigEndian(BigEndian(n)) == n
  {
  }

  // ----- what the writer writes (sections 3.2 and 4.1.1 of RFC 2083)

  function ChunkBytes(kind: Bytes, data: Bytes): Bytes
    requires |data| < WORD
  {
    BigEndian(|data|) + kind + data + BigEndian(Checksum(kind + data))
  }

  /** Scanlines with filter type 0 before each (section 6). */
  function Scanlines(pixels: Bytes, stride: nat, rows: nat): Bytes
    requires rows * stride <= |pixels|
    decreases rows
  {
    if rows == 0 then []
    else
      assert rows * stride == (rows - 1) * stride + stride;
      Scanlines(pixels, stride, rows - 1) + [0] + pixels[(rows - 1) * stride..rows * stride]
  }

  function Header(width: Word, height: Word, channels: nat): Bytes {
    BigEndian(width) + BigEndian(height) + [8, if channels == 4 then 6 else 2, 0, 0, 0]
  }

  predicate Dimensioned(pixels: Bytes, width: int, height: int, channels: nat) {
    1 <= width && 1 <= height && |pixels| == width * height * channels
  }

  lemma RowsFit(width: nat, height: nat, channels: nat)
    ensures height * (width * channels) == width * height * channels
  {
  }

  function PngSpec(codec: Codec, pixels: Bytes, width: int, height: int, channels: nat): Result<Bytes, PngError>
    requires channels == 3 || channels == 4
  {
    if !Dimensioned(pixels, width, height, channels) then Err(DimensionMismatch)
    else if width >= WORD || height >= WORD then Err(RangeError)
    else
      RowsFit(width, height, channels);
      var packed := codec.deflate(Scanlines(pixels, width * channels, height));
      if |packed| >= WORD then Err(RangeError)
      else Ok(SIGNATURE + ChunkBytes(IHDR, Header(width, height, channels)) + ChunkBytes(IDAT, packed)
           + ChunkBytes(IEND, []))
  }

  // ----- the writer

  /** `buffer.set(bytes, offset)` */
  method Put(buffer: array<Byte>, offset: nat, bytes: Bytes)
    requires offset + |bytes| <= buffer.Length
    modifies buffer
    ensures buffer[..] == old(buffer[..offset]) + bytes + old(buffer[offset + |bytes|..])
  {
    for i := 0 to |bytes|
      invariant buffer[..offset] == old(buffer[..offset])
      invariant buffer[offset..offset + i] == bytes[..i]
      invariant buffer[offset + |bytes|..] == old(buffer[offset + |bytes|..])
    {
      buffer[offset + i] := bytes[i];
      assert buffer[offset..offset + i + 1] == buffer[offset..offset + i] + [bytes[i]];
    }
    assert buffer[offset..offset + |bytes|] == bytes;
    assert buffer[..] == buffer[..offset] + buffer[offset..offset + |bytes|] + buffer[offset + |bytes|..];
  }

  lemma PutNext(before: Bytes, done: Bytes, bytes: Bytes, offset: nat, after: Bytes)
    requires offset + |bytes| <= |before| && before[..offset] == done
    requires after == before[..offset] + bytes + before[offset + |bytes|..]
    ensures |after| == |before| && after[..offset + |bytes|] == done + bytes
  {
  }

  method PngChunk(kind: Bytes, data: Bytes) returns (chunk: array<Byte>)
    requires |kind| == 4 && |data| < WORD
    ensures fresh(chunk) && chunk[..] == ChunkBytes(kind, data)
  {
    hide Checksum, BigEndian;
    chunk := new Byte[12 + |data|](_ => 0);
    ghost var b0 := chunk[..];
    Put(chunk, 0, BigEndian(|data|));
    ghost var b1 := chunk[..];
    PutNext(b0, [], BigEndian(|data|), 0, b1);
    Put(chunk, 4, kind);
    ghost var b2 := chunk[..];
    PutNext(b1, BigEndian(|data|), kind, 4, b2);
    Put(chunk, 8, data);
    ghost var b3 := chunk[..];
    PutNext(b2, BigEndian(|data|) + kind, data, 8, b3);
    var checksum := Crc(kind + data);
    Put(chunk, 8 + |data|, BigEndian(checksum));
    PutNext(b3, BigEndian(|data|) + kind + data, BigEndian(checksum), 8 + |data|, chunk[..]);
    assert chunk[..12 + |data|] == chunk[..];
  }

  lemma RowBounds(row: nat, rows: nat, stride: nat)
    requires row < rows
    ensures row * (stride + 1) + (stride + 1) == (row + 1) * (stride + 1) <= (stride + 1) * rows
    ensures row * stride + stride == (row + 1) * stride <= rows * stride
  {
  }

  method PackRows(pixels: array<Byte>, stride: nat, height: nat) returns (raw: array<Byte>)
    requires pixels.Length == height * stride
    ensures fresh(raw) && raw[..] == Scanlines(pixels[..], stride, height)
  {
    hide Scanlines;
    raw := new Byte[(stride + 1) * height](_ => 0);
    ScanlinesStart(pixels[..], stride);
    var source, target := 0, 0;
    for row := 0 to height
      invariant fresh(raw) && raw.Length == (stride + 1) * height
      invariant source == row * stride <= pixels.Length
      invariant target == row * (stride + 1) <= raw.Length
      invariant raw[..target] == Scanlines(pixels[..], stride, row)
    {
      RowBounds(row, height, stride);
      PutRow(raw, target, pixels[source..source + stride]);
      ScanlinesNext(pixels[..], stride, row);
      assert pixels[..][source..source + stride] == pixels[source..source + stride];
      source, target := source + stride, target + stride + 1;
    }
    assert raw[..target] == raw[..];
  }

  /** One scanline behind its filter byte. */
  method PutRow(raw: array<Byte>, target: nat, line: Bytes)
    requires target + 1 + |line| <= raw.Length
    modifies raw
    ensures raw[..target + 1 + |line|] == old(raw[..target]) + [0] + line
  {
    ghost var done, b0 := raw[..target], raw[..];
    Put(raw, target, [0]);
    ghost var b1 := raw[..];
    PutNext(b0, done, [0], target, b1);
    Put(raw, target + 1, line);
    PutNext(b1, done + [0], line, target + 1, raw[..]);
  }

  lemma ScanlinesStart(pixels: Bytes, stride: nat)
    ensures 0 * stride <= |pixels| && Scanlines(pixels, stride, 0) == []
  {
  }

  lemma ScanlinesNext(pixels: Bytes, stride: nat, row: nat)
    requires row * stride + stride == (row + 1) * stride <= |pixels|
    ensures Scanlines(pixels, stride, row + 1)
         == Scanlines(pixels, stride, row) + [0] + pixels[row * stride..(row + 1) * stride]
  {
  }

  method PackHeader(width: Word, height: Word, channels: nat) returns (header: array<Byte>)
    ensures fresh(header) && header[..] == Header(width, height, channels)
  {
    hide BigEndian;
    header := new Byte[13](_ => 0);
    ghost var b0 := header[..];
    Put(header, 0, BigEndian(width));
    ghost var b1 := header[..];
    PutNext(b0, [], BigEndian(width), 0, b1);
    Put(header, 4, BigEndian(height));
    PutNext(b1, BigEndian(width), BigEndian(height), 4, header[..]);
    assert header[8..] == [0, 0, 0, 0, 0];
    header[8] := 8;
    header[9] := if channels == 4 then 6 else 2;
    assert header[..] == header[..8] + header[8..];
  }

  method EncodePng(codec: Codec, pixels: array<Byte>, width: int, height: int, channels: nat)
    returns (r: Result<Bytes, PngError>)
    requires channels == 3 || channels == 4
    ensures r == PngSpec(codec, pixels[..], width, height, channels)
  {
    hide Scanlines, ChunkBytes, BigEndian;
    if width < 1 || height < 1 || pixels.Length != width * height * channels {
      return Err(DimensionMismatch);
    }
    var stride := width * channels;
    RowsFit(width, height, channels);
    var raw := PackRows(pixels, stride, height);
    if width >= WORD || height >= WORD {
      return Err(RangeError);
    }
    var header := PackHeader(width, height, channels);
    var ihdr := PngChunk(IHDR, header[..]);
    var packed := codec.deflate(raw[..]);
    if |packed| >= WORD {
      return Err(RangeError);
    }
    var idat := PngChunk(IDAT, packed);
    var iend := PngChunk(IEND, []);
    return Ok(SIGNATURE + ihdr[..] + idat[..] + iend[..]);
  }

  // ----- a reader

  datatype Chunk = Chunk(kind: Bytes, data: Bytes)

  datatype Parsed = Parsed(chunk: Chunk, length: nat)

  /** One chunk at the head of s: the length has to fit and the checksum has to agree. */
  function ParseChunk(s: Bytes): (r: Option<Parsed>)
    ensures r.Some? ==> 12 <= r.value.length <= |s|
  {
    if |s| < 12 then None
    else
      var n := FromBigEndian(s[..4]);
      if |s| < 12 + n || FromBigEndian(s[8 + n..12 + n]) != Checksum(s[4..8 + n]) then None
      else Some(Parsed(Chunk(s[4..8], s[8..8 + n]), 12 + n))
  }

  function ParseChunks(s: Bytes): Option<seq<Chunk>>
    decreases |s|
  {
    if s == [] then Some([])
    else
      match ParseChunk(s)
      case None => None
      case Some(parsed) =>
        match ParseChunks(s[parsed.length..])
        case None => None
        case Some(rest) => Some([parsed.chunk] + rest)
  }

  function ImageData(chunks: seq<Chunk>): Bytes {
    if chunks == [] then []
    else (if chunks[0].kind == IDAT then chunks[0].data else []) + ImageData(chunks[1..])
  }

  /** Takes the filter byte off each scanline; only filter type 0 is read. */
  function Unfilter(raw: Bytes, stride: nat, rows: nat): Option<Bytes>
    decreases rows
  {
    if rows == 0 then (if raw == [] then Some([]) else None)
    else if |raw| < stride + 1 || raw[0] != 0 then None
    else
      match Unfilter(raw[stride + 1..], stride, rows - 1)
      case None => None
      case Some(rest) => Some(raw[1..stride + 1] + rest)
  }

  function Decode(codec: Codec, file: Bytes): Option<Image> {
    if !(SIGNATURE <= file) then None
    else
      match ParseChunks(file[8..])
      case None => None
      case Some(chunks) =>
        if |chunks| < 2 || chunks[0].kind != IHDR || |chunks[0].data| != 13 || chunks[|chunks| - 1] != Chunk(IEND, [])
        then None
        else
          var header := chunks[0].data;
          var width, height := FromBigEndian(header[..4]), FromBigEndian(header[4..8]);
          if header[8] != 8 || (header[9] != 2 && header[9] != 6) || header[10..] != [0, 0, 0] then None
          else
            var channels := if header[9] == 6 then 4 else 3;
            match codec.inflate(ImageData(chunks))
            case None => None
            case Some(raw) =>
              match Unfilter(raw, width * channels, height)
              case None => None
              case Some(pixels) => Some(Image(width, height, channels, pixels))
  }

  // ----- round trip

  lemma ParseChunkBytes(kind: Bytes, data: Bytes, rest: Bytes)
    requires |kind| == 4 && |data| < WORD
    ensures ParseChunk(ChunkBytes(kind, data) + rest) == Some(Parsed(Chunk(kind, data), 12 + |data|))
    ensures |ChunkBytes(kind, data)| == 12 + |data|
    ensures (ChunkBytes(kind, data) + rest)[12 + |data|..] == rest
  {
    hide Checksum, BigEndian, FromBigEndian;
    var n := |data|;
    BigEndianRoundTrip(n);
    BigEndianRoundTrip(Checksum(kind + data));
    Slices(BigEndian(n), kind, data, BigEndian(Checksum(kind + data)), rest);
  }

  lemma Slices(a: Bytes, b: Bytes, c: Bytes, d: Bytes, rest: Bytes)
    requires |a| == |b| == |d| == 4
    ensures var s := a + b + c + d + rest;
      && s[..4] == a && s[4..8] == b && s[8..8 + |c|] == c && s[4..8 + |c|] == b + c
      && s[8 + |c|..12 + |c|] == d && s[12 + |c|..] == rest
  {
  }

  lemma ParseEmpty()
    ensures ParseChunks([]) == Some([])
  {
  }

  lemma ParseNext(kind: Bytes, data: Bytes, rest: Bytes)
    requires |kind| == 4 && |data| < WORD && ParseChunks(rest).Some?
    ensures ParseChunks(ChunkBytes(kind, data) + rest) == Some([Chunk(kind, data)] + ParseChunks(rest).value)
  {
    hide ChunkBytes;
    ParseChunkBytes(kind, data, rest);
    var s := ChunkBytes(kind, data) + rest;
    assert s != [] && s[12 + |data|..] == rest;
    assert ParseChunk(s).value.chunk == Chunk(kind, data);
  }

  lemma ParseThreeChunks(header: Bytes, packed: Bytes)
    requires |header| < WORD && |packed| < WORD
    ensures ParseChunks(ChunkBytes(IHDR, header) + ChunkBytes(IDAT, packed) + ChunkBytes(IEND, []))
         == Some([Chunk(IHDR, header), Chunk(IDAT, packed), Chunk(IEND, [])])
  {
    hide ChunkBytes, ParseChunks;
    assert ParseChunks([]) == Some([]) by { ParseEmpty(); }
    var a, b, c := ChunkBytes(IHDR, header), ChunkBytes(IDAT, packed), ChunkBytes(IEND, []);
    ParseNext(IEND, [], []);
    assert c + [] == c;
    ParseNext(IDAT, packed, c);
    ParseNext(IHDR, header, b + c);
    assert a + b + c == a + (b + c);
    var x, y, z := Chunk(IHDR, header), Chunk(IDAT, packed), Chunk(IEND, []);
    assert [x] + ([y] + ([z] + [])) == [x, y, z];
  }

  /** The same scanlines from the first row on. */
  lemma {:induction false} ScanlinesFront(pixels: Bytes, stride: nat, rows: nat)
    requires rows > 0 && rows * stride <= |pixels|
    ensures stride <= |pixels| && (rows - 1) * stride <= |pixels[stride..]|
    ensures Scanlines(pixels, stride, rows) == [0] + pixels[..stride] + Scanlines(pixels[stride..], stride, rows - 1)
    decreases rows
  {
    RowBounds(rows - 1, rows, stride);
    if rows == 1 {
      ScanlinesStart(pixels, stride);
      ScanlinesStart(pixels[stride..], stride);
      ScanlinesNext(pixels, stride, 0);
    } else {
      RowBounds(rows - 2, rows - 1, stride);
      ScanlinesFront(pixels, stride, rows - 1);
      ScanlinesShift(pixels, stride, rows, (rows - 2) * stride);
    }
  }

  /** Scanlines of the pixels without the first row, one row more. */
  lemma ScanlinesShift(pixels: Bytes, stride: nat, rows: nat, k: nat)
    requires rows >= 2 && k == (rows - 2) * stride && (rows - 1) * stride == k + stride
    requires rows * stride == k + stride + stride <= |pixels|
    requires Scanlines(pixels, stride, rows - 1)
      == [0] + pixels[..stride] + Scanlines(pixels[stride..], stride, rows - 2)
    ensures Scanlines(pixels, stride, rows) == [0] + pixels[..stride] + Scanlines(pixels[stride..], stride, rows - 1)
  {
    hide Scanlines;
    ScanlinesNext(pixels, stride, rows - 1);
    ScanlinesNext(pixels[stride..], stride, rows - 2);
    assert pixels[stride..][k..k + stride] == pixels[k + stride..k + stride + stride];
    assert [0] + pixels[..stride] + Scanlines(pixels[stride..], stride, rows - 2)
      + [0] + pixels[k + stride..k + stride + stride]
        == [0] + pixels[..stride] + (Scanlines(pixels[stride..], stride, rows - 2)
             + [0] + pixels[k + stride..k + stride + stride]);
  }

  lemma {:induction false} UnfilterScanlines(pixels: Bytes, stride: nat, rows: nat)
    requires rows * stride == |pixels|
    ensures Unfilter(Scanlines(pixels, stride, rows), stride, rows) == Some(pixels)
    decreases rows
  {
    if rows > 0 {
      hide Scanlines;
      ScanlinesFront(pixels, stride, rows);
      assert rows * stride == (rows - 1) * stride + stride;
      UnfilterScanlines(pixels[stride..], stride, rows - 1);
      var raw := Scanlines(pixels, stride, rows);
      assert raw[1..stride + 1] == pixels[..stride];
      assert raw[stride + 1..] == Scanlines(pixels[stride..], stride, rows - 1);
      assert pixels == pixels[..stride] + pixels[stride..];
    } else {
      assert pixels == [];
    }
  }

  lemma HeaderRead(width: Word, height: Word, channels: nat)
    requires channels == 3 || channels == 4
    ensures var header := Header(width, height, channels);
      && |header| == 13
      && FromBigEndian(header[..4]) == width && FromBigEndian(header[4..8]) == height
      && header[8] == 8 && header[9] == (if channels == 4 then 6 else 2) && header[10..] == [0, 0, 0]
  {
    hide BigEndian, FromBigEndian;
    BigEndianRoundTrip(width);
    BigEndianRoundTrip(height);
    var header := Header(width, height, channels);
    assert header[..4] == BigEndian(width) && header[4..8] == BigEndian(height);
  }

  /** Reading back what the writer wrote gives the dimensions and every pixel. */
  lemma DecodeEncoded(codec: Codec, pixels: Bytes, width: int, height: int, channels: nat)
    requires Lossless(codec) && (channels == 3 || channels == 4)
    requires PngSpec(codec, pixels, width, height, channels).Ok?
    ensures Decode(codec, PngSpec(codec, pixels, width, height, channels).value)
         == Some(Image(width, height, channels, pixels))
  {
    hide Scanlines, ChunkBytes, Header, BigEndian, FromBigEndian, ParseChunks, Unfilter;
    var file := PngSpec(codec, pixels, width, height, channels).value;
    RowsFit(width, height, channels);
    var raw := Scanlines(pixels, width * channels, height);
    var packed := codec.deflate(raw);
    var header := Header(width, height, channels);
    HeaderRead(width, height, channels);
    ParseThreeChunks(header, packed);
    var chunks := [Chunk(IHDR, header), Chunk(IDAT, packed), Chunk(IEND, [])];
    assert file[8..] == ChunkBytes(IHDR, header) + ChunkBytes(IDAT, packed) + ChunkBytes(IEND, []);
    assert SIGNATURE == file[..8];
    ImageDataOf(header, packed);
    UnfilterScanlines(pixels, width * channels, height);
  }

  lemma ImageDataOf(header: Bytes, packed: Bytes)
    ensures ImageData([Chunk(IHDR, header), Chunk(IDAT, packed), Chunk(IEND, [])]) == packed
  {
    var a, b, c := Chunk(IHDR, header), Chunk(IDAT, packed), Chunk(IEND, []);
    assert [a, b, c][1..] == [b, c] && [b, c][1..] == [c] && [c][1..] == [];
    assert IHDR[1] != IDAT[1] && IEND[1] != IDAT[1];
    assert ImageData([c]) == [] + ImageData([]) == [];
    assert ImageData([b, c]) == packed + [] == packed;
    assert [] + packed == packed;
  }

  // ----- damage is noticed

  lemma SameStretch(a: Bytes, b: Bytes, i: nat, j: nat)
    requires i <= j <= |a| && j <= |b| && forall k :: i <= k < j ==> a[k] == b[k]
    ensures a[i..j] == b[i..j]
  {
  }

  /**
   A chunk in which up to four adjacent bytes of its kind and data were changed is refused,
   whatever follows it.
   */
  lemma DamagedChunkRefused(kind: Bytes, data: Bytes, damaged: Bytes, rest: Bytes, k: nat)
    requires |kind| == 4 && |data| < WORD
    requires var whole := ChunkBytes(kind, data);
      && |damaged| == |whole| && damaged != whole && 4 <= k && k <= 8 + |data|
      && forall i :: 0 <= i < |whole| && (i < k || k + 4 <= i || 8 + |data| <= i) ==> damaged[i] == whole[i]
    ensures ParseChunk(damaged + rest).None?
  {
    hide Checksum, BigEndian, FromBigEndian;
    var whole := ChunkBytes(kind, data);
    var n := |data|;
    var s := damaged + rest;
    BigEndianRoundTrip(n);
    BigEndianRoundTrip(Checksum(kind + data));
    Slices(BigEndian(n), kind, data, BigEndian(Checksum(kind + data)), []);
    assert whole + [] == whole;
    assert |whole| == 12 + n;
    assert s[..12 + n] == damaged;
    SameStretch(s, whole, 0, 4);
    SameStretch(s, whole, 8 + n, 12 + n);
    var was, now := whole[4..8 + n], s[4..8 + n];
    hide ChunkBytes, ParseChunk;
    var i :| 0 <= i < |whole| && damaged[i] != whole[i];
    assert now[i - 4] == damaged[i] && was[i - 4] == whole[i];
    BurstDetected(was, now, k - 4);
  }

  // ----- the bytes of a file

  /** Four bytes, the most significant first. */
  predicate SpellsWord(bytes: Bytes, n: nat) {
    && |bytes| == 4 && bytes[0] == n / 0x100_0000 && bytes[1] == n / 0x1_0000 % 0x100
    && bytes[2] == n / 0x100 % 0x100 && bytes[3] == n % 0x100
  }

  predicate SpellsText(bytes: Bytes, text: string) {
    |bytes| == |text| && forall i | 0 <= i < |text| :: bytes[i] == text[i] as int
  }

  lemma BigEndianSpells(n: nat)
    requires n < WORD
    ensures SpellsWord(BigEndian(n), n)
  {
  }

  /** A chunk's length, kind and data stand where the standard puts them. */
  lemma ChunkLayout(kind: Bytes, data: Bytes)
    requires |kind| == 4 && |data| < WORD
    ensures var chunk := ChunkBytes(kind, data);
      && |chunk| == 12 + |data| && SpellsWord(chunk[..4], |data|) && chunk[4..8] == kind
      && chunk[8..8 + |data|] == data && SpellsWord(chunk[8 + |data|..], Checksum(kind + data))
  {
    BigEndianSpells(|data|);
    BigEndianSpells(Checksum(kind + data));
    hide SpellsWord, BigEndian, Checksum;
    var chunk := ChunkBytes(kind, data);
    assert chunk == BigEndian(|data|) + kind + data + BigEndian(Checksum(kind + data));
  }

  /** The kinds spell their names. */
  lemma KindNames()
    ensures SpellsText(IHDR, "IHDR") && SpellsText(IDAT, "IDAT") && SpellsText(IEND, "IEND")
  {
  }

  /**
   The first bytes of a file, after sections 3.1 and 4.1.1 of RFC 2083: a byte with its high bit set,
   the letters PNG, two kinds of line end with a control character between them, and the header
   chunk with width, height, eight bits a channel and the colour type.
   */
  lemma FileLayout(codec: Codec, pixels: Bytes, width: int, height: int, channels: nat)
    requires (channels == 3 || channels == 4) && PngSpec(codec, pixels, width, height, channels).Ok?
    ensures var file := PngSpec(codec, pixels, width, height, channels).value;
      && |file| >= 8 + 25 + 12 + 12 && file[0] == 137 && SpellsText(file[1..4], "PNG") && file[4..8] == [13, 10, 26, 10]
      && SpellsWord(file[8..12], 13) && SpellsText(file[12..16], "IHDR")
      && width > 0 && SpellsWord(file[16..20], width) && height > 0 && SpellsWord(file[20..24], height)
      && file[24..29] == [8, if channels == 4 then 6 else 2, 0, 0, 0]
      && SpellsText(file[37..41], "IDAT")
      && SpellsWord(file[|file| - 12..|file| - 8], 0) && SpellsText(file[|file| - 8..|file| - 4], "IEND")
  {
    RowsFit(width, height, channels);
    var packed := codec.deflate(Scanlines(pixels, width * channels, height));
    var header := Header(width, height, channels);
    KindNames();
    SignatureLayout();
    ChunkLayout(IHDR, header);
    ChunkLayout(IDAT, packed);
    ChunkLayout(IEND, []);
    HeaderLayout(width, height, channels);
    hide SpellsWord, SpellsText, BigEndian, ChunkBytes, Scanlines, Header;
    var a, b, c := ChunkBytes(IHDR, header), ChunkBytes(IDAT, packed), ChunkBytes(IEND, []);
    FileSlices(SIGNATURE, a, b, c);
    HeaderSlices(a[8..21]);
  }

  lemma SignatureLayout()
    ensures |SIGNATURE| == 8 && SIGNATURE[0] == 137 && SpellsText(SIGNATURE[1..4], "PNG")
      && SIGNATURE[4..8] == [13, 10, 26, 10]
  {
  }

  lemma HeaderLayout(width: Word, height: Word, channels: nat)
    ensures var header := Header(width, height, channels);
      && |header| == 13 && SpellsWord(header[..4], width) && SpellsWord(header[4..8], height)
      && header[8..13] == [8, if channels == 4 then 6 else 2, 0, 0, 0]
  {
    BigEndianSpells(width);
    BigEndianSpells(height);
    hide SpellsWord, BigEndian;
    var header := Header(width, height, channels);
    assert header[..4] == BigEndian(width) && header[4..8] == BigEndian(height);
  }

  lemma HeaderSlices(header: Bytes)
    requires |header| == 13
    ensures header[..4] == header[0..4]
  {
  }

  lemma FileSlices(signature: Bytes, a: Bytes, b: Bytes, c: Bytes)
    requires |signature| == 8 && |a| == 25 && |b| >= 12 && |c| == 12
    ensures var file := signature + a + b + c;
      && |file| == 8 + 25 + |b| + 12
      && file[0] == signature[0] && file[1..4] == signature[1..4] && file[4..8] == signature[4..8]
      && file[8..12] == a[..4] && file[12..16] == a[4..8]
      && file[16..20] == a[8..21][..4] && file[20..24] == a[8..21][4..8]
      && file[24..29] == a[8..21][8..13] && file[37..41] == b[4..8]
      && file[|file| - 12..|file| - 8] == c[..4] && file[|file| - 8..|file| - 4] == c[4..8]
  {
  }
}
