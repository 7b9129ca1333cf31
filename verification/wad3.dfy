/**
 * The Half-Life WAD3 texture archive parser: a 12-byte header with the magic
 * "WAD3", a directory of 32-byte records, and for every uncompressed miptex
 * record a 40-byte texture header, four 8-bit indexed mip levels and a
 * trailer holding a 256-colour RGB palette. Accepted textures are expanded
 * to RGBA.
 *
 * All record fields are `uint32_t` read little-endian, so the offset sums the
 * parser forms are `uint32_t` sums and wrap modulo 2^32; they are written
 * out with `WrapU32`.
 */
module Wad3 {
  import opened Bits
  import opened Bytes
  import opened Paths

  const HeaderSize: nat := 12
  const DirEntrySize: nat := 32
  const MiptexHeaderSize: nat := 40
  /** `int16_t colors_used` followed by a 256 * 3 byte palette. */
  const TrailerSize: nat := 770
  const PaletteSize: nat := 768
  const MiptexFileType: Byte := 0x43
  const NumLevels: nat := 4

  /** "WAD3" in ASCII. */
  const Magic: seq<Byte> := [0x57, 0x41, 0x44, 0x33]

  datatype Header = Header(magic: seq<Byte>, numDirs: nat, dirOffset: nat)

  datatype DirEntry = DirEntry(
    entryOffset: nat, diskSize: nat, entrySize: nat,
    fileType: Byte, compressed: bool, name: seq<Byte>)

  datatype MiptexHeader = MiptexHeader(name: seq<Byte>, width: nat, height: nat, mipOffsets: seq<nat>)

  datatype Trailer = Trailer(colorsUsed: int, palette: seq<Byte>)

  /** A decoded texture: its name, size and four RGBA mip levels. */
  datatype Miptex = Miptex(name: seq<Byte>, width: nat, height: nat, mipmaps: seq<seq<Byte>>)

  datatype File = File(name: string, contents: seq<Byte>)

  /** The parser object: validity flag, archive name and the textures found. */
  datatype Parser = Parser(valid: bool, name: string, miptexs: seq<Miptex>)

  // ---------------------------------------------------------------------
  // Record images
  // ---------------------------------------------------------------------

  function Zeros(n: nat): (b: seq<Byte>)
    ensures |b| == n
  {
    seq(n, _ => 0)
  }

  function DecodeHeader(b: seq<Byte>): Header
    requires |b| == HeaderSize
  {
    Header(b[..4], U32(b, 4), U32(b, 8))
  }

  function DecodeDirEntry(b: seq<Byte>): DirEntry
    requires |b| == DirEntrySize
  {
    DirEntry(U32(b, 0), U32(b, 4), U32(b, 8), b[12], b[13] != 0, b[16..32])
  }

  function DecodeMiptexHeader(b: seq<Byte>): MiptexHeader
    requires |b| == MiptexHeaderSize
  {
    MiptexHeader(b[..16], U32(b, 16), U32(b, 20), [U32(b, 24), U32(b, 28), U32(b, 32), U32(b, 36)])
  }

  function DecodeTrailer(b: seq<Byte>): Trailer
    requires |b| == TrailerSize
  {
    Trailer(I16(b, 0), b[2..])
  }

  /** The little-endian image of a `uint32_t` field. */
  function Field(v: nat): (b: seq<Byte>)
    ensures |b| == 4
  {
    ToLittleEndian(v, 4)
  }

  /** A `uint32_t` written between any bytes reads back at its offset. */
  lemma FieldRoundTrip(pre: seq<Byte>, v: nat, post: seq<Byte>)
    requires v < U32Limit
    ensures U32(pre + Field(v) + post, |pre|) == v
  {
    var b := pre + Field(v) + post;
    assert b[|pre|..|pre| + 4] == Field(v);
    Pow256Widths();
    DecodeEncode(v, 4);
  }

  predicate WellFormedHeader(h: Header)
  {
    |h.magic| == 4 && h.numDirs < U32Limit && h.dirOffset < U32Limit
  }

  function EncodeHeader(h: Header): (b: seq<Byte>)
    requires WellFormedHeader(h)
    ensures |b| == HeaderSize
  {
    h.magic + Field(h.numDirs) + Field(h.dirOffset)
  }

  /** Decoding inverts encoding for the header. */
  lemma HeaderRoundTrip(h: Header)
    requires WellFormedHeader(h)
    ensures DecodeHeader(EncodeHeader(h)) == h
  {
    var b := EncodeHeader(h);
    assert b[..4] == h.magic;
    FieldRoundTrip(h.magic, h.numDirs, Field(h.dirOffset));
    assert b == (h.magic + Field(h.numDirs)) + Field(h.dirOffset) + [];
    FieldRoundTrip(h.magic + Field(h.numDirs), h.dirOffset, []);
  }

  predicate WellFormedDirEntry(e: DirEntry)
  {
    && e.entryOffset < U32Limit && e.diskSize < U32Limit && e.entrySize < U32Limit
    && |e.name| == 16
  }

  /** The 32-byte directory record, with zero padding and `compressed` as 0 or 1. */
  function EncodeDirEntry(e: DirEntry): (b: seq<Byte>)
    requires WellFormedDirEntry(e)
    ensures |b| == DirEntrySize
  {
    Field(e.entryOffset) + Field(e.diskSize) + Field(e.entrySize)
      + [e.fileType, if e.compressed then 1 else 0, 0, 0] + e.name
  }

  /** Decoding inverts encoding for directory records. */
  lemma DirEntryRoundTrip(e: DirEntry)
    requires WellFormedDirEntry(e)
    ensures DecodeDirEntry(EncodeDirEntry(e)) == e
  {
    var b := EncodeDirEntry(e);
    Pow256Widths();
    assert b[0..4] == Field(e.entryOffset);
    DecodeEncode(e.entryOffset, 4);
    assert b[4..8] == Field(e.diskSize);
    DecodeEncode(e.diskSize, 4);
    assert b[8..12] == Field(e.entrySize);
    DecodeEncode(e.entrySize, 4);
    assert b[13] == if e.compressed then 1 else 0;
    assert b[16..32] == e.name;
  }

  // ---------------------------------------------------------------------
  // Palette expansion
  // ---------------------------------------------------------------------

  /** One RGBA pixel: the palette entry of colour index c, fully opaque. */
  function Pixel(palette: seq<Byte>, c: Byte): (p: seq<Byte>)
    requires |palette| == PaletteSize
    ensures |p| == 4 && p[3] == 255
    ensures p[..3] == palette[3 * c..3 * c + 3]
  {
    palette[3 * c..3 * c + 3] + [255]
  }

  /** RGBA image of a run of colour indices, pixel after pixel. */
  function Expand(src: seq<Byte>, palette: seq<Byte>): (rgba: seq<Byte>)
    requires |palette| == PaletteSize
    ensures |rgba| == 4 * |src|
  {
    if src == [] then [] else Pixel(palette, src[0]) + Expand(src[1..], palette)
  }

  /** Pixel i of the expansion is the palette colour of source byte i. */
  lemma {:induction false} ExpandPixelAt(src: seq<Byte>, palette: seq<Byte>, i: nat)
    requires |palette| == PaletteSize && i < |src|
    ensures Expand(src, palette)[4 * i..4 * i + 4] == Pixel(palette, src[i])
  {
    if i > 0 {
      ExpandPixelAt(src[1..], palette, i - 1);
      var rest := Expand(src[1..], palette);
      assert Expand(src, palette)[4 * i..4 * i + 4] == rest[4 * (i - 1)..4 * (i - 1) + 4];
    }
  }

  lemma {:induction false} ExpandAppend(src: seq<Byte>, c: Byte, palette: seq<Byte>)
    requires |palette| == PaletteSize
    ensures Expand(src + [c], palette) == Expand(src, palette) + Pixel(palette, c)
  {
    if src == [] {
      assert [] + [c] == [c];
    } else {
      var longer := src + [c];
      assert longer[0] == src[0] && longer[1..] == src[1..] + [c];
      ExpandAppend(src[1..], c, palette);
      var head, tail, last := Pixel(palette, src[0]), Expand(src[1..], palette), Pixel(palette, c);
      assert Expand(longer, palette) == head + (tail + last);
      assert head + (tail + last) == (head + tail) + last;
    }
  }

  /**
   * The per-pixel loop of `parse_miptex`: write r, g, b and 255 at `4*i`
   * for every source byte i.
   */
  method ExpandLoop(src: seq<Byte>, palette: seq<Byte>) returns (data: seq<Byte>)
    requires |palette| == PaletteSize
    ensures data == Expand(src, palette)
  {
    var n := |src|;
    data := Zeros(4 * n);
    var i := 0;
    while i < n
      invariant i <= n && |data| == 4 * n
      invariant data[..4 * i] == Expand(src[..i], palette)
    {
      var color: int := src[i];
      var before := data;
      data := data[4 * i := palette[3 * color]][4 * i + 1 := palette[3 * color + 1]];
      data := data[4 * i + 2 := palette[3 * color + 2]][4 * i + 3 := 255];
      PixelWritten(before, data, i, palette, src[i]);
      assert src[..i + 1] == src[..i] + [src[i]];
      ExpandAppend(src[..i], src[i], palette);
      i := i + 1;
    }
    assert src[..n] == src;
  }

  /** Writing r, g, b and 255 at `4*i` appends the pixel to the first `4*i` bytes. */
  lemma PixelWritten(before: seq<Byte>, after: seq<Byte>, i: nat, palette: seq<Byte>, c: Byte)
    requires |palette| == PaletteSize && 4 * i + 4 <= |before|
    requires after == before[4 * i := palette[3 * c]][4 * i + 1 := palette[3 * c + 1]]
                            [4 * i + 2 := palette[3 * c + 2]][4 * i + 3 := 255]
    ensures |after| == |before| && after[..4 * (i + 1)] == before[..4 * i] + Pixel(palette, c)
  {
    var p := Pixel(palette, c);
    forall k | 0 <= k < 4 * (i + 1)
      ensures after[..4 * (i + 1)][k] == (before[..4 * i] + p)[k]
    {
    }
  }

  // ---------------------------------------------------------------------
  // parse_miptex
  // ---------------------------------------------------------------------

  /**
   * The bounds check of one mip level as compiled: the `uint32_t` sum of the
   * level's absolute offset and pixel count against the file length.
   */
  function MipInBoundsAsWritten(absolute: nat, mipSize: nat, fileLen: nat): (ok: bool)
    requires absolute < U32Limit && mipSize < U32Limit
    ensures absolute + mipSize < U32Limit ==> (ok <==> absolute + mipSize <= fileLen)
  {
    WrapU32(absolute + mipSize) <= fileLen
  }

  /**
   * A level at offset 0xFFFFFF00 with 16 x 16 pixels passes the compiled
   * check in any file of at least 814 bytes, although its bytes lie past
   * 4 GiB: the pixel loop then reads outside the file contents.
   */
  lemma MipBoundsWrapExample(fileLen: nat)
    requires 814 <= fileLen < U32Limit
    ensures MipInBoundsAsWritten(0xFFFF_FF00, 16 * 16, fileLen)
    ensures 0xFFFF_FF00 + 16 * 16 > fileLen
  {
    assert WrapU32(0xFFFF_FF00 + 256) == 0 by {
      ModUnique(U32Limit, U32Limit, 1, 0);
    }
  }

  /** The exact check the model uses: the level's bytes lie inside the file. */
  function MipInBounds(absolute: nat, mipSize: nat, fileLen: nat): (ok: bool)
    ensures ok ==> absolute <= fileLen && mipSize <= fileLen - absolute
    ensures absolute + mipSize < U32Limit ==> (ok <==> MipInBoundsAsWritten(absolute, mipSize, fileLen))
  {
    absolute + mipSize <= fileLen
  }

  /** Pixel count of a level: `width * height` in `uint32_t`. */
  function MipSize(width: nat, height: nat): nat
  {
    WrapU32(width * height)
  }

  /** The pixel count is exact while it fits in 32 bits, and is always below 2^32. */
  lemma MipSizeExact(width: nat, height: nat)
    ensures MipSize(width, height) < U32Limit
    ensures width * height < U32Limit ==> MipSize(width, height) == width * height
  {
  }

  /** Where the colour indices of one mip level lie in the file, and how many there are. */
  datatype Span = Span(at: nat, size: nat)

  /**
   * Level k of a texture whose header `h` lies at `entryOffset`: its
   * indices start at `entry_offset + mip_offsets[k]` (`uint32_t`), and there
   * are `width * height` of them with both dimensions halved k times, as the
   * loop's `width /= 2; height /= 2` leaves them.
   */
  function LevelSpan(entryOffset: nat, h: MiptexHeader, k: nat): Span
    requires |h.mipOffsets| == NumLevels && k < NumLevels
  {
    Span(WrapU32(entryOffset + h.mipOffsets[k]), MipSize(Halve(h.width, k), Halve(h.height, k)))
  }

  /** The four levels of a texture, in loop order. */
  function LevelSpans(entryOffset: nat, h: MiptexHeader): (spans: seq<Span>)
    requires |h.mipOffsets| == NumLevels
    ensures |spans| == NumLevels && forall k :: 0 <= k < NumLevels ==> spans[k] == LevelSpan(entryOffset, h, k)
  {
    [LevelSpan(entryOffset, h, 0), LevelSpan(entryOffset, h, 1), LevelSpan(entryOffset, h, 2), LevelSpan(entryOffset, h, 3)]
  }

  /**
   * The mip-level loop of `parse_miptex` from level `level` on: read and
   * expand each level in turn; any level outside the file rejects the
   * texture.
   */
  function MipLevels(contents: seq<Byte>, spans: seq<Span>, palette: seq<Byte>, level: nat): (r: Option<seq<seq<Byte>>>)
    requires level <= |spans| && |palette| == PaletteSize
    ensures r.Some? ==> |r.value| == |spans| - level && forall k :: 0 <= k < |r.value| ==>
      Some(r.value[k]) == ReadMipLevel(contents, spans[level + k].at, spans[level + k].size, palette)
    decreases |spans| - level
  {
    if level == |spans| then Some([])
    else
      var first := ReadMipLevel(contents, spans[level].at, spans[level].size, palette);
      var rest := MipLevels(contents, spans, palette, level + 1);
      if first.None? || rest.None? then None
      else Some([first.value] + rest.value)
  }

  /** The levels from `level` on are read exactly when each of them lies inside the file. */
  lemma {:induction false} MipLevelsSucceed(contents: seq<Byte>, spans: seq<Span>, palette: seq<Byte>, level: nat)
    requires level <= |spans| && |palette| == PaletteSize
    ensures MipLevels(contents, spans, palette, level).Some?
        <==> forall k :: level <= k < |spans| ==> spans[k].at + spans[k].size <= |contents|
    decreases |spans| - level
  {
    if level < |spans| {
      MipLevelsSucceed(contents, spans, palette, level + 1);
    }
  }

  /**
   * One mip level: `size` colour indices at `absolute`, expanded to RGBA,
   * or nothing when they do not lie inside the file.
   */
  function ReadMipLevel(contents: seq<Byte>, absolute: nat, size: nat, palette: seq<Byte>): (r: Option<seq<Byte>>)
    requires |palette| == PaletteSize
    ensures r.Some? <==> absolute + size <= |contents|
    ensures r.Some? ==> |r.value| == 4 * size
  {
    if !MipInBounds(absolute, size, |contents|) then None
    else Some(Expand(contents[absolute..absolute + size], palette))
  }

  /** A dimension of mip level k: the level-0 dimension halved k times, rounding down. */
  function Halve(x: nat, k: nat): nat
  {
    if k == 0 then x else Halve(x / 2, k - 1)
  }

  /** Halving k times is dividing by 2^k. */
  lemma {:induction false} HalveIsDivision(x: nat, k: nat)
    ensures Halve(x, k) == x / Pow2(k)
  {
    if k > 0 {
      HalveIsDivision(x / 2, k - 1);
      var p := Pow2(k - 1);
      assert Pow2(k) == 2 * p;
      DivDiv(x, 2, p);
    }
  }

  lemma DivDiv(x: nat, a: nat, b: nat)
    requires a > 0 && b > 0
    ensures x / a / b == x / (a * b)
  {
    var y, s := x / a, x % a;
    var q, r := y / b, y % b;
    assert x == a * y + s;
    assert y == b * q + r;
    MulDistrib(a, b, q, r);
    MulBelow(a, r, b);
    ModUnique(x, a * b, q, a * r + s);
  }

  lemma MulDistrib(a: int, b: int, q: int, r: int)
    ensures a * (b * q + r) == (a * b) * q + a * r
  {
  }

  lemma MulBelow(a: nat, r: nat, b: nat)
    requires r < b
    ensures a * r <= a * b - a
  {
    assert a * b - a == a * (b - 1);
    MulMonotone(a, r, b - 1);
  }

  lemma MulMonotone(a: nat, r: nat, s: nat)
    requires r <= s
    ensures a * r <= a * s
  {
  }

  /** Width and height the parser accepts: non-zero multiples of 16. */
  predicate ValidDimension(d: nat)
  {
    d != 0 && d % 16 == 0
  }

  /** `entry_offset + mip_offsets[3] + width * height / 64`, all in `uint32_t`. */
  function TrailerOffset(entryOffset: nat, h: MiptexHeader): (t: nat)
    requires |h.mipOffsets| == NumLevels
    ensures t < U32Limit
  {
    WrapU32(WrapU32(entryOffset + h.mipOffsets[3]) + WrapU32(h.width * h.height) / 64)
  }

  /** A valid dimension halved three times is exactly an eighth of it. */
  lemma EighthOfValid(d: nat)
    requires ValidDimension(d)
    ensures Halve(d, 3) == 2 * (d / 16)
  {
    assert Halve(d, 3) == Halve(d / 2, 2) == Halve(d / 2 / 2, 1) == Halve(d / 2 / 2 / 2, 0);
  }

  /**
   * For valid dimensions, and while nothing wraps, the trailer starts right
   * after the indices of the last mip level: `width * height / 64` is the
   * pixel count of a level an eighth as wide and high.
   */
  lemma TrailerFollowsLastLevel(entryOffset: nat, h: MiptexHeader)
    requires |h.mipOffsets| == NumLevels && ValidDimension(h.width) && ValidDimension(h.height)
    requires h.width * h.height < U32Limit
    requires entryOffset + h.mipOffsets[3] + h.width * h.height / 64 < U32Limit
    ensures TrailerOffset(entryOffset, h) == LevelSpan(entryOffset, h, 3).at + LevelSpan(entryOffset, h, 3).size
  {
    var a, b := h.width / 16, h.height / 16;
    EighthOfValid(h.width);
    EighthOfValid(h.height);
    assert h.width * h.height == 256 * (a * b) by {
      assert h.width == 16 * a && h.height == 16 * b;
    }
    assert (2 * a) * (2 * b) == 4 * (a * b);
    assert h.width * h.height / 64 == 4 * (a * b);
    MipSizeExact(2 * a, 2 * b);
    MipSizeExact(h.width, h.height);
  }

  /**
   * `parse_miptex`: reject a record shorter than the texture header, a
   * texture header or trailer outside the file, dimensions that are not
   * non-zero multiples of 16, a palette that does not have 256 colours, or a
   * mip level outside the file; otherwise decode name, size and the four
   * RGBA levels.
   */
  function ParseMiptex(contents: seq<Byte>, entry: DirEntry): (r: Option<Miptex>)
    ensures r.Some? ==> entry.entrySize >= MiptexHeaderSize
    ensures r.Some? ==> ValidDimension(r.value.width) && ValidDimension(r.value.height)
    ensures r.Some? ==> |r.value.name| <= 16 && 0 !in r.value.name
    ensures r.Some? ==> TextureAt(contents, entry.entryOffset, r.value)
    ensures entry.entrySize < MiptexHeaderSize ==> r.None?
    ensures entry.entryOffset + MiptexHeaderSize > |contents| ==> r.None?
  {
    if entry.entrySize < MiptexHeaderSize then None
    else
      var (ok, image) := ReadAt(contents, entry.entryOffset, Zeros(MiptexHeaderSize));
      if !ok then None
      else
        assert image == contents[entry.entryOffset..entry.entryOffset + MiptexHeaderSize];
        var h := DecodeMiptexHeader(image);
        assert h == HeaderAt(contents, entry.entryOffset);
        MiptexFromHeader(contents, entry.entryOffset, h)
  }

  /**
   * The part of `parse_miptex` after the texture header is read: check the
   * dimensions, read the trailer at its `uint32_t` offset, and go on.
   */
  function MiptexFromHeader(contents: seq<Byte>, entryOffset: nat, h: MiptexHeader): (r: Option<Miptex>)
    requires |h.mipOffsets| == NumLevels && |h.name| == 16
    ensures r.Some? ==> ValidDimension(r.value.width) && ValidDimension(r.value.height)
    ensures r.Some? ==> |r.value.name| <= 16 && 0 !in r.value.name
    ensures r.Some? ==> var t := TrailerOffset(entryOffset, h);
      t + TrailerSize <= |contents| && Describes(contents, entryOffset, h, contents[t + 2..t + TrailerSize], r.value)
    ensures r.Some? <==>
      && ValidDimension(h.width) && ValidDimension(h.height)
      && var t := TrailerOffset(entryOffset, h);
         && t + TrailerSize <= |contents|
         && DecodeTrailer(contents[t..t + TrailerSize]).colorsUsed == 256
         && LevelsInBounds(|contents|, entryOffset, h)
  {
    if h.width == 0 || h.height == 0 || h.width % 16 != 0 || h.height % 16 != 0 then None
    else
      var (tok, timage) := ReadAt(contents, TrailerOffset(entryOffset, h), Zeros(TrailerSize));
      if !tok then None
      else
        var t := TrailerOffset(entryOffset, h);
        assert DecodeTrailer(timage).palette == contents[t + 2..t + TrailerSize];
        MiptexFromTrailer(contents, entryOffset, h, DecodeTrailer(timage))
  }

  /**
   * The part of `parse_miptex` after the trailer is read: check the colour
   * count, then read and expand the four mip levels.
   */
  function MiptexFromTrailer(contents: seq<Byte>, entryOffset: nat, h: MiptexHeader, trailer: Trailer): (r: Option<Miptex>)
    requires |h.mipOffsets| == NumLevels && |h.name| == 16 && |trailer.palette| == PaletteSize
    ensures r.Some? ==> |r.value.name| <= 16 && 0 !in r.value.name
    ensures r.Some? ==> Describes(contents, entryOffset, h, trailer.palette, r.value)
    ensures r.Some? <==> trailer.colorsUsed == 256 && LevelsInBounds(|contents|, entryOffset, h)
  {
    if trailer.colorsUsed != 256 then None
    else
      var spans := LevelSpans(entryOffset, h);
      MipLevelsSucceed(contents, spans, trailer.palette, 0);
      match MipLevels(contents, spans, trailer.palette, 0)
      case None => None
      case Some(levels) => Some(Miptex(CString(h.name), h.width, h.height, levels))
  }

  /**
   * `m` is the texture that the texture header `h` at `entryOffset` and the
   * palette describe: its name is the header's name up to the first NUL,
   * its size the header's, and level k the RGBA expansion of the colour
   * indices of `LevelSpan(entryOffset, h, k)`.
   */
  predicate Describes(contents: seq<Byte>, entryOffset: nat, h: MiptexHeader, palette: seq<Byte>, m: Miptex)
    requires |h.mipOffsets| == NumLevels && |palette| == PaletteSize
  {
    && m.name == CString(h.name) && m.width == h.width && m.height == h.height
    && |m.mipmaps| == NumLevels
    && forall k :: 0 <= k < NumLevels ==>
         Some(m.mipmaps[k]) == ReadMipLevel(contents, LevelSpan(entryOffset, h, k).at, LevelSpan(entryOffset, h, k).size, palette)
  }

  /** The texture header stored at `entryOffset`. */
  function HeaderAt(contents: seq<Byte>, entryOffset: nat): MiptexHeader
    requires entryOffset + MiptexHeaderSize <= |contents|
  {
    DecodeMiptexHeader(contents[entryOffset..entryOffset + MiptexHeaderSize])
  }

  /**
   * `m` is the texture stored in the file at `entryOffset`: the texture
   * header there and the palette of the trailer it points to describe it.
   */
  predicate TextureAt(contents: seq<Byte>, entryOffset: nat, m: Miptex)
  {
    && entryOffset + MiptexHeaderSize <= |contents|
    && var h := HeaderAt(contents, entryOffset);
       var t := TrailerOffset(entryOffset, h);
       && t + TrailerSize <= |contents|
       && Describes(contents, entryOffset, h, contents[t + 2..t + TrailerSize], m)
  }

  /** The texture header fields are the `uint32_t` values stored at their offsets in the file. */
  lemma MiptexHeaderFields(contents: seq<Byte>, entryOffset: nat)
    requires entryOffset + MiptexHeaderSize <= |contents|
    ensures var h := HeaderAt(contents, entryOffset);
      && h.name == contents[entryOffset..entryOffset + 16]
      && h.width == U32(contents, entryOffset + 16) && h.height == U32(contents, entryOffset + 20)
      && forall k :: 0 <= k < NumLevels ==> h.mipOffsets[k] == U32(contents, entryOffset + 24 + 4 * k)
  {
    var end := entryOffset + MiptexHeaderSize;
    U32OfSlice(contents, entryOffset, end, 16);
    U32OfSlice(contents, entryOffset, end, 20);
    U32OfSlice(contents, entryOffset, end, 24);
    U32OfSlice(contents, entryOffset, end, 28);
    U32OfSlice(contents, entryOffset, end, 32);
    U32OfSlice(contents, entryOffset, end, 36);
  }

  /**
   * Level k of a texture stored at `entryOffset` holds 4 bytes for each
   * pixel of the level-0 size halved k times (see `HalveIsDivision`).
   */
  lemma TextureSizes(contents: seq<Byte>, entryOffset: nat, m: Miptex, k: nat)
    requires TextureAt(contents, entryOffset, m) && k < NumLevels
    ensures |m.mipmaps[k]| == 4 * MipSize(Halve(m.width, k), Halve(m.height, k))
  {
    TextureAtDescribes(contents, entryOffset, m);
  }

  /**
   * Pixel i of level k of a texture stored at `entryOffset` is the palette
   * colour of the i-th colour index of that level in the file, made opaque.
   */
  lemma TexturePixel(contents: seq<Byte>, entryOffset: nat, m: Miptex, k: nat, i: nat)
    requires TextureAt(contents, entryOffset, m) && k < NumLevels
    requires i < LevelSpan(entryOffset, HeaderAt(contents, entryOffset), k).size
    ensures var h := HeaderAt(contents, entryOffset);
      var t := TrailerOffset(entryOffset, h);
      var at := LevelSpan(entryOffset, h, k).at + i;
      && at < |contents| && 4 * i + 4 <= |m.mipmaps[k]|
      && m.mipmaps[k][4 * i..4 * i + 4] == Pixel(contents[t + 2..t + TrailerSize], contents[at])
  {
    TextureAtDescribes(contents, entryOffset, m);
    DescribedPixel(contents, entryOffset, HeaderAt(contents, entryOffset),
      contents[TrailerOffset(entryOffset, HeaderAt(contents, entryOffset)) + 2..TrailerOffset(entryOffset, HeaderAt(contents, entryOffset)) + TrailerSize],
      m, k, i);
  }

  /** A texture stored at `entryOffset` is the one its header and trailer describe. */
  lemma TextureAtDescribes(contents: seq<Byte>, entryOffset: nat, m: Miptex)
    requires TextureAt(contents, entryOffset, m)
    ensures var h := HeaderAt(contents, entryOffset);
      var t := TrailerOffset(entryOffset, h);
      && |h.mipOffsets| == NumLevels && t + TrailerSize <= |contents|
      && Describes(contents, entryOffset, h, contents[t + 2..t + TrailerSize], m)
  {
  }

  /** The same, for any texture that `Describes` relates to a header and a palette. */
  lemma DescribedPixel(contents: seq<Byte>, entryOffset: nat, h: MiptexHeader, palette: seq<Byte>, m: Miptex, k: nat, i: nat)
    requires |h.mipOffsets| == NumLevels && |palette| == PaletteSize
    requires Describes(contents, entryOffset, h, palette, m) && k < NumLevels
    requires i < LevelSpan(entryOffset, h, k).size
    ensures var at := LevelSpan(entryOffset, h, k).at + i;
      && at < |contents| && 4 * i + 4 <= |m.mipmaps[k]|
      && m.mipmaps[k][4 * i..4 * i + 4] == Pixel(palette, contents[at])
  {
    var span := LevelSpan(entryOffset, h, k);
    MipPixels(contents, span.at, span.size, palette, m.mipmaps[k], i);
  }

  /** All four mip levels of the texture with header `h` at `entryOffset` lie inside a file of `fileLen` bytes. */
  predicate LevelsInBounds(fileLen: nat, entryOffset: nat, h: MiptexHeader)
    requires |h.mipOffsets| == NumLevels
  {
    forall k :: 0 <= k < NumLevels ==> LevelSpan(entryOffset, h, k).at + LevelSpan(entryOffset, h, k).size <= fileLen
  }

  /**
   * The acceptance rule of `parse_miptex`, stated on the file bytes: the
   * record is at least a texture header long, the header lies inside the
   * file, both dimensions are non-zero multiples of 16, the trailer lies
   * inside the file and declares 256 colours, and every mip level lies
   * inside the file.
   */
  predicate MiptexAcceptable(contents: seq<Byte>, entry: DirEntry)
  {
    && entry.entrySize >= MiptexHeaderSize
    && entry.entryOffset + MiptexHeaderSize <= |contents|
    && var h := HeaderAt(contents, entry.entryOffset);
       && ValidDimension(h.width) && ValidDimension(h.height)
       && var t := TrailerOffset(entry.entryOffset, h);
          && t + TrailerSize <= |contents|
          && DecodeTrailer(contents[t..t + TrailerSize]).colorsUsed == 256
          && LevelsInBounds(|contents|, entry.entryOffset, h)
  }

  /** `parse_miptex` accepts a record exactly when the acceptance rule holds. */
  lemma ParseMiptexAccepts(contents: seq<Byte>, entry: DirEntry)
    ensures ParseMiptex(contents, entry).Some? <==> MiptexAcceptable(contents, entry)
  {
    var off := entry.entryOffset;
    if entry.entrySize >= MiptexHeaderSize && off + MiptexHeaderSize <= |contents| {
      assert ReadAt(contents, off, Zeros(MiptexHeaderSize)).1 == contents[off..off + MiptexHeaderSize];
      assert ParseMiptex(contents, entry) == MiptexFromHeader(contents, off, HeaderAt(contents, off));
    }
  }

  /**
   * Pixel i of an accepted level is the palette colour of byte i of the
   * level's data in the file, followed by an opaque alpha.
   */
  lemma MipPixels(contents: seq<Byte>, absolute: nat, size: nat, palette: seq<Byte>, data: seq<Byte>, i: nat)
    requires |palette| == PaletteSize
    requires ReadMipLevel(contents, absolute, size, palette) == Some(data)
    requires i < size
    ensures absolute + i < |contents| && |data| == 4 * size
    ensures data[4 * i..4 * i + 4] == Pixel(palette, contents[absolute + i])
  {
    var src := contents[absolute..absolute + size];
    ExpandPixelAt(src, palette, i);
  }

  // ---------------------------------------------------------------------
  // parse_header, process_directory, parse
  // ---------------------------------------------------------------------

  /** `parse_header`: the 12-byte header, accepted only with the "WAD3" magic. */
  function ParseHeader(contents: seq<Byte>): (r: Option<Header>)
    ensures r.Some? <==> |contents| >= HeaderSize && contents[..4] == Magic
    ensures r.Some? ==> r.value == DecodeHeader(contents[..HeaderSize])
  {
    var (ok, image) := ReadAt(contents, 0, Zeros(HeaderSize));
    if !ok then None
    else
      var h := DecodeHeader(image);
      assert h.magic == contents[..4];
      if h.magic != Magic then None else Some(h)
  }

  /** Decoded directory record i, if it lies inside the file. */
  function ReadDirEntry(contents: seq<Byte>, header: Header, i: nat): (r: Option<DirEntry>)
    ensures r.Some? <==> header.dirOffset + DirEntrySize * (i + 1) <= |contents|
    ensures r.Some? ==> var at := header.dirOffset + DirEntrySize * i;
      r.value == DecodeDirEntry(contents[at..at + DirEntrySize])
  {
    var (ok, image) := ReadAt(contents, header.dirOffset + i * DirEntrySize, Zeros(DirEntrySize));
    if ok then Some(DecodeDirEntry(image)) else None
  }

  /** Whether a directory record yields a texture, and which. */
  function AcceptEntry(contents: seq<Byte>, entry: DirEntry): (r: Option<Miptex>)
    ensures r.Some? ==> entry.fileType == MiptexFileType && !entry.compressed
    ensures r.Some? ==> r == ParseMiptex(contents, entry)
  {
    if entry.fileType != MiptexFileType then None
    else if entry.compressed then None
    else ParseMiptex(contents, entry)
  }

  /** `acc` with the texture of a record appended, when the record yields one. */
  function Append(acc: seq<Miptex>, m: Option<Miptex>): (r: seq<Miptex>)
    ensures m.None? ==> r == acc
    ensures m.Some? ==> r == acc + [m.value]
    ensures |acc| <= |r| && r[..|acc|] == acc
  {
    if m.Some? then acc + [m.value] else acc
  }

  /** A prefix of a prefix is a prefix. */
  lemma PrefixTransitive<T>(a: seq<T>, b: seq<T>, c: seq<T>)
    requires |a| <= |b| <= |c| && b[..|a|] == a && c[..|b|] == b
    ensures c[..|a|] == a
  {
    assert c[..|a|] == c[..|b|][..|a|];
  }

  /**
   * `process_directory` from record i on, appending accepted textures to
   * `acc`. A record outside the file ends the loop with failure, keeping
   * what was appended before it.
   */
  function ProcessDirectory(contents: seq<Byte>, header: Header, i: nat, acc: seq<Miptex>): (r: (bool, seq<Miptex>))
    ensures |acc| <= |r.1| && r.1[..|acc|] == acc
    ensures !r.0 ==> i < header.numDirs && header.dirOffset + DirEntrySize * header.numDirs > |contents|
    decreases header.numDirs - i
  {
    if i >= header.numDirs then (true, acc)
    else
      var entry := ReadDirEntry(contents, header, i);
      if entry.None? then (false, acc)
      else
        var next := Append(acc, AcceptEntry(contents, entry.value));
        var r := ProcessDirectory(contents, header, i + 1, next);
        PrefixTransitive(acc, next, r.1);
        r
  }

  /**
   * The directory loop fails exactly when its last record lies outside the
   * file; it only appends, and at most one texture per record.
   */
  lemma ProcessDirectoryShape(contents: seq<Byte>, header: Header, i: nat, acc: seq<Miptex>)
    requires i <= header.numDirs
    ensures var r := ProcessDirectory(contents, header, i, acc);
      && (r.0 <==> (i == header.numDirs || header.dirOffset + DirEntrySize * header.numDirs <= |contents|))
      && |acc| <= |r.1| <= |acc| + (header.numDirs - i)
      && r.1[..|acc|] == acc
  {
    ProcessDirectoryOutcome(contents, header, i, acc);
    ProcessDirectoryAppends(contents, header, i, acc);
  }

  lemma {:induction false} ProcessDirectoryOutcome(contents: seq<Byte>, header: Header, i: nat, acc: seq<Miptex>)
    requires i <= header.numDirs
    ensures ProcessDirectory(contents, header, i, acc).0
        <==> (i == header.numDirs || header.dirOffset + DirEntrySize * header.numDirs <= |contents|)
    decreases header.numDirs - i
  {
    if i < header.numDirs {
      var entry := ReadDirEntry(contents, header, i);
      if entry.Some? {
        ProcessDirectoryOutcome(contents, header, i + 1, Append(acc, AcceptEntry(contents, entry.value)));
      }
    }
  }

  lemma {:induction false} ProcessDirectoryAppends(contents: seq<Byte>, header: Header, i: nat, acc: seq<Miptex>)
    requires i <= header.numDirs
    ensures var r := ProcessDirectory(contents, header, i, acc);
      |acc| <= |r.1| <= |acc| + (header.numDirs - i) && r.1[..|acc|] == acc
    decreases header.numDirs - i
  {
    if i < header.numDirs {
      var entry := ReadDirEntry(contents, header, i);
      if entry.Some? {
        var acc' := Append(acc, AcceptEntry(contents, entry.value));
        assert |acc| <= |acc'| <= |acc| + 1 && acc'[..|acc|] == acc;
        ProcessDirectoryAppends(contents, header, i + 1, acc');
        PrefixOfPrefix(acc, acc', ProcessDirectory(contents, header, i + 1, acc').1);
      }
    }
  }

  lemma PrefixOfPrefix<T>(a: seq<T>, b: seq<T>, c: seq<T>)
    requires |a| <= |b| <= |c| && b[..|a|] == a && c[..|b|] == b
    ensures c[..|a|] == a
  {
    assert c[..|a|] == c[..|b|][..|a|];
  }

  /** Every texture the directory loop appends is a texture `parse_miptex` accepted. */
  lemma {:induction false} ProcessDirectoryAccepted(contents: seq<Byte>, header: Header, i: nat, acc: seq<Miptex>)
    ensures forall m :: m in ProcessDirectory(contents, header, i, acc).1 ==>
      m in acc || exists e: DirEntry :: ParseMiptex(contents, e) == Some(m)
    decreases header.numDirs - i
  {
    if i < header.numDirs {
      var entry := ReadDirEntry(contents, header, i);
      if entry.Some? {
        var found := AcceptEntry(contents, entry.value);
        ProcessDirectoryAccepted(contents, header, i + 1, Append(acc, found));
      }
    }
  }

  /**
   * `WAD3Parser::parse`: reset the parser, name it after the file, parse the
   * header and the directory; `valid` is the result.
   */
  function Parse(file: File): (p: Parser)
    ensures p.name == PathGetFilename(file.name)
    ensures p.valid <==> (ParseHeader(file.contents).Some?
      && var h := ParseHeader(file.contents).value;
         h.numDirs == 0 || h.dirOffset + DirEntrySize * h.numDirs <= |file.contents|)
    ensures ParseHeader(file.contents).None? ==> p.miptexs == []
    ensures ParseHeader(file.contents).Some? ==> |p.miptexs| <= ParseHeader(file.contents).value.numDirs
  {
    var name := PathGetFilename(file.name);
    match ParseHeader(file.contents)
    case None => Parser(false, name, [])
    case Some(h) =>
      var (ok, miptexs) := ProcessDirectory(file.contents, h, 0, []);
      ProcessDirectoryShape(file.contents, h, 0, []);
      Parser(ok, name, miptexs)
  }

  /** The directory as a table: record k decoded from the 32 bytes at `dir_offset + 32 * k`. */
  function Directory(contents: seq<Byte>, header: Header): (es: seq<DirEntry>)
    requires header.numDirs == 0 || header.dirOffset + DirEntrySize * header.numDirs <= |contents|
    ensures |es| == header.numDirs
  {
    seq(header.numDirs, k requires 0 <= k < header.numDirs =>
      DecodeDirEntry(contents[header.dirOffset + DirEntrySize * k..header.dirOffset + DirEntrySize * k + DirEntrySize]))
  }

  /** The textures of a run of records, in record order: one for each record `parse_miptex` accepts. */
  function Textures(contents: seq<Byte>, entries: seq<DirEntry>): (ms: seq<Miptex>)
    ensures |ms| <= |entries|
  {
    if entries == [] then [] else Append([], AcceptEntry(contents, entries[0])) + Textures(contents, entries[1..])
  }

  /**
   * A directory inside the file is processed record by record: the loop
   * succeeds and appends exactly the accepted textures, in directory order.
   */
  lemma {:induction false} ProcessDirectoryTextures(contents: seq<Byte>, header: Header, i: nat, acc: seq<Miptex>)
    requires i <= header.numDirs
    requires header.numDirs == 0 || header.dirOffset + DirEntrySize * header.numDirs <= |contents|
    ensures ProcessDirectory(contents, header, i, acc) == (true, acc + Textures(contents, Directory(contents, header)[i..]))
    decreases header.numDirs - i
  {
    var dir := Directory(contents, header);
    if i == header.numDirs {
      assert dir[i..] == [];
      assert acc + [] == acc;
    } else {
      ProcessDirectoryStep(contents, header, i, acc);
      var found := AcceptEntry(contents, dir[i]);
      ProcessDirectoryTextures(contents, header, i + 1, Append(acc, found));
      TexturesStep(contents, dir, i);
      AppendAssoc(acc, found, Textures(contents, dir[i + 1..]));
    }
  }

  /** One turn of the directory loop over a directory inside the file appends the texture of record i, if any. */
  lemma ProcessDirectoryStep(contents: seq<Byte>, header: Header, i: nat, acc: seq<Miptex>)
    requires i < header.numDirs && header.dirOffset + DirEntrySize * header.numDirs <= |contents|
    ensures ProcessDirectory(contents, header, i, acc)
         == ProcessDirectory(contents, header, i + 1, Append(acc, AcceptEntry(contents, Directory(contents, header)[i])))
  {
    ReadDirEntryAt(contents, header, i);
  }

  lemma TexturesStep(contents: seq<Byte>, entries: seq<DirEntry>, i: nat)
    requires i < |entries|
    ensures Textures(contents, entries[i..])
         == Append([], AcceptEntry(contents, entries[i])) + Textures(contents, entries[i + 1..])
  {
    assert entries[i..][0] == entries[i] && entries[i..][1..] == entries[i + 1..];
  }

  lemma AppendAssoc(acc: seq<Miptex>, found: Option<Miptex>, rest: seq<Miptex>)
    ensures Append(acc, found) + rest == acc + (Append([], found) + rest)
  {
    assert Append(acc, found) == acc + Append([], found);
  }

  /** Reading record i of a directory inside the file yields entry i of the table. */
  lemma ReadDirEntryAt(contents: seq<Byte>, header: Header, i: nat)
    requires i < header.numDirs && header.dirOffset + DirEntrySize * header.numDirs <= |contents|
    ensures ReadDirEntry(contents, header, i) == Some(Directory(contents, header)[i])
  {
    var at := header.dirOffset + i * DirEntrySize;
    assert i * DirEntrySize == DirEntrySize * i;
    assert at + DirEntrySize <= header.dirOffset + DirEntrySize * header.numDirs;
  }

  /** A parser that ends valid holds exactly the accepted textures of its directory, in order. */
  lemma ParseTextures(file: File)
    requires Parse(file).valid
    ensures ParseHeader(file.contents).Some?
    ensures var h := ParseHeader(file.contents).value;
      Parse(file).miptexs == Textures(file.contents, Directory(file.contents, h))
  {
    var h := ParseHeader(file.contents).value;
    ProcessDirectoryTextures(file.contents, h, 0, []);
    assert Directory(file.contents, h)[0..] == Directory(file.contents, h);
    assert [] + Textures(file.contents, Directory(file.contents, h)) == Textures(file.contents, Directory(file.contents, h));
  }
}
