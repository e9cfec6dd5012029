/**
  The render value types of the graphics backend header: texture chunks and their
  128-pixel cell arithmetic, cached surfaces, drawables with their masks, the text
  description handed to the text renderer, and per-line metrics.
  Every entity here is a value that is built once by a field-initialising constructor.
*/
module Graphics {
  import opened Wrappers
  import opened BoundedInts

  /** Side of one square atlas cell, in pixels. */
  const CHUNKSIZE: nat := 128

  /** A `uint64_t` value. */
  type uint64 = x: int | 0 <= x < 0x1_0000_0000_0000_0000

  /** A C++ `float`, kept as its IEEE-754 bit pattern: the model does no floating-point arithmetic. */
  datatype Float32 = Float32Bits(bits: uint32)

  /** A C++ `double` (`number_t`), kept as its IEEE-754 bit pattern. */
  datatype Float64 = Float64Bits(bits: uint64)

  /** The `float` literal 1.0. */
  const FLOAT_ONE: Float32 := Float32Bits(0x3F80_0000)

  // ---------------------------------------------------------------------------
  // TextureChunk
  // ---------------------------------------------------------------------------

  /**
    A handle into a shared texture atlas. `chunks` is the backend's array of used cells,
    `None` standing for the null pointer; `texId` is the backend's opaque texture id.
  */
  datatype TextureChunk = TextureChunk(chunks: Option<seq<uint32>>, texId: uint32, width: uint32, height: uint32)

  /** The default constructor: the empty chunk. */
  function EmptyTextureChunk(): (t: TextureChunk)
    ensures t.chunks == None && t.texId == 0 && t.width == 0 && t.height == 0
    ensures !IsValid(t) && NumberOfChunks(t) == 0
  {
    TextureChunk(None, 0, 0, 0)
  }

  /** A chunk is valid exactly when its cell array pointer is not null. */
  predicate IsValid(t: TextureChunk) {
    t.chunks.Some?
  }

  /**
    The number of cells covering the chunk, computed in `uint32_t` arithmetic:
    `width + CHUNKSIZE - 1` and the final product both wrap modulo 2^32.
  */
  function NumberOfChunks(t: TextureChunk): (r: uint32)
    ensures t.width == 0 || t.height == 0 ==> r == 0
  {
    var across := WrapUint32(t.width + CHUNKSIZE - 1) / CHUNKSIZE;
    var down := WrapUint32(t.height + CHUNKSIZE - 1) / CHUNKSIZE;
    WrapUint32(across * down)
  }

  /** Reference definition of the number of cells along one side: one cell per started 128 pixels. */
  function CellsAlong(n: nat): nat
    decreases n
  {
    if n == 0 then 0 else 1 + CellsAlong(if n <= CHUNKSIZE then 0 else n - CHUNKSIZE)
  }

  /** `CellsAlong` is the ceiling of n / 128: the least number of cells whose total length covers n. */
  lemma {:induction false} CellsAlongIsCeiling(n: nat)
    ensures CellsAlong(n) * CHUNKSIZE >= n
    ensures CellsAlong(n) == 0 || (CellsAlong(n) - 1) * CHUNKSIZE < n
  {
    if n > CHUNKSIZE {
      CellsAlongIsCeiling(n - CHUNKSIZE);
    }
  }

  /** The rounding-up division used by the source agrees with the reference ceiling. */
  lemma {:induction false} RoundUpDivIsCellsAlong(n: nat)
    ensures (n + CHUNKSIZE - 1) / CHUNKSIZE == CellsAlong(n)
  {
    if n > CHUNKSIZE {
      RoundUpDivIsCellsAlong(n - CHUNKSIZE);
      assert (n + CHUNKSIZE - 1) / CHUNKSIZE == (n - CHUNKSIZE + CHUNKSIZE - 1) / CHUNKSIZE + 1;
    }
  }

  lemma {:induction false} CellsAlongMonotone(m: nat, n: nat)
    requires m <= n
    ensures CellsAlong(m) <= CellsAlong(n)
  {
    if m > CHUNKSIZE {
      CellsAlongMonotone(m - CHUNKSIZE, n - CHUNKSIZE);
    }
  }

  /** No `uint32_t` intermediate of `NumberOfChunks` wraps for this chunk. */
  predicate NoWrap(t: TextureChunk) {
    && t.width + CHUNKSIZE - 1 < TWO_TO_THE_32
    && t.height + CHUNKSIZE - 1 < TWO_TO_THE_32
    && CellsAlong(t.width) * CellsAlong(t.height) < TWO_TO_THE_32
  }

  /** Without wrap-around, the cell count is ceil(width/128) * ceil(height/128). */
  lemma NumberOfChunksIsCeilProduct(t: TextureChunk)
    requires NoWrap(t)
    ensures NumberOfChunks(t) == CellsAlong(t.width) * CellsAlong(t.height)
  {
    RoundUpDivIsCellsAlong(t.width);
    RoundUpDivIsCellsAlong(t.height);
  }

  /** Without wrap-around, the count is zero exactly when one side is zero. */
  lemma NumberOfChunksZeroIff(t: TextureChunk)
    requires NoWrap(t)
    ensures NumberOfChunks(t) == 0 <==> t.width == 0 || t.height == 0
  {
    NumberOfChunksIsCeilProduct(t);
    CellsAlongIsCeiling(t.width);
    CellsAlongIsCeiling(t.height);
  }

  /** Without wrap-around, growing a chunk never decreases its cell count. */
  lemma NumberOfChunksMonotone(t: TextureChunk, u: TextureChunk)
    requires t.width <= u.width && t.height <= u.height
    requires NoWrap(u)
    ensures NumberOfChunks(t) <= NumberOfChunks(u)
  {
    CellsAlongMonotone(t.width, u.width);
    CellsAlongMonotone(t.height, u.height);
    var a, b, c, d := CellsAlong(t.width), CellsAlong(t.height), CellsAlong(u.width), CellsAlong(u.height);
    assert a * b <= c * b <= c * d by {
      MulMonotone(a, c, b);
      MulMonotone(b, d, c);
    }
    assert NoWrap(t);
    NumberOfChunksIsCeilProduct(t);
    NumberOfChunksIsCeilProduct(u);
  }

  lemma MulMonotone(a: nat, c: nat, b: nat)
    requires a <= c
    ensures a * b <= c * b
  {
  }

  /**
    The `uint32_t` formula is not the ceiling product once `width + 127` wraps:
    a chunk almost 2^32 pixels wide reports no cells at all.
  */
  lemma NumberOfChunksWrapsAround()
    ensures NumberOfChunks(TextureChunk(None, 0, UINT32_MAX, CHUNKSIZE)) == 0
    ensures CellsAlong(UINT32_MAX) * CellsAlong(CHUNKSIZE) > 0
  {
  }

  // ---------------------------------------------------------------------------
  // CachedSurface
  // ---------------------------------------------------------------------------

  /** The last rendered state of an object: its chunk, placement offset and opacity. */
  datatype CachedSurface = CachedSurface(tex: TextureChunk, xOffset: int32, yOffset: int32, alpha: Float32)

  /** The default constructor: an empty chunk at offset (0, 0), fully opaque. */
  function NewCachedSurface(): (s: CachedSurface)
    ensures s.xOffset == 0 && s.yOffset == 0 && s.alpha == FLOAT_ONE
    ensures s.tex == EmptyTextureChunk() && !IsValid(s.tex)
  {
    CachedSurface(EmptyTextureChunk(), 0, 0, FLOAT_ONE)
  }

  // ---------------------------------------------------------------------------
  // IDrawable
  // ---------------------------------------------------------------------------

  /** An `IDrawable*`: masks hold their drawable by address, without owning it. */
  type DrawableRef = nat

  datatype MaskMode = HardMask | SoftMask

  /** The `MASK_MODE` enumerators' integer values. */
  function MaskModeValue(m: MaskMode): (v: int)
    ensures (v == 0) <==> (m == HardMask)
    ensures 0 <= v <= 1
  {
    match m
    case HardMask => 0
    case SoftMask => 1
  }

  datatype MaskData = MaskData(m: DrawableRef, maskMode: MaskMode)

  /** The state common to every drawable: masks in application order, size, content offset and opacity. */
  datatype Drawable = Drawable(masks: seq<MaskData>, width: int32, height: int32, xOffset: int32, yOffset: int32, alpha: Float32)

  /** The `IDrawable` constructor, in its own argument order (w, h, x, y, a, m). */
  function NewDrawable(w: int32, h: int32, x: int32, y: int32, a: Float32, m: seq<MaskData>): (d: Drawable)
    ensures d.masks == m
    ensures d.width == w && d.height == h && d.xOffset == x && d.yOffset == y && d.alpha == a
  {
    Drawable(m, w, h, x, y, a)
  }

  function GetWidth(d: Drawable): int32 { d.width }
  function GetHeight(d: Drawable): int32 { d.height }
  function GetXOffset(d: Drawable): int32 { d.xOffset }
  function GetYOffset(d: Drawable): int32 { d.yOffset }
  function GetAlpha(d: Drawable): Float32 { d.alpha }

  /** The getters give back exactly what the constructor was given, and the masks keep their order. */
  lemma DrawableGettersRoundTrip(w: int32, h: int32, x: int32, y: int32, a: Float32, m: seq<MaskData>)
    ensures var d := NewDrawable(w, h, x, y, a, m);
      && GetWidth(d) == w && GetHeight(d) == h
      && GetXOffset(d) == x && GetYOffset(d) == y
      && GetAlpha(d) == a
      && |d.masks| == |m|
      && forall i :: 0 <= i < |m| ==> d.masks[i] == m[i]
  {
  }

  // ---------------------------------------------------------------------------
  // TextData
  // ---------------------------------------------------------------------------

  /** A colour, identified by the integer it is built from (0xRRGGBB). */
  datatype RGB = RGB(value: uint32)

  datatype AutoSize = AsNone | AsLeft | AsRight | AsCenter

  /** The structured text description a text renderer lays out. */
  datatype TextData = TextData(
    width: uint32, height: uint32, leading: uint32, textWidth: uint32, textHeight: uint32,
    text: string, font: string, fontID: uint32,
    scrollH: int32,   // pixels, 0-based
    scrollV: int32,   // lines, 1-based
    background: bool, backgroundColor: RGB,
    border: bool, borderColor: RGB,
    multiline: bool, textColor: RGB,
    autoSize: AutoSize, fontSize: uint32, wordWrap: bool, caretblinkstate: bool)

  /** The default constructor, with the defaults of the Flash TextField and TextFormat classes. */
  function DefaultTextData(): (d: TextData)
    ensures d.width == 100 && d.height == 100
    ensures d.scrollH == 0 && d.scrollV == 1
    ensures d.fontSize == 12 && d.autoSize == AsNone
    ensures !d.multiline && !d.wordWrap && !d.background && !d.border && !d.caretblinkstate
    ensures d.leading == 0 && d.textWidth == 0 && d.textHeight == 0
    ensures d.text == "" && d.font == "Times New Roman" && d.fontID == UINT32_MAX
    ensures d.backgroundColor == RGB(0xFFFFFF) && d.borderColor == RGB(0) && d.textColor == RGB(0)
  {
    TextData(100, 100, 0, 0, 0, "", "Times New Roman", UINT32_MAX, 0, 1,
             false, RGB(0xFFFFFF), false, RGB(0x000000), false, RGB(0x000000),
             AsNone, 12, false, false)
  }

  // ---------------------------------------------------------------------------
  // LineData
  // ---------------------------------------------------------------------------

  /** An axis-aligned rectangle given by its bounds. */
  datatype Rect = Rect(xmin: int32, xmax: int32, ymin: int32, ymax: int32)

  /** Layout metrics of one text line. */
  datatype LineData = LineData(
    extents: Rect, firstCharOffset: int32, length: int32,
    ascent: Float64, descent: Float64, leading: Float64, indent: Float64)

  /** The `LineData` constructor: the extents run from (x, y) to (x + width, y + height) in `int32_t`. */
  function NewLineData(x: int32, y: int32, width: int32, height: int32, firstCharOffset: int32, length: int32,
                       ascent: Float64, descent: Float64, leading: Float64, indent: Float64): (l: LineData)
    ensures l.extents.xmin == x && l.extents.ymin == y
    ensures l.firstCharOffset == firstCharOffset && l.length == length
    ensures l.ascent == ascent && l.descent == descent && l.leading == leading && l.indent == indent
  {
    LineData(Rect(x, WrapInt32(x + width), y, WrapInt32(y + height)),
             firstCharOffset, length, ascent, descent, leading, indent)
  }

  /** When the far corner fits in `int32_t`, the extents are exactly `width` wide and `height` high. */
  lemma LineDataExtentsSize(x: int32, y: int32, width: int32, height: int32, firstCharOffset: int32, length: int32,
                            ascent: Float64, descent: Float64, leading: Float64, indent: Float64)
    requires -TWO_TO_THE_31 <= x + width < TWO_TO_THE_31
    requires -TWO_TO_THE_31 <= y + height < TWO_TO_THE_31
    ensures var e := NewLineData(x, y, width, height, firstCharOffset, length, ascent, descent, leading, indent).extents;
      e.xmax - e.xmin == width && e.ymax - e.ymin == height
  {
  }
}
