/** The rectangles of src/core/bitmap.c and the two loops over bitmap rows: the clipped
    row-by-row copy of an 8-bit bitmap into another, and the fill of a 32-bit bitmap.
    Rect fields are s32. C leaves an s32 addition that overflows undefined; there the
    model's translation picks two's-complement wrap. */
module Bitmap {
  import opened SeqUtil

  const S32Min: int := -0x8000_0000
  const S32Limit: int := 0x8000_0000

  /** The values of a C s32. */
  type s32 = x: int | -0x8000_0000 <= x < 0x8000_0000

  /** x taken to s32 in two's complement, for x a sum or difference of two s32 values:
      the s32 congruent to x modulo 2^32. Outside the s32 range this is the model's
      choice for a sum C leaves undefined. */
  function Wrap(x: int): (r: s32)
    requires -U32 <= x < U32
    ensures S32Min <= x < S32Limit ==> r == x
  {
    if x < S32Min then x + U32 else if x >= S32Limit then x - U32 else x
  }

  /** Wrap keeps the value modulo 2^32. */
  lemma {:induction false} WrapCongruent(x: int)
    requires -U32 <= x < U32
    ensures (Wrap(x) - x) % U32 == 0 && Wrap(x) % U32 == x % U32
  {
  }

  datatype Rect = Rect(left: s32, top: s32, right: s32, bottom: s32)

  function Max(a: s32, b: s32): s32 {
    if a > b then a else b
  }

  function Min(a: s32, b: s32): s32 {
    if a < b then a else b
  }

  /** The pixel (x, y) lies in r; bounds are inclusive. */
  predicate InRect(r: Rect, x: int, y: int) {
    r.left <= x <= r.right && r.top <= y <= r.bottom
  }

  /** Every edge of inner inside outer. */
  predicate Encloses(outer: Rect, inner: Rect) {
    outer.left <= inner.left && outer.top <= inner.top
    && inner.right <= outer.right && inner.bottom <= outer.bottom
  }

  /** rect_intersection: the larger left and top, the smaller right and bottom. */
  function Intersection(a: Rect, b: Rect): Rect {
    Rect(Max(a.left, b.left), Max(a.top, b.top), Min(a.right, b.right), Min(a.bottom, b.bottom))
  }

  /** rect_union: the smaller left and top, the larger right and bottom. */
  function Union(a: Rect, b: Rect): Rect {
    Rect(Min(a.left, b.left), Min(a.top, b.top), Max(a.right, b.right), Max(a.bottom, b.bottom))
  }

  /** rect_translate: x added to left and right, y to top and bottom, in s32. */
  function Translate(r: Rect, x: s32, y: s32): Rect {
    Rect(Wrap(r.left + x), Wrap(r.top + y), Wrap(r.right + x), Wrap(r.bottom + y))
  }

  /** rect_invalid. */
  predicate Invalid(r: Rect) {
    r.left > r.right || r.top > r.bottom
  }

  /** `(s32)(side - 1)` with the subtraction done in u32: -1 for 0, then side - 1 up to
      2^31, then the negative values. */
  function Edge(side: u32): s32 {
    if side == 0 then -1 else if side <= S32Limit then side - 1 else side - 1 - U32
  }

  /** Edge is the two's-complement reading of the u32 difference. */
  lemma {:induction false} EdgeIsWrap(side: u32)
    ensures Edge(side) == Wrap((side + U32 - 1) % U32)
  {
    if side == 0 {
      assert (side + U32 - 1) % U32 == U32 - 1;
    } else {
      assert (side + U32 - 1) % U32 == side - 1;
    }
  }

  /** bitmap_u8_get_rect and bitmap_u32_get_rect: (0, 0, width - 1, height - 1). */
  function GetRect(width: u32, height: u32): Rect {
    Rect(0, 0, Edge(width), Edge(height))
  }

  /** The pixels of an intersection are those of both rectangles. */
  lemma {:induction false} IntersectionPixels(a: Rect, b: Rect)
    ensures forall x, y :: InRect(Intersection(a, b), x, y) <==> InRect(a, x, y) && InRect(b, x, y)
  {
  }

  lemma {:induction false} IntersectionCommutes(a: Rect, b: Rect)
    ensures Intersection(a, b) == Intersection(b, a)
    ensures Intersection(a, a) == a
  {
  }

  /** The union encloses both rectangles, and any rectangle enclosing both encloses it. */
  lemma {:induction false} UnionEncloses(a: Rect, b: Rect, c: Rect)
    ensures Encloses(Union(a, b), a) && Encloses(Union(a, b), b)
    ensures Encloses(c, a) && Encloses(c, b) ==> Encloses(c, Union(a, b))
  {
  }

  /** Adding x and then its s32 negation in s32 gives a back. Of the C this holds when
      neither sum overflows; otherwise it is a fact about the wrap the model picks. */
  lemma {:induction false} WrapBack(a: s32, x: s32)
    ensures Wrap(Wrap(a + x) + Wrap(-(x as int))) == a
  {
  }

  /** Translating back by the negated offsets (negated in s32) gives the rectangle back.
      Of the C this holds when no sum overflows; otherwise it is a fact about the wrap
      the model picks. */
  lemma {:induction false} TranslateBack(r: Rect, x: s32, y: s32)
    ensures Translate(Translate(r, x, y), Wrap(-(x as int)), Wrap(-(y as int))) == r
  {
    var t := Translate(r, x, y);
    var u := Translate(t, Wrap(-(x as int)), Wrap(-(y as int)));
    WrapBack(r.left, x);
    assert u.left == r.left;
    WrapBack(r.top, y);
    assert u.top == r.top;
    WrapBack(r.right, x);
    assert u.right == r.right;
    WrapBack(r.bottom, y);
    assert u.bottom == r.bottom;
  }

  /** Without s32 overflow a translation keeps width and height. */
  lemma {:induction false} TranslateKeepsSize(r: Rect, x: s32, y: s32)
    requires S32Min <= r.left + x < S32Limit && S32Min <= r.right + x < S32Limit
    requires S32Min <= r.top + y < S32Limit && S32Min <= r.bottom + y < S32Limit
    ensures var t := Translate(r, x, y);
      t.right - t.left == r.right - r.left && t.bottom - t.top == r.bottom - r.top
  {
  }

  /** rect_invalid holds exactly of the rectangles without a pixel. */
  lemma {:induction false} InvalidIsEmpty(r: Rect)
    ensures Invalid(r) ==> forall x, y :: !InRect(r, x, y)
    ensures !Invalid(r) ==> InRect(r, r.left, r.top)
  {
  }

  /** For a width and a height from 1 to 2^31 the rectangle is the bitmap's pixels; with
      a zero side it is invalid. */
  lemma {:induction false} GetRectCovers(width: u32, height: u32)
    ensures 0 < width <= S32Limit && 0 < height <= S32Limit ==>
      GetRect(width, height) == Rect(0, 0, width - 1, height - 1)
    ensures width == 0 || height == 0 ==> Invalid(GetRect(width, height))
  {
  }

  // ---------------------------------------------------------------------------------
  // Rows of a bitmap
  // ---------------------------------------------------------------------------------

  lemma {:induction false} MulLe(a: int, b: int, p: nat)
    requires a <= b
    ensures a * p <= b * p
  {
  }

  /** The byte of pixel (x, y) in a buffer of `height` rows of `pitch` bytes. */
  function Offset(pitch: int, height: int, x: int, y: int): (k: nat)
    requires 0 <= x < pitch && 0 <= y < height
    ensures k < height * pitch
  {
    MulLe(y + 1, height, pitch);
    y * pitch + x
  }

  /** A run of bytes lo..hi of row y holds exactly the pixels of that row between lo and
      hi. */
  lemma {:induction false} SameRow(p: int, y: int, lo: int, hi: int, y2: int, x: int)
    requires 0 <= x < p && 0 <= lo && hi < p && 0 <= y && 0 <= y2
    ensures (y * p + lo <= y2 * p + x <= y * p + hi) <==> (y2 == y && lo <= x <= hi)
  {
    if y2 < y {
      MulLe(y2 + 1, y, p);
    } else if y2 > y {
      MulLe(y + 1, y2, p);
    }
  }

  /** The rectangle bitmap_u8_blit_u8 copies: the destination's pixels, the target
      rectangle dr, and the source moved to dr's corner, intersected. When it is valid it
      lies inside the destination and, moved back, inside the source. */
  function Clip(dw: u32, dh: u32, sw: u32, sh: u32, dr: Rect): (c: Rect)
    ensures NoWrap(sw, sh, dr) && !Invalid(c) ==>
      0 <= c.left <= c.right < dw && 0 <= c.top <= c.bottom < dh
      && dr.left <= c.left && c.right - dr.left < sw && dr.top <= c.top && c.bottom - dr.top < sh
  {
    Intersection(Intersection(GetRect(dw, dh), dr), Translate(GetRect(sw, sh), dr.left, dr.top))
  }

  /** rect_translate of the source's rectangle to dr's corner does not overflow s32 (C
      leaves signed overflow undefined). */
  predicate NoWrap(sw: u32, sh: u32, dr: Rect) {
    var sr := GetRect(sw, sh);
    S32Min <= sr.right + dr.left < S32Limit && S32Min <= sr.bottom + dr.top < S32Limit
  }

  /** An 8-bit bitmap: height rows of pitch bytes, width of them pixels. The rows must be
      addressable with the s32 arithmetic of the blit. */
  class BitmapU8 {
    const width: u32
    const height: u32
    const pitch: s32
    const buffer: array<bv8>

    ghost predicate Valid() {
      0 <= width <= pitch && height * pitch <= buffer.Length && height * pitch < S32Limit
    }

    constructor (w: u32, h: u32, p: s32, b: array<bv8>)
      requires 0 <= w <= p && h * p <= b.Length && h * p < S32Limit
      ensures Valid() && width == w && height == h && pitch == p && buffer == b
    {
      width, height, pitch, buffer := w, h, p, b;
    }

    /** The destination rectangle: dst_rect when given, else the whole bitmap. */
    function Target(dstRect: Option<Rect>): Rect {
      match dstRect
      case Some(r) => r
      case None => GetRect(width, height)
    }
  }

  /** memcpy(d + at, s + from, n). */
  method CopyBytes(d: array<bv8>, at: int, s: array<bv8>, from: int, n: int)
    requires d != s && 0 <= at && 0 <= from && 0 <= n && at + n <= d.Length && from + n <= s.Length
    modifies d
    ensures forall k :: 0 <= k < d.Length ==> d[k] == if at <= k < at + n then s[from + k - at] else old(d[k])
  {
    var i := 0;
    while i < n
      invariant 0 <= i <= n
      invariant forall k :: 0 <= k < d.Length ==> d[k] == if at <= k < at + i then s[from + k - at] else old(d[k])
    {
      d[at + i] := s[from + i];
      i := i + 1;
    }
  }

  /** The clip, valid, inside the destination and, moved back by (dx, dy), inside the
      source. */
  predicate ClipFits(dst: BitmapU8, src: BitmapU8, c: Rect, dx: int, dy: int) {
    0 <= c.left <= c.right < dst.width && 0 <= c.top <= c.bottom < dst.height
    && dx <= c.left && c.right - dx < src.width && dy <= c.top && c.bottom - dy < src.height
  }

  /** The rows of the clip above row y copied: a destination pixel in them is the source
      pixel moved back by (dx, dy); every other byte of the destination is as in before. */
  ghost predicate RowsCopied(dst: BitmapU8, src: BitmapU8, c: Rect, dx: int, dy: int, y: int, before: seq<bv8>)
    reads dst.buffer, src.buffer
    requires dst.Valid() && src.Valid() && |before| == dst.buffer.Length && ClipFits(dst, src, c, dx, dy)
  {
    (forall x, y' :: 0 <= x < dst.pitch && 0 <= y' < dst.height ==>
      dst.buffer[Offset(dst.pitch, dst.height, x, y')]
      == if InRect(c, x, y') && y' < y then src.buffer[Offset(src.pitch, src.height, x - dx, y' - dy)]
         else before[Offset(dst.pitch, dst.height, x, y')])
    && forall k :: dst.height * dst.pitch <= k < dst.buffer.Length ==> dst.buffer[k] == before[k]
  }

  /** One turn of the blit loop: memcpy of row y of the clip from the source row y - dy. */
  method CopyRow(dst: BitmapU8, src: BitmapU8, c: Rect, dx: int, dy: int, y: int, ghost before: seq<bv8>)
    requires dst.Valid() && src.Valid() && dst.buffer != src.buffer && |before| == dst.buffer.Length
    requires ClipFits(dst, src, c, dx, dy) && c.top <= y <= c.bottom
    requires RowsCopied(dst, src, c, dx, dy, y, before)
    modifies dst.buffer
    ensures RowsCopied(dst, src, c, dx, dy, y + 1, before)
  {
    var dstPtr := Offset(dst.pitch, dst.height, c.left, y);
    var srcPtr := Offset(src.pitch, src.height, c.left - dx, y - dy);
    var bytes := c.right - c.left + 1;
    ghost var dstLast := Offset(dst.pitch, dst.height, c.right, y);
    ghost var srcLast := Offset(src.pitch, src.height, c.right - dx, y - dy);
    CopyBytes(dst.buffer, dstPtr, src.buffer, srcPtr, bytes);
    forall x, y' | 0 <= x < dst.pitch && 0 <= y' < dst.height
      ensures dst.buffer[Offset(dst.pitch, dst.height, x, y')]
        == if InRect(c, x, y') && y' < y + 1 then src.buffer[Offset(src.pitch, src.height, x - dx, y' - dy)]
           else before[Offset(dst.pitch, dst.height, x, y')]
    {
      var k := Offset(dst.pitch, dst.height, x, y');
      SameRow(dst.pitch, y, c.left, c.right, y', x);
      if y' == y && c.left <= x <= c.right {
        assert dstPtr <= k < dstPtr + bytes;
        assert srcPtr + k - dstPtr == Offset(src.pitch, src.height, x - dx, y' - dy);
      } else {
        assert !(dstPtr <= k < dstPtr + bytes);
      }
    }
  }

  /** bitmap_u8_blit_u8: with an invalid clip nothing changes; otherwise every destination
      pixel in the clip becomes the source pixel at the same place relative to dr's corner,
      and every other byte of the destination stays. */
  method BlitU8(dst: BitmapU8, src: BitmapU8, dstRect: Option<Rect>)
    requires dst.Valid() && src.Valid() && dst.buffer != src.buffer
    requires NoWrap(src.width, src.height, dst.Target(dstRect))
    modifies dst.buffer
    ensures Invalid(Clip(dst.width, dst.height, src.width, src.height, dst.Target(dstRect))) ==>
      dst.buffer[..] == old(dst.buffer[..])
    ensures !Invalid(Clip(dst.width, dst.height, src.width, src.height, dst.Target(dstRect))) ==>
      ClipFits(dst, src, Clip(dst.width, dst.height, src.width, src.height, dst.Target(dstRect)),
               dst.Target(dstRect).left, dst.Target(dstRect).top)
      && RowsCopied(dst, src, Clip(dst.width, dst.height, src.width, src.height, dst.Target(dstRect)),
                    dst.Target(dstRect).left, dst.Target(dstRect).top, dst.height, old(dst.buffer[..]))
  {
    var sr := GetRect(src.width, src.height);
    var dr := GetRect(dst.width, dst.height);
    if dstRect.Some? {
      dr := dstRect.value;
    }
    var clip := GetRect(dst.width, dst.height);
    clip := Intersection(clip, dr);
    clip := Intersection(clip, Translate(sr, dr.left, dr.top));
    assert clip == Clip(dst.width, dst.height, src.width, src.height, dr);
    if Invalid(clip) {
      return;
    }
    assert ClipFits(dst, src, clip, dr.left, dr.top);
    ghost var before := dst.buffer[..];
    RowsStart(dst, src, clip, dr.left, dr.top, before);
    var dstY := clip.top;
    var srcY := clip.top - dr.top;
    while dstY <= clip.bottom
      invariant clip.top <= dstY <= clip.bottom + 1 && srcY == dstY - dr.top
      invariant RowsCopied(dst, src, clip, dr.left, dr.top, dstY, before)
    {
      CopyRow(dst, src, clip, dr.left, dr.top, dstY, before);
      dstY := dstY + 1;
      srcY := srcY + 1;
    }
    RowsComplete(dst, src, clip, dr.left, dr.top, dstY, before);
  }

  /** Before the first row nothing is copied. */
  lemma {:induction false} RowsStart(dst: BitmapU8, src: BitmapU8, c: Rect, dx: int, dy: int, before: seq<bv8>)
    requires dst.Valid() && src.Valid() && before == dst.buffer[..] && ClipFits(dst, src, c, dx, dy)
    ensures RowsCopied(dst, src, c, dx, dy, c.top, before)
  {
  }

  /** Past the clip's last row, counting more rows changes nothing. */
  lemma {:induction false} RowsComplete(dst: BitmapU8, src: BitmapU8, c: Rect, dx: int, dy: int, y: int, before: seq<bv8>)
    requires dst.Valid() && src.Valid() && |before| == dst.buffer.Length && ClipFits(dst, src, c, dx, dy)
    requires c.bottom < y && RowsCopied(dst, src, c, dx, dy, y, before)
    ensures RowsCopied(dst, src, c, dx, dy, dst.height, before)
  {
  }

  // ---------------------------------------------------------------------------------
  // 32-bit bitmaps
  // ---------------------------------------------------------------------------------

  /** A 32-bit bitmap: rows of width pixels, one after the other. The row byte count and
      the row offsets are computed in u32 and must fit there. */
  class BitmapU32 {
    const width: u32
    const height: u32
    const pitch: s32
    const buffer: array<bv32>

    ghost predicate Valid() {
      height * width <= buffer.Length && height * width < U32 && width * 4 < U32
    }

    constructor (w: u32, h: u32, p: s32, b: array<bv32>)
      requires h * w <= b.Length && h * w < U32 && w * 4 < U32
      ensures Valid() && width == w && height == h && pitch == p && buffer == b
    {
      width, height, pitch, buffer := w, h, p, b;
    }
  }

  /** The pixel memset writes: the byte in each of its four bytes. */
  function Replicate(b: bv8): bv32 {
    var w := b as bv32;
    w | (w << 8) | (w << 16) | (w << 24)
  }

  /** Each of the four bytes of a replicated pixel is the byte. */
  lemma {:induction false} ReplicateLanes(b: bv8)
    ensures (Replicate(b) & 0xFF) as bv8 == b
    ensures ((Replicate(b) >> 8) & 0xFF) as bv8 == b
    ensures ((Replicate(b) >> 16) & 0xFF) as bv8 == b
    ensures ((Replicate(b) >> 24) & 0xFF) as bv8 == b
  {
  }

  /** memset(a + at, byte, bytes) on 32-bit pixels: bytes / 4 of them replicated. */
  method FillPixels(a: array<bv32>, at: int, bytes: int, byte: bv8)
    requires 0 <= at && 0 <= bytes && at + bytes / 4 <= a.Length
    modifies a
    ensures forall k :: 0 <= k < a.Length ==> a[k] == if at <= k < at + bytes / 4 then Replicate(byte) else old(a[k])
  {
    var i := 0;
    while i < bytes / 4
      invariant 0 <= i <= bytes / 4
      invariant forall k :: 0 <= k < a.Length ==> a[k] == if at <= k < at + i then Replicate(byte) else old(a[k])
    {
      a[at + i] := Replicate(byte);
      i := i + 1;
    }
  }

  /** bitmap_u32_clear: row by row, every one of the width * height pixels set to the byte
      in all four of its bytes; the rest of the buffer untouched. */
  method ClearU32(bitmap: BitmapU32, byte: bv8)
    requires bitmap.Valid()
    modifies bitmap.buffer
    ensures forall k :: 0 <= k < bitmap.height * bitmap.width ==> bitmap.buffer[k] == Replicate(byte)
    ensures forall k :: bitmap.height * bitmap.width <= k < bitmap.buffer.Length ==> bitmap.buffer[k] == old(bitmap.buffer[k])
  {
    var bytes := bitmap.width * 4;
    var y := 0;
    var row := 0;
    while y < bitmap.height
      invariant 0 <= y <= bitmap.height && row == y * bitmap.width
      invariant forall k :: 0 <= k < row ==> bitmap.buffer[k] == Replicate(byte)
      invariant forall k :: row <= k < bitmap.buffer.Length ==> bitmap.buffer[k] == old(bitmap.buffer[k])
    {
      MulLe(y + 1, bitmap.height, bitmap.width);
      assert (y + 1) * bitmap.width == row + bitmap.width;
      FillPixels(bitmap.buffer, row, bytes, byte);
      y := y + 1;
      row := row + bitmap.width;
    }
  }
}
