/**
 Host-side surface access without a decoder: `ensureSurfaceHostBuffer`, `nvPutImage`, the host branch of
 `nvGetImage`, the layout `nvCreateImage` gives an NV12 image, and the rectangle of a surface that puts have
 filled (src/vabackend.c:772-797, 3260-3299, 3426-3477 and 3539-3637).
 */
module SurfaceImage {
  import opened Words
  import opened Staging

  // ---------------------------------------------------------------- the content rectangle

  datatype Box = Box(x: nat, y: nat, w: nat, h: nat)

  predicate Within(inner: Box, outer: Box) {
    && outer.x <= inner.x && inner.x + inner.w <= outer.x + outer.w
    && outer.y <= inner.y && inner.y + inner.h <= outer.y + outer.h
  }

  predicate InSurface(b: Box, width: nat, height: nat) {
    b.w > 0 && b.h > 0 && b.x + b.w <= width && b.y + b.h <= height
  }

  /** The update at the end of `nvPutImage`; `None` is an invalid content rectangle. */
  function GrowContent(c: Option<Box>, r: Box, width: nat, height: nat): Option<Box> {
    match c
    case None => Some(r)
    case Some(b) =>
      var x0, y0 := Min(b.x, r.x), Min(b.y, r.y);
      var x1, y1 := Min(Max(b.x + b.w, r.x + r.w), width), Min(Max(b.y + b.h, r.y + r.h), height);
      if x1 > x0 && y1 > y0 then Some(Box(x0, y0, x1 - x0, y1 - y0)) else None
  }

  /** The content rectangle after a list of puts to a surface whose content was reset. */
  function Content(puts: seq<Box>, width: nat, height: nat): Option<Box> {
    if puts == [] then None
    else GrowContent(Content(puts[..|puts| - 1], width, height), puts[|puts| - 1], width, height)
  }

  /** The content rectangle is exactly the smallest box that covers every put since the reset. */
  lemma {:induction false} ContentIsSmallestCover(puts: seq<Box>, width: nat, height: nat)
    requires puts != [] && forall b <- puts :: InSurface(b, width, height)
    ensures Content(puts, width, height).Some? && InSurface(Content(puts, width, height).value, width, height)
    ensures forall b <- puts :: Within(b, Content(puts, width, height).value)
    ensures forall d: Box :: (forall b <- puts :: Within(b, d)) ==> Within(Content(puts, width, height).value, d)
  {
    var n := |puts| - 1;
    var last := puts[n];
    assert last in puts;
    if n == 0 {
      assert Content(puts[..0], width, height) == None;
    } else {
      ContentIsSmallestCover(puts[..n], width, height);
      var before, after := Content(puts[..n], width, height).value, Content(puts, width, height).value;
      assert Within(before, after) && Within(last, after);
      forall b | b in puts ensures Within(b, after) {
        if b in puts[..n] {
          assert Within(b, before);
        }
      }
      forall d: Box | forall b <- puts :: Within(b, d) ensures Within(after, d) {
        assert forall b <- puts[..n] :: b in puts;
        assert Within(before, d) && Within(last, d);
      }
    }
  }

  // ---------------------------------------------------------------- buffers

  function RoundUp(n: nat, s: nat): nat
    requires s > 0
  {
    (n + s - 1) / s * s
  }

  lemma RoundUpCovers(n: nat, s: nat)
    requires s == 64 || s == 16
    ensures n <= RoundUp(n, s) < n + s && RoundUp(n, s) % s == 0
  {
    if s == 64 {
      assert n <= (n + 63) / 64 * 64 < n + 64;
    } else {
      assert n <= (n + 15) / 16 * 16 < n + 16;
    }
  }

  lemma HostLayout(height: nat, rows: nat, p: nat)
    requires height <= rows
    ensures height * p <= rows * p && (height / 2) * p <= (rows / 2) * p
  {
    CopiedRowsFit(height, rows, p);
    CopiedRowsFit(height / 2, rows / 2, p);
  }

  /** An `NVSurface` with its host buffer. */
  class Surface {
    const width: U32
    const height: U32
    const host: array<Byte>
    const pitch: nat
    const ySize: nat
    var content: Option<Box>

    ghost predicate Valid() {
      && 0 < width <= pitch && 0 < height
      && height * pitch <= ySize && ySize + (height / 2) * pitch <= host.Length
    }

    /** `ensureSurfaceHostBuffer` at creation: zeroed NV12 with aligned pitch and height. */
    constructor (w: U32, h: U32)
      requires 0 < w && 0 < h
      ensures Valid() && fresh(host) && width == w && height == h && content == None
      ensures pitch % 64 == 0 && forall i :: 0 <= i < host.Length ==> host[i] == 0
    {
      RoundUpCovers(w, 64);
      RoundUpCovers(h, 16);
      HostLayout(h, RoundUp(h, 16), RoundUp(w, 64));
      var aw, ah := RoundUp(w, 64), RoundUp(h, 16);
      var y := ah * aw;
      width, height, pitch, ySize, content := w, h, aw, y, None;
      host := new Byte[y + (ah / 2) * aw](_ => 0);
    }
  }

  /** An `NVImage` and its buffer. */
  class Image {
    const width: U32
    const height: U32
    const pitchY: nat
    const pitchUV: nat
    const offsetY: nat
    const offsetUV: nat
    const buf: array<Byte>

    /** Both planes lie in the buffer, luma before chroma. */
    ghost predicate Valid() {
      && 0 < width <= pitchY && width <= pitchUV && 0 < height
      && offsetY + height * pitchY <= offsetUV && offsetUV + ChromaBytes(height / 2, pitchUV, width) <= buf.Length
    }

    /** `nvCreateImage` for NV12: pitch equal to the width, chroma directly behind luma. */
    constructor (w: U32, h: U32)
      requires 0 < w && 0 < h
      ensures Valid() && fresh(buf) && width == w && height == h
      ensures buf.Length == w * h + w * h / 4 * 2
    {
      ChromaRoom(w, h);
      width, height, pitchY, pitchUV, offsetY, offsetUV := w, h, w, w, 0, w * h;
      buf := new Byte[w * h + w * h / 4 * 2];
    }
  }

  /** Chroma bytes a copy can reach: whole rows up to the last, of which an even number of columns. */
  function ChromaBytes(rows: nat, p: nat, w: nat): nat {
    if rows == 0 then 0 else (rows - 1) * p + Even(w)
  }

  /** The size formula of `nvCreateImage` leaves room for them, odd sizes included. */
  lemma ChromaRoom(w: nat, h: nat)
    ensures ChromaBytes(h / 2, w, w) <= w * h / 4 * 2 && h * w == w * h
  {
    var b := h / 2;
    ChromaBelow(b, w);
    HalfOf(w, h);
    EvenHalf(b * w, w * h);
  }

  lemma EvenHalf(n: nat, area: nat)
    requires 2 * n <= area
    ensures Even(n) <= area / 4 * 2
  {
  }

  lemma ChromaBelow(b: nat, w: nat)
    ensures b * w >= 0 && ChromaBytes(b, w, w) <= Even(b * w)
  {
    if b > 0 {
      assert (b - 1) * w == b * w - w;
      if w % 2 == 0 {
        var a := w / 2;
        assert b * w == 2 * (b * a);
      }
    }
  }

  lemma HalfOf(w: nat, h: nat)
    ensures 0 <= 2 * (h / 2 * w) <= w * h
  {
    var b, c := h / 2, h % 2;
    assert w * h == w * (2 * b + c) == 2 * (b * w) + c * w;
  }

  // ---------------------------------------------------------------- put and get

  /** `rows` rows of `w` bytes of `src` at `from` have arrived in `dst` at `base`. */
  ghost predicate Moved(dst: array<Byte>, base: nat, p: nat, src: array<Byte>, from: nat, sp: nat, rows: nat, w: nat)
    reads dst, src
  {
    forall y, x :: 0 <= y < rows && 0 <= x < w ==>
      && Offset(base, p, y, x) < dst.Length && Offset(from, sp, y, x) < src.Length
      && dst[Offset(base, p, y, x)] == src[Offset(from, sp, y, x)]
  }

  /** The rows of one rectangle end before `limit`. */
  predicate RowsBelow(base: nat, p: nat, rows: nat, w: nat, limit: nat) {
    forall y :: 0 <= y < rows ==> Offset(base, p, y, w) <= limit
  }

  /** Every byte outside two rectangles has its old value. */
  ghost predicate Untouched(dst: array<Byte>, before: seq<Byte>, to0: nat, p0: nat, rows0: nat, w0: nat,
                            to1: nat, p1: nat, rows1: nat, w1: nat)
    requires p0 > 0 && p1 > 0
    reads dst
  {
    && |before| == dst.Length
    && forall i :: 0 <= i < dst.Length && !Band(i, to0, p0, 0, rows0, 0, w0) && !Band(i, to1, p1, 0, rows1, 0, w1)
         ==> dst[i] == before[i]
  }

  /** The luma loop and the chroma loop of a put or a get; `split` separates the planes of the destination. */
  method MoveTwo(dst: array<Byte>, to0: nat, p0: nat, to1: nat, p1: nat,
                 src: array<Byte>, from0: nat, sp0: nat, from1: nat, sp1: nat,
                 rows0: nat, w0: nat, rows1: nat, w1: nat, ghost split: nat)
    requires dst != src && 0 < p0 && w0 <= p0 && 0 < p1 && w1 <= p1
    requires RowsBelow(to0, p0, rows0, w0, split) && split <= to1 && split <= dst.Length
    requires RowsBelow(to1, p1, rows1, w1, dst.Length)
    requires RowsBelow(from0, sp0, rows0, w0, src.Length) && RowsBelow(from1, sp1, rows1, w1, src.Length)
    modifies dst
    ensures Moved(dst, to0, p0, src, from0, sp0, rows0, w0) && Moved(dst, to1, p1, src, from1, sp1, rows1, w1)
    ensures Untouched(dst, old(dst[..]), to0, p0, rows0, w0, to1, p1, rows1, w1)
  {
    CopyRows(dst, to0, p0, src, from0, sp0, rows0, w0);
    label Luma:
    assert Moved(dst, to0, p0, src, from0, sp0, rows0, w0);
    CopyRows(dst, to1, p1, src, from1, sp1, rows1, w1);
    forall y, x | 0 <= y < rows0 && 0 <= x < w0
      ensures && Offset(to0, p0, y, x) < dst.Length && Offset(from0, sp0, y, x) < src.Length
              && dst[Offset(to0, p0, y, x)] == src[Offset(from0, sp0, y, x)]
    {
      assert Offset(to0, p0, y, w0) <= split;
      assert Offset(to0, p0, y, x) < split && !Band(Offset(to0, p0, y, x), to1, p1, 0, rows1, 0, w1);
      assert dst[Offset(to0, p0, y, x)] == old@Luma(dst[Offset(to0, p0, y, x)]);
    }
  }

  /** Rows of a rectangle inside a plane lie inside the buffer. */
  lemma RectRows(at: nat, p: nat, x: nat, y0: nat, w: nat, rows: nat, planeRows: nat, size: nat, base: nat)
    requires x + w <= p && y0 + rows <= planeRows && at + planeRows * p <= size && base == at + y0 * p + x
    ensures RowsBelow(base, p, rows, w, size)
  {
    CopiedRowsFit(y0 + rows, planeRows, p);
    forall y | 0 <= y < rows ensures Offset(base, p, y, w) <= size {
      RowInBounds(at, x, w, p, y0, rows, y, size);
    }
  }

  /** The same where the last row is cut off behind column `width`. */
  lemma TightRows(at: nat, p: nat, x: nat, y0: nat, w: nat, rows: nat, planeRows: nat, width: nat, size: nat, base: nat)
    requires x + w <= width && y0 + rows <= planeRows && base == at + y0 * p + x
    requires planeRows > 0 ==> at + (planeRows - 1) * p + width <= size
    ensures RowsBelow(base, p, rows, w, size)
  {
    forall y | 0 <= y < rows ensures Offset(base, p, y, w) <= size {
      CopiedRowsFit(y0 + y, planeRows - 1, p);
      assert (y0 + y) * p == y0 * p + y * p;
    }
  }

  datatype Status = Success | InvalidParameter

  /** The extent of a put along one axis after clipping to the image and the surface. */
  function PutExtent(srcPos: nat, imgSize: nat, dstPos: nat, surfSize: nat, wanted: nat): nat
    requires srcPos < imgSize && dstPos < surfSize
  {
    Min(Min(wanted, imgSize - srcPos), surfSize - dstPos)
  }

  /** One axis of a put: clipped to the image, then to the surface. */
  function PutClipped(srcPos: U32, imgSize: U32, dstPos: U32, surfSize: U32, wanted: U32): U32
    requires srcPos < imgSize && dstPos < surfSize
  {
    ClipSum(dstPos, ClipSum(srcPos, wanted, imgSize), surfSize)
  }

  /** One axis of a get: clipped to the surface, then cut to the image. */
  function GetClipped(pos: U32, surfSize: U32, imgSize: U32, wanted: U32): U32
    requires pos < surfSize
  {
    Min(ClipSum(pos, wanted, surfSize), imgSize)
  }

  /** What a caller can check: no sum wraps, or the clip to the surface makes up for the one to the image. */
  predicate PutSafe(srcPos: U32, imgSize: U32, dstPos: U32, surfSize: U32, wanted: U32)
    requires srcPos < imgSize && dstPos < surfSize
  {
    if srcPos + wanted <= U32_MAX then dstPos + Min(wanted, imgSize - srcPos) <= U32_MAX
    else dstPos + wanted <= U32_MAX && srcPos + (surfSize - dstPos) <= imgSize
  }

  predicate GetSafe(pos: U32, surfSize: U32, imgSize: U32, wanted: U32) {
    pos + wanted <= U32_MAX || pos + imgSize <= surfSize
  }

  /** A put stays inside image and surface along one axis exactly when it is safe, and then moves all that fits. */
  lemma PutInsideExactly(srcPos: U32, imgSize: U32, dstPos: U32, surfSize: U32, wanted: U32)
    requires srcPos < imgSize && dstPos < surfSize
    ensures var w := PutClipped(srcPos, imgSize, dstPos, surfSize, wanted);
            && (srcPos + w <= imgSize && dstPos + w <= surfSize <==> PutSafe(srcPos, imgSize, dstPos, surfSize, wanted))
            && (PutSafe(srcPos, imgSize, dstPos, surfSize, wanted) ==>
                  w == PutExtent(srcPos, imgSize, dstPos, surfSize, wanted))
  {
    ClipExact(srcPos, wanted, imgSize);
    ClipExact(dstPos, ClipSum(srcPos, wanted, imgSize), surfSize);
    hide ClipSum;
  }

  /** A get stays inside the surface along one axis exactly when it is safe, and then moves all that fits. */
  lemma GetInsideExactly(pos: U32, surfSize: U32, imgSize: U32, wanted: U32)
    requires pos < surfSize
    ensures var w := GetClipped(pos, surfSize, imgSize, wanted);
            && (pos + w <= surfSize <==> GetSafe(pos, surfSize, imgSize, wanted))
            && (GetSafe(pos, surfSize, imgSize, wanted) ==> w == Min(Min(wanted, surfSize - pos), imgSize))
  {
    ClipExact(pos, wanted, surfSize);
    hide ClipSum;
  }

  /** Unsafe requests: a put of 200 columns from column 1 of 100, and a get of 100 columns from column 1 of 64. */
  lemma UnsafeRequests()
    ensures PutClipped(1, 100, 0, 200, 0xFFFF_FFFF) == 200
    ensures GetClipped(1, 64, 100, 0xFFFF_FFFF) == 100
  {
  }

  /** Where the rectangle of one plane starts. */
  function Start(offset: nat, pitch: nat, x: nat, y: nat): nat {
    offset + y * pitch + x
  }

  /** The rectangle of the image has arrived in the surface, in both planes, and nothing else changed. */
  ghost predicate PutDone(s: Surface, before: seq<Byte>, img: Image,
                          srcX: nat, srcY: nat, dstX: nat, dstY: nat, w: nat, h: nat)
    requires s.pitch > 0
    reads s.host, img.buf
  {
    var to0, to1 := Start(0, s.pitch, dstX, dstY), Start(s.ySize, s.pitch, Even(dstX), dstY / 2);
    && Moved(s.host, to0, s.pitch, img.buf, Start(img.offsetY, img.pitchY, srcX, srcY), img.pitchY, h, w)
    && Moved(s.host, to1, s.pitch, img.buf, Start(img.offsetUV, img.pitchUV, Even(srcX), srcY / 2), img.pitchUV,
             h / 2, Even(w))
    && Untouched(s.host, before, to0, s.pitch, h, w, to1, s.pitch, h / 2, Even(w))
  }

  /** The surface's rectangle has arrived at the top left of the image, in both planes; nothing else changed. */
  ghost predicate GetDone(img: Image, before: seq<Byte>, s: Surface, x: nat, y: nat, w: nat, h: nat)
    requires img.pitchY > 0 && img.pitchUV > 0
    reads s.host, img.buf
  {
    && Moved(img.buf, img.offsetY, img.pitchY, s.host, Start(0, s.pitch, x, y), s.pitch, h, w)
    && Moved(img.buf, img.offsetUV, img.pitchUV,
             s.host, Start(s.ySize, s.pitch, Even(x), y / 2), s.pitch, h / 2, Even(w))
    && Untouched(img.buf, before, img.offsetY, img.pitchY, h, w, img.offsetUV, img.pitchUV, h / 2, Even(w))
  }

  /** The row loops of `nvPutImage`. */
  method PutRows(s: Surface, img: Image, srcX: nat, srcY: nat, dstX: nat, dstY: nat, w: nat, h: nat)
    requires s.Valid() && img.Valid() && s.host != img.buf
    requires srcX + w <= img.width && srcY + h <= img.height && dstX + w <= s.width && dstY + h <= s.height
    modifies s.host
    ensures PutDone(s, old(s.host[..]), img, srcX, srcY, dstX, dstY, w, h)
  {
    hide Start;
    hide RowsBelow;
    hide Moved;
    hide Untouched;
    var to0, from0 := Start(0, s.pitch, dstX, dstY), Start(img.offsetY, img.pitchY, srcX, srcY);
    var to1 := Start(s.ySize, s.pitch, Even(dstX), dstY / 2);
    var from1 := Start(img.offsetUV, img.pitchUV, Even(srcX), srcY / 2);
    SurfaceRows(s, dstX, dstY, w, h);
    ImageRows(img, srcX, srcY, w, h);
    MoveTwo(s.host, to0, s.pitch, to1, s.pitch, img.buf, from0, img.pitchY, from1, img.pitchUV,
            h, w, h / 2, Even(w), s.ySize);
  }

  lemma PlaneStarts(a: nat, b: nat, p: nat)
    ensures a * p >= 0 && b * p >= 0
  {
  }

  lemma RowsBelowMore(base: nat, p: nat, rows: nat, w: nat, limit: nat, more: nat)
    requires RowsBelow(base, p, rows, w, limit) && limit <= more
    ensures RowsBelow(base, p, rows, w, more)
  {
  }

  /** The rows of a rectangle inside the surface, in both planes. */
  lemma SurfaceRows(s: Surface, x: nat, y: nat, w: nat, h: nat)
    requires s.Valid() && x + w <= s.width && y + h <= s.height
    ensures RowsBelow(Start(0, s.pitch, x, y), s.pitch, h, w, s.ySize)
    ensures RowsBelow(Start(0, s.pitch, x, y), s.pitch, h, w, s.host.Length)
    ensures RowsBelow(Start(s.ySize, s.pitch, Even(x), y / 2), s.pitch, h / 2, Even(w), s.host.Length)
    ensures s.ySize <= Start(s.ySize, s.pitch, Even(x), y / 2) && s.ySize <= s.host.Length && Even(w) <= w <= s.pitch
  {
    PlaneStarts(s.height / 2, y / 2, s.pitch);
    RectRows(0, s.pitch, x, y, w, h, s.height, s.ySize, Start(0, s.pitch, x, y));
    RectRows(s.ySize, s.pitch, Even(x), y / 2, Even(w), h / 2, s.height / 2, s.host.Length,
             Start(s.ySize, s.pitch, Even(x), y / 2));
    RowsBelowMore(Start(0, s.pitch, x, y), s.pitch, h, w, s.ySize, s.host.Length);
    hide RowsBelow;
  }

  lemma EvenHalves(x: nat, w: nat, width: nat)
    requires x + w <= width
    ensures Even(x) + Even(w) <= Even(width) && x / 2 + w / 2 <= width / 2
  {
  }

  /** The chroma rows of a rectangle inside a picture end where its chroma does. */
  lemma ChromaRows(offset: nat, p: nat, x: nat, y: nat, w: nat, h: nat, width: nat, height: nat, size: nat)
    requires x + w <= width && y + h <= height && offset + ChromaBytes(height / 2, p, width) <= size
    ensures RowsBelow(Start(offset, p, Even(x), y / 2), p, h / 2, Even(w), size)
  {
    EvenHalves(x, w, width);
    EvenHalves(y, h, height);
    PlaneStarts(0, y / 2, p);
    var rows := height / 2;
    assert rows > 0 ==> ChromaBytes(rows, p, width) == (rows - 1) * p + Even(width);
    TightRows(offset, p, Even(x), y / 2, Even(w), h / 2, rows, Even(width), size, Start(offset, p, Even(x), y / 2));
    hide RowsBelow;
  }

  /** The rows of a rectangle inside an image, in both planes. */
  lemma ImageRows(img: Image, x: nat, y: nat, w: nat, h: nat)
    requires img.Valid() && x + w <= img.width && y + h <= img.height
    ensures RowsBelow(Start(img.offsetY, img.pitchY, x, y), img.pitchY, h, w, img.offsetUV)
    ensures RowsBelow(Start(img.offsetY, img.pitchY, x, y), img.pitchY, h, w, img.buf.Length)
    ensures RowsBelow(Start(img.offsetUV, img.pitchUV, Even(x), y / 2), img.pitchUV, h / 2, Even(w), img.buf.Length)
    ensures img.offsetUV <= img.buf.Length && Even(w) <= w <= img.width
  {
    ChromaRows(img.offsetUV, img.pitchUV, x, y, w, h, img.width, img.height, img.buf.Length);
    hide ChromaBytes;
    hide RowsBelow;
    RectRows(img.offsetY, img.pitchY, x, y, w, h, img.height, img.offsetUV, Start(img.offsetY, img.pitchY, x, y));
    RowsBelowMore(Start(img.offsetY, img.pitchY, x, y), img.pitchY, h, w, img.offsetUV, img.buf.Length);
  }

  /** Neither size is zero and both corners lie inside, so that `nvPutImage` goes on to copy. */
  predicate PutStarts(s: Surface, img: Image, srcX: I32, srcY: I32, dstX: I32, dstY: I32) {
    0 <= srcX < img.width && 0 <= srcY < img.height && 0 <= dstX < s.width && 0 <= dstY < s.height
  }

  /**
   `nvPutImage` once its objects exist. An accepted put moves the clipped rectangle of both planes, changes no
   other byte and grows the content rectangle. A request that gets as far as the copy must be safe on both axes,
   which is exactly when the rectangle lies inside both buffers' pictures (`PutInsideExactly`).
   */
  method PutImage(s: Surface, img: Image, srcX: I32, srcY: I32, srcW: U32, srcH: U32,
                  dstX: I32, dstY: I32, dstW: U32, dstH: U32) returns (st: Status)
    requires s.Valid() && img.Valid() && s.host != img.buf
    requires srcW > 0 && srcH > 0 && dstW > 0 && dstH > 0 && PutStarts(s, img, srcX, srcY, dstX, dstY) ==>
      && PutSafe(srcX, img.width, dstX, s.width, Min(srcW, dstW))
      && PutSafe(srcY, img.height, dstY, s.height, Min(srcH, dstH))
    modifies s, s.host
    ensures var empty := srcW == 0 || srcH == 0 || dstW == 0 || dstH == 0;
      var inside := PutStarts(s, img, srcX, srcY, dstX, dstY);
      && (st.Success? <==> empty || inside)
      && if empty || !inside then s.content == old(s.content) && s.host[..] == old(s.host[..])
         else
           var w := PutExtent(srcX, img.width, dstX, s.width, Min(srcW, dstW));
           var h := PutExtent(srcY, img.height, dstY, s.height, Min(srcH, dstH));
           && PutDone(s, old(s.host[..]), img, srcX, srcY, dstX, dstY, w, h)
           && s.content == GrowContent(old(s.content), Box(dstX, dstY, w, h), s.width, s.height)
  {
    hide PutDone;
    if srcW == 0 || srcH == 0 || dstW == 0 || dstH == 0 {
      return Success;
    }
    if srcX < 0 || srcY < 0 || dstX < 0 || dstY < 0 || srcX >= img.width || srcY >= img.height
       || dstX >= s.width || dstY >= s.height {
      return InvalidParameter;
    }
    var w := ClipPut(srcX, img.width, dstX, s.width, Min(srcW, dstW));
    var h := ClipPut(srcY, img.height, dstY, s.height, Min(srcH, dstH));
    PutInsideExactly(srcX, img.width, dstX, s.width, Min(srcW, dstW));
    PutInsideExactly(srcY, img.height, dstY, s.height, Min(srcH, dstH));
    hide PutClipped;
    hide PutSafe;
    PutRows(s, img, srcX, srcY, dstX, dstY, w, h);
    s.content := GrowContent(s.content, Box(dstX, dstY, w, h), s.width, s.height);
    st := Success;
  }

  /** The two clip tests of one axis, with their 32-bit sums. */
  method ClipPut(srcPos: U32, imgSize: U32, dstPos: U32, surfSize: U32, wanted: U32) returns (w: U32)
    requires srcPos < imgSize && dstPos < surfSize
    ensures w == PutClipped(srcPos, imgSize, dstPos, surfSize, wanted)
  {
    w := wanted;
    if Wrap32(srcPos + w) > imgSize {
      w := imgSize - srcPos;
    }
    if Wrap32(dstPos + w) > surfSize {
      w := surfSize - dstPos;
    }
  }

  /**
   The host branch of `nvGetImage`. A request with an in-range corner must be safe on both axes, which is exactly
   when the rectangle lies inside the surface (`GetInsideExactly`).
   */
  method GetImage(s: Surface, x: I32, y: I32, width: U32, height: U32, img: Image) returns (st: Status)
    requires s.Valid() && img.Valid() && s.host != img.buf
    requires 0 <= x < s.width && 0 <= y < s.height ==>
      GetSafe(x, s.width, img.width, width) && GetSafe(y, s.height, img.height, height)
    modifies img.buf
    ensures st.Success? <==> 0 <= x < s.width && 0 <= y < s.height
    ensures if st.Success?
            then GetDone(img, old(img.buf[..]), s, x, y,
                         Min(Min(width, s.width - x), img.width), Min(Min(height, s.height - y), img.height))
            else img.buf[..] == old(img.buf[..])
  {
    if x < 0 || y < 0 || x >= s.width || y >= s.height {
      return InvalidParameter;
    }
    var w := ClipGet(x, s.width, img.width, width);
    var h := ClipGet(y, s.height, img.height, height);
    GetInsideExactly(x, s.width, img.width, width);
    GetInsideExactly(y, s.height, img.height, height);
    hide GetClipped;
    hide GetDone;
    GetRows(s, x, y, w, h, img);
    st := Success;
  }

  method ClipGet(pos: U32, surfSize: U32, imgSize: U32, wanted: U32) returns (w: U32)
    requires pos < surfSize
    ensures w == GetClipped(pos, surfSize, imgSize, wanted)
  {
    w := wanted;
    if Wrap32(pos + w) > surfSize {
      w := surfSize - pos;
    }
    if w > imgSize {
      w := imgSize;
    }
  }

  /** The row loops of `nvGetImage`. */
  method GetRows(s: Surface, x: nat, y: nat, w: nat, h: nat, img: Image)
    requires s.Valid() && img.Valid() && s.host != img.buf
    requires x + w <= s.width && y + h <= s.height && w <= img.width && h <= img.height
    modifies img.buf
    ensures GetDone(img, old(img.buf[..]), s, x, y, w, h)
  {
    hide RowsBelow;
    hide Moved;
    hide Untouched;
    var from0, from1 := Start(0, s.pitch, x, y), Start(s.ySize, s.pitch, Even(x), y / 2);
    assert Start(img.offsetY, img.pitchY, 0, 0) == img.offsetY;
    assert Start(img.offsetUV, img.pitchUV, 0, 0) == img.offsetUV;
    hide Start;
    SurfaceRows(s, x, y, w, h);
    ImageRows(img, 0, 0, w, h);
    MoveTwo(img.buf, img.offsetY, img.pitchY, img.offsetUV, img.pitchUV, s.host, from0, s.pitch, from1, s.pitch,
            h, w, h / 2, Even(w), img.offsetUV);
  }

  /**
   Put, then get the same region: for an in-range region the second image holds the luma and the chroma of the
   first, byte for byte, and all other bytes of the surface and of the second image are as before.
   */
  method PutThenGet(s: Surface, img: Image, out: Image, srcX: I32, srcY: I32, dstX: I32, dstY: I32, w: U32, h: U32)
    requires s.Valid() && img.Valid() && out.Valid() && s.host != img.buf && s.host != out.buf && img.buf != out.buf
    requires 0 < w && 0 < h && srcX >= 0 && srcY >= 0 && dstX >= 0 && dstY >= 0
    requires srcX + w <= img.width && srcY + h <= img.height
    requires dstX + w <= s.width && dstY + h <= s.height && w <= out.width && h <= out.height
    modifies s, s.host, out.buf
    ensures Moved(out.buf, out.offsetY, out.pitchY,
                  img.buf, Start(img.offsetY, img.pitchY, srcX, srcY), img.pitchY, h, w)
    ensures Moved(out.buf, out.offsetUV, out.pitchUV,
                  img.buf, Start(img.offsetUV, img.pitchUV, Even(srcX), srcY / 2), img.pitchUV, h / 2, Even(w))
    ensures Untouched(s.host, old(s.host[..]), Start(0, s.pitch, dstX, dstY), s.pitch, h, w,
                      Start(s.ySize, s.pitch, Even(dstX), dstY / 2), s.pitch, h / 2, Even(w))
    ensures Untouched(out.buf, old(out.buf[..]), out.offsetY, out.pitchY, h, w,
                      out.offsetUV, out.pitchUV, h / 2, Even(w))
  {
    hide Moved;
    hide Untouched;
    var put := PutImage(s, img, srcX, srcY, w, h, dstX, dstY, w, h);
    label Put:
    var got := GetImage(s, dstX, dstY, w, h, out);
    MovedThrough(out.buf, out.offsetY, out.pitchY, s.host, Start(0, s.pitch, dstX, dstY), s.pitch,
                 img.buf, Start(img.offsetY, img.pitchY, srcX, srcY), img.pitchY, h, w);
    MovedThrough(out.buf, out.offsetUV, out.pitchUV, s.host, Start(s.ySize, s.pitch, Even(dstX), dstY / 2), s.pitch,
                 img.buf, Start(img.offsetUV, img.pitchUV, Even(srcX), srcY / 2), img.pitchUV, h / 2, Even(w));
  }

  lemma MovedThrough(c: array<Byte>, cTo: nat, cp: nat, b: array<Byte>, bAt: nat, bp: nat,
                     a: array<Byte>, aFrom: nat, ap: nat, rows: nat, w: nat)
    requires Moved(c, cTo, cp, b, bAt, bp, rows, w) && Moved(b, bAt, bp, a, aFrom, ap, rows, w)
    ensures Moved(c, cTo, cp, a, aFrom, ap, rows, w)
  {
  }

  // ---------------------------------------------------------------- pixels

  /** Row and column counted from a rectangle's corner, and from the plane's. */
  lemma FromCorner(offset: nat, p: nat, x0: nat, y0: nat, y: nat, x: nat)
    ensures Offset(Start(offset, p, x0, y0), p, y, x) == offset + (y0 + y) * p + (x0 + x)
    ensures offset + (y0 + y) * p + (x0 + x) >= 0
  {
    assert (y0 + y) * p == y0 * p + y * p;
  }

  /** Where pixel (`x`, `y`) of a moved rectangle was and is, counted from the corners of the two planes. */
  lemma MovedPixel(dst: array<Byte>, to: nat, p: nat, x1: nat, y1: nat,
                   src: array<Byte>, from: nat, sp: nat, x0: nat, y0: nat, rows: nat, w: nat, x: nat, y: nat)
    requires Moved(dst, Start(to, p, x1, y1), p, src, Start(from, sp, x0, y0), sp, rows, w) && x < w && y < rows
    ensures 0 <= to + (y1 + y) * p + (x1 + x) < dst.Length && 0 <= from + (y0 + y) * sp + (x0 + x) < src.Length
    ensures dst[to + (y1 + y) * p + (x1 + x)] == src[from + (y0 + y) * sp + (x0 + x)]
  {
    FromCorner(to, p, x1, y1, y, x);
    FromCorner(from, sp, x0, y0, y, x);
    assert dst[Offset(Start(to, p, x1, y1), p, y, x)] == src[Offset(Start(from, sp, x0, y0), sp, y, x)];
    hide Start;
    hide Offset;
  }

  /** Pixel (`x`, `y`) of a put is the surface's (dstX + x, dstY + y) and was the image's (srcX + x, srcY + y). */
  lemma PutPixel(s: Surface, before: seq<Byte>, img: Image,
                 srcX: nat, srcY: nat, dstX: nat, dstY: nat, w: nat, h: nat, x: nat, y: nat)
    requires s.pitch > 0 && PutDone(s, before, img, srcX, srcY, dstX, dstY, w, h) && x < w && y < h
    ensures 0 <= (dstY + y) * s.pitch + (dstX + x) < s.host.Length
    ensures 0 <= img.offsetY + (srcY + y) * img.pitchY + (srcX + x) < img.buf.Length
    ensures s.host[(dstY + y) * s.pitch + (dstX + x)] == img.buf[img.offsetY + (srcY + y) * img.pitchY + (srcX + x)]
  {
    hide Moved;
    hide Untouched;
    MovedPixel(s.host, 0, s.pitch, dstX, dstY, img.buf, img.offsetY, img.pitchY, srcX, srcY, h, w, x, y);
  }

  /** The same for a chroma byte: row `y` of half as many, column `x` of both samples. */
  lemma PutChroma(s: Surface, before: seq<Byte>, img: Image,
                  srcX: nat, srcY: nat, dstX: nat, dstY: nat, w: nat, h: nat, x: nat, y: nat)
    requires s.pitch > 0 && PutDone(s, before, img, srcX, srcY, dstX, dstY, w, h) && x < Even(w) && y < h / 2
    ensures 0 <= s.ySize + (dstY / 2 + y) * s.pitch + (Even(dstX) + x) < s.host.Length
    ensures 0 <= img.offsetUV + (srcY / 2 + y) * img.pitchUV + (Even(srcX) + x) < img.buf.Length
    ensures s.host[s.ySize + (dstY / 2 + y) * s.pitch + (Even(dstX) + x)]
         == img.buf[img.offsetUV + (srcY / 2 + y) * img.pitchUV + (Even(srcX) + x)]
  {
    hide Moved;
    hide Untouched;
    hide Even;
    MovedPixel(s.host, s.ySize, s.pitch, Even(dstX), dstY / 2,
               img.buf, img.offsetUV, img.pitchUV, Even(srcX), srcY / 2, h / 2, Even(w), x, y);
  }

  /** A rectangle moved out of a moved rectangle is the matching part of it. */
  lemma MovedPart(c: array<Byte>, cTo: nat, cp: nat, b: array<Byte>, bAt: nat, bp: nat, bX: nat, bY: nat,
                  a: array<Byte>, aAt: nat, ap: nat, aX: nat, aY: nat,
                  rows: nat, w: nat, dx: nat, dy: nat, partRows: nat, partW: nat)
    requires Moved(b, Start(bAt, bp, bX, bY), bp, a, Start(aAt, ap, aX, aY), ap, rows, w)
    requires Moved(c, cTo, cp, b, Start(bAt, bp, bX + dx, bY + dy), bp, partRows, partW)
    requires dx + partW <= w && dy + partRows <= rows
    ensures Moved(c, cTo, cp, a, Start(aAt, ap, aX + dx, aY + dy), ap, partRows, partW)
  {
    forall y, x | 0 <= y < partRows && 0 <= x < partW
      ensures && Offset(cTo, cp, y, x) < c.Length && Offset(Start(aAt, ap, aX + dx, aY + dy), ap, y, x) < a.Length
              && c[Offset(cTo, cp, y, x)] == a[Offset(Start(aAt, ap, aX + dx, aY + dy), ap, y, x)]
    {
      SameByte(bAt, bp, bX, bY, dx, dy, y, x);
      SameByte(aAt, ap, aX, aY, dx, dy, y, x);
      hide Start;
      hide Offset;
      assert b[Offset(Start(bAt, bp, bX, bY), bp, dy + y, dx + x)]
          == a[Offset(Start(aAt, ap, aX, aY), ap, dy + y, dx + x)];
    }
  }

  lemma SameByte(at: nat, p: nat, x0: nat, y0: nat, dx: nat, dy: nat, y: nat, x: nat)
    ensures Offset(Start(at, p, x0 + dx, y0 + dy), p, y, x) == Offset(Start(at, p, x0, y0), p, dy + y, dx + x)
  {
    FromCorner(at, p, x0 + dx, y0 + dy, y, x);
    FromCorner(at, p, x0, y0, dy + y, dx + x);
  }

  /** Chroma positions move along with the luma when the part's offset is even, or the corner is. */
  lemma EvenShift(x: nat, dx: nat, part: nat, w: nat)
    requires (x % 2 == 0 || dx % 2 == 0) && dx + part <= w
    ensures Even(x + dx) == Even(x) + Even(dx) && Even(dx) + Even(part) <= Even(w)
    ensures (x + dx) / 2 == x / 2 + dx / 2 && dx / 2 + part / 2 <= w / 2
  {
    EvenHalves(dx, part, w);
  }

  /**
   Put, then get part of it: the second image holds the luma of the matching part of the first, and its chroma
   where on each axis the part's offset or the surface position is even.
   */
  method PutThenGetPart(s: Surface, img: Image, out: Image, srcX: I32, srcY: I32, dstX: I32, dstY: I32, w: U32, h: U32,
                        dx: U32, dy: U32, partW: U32, partH: U32)
    requires s.Valid() && img.Valid() && out.Valid() && s.host != img.buf && s.host != out.buf && img.buf != out.buf
    requires 0 < w && 0 < h && srcX >= 0 && srcY >= 0 && dstX >= 0 && dstY >= 0
    requires srcX + w <= img.width && srcY + h <= img.height && dstX + w <= s.width && dstY + h <= s.height
    requires 0 < partW && 0 < partH && dx + partW <= w && dy + partH <= h && partW <= out.width && partH <= out.height
    requires dstX + dx < 0x8000_0000 && dstY + dy < 0x8000_0000
    modifies s, s.host, out.buf
    ensures Moved(out.buf, out.offsetY, out.pitchY,
                  img.buf, Start(img.offsetY, img.pitchY, srcX + dx, srcY + dy), img.pitchY, partH, partW)
    ensures (dstX % 2 == 0 || dx % 2 == 0) && (dstY % 2 == 0 || dy % 2 == 0) ==>
      Moved(out.buf, out.offsetUV, out.pitchUV,
            img.buf, Start(img.offsetUV, img.pitchUV, Even(srcX) + Even(dx), srcY / 2 + dy / 2), img.pitchUV,
            partH / 2, Even(partW))
  {
    hide Moved;
    hide Untouched;
    hide Start;
    var put := PutImage(s, img, srcX, srcY, w, h, dstX, dstY, w, h);
    label Put:
    var got := GetImage(s, dstX + dx, dstY + dy, partW, partH, out);
    MovedPart(out.buf, out.offsetY, out.pitchY, s.host, 0, s.pitch, dstX, dstY,
              img.buf, img.offsetY, img.pitchY, srcX, srcY, h, w, dx, dy, partH, partW);
    if (dstX % 2 == 0 || dx % 2 == 0) && (dstY % 2 == 0 || dy % 2 == 0) {
      EvenShift(dstX, dx, partW, w);
      EvenShift(dstY, dy, partH, h);
      hide Even;
      MovedPart(out.buf, out.offsetUV, out.pitchUV, s.host, s.ySize, s.pitch, Even(dstX), dstY / 2,
                img.buf, img.offsetUV, img.pitchUV, Even(srcX), srcY / 2, h / 2, Even(w),
                Even(dx), dy / 2, partH / 2, Even(partW));
    }
  }
}
