/**
 The NV12 staging copy of `nvEndPicture` (src/vabackend.c:2807-2851): a rectangle of the surface's host
 buffer is copied to the top left of the locked encoder input, the rest of the encode rectangle is padded,
 and a full-frame copy with equal pitches takes a fast path.
 */
module Staging {
  import opened Words

  /** Row and column of a byte offset in a plane. */
  lemma RowColumn(y: nat, x: nat, p: nat)
    requires x < p
    ensures (y * p + x) / p == y && (y * p + x) % p == x
  {
    var i := y * p + x;
    var q, r := i / p, i % p;
    assert i == q * p + r && 0 <= r < p;
    if q < y {
      RowsApart(q, y, p);
    } else if y < q {
      RowsApart(y, q, p);
    }
  }

  lemma {:induction false} RowsApart(a: nat, b: nat, p: nat)
    requires a < b
    ensures a * p + p <= b * p
    decreases b
  {
    assert b * p == (b - 1) * p + p;
    if a < b - 1 {
      RowsApart(a, b - 1, p);
    }
  }

  /** The bytes of rows `first` to `last` and columns `col` to `col + w` of a plane at `base` with pitch `p`. */
  predicate Band(i: int, base: nat, p: nat, first: nat, last: nat, col: nat, w: nat)
    requires p > 0
  {
    base <= i && first <= (i - base) / p < last && col <= (i - base) % p < col + w
  }

  /** A band grows by one row exactly by that row's bytes. */
  lemma BandStep(i: int, base: nat, p: nat, first: nat, y: nat, col: nat, w: nat)
    requires p > 0 && first <= y && col + w <= p
    ensures Band(i, base, p, first, y + 1, col, w)
       <==> Band(i, base, p, first, y, col, w) || base + y * p + col <= i < base + y * p + col + w
  {
    if base <= i {
      var d := i - base;
      if y * p + col <= d < y * p + col + w {
        RowColumn(y, d - y * p, p);
      } else if d / p == y {
        assert d == y * p + d % p;
      }
    } else {
      assert y * p >= 0;
    }
  }

  method Memset(dst: array<Byte>, lo: nat, n: nat, v: Byte)
    requires lo + n <= dst.Length
    modifies dst
    ensures forall i :: 0 <= i < dst.Length ==> dst[i] == if lo <= i < lo + n then v else old(dst[i])
  {
    for k := 0 to n
      invariant forall i :: 0 <= i < dst.Length ==> dst[i] == if lo <= i < lo + k then v else old(dst[i])
    {
      dst[lo + k] := v;
    }
  }

  method Memcpy(dst: array<Byte>, lo: nat, src: array<Byte>, from: nat, n: nat)
    requires dst != src && lo + n <= dst.Length && from + n <= src.Length
    modifies dst
    ensures forall i :: 0 <= i < dst.Length ==>
              dst[i] == if lo <= i < lo + n then src[from + (i - lo)] else old(dst[i])
  {
    for k := 0 to n
      invariant forall i :: 0 <= i < dst.Length ==>
                  dst[i] == if lo <= i < lo + k then src[from + (i - lo)] else old(dst[i])
    {
      dst[lo + k] := src[from + k];
    }
  }

  lemma RowFits(y: nat, rows: nat, p: nat)
    requires y < rows
    ensures y * p + p <= rows * p
  {
    RowsApart(y, rows, p);
  }

  /** One of the padding loops. */
  method FillRows(dst: array<Byte>, base: nat, p: nat, first: nat, last: nat, col: nat, w: nat, v: Byte)
    requires p > 0 && first <= last && col + w <= p && base + last * p <= dst.Length
    modifies dst
    ensures forall i :: 0 <= i < dst.Length ==>
              dst[i] == if Band(i, base, p, first, last, col, w) then v else old(dst[i])
  {
    for y := first to last
      invariant forall i :: 0 <= i < dst.Length ==>
                  dst[i] == if Band(i, base, p, first, y, col, w) then v else old(dst[i])
    {
      RowFits(y, last, p);
      Memset(dst, base + y * p + col, w, v);
      forall i | 0 <= i < dst.Length
        ensures dst[i] == if Band(i, base, p, first, y + 1, col, w) then v else old(dst[i])
      {
        BandStep(i, base, p, first, y, col, w);
      }
    }
  }

  /** One of the payload loops. */
  method CopyRows(dst: array<Byte>, base: nat, p: nat, src: array<Byte>, from: nat, sp: nat, rows: nat, w: nat)
    requires dst != src && p > 0 && w <= p
    requires forall y :: 0 <= y < rows ==> Offset(base, p, y, w) <= dst.Length
    requires forall y :: 0 <= y < rows ==> Offset(from, sp, y, w) <= src.Length
    modifies dst
    ensures forall i :: 0 <= i < dst.Length && !Band(i, base, p, 0, rows, 0, w) ==> dst[i] == old(dst[i])
    ensures forall y, x :: 0 <= y < rows && 0 <= x < w ==>
              Offset(base, p, y, x) < dst.Length && Offset(from, sp, y, x) < src.Length
              && dst[Offset(base, p, y, x)] == src[Offset(from, sp, y, x)]
  {
    for y := 0 to rows
      invariant forall i :: 0 <= i < dst.Length && !Band(i, base, p, 0, y, 0, w) ==> dst[i] == old(dst[i])
      invariant forall r, x :: 0 <= r < y && 0 <= x < w ==>
                  Offset(base, p, r, x) < dst.Length && Offset(from, sp, r, x) < src.Length
                  && dst[Offset(base, p, r, x)] == src[Offset(from, sp, r, x)]
    {
      assert Offset(base, p, y, w) <= dst.Length;
      assert Offset(from, sp, y, w) <= src.Length;
      Memcpy(dst, base + y * p, src, from + y * sp, w);
      forall i | 0 <= i < dst.Length && !Band(i, base, p, 0, y + 1, 0, w) ensures dst[i] == old(dst[i]) {
        BandStep(i, base, p, 0, y, 0, w);
      }
      forall r, x | 0 <= r < y + 1 && 0 <= x < w
        ensures Offset(base, p, r, x) < dst.Length && Offset(from, sp, r, x) < src.Length
        ensures dst[Offset(base, p, r, x)] == src[Offset(from, sp, r, x)]
      {
        if r < y {
          RowsApart(r, y, p);
        }
      }
    }
  }

  function Offset(base: nat, p: nat, y: nat, x: nat): nat {
    base + y * p + x
  }

  /** A pixel lies in a band exactly if its row and column do. */
  lemma BandAt(base: nat, p: nat, y: nat, x: nat, first: nat, last: nat, col: nat, w: nat)
    requires x < p
    ensures Band(Offset(base, p, y, x), base, p, first, last, col, w) <==> first <= y < last && col <= x < col + w
  {
    RowColumn(y, x, p);
  }

  /** A smaller band inside a larger one. */
  lemma BandWithin(i: int, base: nat, p: nat, first: nat, last: nat, col: nat, w: nat, rows: nat, width: nat)
    requires p > 0 && last <= rows && col + w <= width
    ensures Band(i, base, p, first, last, col, w) ==> Band(i, base, p, 0, rows, 0, width)
  {
  }

  /**
   Copy and padding of one plane: the copied rectangle equals the source, the rest of the encode rectangle has
   the fill value, and nothing else changes.
   */
  method StagePlane(dst: array<Byte>, base: nat, p: nat, encW: nat, encRows: nat,
                    src: array<Byte>, from: nat, sp: nat, copyW: nat, copyRows: nat, fill: Byte)
    requires dst != src && 0 < p && encW <= p && copyW <= encW && copyRows <= encRows
    requires base + encRows * p <= dst.Length && base + copyRows * p <= dst.Length
    requires forall y :: 0 <= y < copyRows ==> Offset(from, sp, y, copyW) <= src.Length
    modifies dst
    ensures forall i :: 0 <= i < dst.Length && !Band(i, base, p, 0, encRows, 0, encW) ==> dst[i] == old(dst[i])
    ensures forall y, x :: 0 <= y < encRows && 0 <= x < encW ==>
              PlanePixel(dst, base, p, src, from, sp, copyW, copyRows, fill, y, x)
  {
    forall y | 0 <= y < copyRows ensures Offset(base, p, y, copyW) <= dst.Length {
      RowFits(y, copyRows, p);
    }
    CopyRows(dst, base, p, src, from, sp, copyRows, copyW);
    label Copied:
    if copyW < encW {
      FillRows(dst, base, p, 0, copyRows, copyW, encW - copyW, fill);
    }
    assert forall i :: 0 <= i < dst.Length ==>
      dst[i] == if Band(i, base, p, 0, copyRows, copyW, encW - copyW) then fill else old@Copied(dst[i]);
    label Padded:
    if copyRows < encRows {
      FillRows(dst, base, p, copyRows, encRows, 0, encW, fill);
    }
    forall i | 0 <= i < dst.Length && !Band(i, base, p, 0, encRows, 0, encW) ensures dst[i] == old(dst[i]) {
      BandWithin(i, base, p, 0, copyRows, 0, copyW, encRows, encW);
      BandWithin(i, base, p, 0, copyRows, copyW, encW - copyW, encRows, encW);
      BandWithin(i, base, p, copyRows, encRows, 0, encW, encRows, encW);
    }
    forall y, x | 0 <= y < encRows && 0 <= x < encW
      ensures PlanePixel(dst, base, p, src, from, sp, copyW, copyRows, fill, y, x)
    {
      RowFits(y, encRows, p);
      BandAt(base, p, y, x, 0, copyRows, copyW, encW - copyW);
      BandAt(base, p, y, x, copyRows, encRows, 0, encW);
    }
  }

  /** The value a staged pixel should have. */
  ghost predicate PlanePixel(dst: array<Byte>, base: nat, p: nat, src: array<Byte>, from: nat, sp: nat,
                             copyW: nat, copyRows: nat, fill: Byte, y: nat, x: nat)
    reads dst, src
  {
    && Offset(base, p, y, x) < dst.Length
    && if y < copyRows && x < copyW
       then Offset(from, sp, y, x) < src.Length && dst[Offset(base, p, y, x)] == src[Offset(from, sp, y, x)]
       else dst[Offset(base, p, y, x)] == fill
  }

  /** Source rectangle, as chosen by `EncoderModel.ChooseCopy`. */
  datatype Rect = Rect(x: nat, y: nat, w: nat, h: nat)

  /** Full-frame copy with equal pitches. */
  predicate FastPath(c: Rect, encW: nat, encH: nat, p: nat, sp: nat) {
    c.x == 0 && c.y == 0 && c.w == encW && c.h == encH && sp == p
  }

  lemma RowInBounds(at: nat, x: nat, w: nat, sp: nat, row0: nat, rows: nat, y: nat, size: nat)
    requires y < rows && x + w <= sp && at + (row0 + rows) * sp <= size
    ensures Offset(at + row0 * sp + x, sp, y, w) <= size
  {
    assert (row0 + y) * sp == row0 * sp + y * sp;
    RowFits(row0 + y, row0 + rows, sp);
  }

  lemma FastRow(base: nat, p: nat, rows: nat, y: nat, x: nat)
    requires y < rows && x < p
    ensures Offset(base, p, y, x) < base + rows * p
  {
    RowFits(y, rows, p);
  }

  /** Every source row of the rectangle lies in its plane; `luma` and `chroma` are where its parts start. */
  lemma SourceRows(c: Rect, sp: nat, ySize: nat, size: nat, luma: nat, chroma: nat)
    requires c.y % 2 == c.h % 2 == 0 && luma == c.y * sp + c.x && chroma == ySize + (c.y / 2) * sp + c.x
    requires c.x + c.w <= sp && (c.y + c.h) * sp <= ySize && ySize + (c.y / 2 + c.h / 2) * sp <= size
    ensures forall y :: 0 <= y < c.h ==> Offset(luma, sp, y, c.w) <= size
    ensures forall y :: 0 <= y < c.h / 2 ==> Offset(chroma, sp, y, c.w) <= size
  {
    assert (c.y / 2 + c.h / 2) * sp >= 0;
    forall y | 0 <= y < c.h ensures Offset(luma, sp, y, c.w) <= size {
      RowInBounds(0, c.x, c.w, sp, c.y, c.h, y, ySize);
    }
    forall y | 0 <= y < c.h / 2 ensures Offset(chroma, sp, y, c.w) <= size {
      RowInBounds(ySize, c.x, c.w, sp, c.y / 2, c.h / 2, y, size);
    }
  }

  lemma CopiedRowsFit(copied: nat, rows: nat, p: nat)
    requires copied <= rows
    ensures copied * p <= rows * p
  {
    if copied < rows {
      RowsApart(copied, rows, p);
    }
  }

  /** The two planes do not share bytes. */
  lemma PlanesApart(i: int, encH: nat, p: nat, encW: nat, rows: nat)
    requires 0 < p
    ensures Band(i, 0, p, 0, encH, 0, encW) ==> i < encH * p
    ensures Band(i, encH * p, p, 0, rows, 0, encW) ==> encH * p <= i < encH * p + rows * p
  {
    if Band(i, 0, p, 0, encH, 0, encW) {
      RowFits(i / p, encH, p);
      assert i == (i / p) * p + i % p;
    }
    if Band(i, encH * p, p, 0, rows, 0, encW) {
      var d := i - encH * p;
      RowFits(d / p, rows, p);
      assert d == (d / p) * p + d % p;
    }
  }

  /** Luma of the staged frame: the source inside the copied rectangle, zero elsewhere. */
  ghost predicate LumaPixel(dst: array<Byte>, p: nat, src: array<Byte>, sp: nat, c: Rect, y: nat, x: nat)
    reads dst, src
  {
    PlanePixel(dst, 0, p, src, c.y * sp + c.x, sp, c.w, c.h, 0x00, y, x)
  }

  /** Chroma of the staged frame, in a plane behind `encH` rows of luma: the source, or the neutral 0x80. */
  ghost predicate ChromaPixel(dst: array<Byte>, p: nat, encH: nat, src: array<Byte>, sp: nat, ySize: nat,
                              c: Rect, y: nat, x: nat)
    reads dst, src
  {
    PlanePixel(dst, encH * p, p, src, ySize + (c.y / 2) * sp + c.x, sp, c.w, c.h / 2, 0x80, y, x)
  }

  /** Bytes of both planes of a frame with pitch `p`. */
  function FrameBytes(p: nat, encH: nat): nat {
    encH * p + (encH / 2) * p
  }

  /** The encode rectangle's bytes in either plane. */
  predicate InFrame(i: int, p: nat, encW: nat, encH: nat)
    requires p > 0
  {
    Band(i, 0, p, 0, encH, 0, encW) || Band(i, encH * p, p, 0, encH / 2, 0, encW)
  }

  /** The row-by-row path. */
  method StageRows(dst: array<Byte>, p: nat, encW: nat, encH: nat,
                   src: array<Byte>, sp: nat, ySize: nat, c: Rect)
    requires dst != src && 0 < p && encW <= p && c.w <= encW && c.h <= encH
    requires c.x % 2 == c.y % 2 == c.w % 2 == c.h % 2 == 0
    requires FrameBytes(p, encH) <= dst.Length
    requires c.x + c.w <= sp && (c.y + c.h) * sp <= ySize && ySize + (c.y / 2 + c.h / 2) * sp <= src.Length
    modifies dst
    ensures forall y, x :: 0 <= y < encH && 0 <= x < encW ==> LumaPixel(dst, p, src, sp, c, y, x)
    ensures forall y, x :: 0 <= y < encH / 2 && 0 <= x < encW ==> ChromaPixel(dst, p, encH, src, sp, ySize, c, y, x)
    ensures forall i :: 0 <= i < dst.Length && !InFrame(i, p, encW, encH) ==> dst[i] == old(dst[i])
  {
    var luma, chroma := c.y * sp + c.x, ySize + (c.y / 2) * sp + c.x;
    var base := encH * p;
    SourceRows(c, sp, ySize, src.Length, luma, chroma);
    CopiedRowsFit(c.h, encH, p);
    CopiedRowsFit(c.h / 2, encH / 2, p);
    StagePlane(dst, 0, p, encW, encH, src, luma, sp, c.w, c.h, 0x00);
    label Luma:
    StagePlane(dst, base, p, encW, encH / 2, src, chroma, sp, c.w, c.h / 2, 0x80);
    forall y, x | 0 <= y < encH && 0 <= x < encW ensures LumaPixel(dst, p, src, sp, c, y, x) {
      FastRow(0, p, encH, y, x);
      PlanesApart(Offset(0, p, y, x), encH, p, encW, encH / 2);
      assert old@Luma(PlanePixel(dst, 0, p, src, luma, sp, c.w, c.h, 0x00, y, x));
    }
    forall y, x | 0 <= y < encH / 2 && 0 <= x < encW ensures ChromaPixel(dst, p, encH, src, sp, ySize, c, y, x) {
      assert PlanePixel(dst, base, p, src, chroma, sp, c.w, c.h / 2, 0x80, y, x);
    }
  }

  /** The fast path: whole planes at once, padding between the rows included. */
  method StageFast(dst: array<Byte>, p: nat, encW: nat, encH: nat, src: array<Byte>, ySize: nat, c: Rect)
    requires dst != src && 0 < p && encW <= p && FastPath(c, encW, encH, p, p) && encH % 2 == 0
    requires FrameBytes(p, encH) <= dst.Length
    requires encH * p <= ySize && ySize + (encH / 2) * p <= src.Length
    modifies dst
    ensures forall y, x :: 0 <= y < encH && 0 <= x < encW ==> LumaPixel(dst, p, src, p, c, y, x)
    ensures forall y, x :: 0 <= y < encH / 2 && 0 <= x < encW ==> ChromaPixel(dst, p, encH, src, p, ySize, c, y, x)
    ensures forall i :: 0 <= i < dst.Length && FrameBytes(p, encH) <= i ==> dst[i] == old(dst[i])
  {
    Memcpy(dst, 0, src, 0, encH * p);
    label Luma:
    Memcpy(dst, encH * p, src, ySize, (encH / 2) * p);
    assert c.y * p == 0 && (c.y / 2) * p == 0;
    forall y, x | 0 <= y < encH && 0 <= x < encW ensures LumaPixel(dst, p, src, p, c, y, x) {
      FastRow(0, p, encH, y, x);
      assert dst[Offset(0, p, y, x)] == old@Luma(dst[Offset(0, p, y, x)]);
    }
    forall y, x | 0 <= y < encH / 2 && 0 <= x < encW ensures ChromaPixel(dst, p, encH, src, p, ySize, c, y, x) {
      FastRow(encH * p, p, encH / 2, y, x);
      FastRow(ySize, p, encH / 2, y, x);
    }
  }

  lemma FastBounds(c: Rect, encW: nat, encH: nat, p: nat, ySize: nat, size: nat)
    requires FastPath(c, encW, encH, p, p) && c.h % 2 == 0
    requires (c.y + c.h) * p <= ySize && ySize + (c.y / 2 + c.h / 2) * p <= size
    ensures encH * p <= ySize && ySize + (encH / 2) * p <= size && encH % 2 == 0
  {
  }

  /**
   The staging copy. In the encode rectangle every luma byte is the source's inside the copied rectangle and 0x00
   outside, chroma likewise with 0x80, on both paths; nothing past the two planes changes, and off the fast path
   nothing between the rows either.
   */
  method StageFrame(dst: array<Byte>, p: nat, encW: nat, encH: nat,
                    src: array<Byte>, sp: nat, ySize: nat, c: Rect)
    requires dst != src && 0 < p && encW <= p && c.w <= encW && c.h <= encH
    requires c.x % 2 == c.y % 2 == c.w % 2 == c.h % 2 == 0
    requires FrameBytes(p, encH) <= dst.Length
    requires c.x + c.w <= sp && (c.y + c.h) * sp <= ySize && ySize + (c.y / 2 + c.h / 2) * sp <= src.Length
    modifies dst
    ensures forall y, x :: 0 <= y < encH && 0 <= x < encW ==> LumaPixel(dst, p, src, sp, c, y, x)
    ensures forall y, x :: 0 <= y < encH / 2 && 0 <= x < encW ==> ChromaPixel(dst, p, encH, src, sp, ySize, c, y, x)
    ensures forall i :: 0 <= i < dst.Length && FrameBytes(p, encH) <= i ==> dst[i] == old(dst[i])
    ensures !FastPath(c, encW, encH, p, sp) ==>
              forall i :: 0 <= i < dst.Length && !InFrame(i, p, encW, encH) ==> dst[i] == old(dst[i])
  {
    if FastPath(c, encW, encH, p, sp) {
      FastBounds(c, encW, encH, p, ySize, src.Length);
      hide LumaPixel;
      hide ChromaPixel;
      StageFast(dst, p, encW, encH, src, ySize, c);
    } else {
      hide LumaPixel;
      hide ChromaPixel;
      StageRows(dst, p, encW, encH, src, sp, ySize, c);
      forall i | 0 <= i < dst.Length && FrameBytes(p, encH) <= i ensures dst[i] == old(dst[i]) {
        PlanesApart(i, encH, p, encW, encH / 2);
      }
    }
  }

  /** A staged luma byte in the coordinates of the two pictures. */
  lemma LumaIsSource(dst: array<Byte>, p: nat, src: array<Byte>, sp: nat, c: Rect, y: nat, x: nat)
    requires LumaPixel(dst, p, src, sp, c, y, x)
    ensures 0 <= y * p + x < dst.Length
    ensures if x < c.w && y < c.h
            then 0 <= (c.y + y) * sp + (c.x + x) < src.Length && dst[y * p + x] == src[(c.y + y) * sp + (c.x + x)]
            else dst[y * p + x] == 0
  {
    assert (c.y + y) * sp == c.y * sp + y * sp;
  }

  /** A staged chroma byte likewise: half the rows, behind `encH` rows of luma there and `ySize` bytes here. */
  lemma ChromaIsSource(dst: array<Byte>, p: nat, encH: nat, src: array<Byte>, sp: nat, ySize: nat,
                       c: Rect, y: nat, x: nat)
    requires ChromaPixel(dst, p, encH, src, sp, ySize, c, y, x)
    ensures 0 <= (encH + y) * p + x < dst.Length
    ensures if x < c.w && y < c.h / 2
            then && 0 <= ySize + (c.y / 2 + y) * sp + (c.x + x) < src.Length
                 && dst[(encH + y) * p + x] == src[ySize + (c.y / 2 + y) * sp + (c.x + x)]
            else dst[(encH + y) * p + x] == 128
  {
    var from := c.y / 2;
    assert (encH + y) * p == encH * p + y * p;
    assert (from + y) * sp == from * sp + y * sp;
  }

  /** A frame no higher than the created one fits the same input buffer. */
  lemma FrameBytesMonotone(p: nat, h: nat, created: nat)
    requires h <= created
    ensures FrameBytes(p, h) <= FrameBytes(p, created)
  {
    CopiedRowsFit(h, created, p);
    CopiedRowsFit(h / 2, created / 2, p);
  }
}
