/**
 `reconstructJPEG` and its `write*` helpers (src/jpeg.c): an image is printed through an advancing
 pointer into a buffer whose size is computed beforehand. The printer is proved to produce exactly the
 encoding of `JpegImage.Image`, and every one of its writes to stay inside the buffer.
 */
module JpegWriter {
  import opened Words
  import opened JpegSyntax
  import opened JpegImage

  /** The malloc'd frame and the write pointer into it. */
  class FrameBuffer {
    const buf: array<Byte>
    var ptr: nat

    ghost predicate Valid()
      reads this
    {
      ptr <= buf.Length
    }

    ghost function Written(): seq<Byte>
      requires Valid()
      reads this, buf
    {
      buf[..ptr]
    }

    constructor (size: nat)
      ensures Valid() && fresh(buf) && buf.Length == size && ptr == 0
      ensures Written() == []
    {
      buf := new Byte[size];
      ptr := 0;
    }

    method Put(b: Byte)
      requires Valid() && ptr < buf.Length
      modifies this, buf
      ensures Valid() && ptr == old(ptr) + 1
      ensures Written() == old(Written()) + [b]
    {
      buf[ptr] := b;
      ptr := ptr + 1;
    }

    method Put16(w: U16)
      requires Valid() && ptr + 2 <= buf.Length
      modifies this, buf
      ensures Valid() && ptr == old(ptr) + 2
      ensures Written() == old(Written()) + U16be(w)
    {
      Put(w / 256);
      Put(w % 256);
    }

    /** `memcpy` followed by the pointer increment. */
    method Copy(src: seq<Byte>)
      requires Valid() && ptr + |src| <= buf.Length
      modifies this, buf
      ensures Valid() && ptr == old(ptr) + |src|
      ensures Written() == old(Written()) + src
    {
      for i := 0 to |src|
        invariant ptr == old(ptr) + i
        invariant Written() == old(Written()) + src[..i]
      {
        Put(src[i]);
      }
    }
  }

  // ---------------------------------------------------------------- layouts of the emitted segments

  lemma DriLayout(interval: U16)
    ensures EncodeSegment(Dri(interval)) == [0xFF, 0xDD, 0, 4] + U16be(interval)
  {
  }

  lemma DqtLayout(id: Byte, q: QuantTable)
    ensures EncodeSegment(Dqt([QuantDef(id, q)])) == [0xFF, 0xDB, 0, 67, id] + q
  {
    assert EncodeQuants([QuantDef(id, q)]) == [id] + q;
  }

  lemma DhtLayout(cls: Byte, id: Byte, bits: seq<Byte>, vals: seq<Byte>)
    requires |bits| == 16 && |vals| <= 162
    ensures EncodeSegment(Dht([HuffDef(cls, id, bits, vals)]))
         == [0xFF, 0xC4] + U16be(19 + |vals|) + [PackNibbles(cls, id)] + bits + vals
  {
    hide PackNibbles;
    hide U16be;
    assert EncodeHuffs([HuffDef(cls, id, bits, vals)]) == [PackNibbles(cls, id)] + bits + vals;
    Regroup([0xFF, 0xC4] + U16be(19 + |vals|), [PackNibbles(cls, id)], bits, vals, []);
  }

  lemma {:induction false} FrameComponentsAppend(cs: seq<FrameComponent>, c: FrameComponent)
    ensures EncodeFrameComponents(cs + [c]) == EncodeFrameComponents(cs) + [c.id, PackNibbles(c.h, c.v), c.quant]
  {
    if cs == [] {
      assert cs + [c] == [c];
    } else {
      assert (cs + [c])[1..] == cs[1..] + [c];
      FrameComponentsAppend(cs[1..], c);
    }
  }

  lemma {:induction false} ScanComponentsAppend(cs: seq<ScanComponent>, c: ScanComponent)
    ensures EncodeScanComponents(cs + [c]) == EncodeScanComponents(cs) + [c.selector, PackNibbles(c.dc, c.ac)]
  {
    if cs == [] {
      assert cs + [c] == [c];
    } else {
      assert (cs + [c])[1..] == cs[1..] + [c];
      ScanComponentsAppend(cs[1..], c);
    }
  }

  // ---------------------------------------------------------------- segment writers

  method WriteDri(w: FrameBuffer, interval: U16)
    requires w.Valid() && w.ptr + 6 <= w.buf.Length
    modifies w, w.buf
    ensures w.Valid() && w.ptr == old(w.ptr) + 6
    ensures w.Written() == old(w.Written()) + EncodeSegment(Dri(interval))
  {
    w.Copy([0xFF, 0xDD]);
    w.Put16(4);
    w.Put16(interval);
    DriLayout(interval);
  }

  method WriteDht(w: FrameBuffer, bits: seq<Byte>, vals: seq<Byte>, cls: Byte, id: Byte, numVals: nat)
    requires |bits| == 16 && numVals <= |vals| <= 162
    requires w.Valid() && w.ptr + 21 + numVals <= w.buf.Length
    modifies w, w.buf
    ensures w.Valid() && w.ptr == old(w.ptr) + 21 + numVals
    ensures w.Written() == old(w.Written()) + EncodeSegment(Dht([HuffDef(cls, id, bits, vals[..numVals])]))
  {
    hide EncodeSegment;
    ghost var start := w.Written();
    w.Copy([0xFF, 0xC4]);
    w.Put16(2 + 1 + 16 + numVals);
    w.Put(PackNibbles(cls, id));
    ghost var head: seq<Byte> := [0xFF, 0xC4] + U16be(19 + numVals) + [PackNibbles(cls, id)];
    assert w.Written() == start + head;
    w.Copy(bits);
    w.Copy(vals[..numVals]);
    DhtLayout(cls, id, bits, vals[..numVals]);
    Regroup(start, head, bits, vals[..numVals], []);
  }

  /** `writeStandardHuffmanTables`: four DHT segments of 33, 33, 183 and 183 bytes. */
  method WriteStandardHuffmanTables(w: FrameBuffer)
    requires w.Valid() && w.ptr + 432 <= w.buf.Length
    modifies w, w.buf
    ensures w.Valid() && w.ptr == old(w.ptr) + 432
    ensures w.Written() == old(w.Written()) + EncodeAll(StandardHuffman())
  {
    hide EncodeSegment;
    ghost var start := w.Written();
    ghost var std := StandardHuffman();
    assert DC_VALUES[..12] == DC_VALUES;
    assert AC_LUMINANCE_VALUES[..162] == AC_LUMINANCE_VALUES;
    assert AC_CHROMINANCE_VALUES[..162] == AC_CHROMINANCE_VALUES;
    WriteDht(w, DC_LUMINANCE_BITS, DC_VALUES, 0, 0, 12);
    WriteDht(w, DC_CHROMINANCE_BITS, DC_VALUES, 0, 1, 12);
    WriteDht(w, AC_LUMINANCE_BITS, AC_LUMINANCE_VALUES, 1, 0, 162);
    WriteDht(w, AC_CHROMINANCE_BITS, AC_CHROMINANCE_VALUES, 1, 1, 162);
    FourSegments(std[0], std[1], std[2], std[3]);
    Regroup(start, EncodeSegment(std[0]), EncodeSegment(std[1]), EncodeSegment(std[2]), EncodeSegment(std[3]));
  }

  lemma FourSegments(a: Segment, b: Segment, c: Segment, d: Segment)
    ensures EncodeAll([a, b, c, d]) == EncodeSegment(a) + EncodeSegment(b) + EncodeSegment(c) + EncodeSegment(d)
  {
    hide EncodeSegment;
    OneSegment(d);
    EncodeAllAppend([c], [d]);
    OneSegment(c);
    EncodeAllAppend([b], [c, d]);
    OneSegment(b);
    EncodeAllAppend([a], [b, c, d]);
    OneSegment(a);
    assert [a, b, c, d] == [a] + ([b] + ([c] + [d]));
  }

  lemma OneSegment(s: Segment)
    ensures EncodeAll([s]) == EncodeSegment(s)
  {
    assert EncodeAll([s]) == EncodeSegment(s) + EncodeAll([]);
  }

  /** One more segment at the end of a list, as the writers add it. */
  lemma EncodeSnoc(segs: seq<Segment>, s: Segment)
    ensures EncodeAll(segs + [s]) == EncodeAll(segs) + EncodeSegment(s)
  {
    EncodeAllAppend(segs, [s]);
    OneSegment(s);
  }

  method WriteDqt(w: FrameBuffer, table: Byte, q: QuantTable)
    requires w.Valid() && w.ptr + 69 <= w.buf.Length
    modifies w, w.buf
    ensures w.Valid() && w.ptr == old(w.ptr) + 69
    ensures w.Written() == old(w.Written()) + EncodeSegment(Dqt([QuantDef(table, q)]))
  {
    hide EncodeSegment;
    w.Copy([0xFF, 0xDB]);
    w.Put16(67);
    w.Put(table);
    w.Copy(q);
    DqtLayout(table, q);
  }

  /** The loop that adds up a quantiser table to see whether it is empty. */
  method SumTable(q: seq<Byte>) returns (sum: nat)
    ensures sum == Sum(q)
  {
    sum := 0;
    for j := 0 to |q|
      invariant sum == Sum(q[..j])
    {
      SumAppend(q[..j], [q[j]]);
      assert q[..j + 1] == q[..j] + [q[j]];
      sum := sum + q[j] as int;
    }
    assert q[..|q|] == q;
  }

  /** `getUsedQuantTablesMask`. */
  method GetUsedQuantTables(pic: Picture) returns (ok: bool, used: set<int>)
    ensures ok <==> forall c <- pic.components :: c.quant < 4
    ensures ok ==> used == UsedQuants(pic)
  {
    used := {};
    var cs := pic.components;
    for i := 0 to |cs|
      invariant forall j :: 0 <= j < i ==> cs[j].quant < 4
      invariant used == set c <- cs[..i] :: c.quant as int
    {
      if cs[i].quant >= 4 {
        return false, {};
      }
      assert cs[..i + 1] == cs[..i] + [cs[i]];
      used := used + {cs[i].quant as int};
    }
    assert cs[..|cs|] == cs;
    ok := true;
  }

  lemma NoQuantSegments(used: set<int>, iq: QuantTables)
    ensures EncodeAll(QuantSegments(used, iq, 0)) == []
  {
  }

  lemma QuantSegmentsStep(used: set<int>, iq: QuantTables, n: nat)
    requires n < 4
    ensures EncodeAll(QuantSegments(used, iq, n + 1))
         == EncodeAll(QuantSegments(used, iq, n))
          + if n in used then EncodeSegment(Dqt([QuantDef(n, iq[n])])) else []
  {
    hide EncodeSegment;
    if n in used {
      EncodeSnoc(QuantSegments(used, iq, n), Dqt([QuantDef(n, iq[n])]));
    } else {
      assert QuantSegments(used, iq, n + 1) == QuantSegments(used, iq, n);
    }
  }

  /** The loop body of `writeDQT`: an unused table is skipped, an empty one refused. */
  method WriteUsedTable(w: FrameBuffer, iq: QuantTables, used: set<int>, table: nat, ghost before: seq<Byte>)
    returns (ok: bool)
    requires table < 4 && w.Valid() && w.ptr + 69 <= w.buf.Length
    requires w.Written() == before + EncodeAll(QuantSegments(used, iq, table))
    modifies w, w.buf
    ensures w.Valid() && old(w.ptr) <= w.ptr <= old(w.ptr) + 69
    ensures ok <==> (table in used ==> Sum(iq[table]) != 0)
    ensures ok ==> w.Written() == before + EncodeAll(QuantSegments(used, iq, table + 1))
    ensures !ok ==> w.Written() == old(w.Written())
  {
    hide EncodeSegment;
    QuantSegmentsStep(used, iq, table);
    hide QuantSegments;
    if table in used {
      var sum := SumTable(iq[table]);
      if sum == 0 {
        return false;
      }
      WriteDqt(w, table, iq[table]);
      Join(before, EncodeAll(QuantSegments(used, iq, table)), EncodeSegment(Dqt([QuantDef(table, iq[table])])));
    }
    ok := true;
  }

  /** `writeDQT`: one segment per used table in table order; on failure the pointer does not move. */
  method WriteQuantTables(w: FrameBuffer, iq: QuantTables, pic: Picture, valid: set<int>) returns (ok: bool)
    requires w.Valid() && w.ptr + 276 <= w.buf.Length
    modifies w, w.buf
    ensures w.Valid() && w.ptr <= old(w.ptr) + 276
    ensures ok <==> (forall c <- pic.components :: c.quant < 4) && UsedQuants(pic) <= valid
                    && forall t :: 0 <= t < 4 && t in UsedQuants(pic) ==> Sum(iq[t]) != 0
    ensures ok ==> w.Written() == old(w.Written()) + EncodeAll(QuantSegments(UsedQuants(pic), iq, 4))
    ensures !ok ==> w.Written() == old(w.Written())
  {
    hide EncodeSegment;
    hide QuantSegments;
    var inRange, used := GetUsedQuantTables(pic);
    hide UsedQuants;
    if !inRange || !(used <= valid) {
      return false;
    }
    var start := w.ptr;
    ghost var before := w.Written();
    assert EncodeAll(QuantSegments(used, iq, 0)) == [] by { NoQuantSegments(used, iq); }
    for table := 0 to 4
      invariant w.Valid() && start <= w.ptr <= start + 69 * table
      invariant forall t :: 0 <= t < table && t in used ==> Sum(iq[t]) != 0
      invariant w.Written() == before + EncodeAll(QuantSegments(used, iq, table))
    {
      var written := WriteUsedTable(w, iq, used, table, before);
      if !written {
        assert before == w.Written()[..start];
        w.ptr := start;
        return false;
      }
    }
    ok := true;
  }

  method WriteSof0(w: FrameBuffer, pic: Picture)
    requires |pic.components| <= MAX_COMPONENTS
    requires w.Valid() && w.ptr + 10 + 3 * |pic.components| <= w.buf.Length
    modifies w, w.buf
    ensures w.Valid() && w.ptr == old(w.ptr) + 10 + 3 * |pic.components|
    ensures w.Written() == old(w.Written()) + EncodeSegment(Sof0(8, pic.height, pic.width, pic.components))
  {
    hide EncodeSegment;
    hide PackNibbles;
    hide Sof0Head;
    var cs := pic.components;
    ghost var start := w.Written();
    WriteSof0Head(w, pic);
    ghost var base := w.Written();
    for i := 0 to |cs|
      invariant w.Valid() && w.ptr == |base| + 3 * i
      invariant w.Written() == base + EncodeFrameComponents(cs[..i])
    {
      w.Copy([cs[i].id, PackNibbles(cs[i].h, cs[i].v), cs[i].quant]);
      FrameComponentsAppend(cs[..i], cs[i]);
      assert cs[..i + 1] == cs[..i] + [cs[i]];
    }
    assert cs[..|cs|] == cs;
    Sof0Layout(pic);
    assert start + Sof0Head(pic) + EncodeFrameComponents(cs) == start + (Sof0Head(pic) + EncodeFrameComponents(cs));
  }

  method WriteSof0Head(w: FrameBuffer, pic: Picture)
    requires |pic.components| <= MAX_COMPONENTS
    requires w.Valid() && w.ptr + 10 <= w.buf.Length
    modifies w, w.buf
    ensures w.Valid() && w.ptr == old(w.ptr) + 10
    ensures w.Written() == old(w.Written()) + Sof0Head(pic)
  {
    hide Sof0Head;
    hide U16be;
    ghost var start := w.Written();
    w.Copy([0xFF, 0xC0]);
    w.Put16(2 + 1 + 2 + 2 + 1 + |pic.components| * 3);
    w.Put(8);
    w.Put16(pic.height);
    w.Put16(pic.width);
    w.Put(|pic.components|);
    Sof0HeadParts(start, pic);
  }

  lemma Sof0HeadParts(start: seq<Byte>, pic: Picture)
    requires |pic.components| <= MAX_COMPONENTS
    ensures start + [0xFF, 0xC0] + U16be(8 + |pic.components| * 3) + [8] + U16be(pic.height) + U16be(pic.width)
            + [|pic.components|] == start + Sof0Head(pic)
  {
  }

  ghost function Sof0Head(pic: Picture): seq<Byte>
    requires |pic.components| <= MAX_COMPONENTS
  {
    [0xFF, 0xC0] + U16be(8 + |pic.components| * 3) + [8] + U16be(pic.height) + U16be(pic.width) + [|pic.components|]
  }

  lemma Sof0Layout(pic: Picture)
    requires |pic.components| <= MAX_COMPONENTS
    ensures EncodeSegment(Sof0(8, pic.height, pic.width, pic.components))
         == Sof0Head(pic) + EncodeFrameComponents(pic.components)
  {
    hide PackNibbles;
    var cs := pic.components;
    FrameComponentsLength(cs);
    var fixed: seq<Byte> := [8] + U16be(pic.height) + U16be(pic.width) + [|cs|];
    assert Payload(Sof0(8, pic.height, pic.width, cs)) == fixed + EncodeFrameComponents(cs);
    var m: seq<Byte> := [0xFF, 0xC0] + U16be(8 + |cs| * 3);
    assert Sof0Head(pic) == m + fixed;
  }

  // ---------------------------------------------------------------- Huffman tables

  /** `countHuffValues`: the running sum is compared with the limit at every step. */
  method CountHuffValues(codes: seq<Byte>, maxVals: nat) returns (ok: bool, count: nat)
    requires |codes| == 16
    ensures ok <==> Sum(codes) <= maxVals
    ensures ok ==> count == Sum(codes)
  {
    count := 0;
    for i := 0 to 16
      invariant count == Sum(codes[..i]) <= maxVals
    {
      SumAppend(codes[..i], [codes[i]]);
      assert codes[..i + 1] == codes[..i] + [codes[i]];
      count := count + codes[i] as int;
      if count > maxVals {
        SumAppend(codes[..i + 1], codes[i + 1..]);
        assert codes == codes[..i + 1] + codes[i + 1..];
        return false, 0;
      }
    }
    assert codes[..16] == codes;
    ok := true;
  }

  /** The branch of `writeVAHuffmanTables` for one table: nothing to do unless the scans need it. */
  method WriteVaTable(w: FrameBuffer, needed: bool, valid: bool, cls: Byte, id: Byte,
                      codes: seq<Byte>, values: seq<Byte>, ghost segs: seq<Segment>, ghost before: seq<Byte>)
    returns (ok: bool)
    requires |codes| == 16 && |values| <= 162
    requires w.Valid() && w.ptr + 21 + |values| <= w.buf.Length
    requires w.Written() == before + EncodeAll(segs)
    modifies w, w.buf
    ensures w.Valid() && old(w.ptr) <= w.ptr <= old(w.ptr) + 21 + |values|
    ensures ok <==> (needed ==> valid && 1 <= Sum(codes) <= |values|)
    ensures !ok ==> w.Written() == old(w.Written())
    ensures ok ==>
      w.Written() == before + EncodeAll(segs + if needed then [TableSegment(cls, id, codes, values)] else [])
  {
    hide EncodeSegment;
    assert segs + [] == segs;
    if !needed {
      return true;
    }
    if !valid {
      return false;
    }
    var inRange, count := CountHuffValues(codes, |values|);
    if !inRange || count == 0 {
      return false;
    }
    WriteDht(w, codes, values, cls, id, count);
    EncodeSnoc(segs, TableSegment(cls, id, codes, values));
    ok := true;
  }

  /**
   `writeVAHuffmanTables`, with the pointer put back when a table turns out to be unusable: by then
   some segments may already lie behind it, and they must fit too.
   */
  method WriteVaHuffmanTables(w: FrameBuffer, huff: HuffTables,
                              dc: set<int>, ac: set<int>, validDc: set<int>, validAc: set<int>) returns (ok: bool)
    requires w.Valid() && w.ptr + 432 <= w.buf.Length
    modifies w, w.buf
    ensures w.Valid() && w.ptr <= old(w.ptr) + 432
    ensures ok <==> forall t :: 0 <= t < 2 ==> PairReady(huff, t, dc, ac, validDc, validAc)
    ensures ok ==> w.Written() == old(w.Written()) + EncodeAll(VaHuffmanSegments(huff, dc, ac, 2))
    ensures !ok ==> w.Written() == old(w.Written())
  {
    hide EncodeSegment;
    var start := w.ptr;
    ghost var before := w.Written();
    for t := 0 to 2
      invariant w.Valid() && start <= w.ptr <= start + 216 * t
      invariant forall u :: 0 <= u < t ==> PairReady(huff, u, dc, ac, validDc, validAc)
      invariant w.Written() == before + EncodeAll(VaHuffmanSegments(huff, dc, ac, t))
    {
      ghost var segs := VaHuffmanSegments(huff, dc, ac, t);
      ok := WriteVaPair(w, huff, t, dc, ac, validDc, validAc, segs, before);
      if !ok {
        assert before == w.Written()[..start];
        w.ptr := start;
        return;
      }
    }
    ok := true;
  }

  /** The loop body of `writeVAHuffmanTables`: the DC and the AC table of one index. */
  method WriteVaPair(w: FrameBuffer, huff: HuffTables, t: nat, dc: set<int>, ac: set<int>,
                     validDc: set<int>, validAc: set<int>, ghost segs: seq<Segment>, ghost before: seq<Byte>)
    returns (ok: bool)
    requires t < 2 && w.Valid() && w.ptr + 216 <= w.buf.Length
    requires w.Written() == before + EncodeAll(segs)
    modifies w, w.buf
    ensures w.Valid() && old(w.ptr) <= w.ptr <= old(w.ptr) + 216
    ensures ok <==> PairReady(huff, t, dc, ac, validDc, validAc)
    ensures ok ==> w.Written() == before + EncodeAll(segs + (if t in dc then [DcSegment(huff, t)] else [])
                                                          + (if t in ac then [AcSegment(huff, t)] else []))
    ensures before <= w.Written()
  {
    hide EncodeSegment;
    hide TableSegment;
    ok := WriteVaTable(w, t in dc, t in validDc, 0, t, huff[t].dcCodes, huff[t].dcValues, segs, before);
    if ok {
      ghost var segs' := segs + if t in dc then [DcSegment(huff, t)] else [];
      ok := WriteVaTable(w, t in ac, t in validAc, 1, t, huff[t].acCodes, huff[t].acValues, segs', before);
    }
  }

  // ---------------------------------------------------------------- scans

  ghost function ScanHeader(cs: seq<ScanComponent>): seq<Byte>
    requires |cs| <= MAX_COMPONENTS
  {
    [0xFF, 0xDA] + U16be(6 + |cs| * 2) + Payload(ScanSegment(cs, []))
  }

  lemma ScanLayout(cs: seq<ScanComponent>, d: seq<Byte>)
    requires |cs| <= MAX_COMPONENTS
    ensures EncodeSegment(ScanSegment(cs, d)) == ScanHeader(cs) + d
  {
    hide EncodeScanComponents;
    hide U16be;
    hide PackNibbles;
    ScanComponentsLength(cs);
    assert Payload(ScanSegment(cs, d)) == Payload(ScanSegment(cs, []));
  }

  method WriteSos(w: FrameBuffer, cs: seq<ScanComponent>)
    requires |cs| <= MAX_COMPONENTS
    requires w.Valid() && w.ptr + 8 + 2 * |cs| <= w.buf.Length
    modifies w, w.buf
    ensures w.Valid() && w.ptr == old(w.ptr) + 8 + 2 * |cs|
    ensures w.Written() == old(w.Written()) + ScanHeader(cs)
  {
    hide Payload;
    hide U16be;
    ghost var start := w.Written();
    w.Copy([0xFF, 0xDA]);
    w.Put16(2 + 1 + |cs| * 2 + 3);
    WriteSosPayload(w, cs);
    Join3(start, [0xFF, 0xDA], U16be(6 + |cs| * 2), Payload(ScanSegment(cs, [])));
  }

  lemma Join3(start: seq<Byte>, a: seq<Byte>, b: seq<Byte>, c: seq<Byte>)
    ensures start + a + b + c == start + (a + b + c)
  {
  }

  method WriteSosPayload(w: FrameBuffer, cs: seq<ScanComponent>)
    requires |cs| <= MAX_COMPONENTS
    requires w.Valid() && w.ptr + 4 + 2 * |cs| <= w.buf.Length
    modifies w, w.buf
    ensures w.Valid() && w.ptr == old(w.ptr) + 4 + 2 * |cs|
    ensures w.Written() == old(w.Written()) + Payload(ScanSegment(cs, []))
  {
    hide EncodeScanComponents;
    ghost var start := w.Written();
    assert Payload(ScanSegment(cs, [])) == [|cs|] + EncodeScanComponents(cs) + [0, 63, 0];
    w.Put(|cs|);
    hide Payload;
    WriteScanComponents(w, cs);
    w.Copy([0, 63, 0]);
    Join3(start, [|cs|], EncodeScanComponents(cs), [0, 63, 0]);
  }

  method WriteScanComponents(w: FrameBuffer, cs: seq<ScanComponent>)
    requires w.Valid() && w.ptr + 2 * |cs| <= w.buf.Length
    modifies w, w.buf
    ensures w.Valid() && w.ptr == old(w.ptr) + 2 * |cs|
    ensures w.Written() == old(w.Written()) + EncodeScanComponents(cs)
  {
    hide PackNibbles;
    ghost var start := w.Written();
    for i := 0 to |cs|
      invariant w.Valid() && w.ptr == |start| + 2 * i
      invariant w.Written() == start + EncodeScanComponents(cs[..i])
    {
      w.Copy([cs[i].selector, PackNibbles(cs[i].dc, cs[i].ac)]);
      ScanComponentsAppend(cs[..i], cs[i]);
      assert cs[..i + 1] == cs[..i] + [cs[i]];
    }
    assert cs[..|cs|] == cs;
  }

  /** Equal headers: one SOS and the data of all slices behind it. */
  method WriteOneScan(w: FrameBuffer, slices: seq<Slice>, data: seq<Byte>)
    requires slices != [] && SlicesFit(slices, |data|) && |slices[0].components| <= MAX_COMPONENTS
    requires w.Valid() && w.ptr + 16 + TotalSize(slices) <= w.buf.Length
    modifies w, w.buf
    ensures w.Valid() && w.ptr <= old(w.ptr) + 16 + TotalSize(slices)
    ensures w.Written() == old(w.Written()) + EncodeSegment(ScanSegment(slices[0].components, AllBytes(slices, data)))
  {
    hide EncodeSegment;
    hide ScanHeader;
    hide AllBytes;
    var cs := slices[0].components;
    ghost var start := w.Written();
    WriteSos(w, cs);
    WriteAllSlices(w, slices, data);
    ScanLayout(cs, AllBytes(slices, data));
    Join(start, ScanHeader(cs), AllBytes(slices, data));
  }

  lemma AllBytesStep(base: seq<Byte>, slices: seq<Slice>, data: seq<Byte>, i: nat)
    requires i < |slices| && SlicesFit(slices, |data|)
    ensures base + AllBytes(slices[..i + 1], data) == base + AllBytes(slices[..i], data) + SliceBytes(slices[i], data)
    ensures |SliceBytes(slices[i], data)| == slices[i].size as int
    ensures TotalSize(slices[..i + 1]) == TotalSize(slices[..i]) + slices[i].size as int <= TotalSize(slices)
  {
    var b := SliceBytes(slices[i], data);
    hide SliceBytes;
    assert slices[..i + 1][..i] == slices[..i];
    TotalSizePrefix(slices, i + 1);
    Join(base, AllBytes(slices[..i], data), b);
  }

  method WriteAllSlices(w: FrameBuffer, slices: seq<Slice>, data: seq<Byte>)
    requires SlicesFit(slices, |data|)
    requires w.Valid() && w.ptr + TotalSize(slices) <= w.buf.Length
    modifies w, w.buf
    ensures w.Valid() && w.ptr == old(w.ptr) + TotalSize(slices)
    ensures w.Written() == old(w.Written()) + AllBytes(slices, data)
  {
    ghost var base := w.Written();
    for i := 0 to |slices|
      invariant w.Valid() && w.ptr == |base| + TotalSize(slices[..i])
      invariant w.Written() == base + AllBytes(slices[..i], data)
    {
      hide AllBytes;
      hide TotalSize;
      hide SliceBytes;
      AllBytesStep(base, slices, data, i);
      w.Copy(SliceBytes(slices[i], data));
    }
    assert slices[..|slices|] == slices;
  }

  lemma {:induction false} TotalSizePrefix(slices: seq<Slice>, i: nat)
    requires i <= |slices|
    ensures TotalSize(slices[..i]) <= TotalSize(slices)
  {
    if i < |slices| {
      TotalSizePrefix(slices[..|slices| - 1], i);
      assert slices[..|slices| - 1][..i] == slices[..i];
    } else {
      assert slices[..i] == slices;
    }
  }

  /** Room for `n` scan headers, with a restart interval before each if `perScan`. */
  ghost function ScansRoom(n: nat, perScan: bool): nat {
    16 * n + if perScan then 6 * n else 0
  }

  /** Differing headers: an optional DRI, an SOS and the data of every slice. */
  method WriteManyScans(w: FrameBuffer, slices: seq<Slice>, data: seq<Byte>, perScan: bool,
                        ghost segs: seq<Segment>, ghost before: seq<Byte>)
    requires SlicesFit(slices, |data|) && forall s <- slices :: |s.components| <= MAX_COMPONENTS
    requires w.Valid() && w.ptr + ScansRoom(|slices|, perScan) + TotalSize(slices) <= w.buf.Length
    requires w.Written() == before + EncodeAll(segs)
    modifies w, w.buf
    ensures w.Valid() && w.ptr <= old(w.ptr) + ScansRoom(|slices|, perScan) + TotalSize(slices)
    ensures w.Written() == before + EncodeAll(segs + ManyScans(slices, data, perScan))
  {
    hide EncodeSegment;
    assert segs + [] == segs;
    for i := 0 to |slices|
      invariant w.Valid() && w.ptr <= old(w.ptr) + ScansRoom(i, perScan) + TotalSize(slices[..i])
      invariant w.Written() == before + EncodeAll(segs + ManyScans(slices[..i], data, perScan))
    {
      hide ManyScans;
      hide TotalSize;
      hide SliceSegments;
      ManyScansStep(segs, slices, data, perScan, i);
      WriteScanOfSlice(w, slices[i], data, perScan, segs + ManyScans(slices[..i], data, perScan), before);
    }
    assert slices[..|slices|] == slices;
  }

  /** What one slice adds in the multi-scan path. */
  ghost function SliceSegments(s: Slice, data: seq<Byte>, perScan: bool): seq<Segment>
    requires s.offset as int + s.size as int <= |data|
  {
    RestartSegments(perScan, s.restart) + [ScanSegment(s.components, SliceBytes(s, data))]
  }

  lemma ManyScansStep(segs: seq<Segment>, slices: seq<Slice>, data: seq<Byte>, perScan: bool, i: nat)
    requires i < |slices| && SlicesFit(slices, |data|)
    ensures segs + ManyScans(slices[..i], data, perScan) + SliceSegments(slices[i], data, perScan)
         == segs + ManyScans(slices[..i + 1], data, perScan)
    ensures TotalSize(slices[..i + 1]) == TotalSize(slices[..i]) + slices[i].size as int <= TotalSize(slices)
  {
    TotalSizePrefix(slices, i + 1);
    assert slices[..i + 1][..i] == slices[..i];
    var a := RestartSegments(perScan, slices[i].restart);
    var b := [ScanSegment(slices[i].components, SliceBytes(slices[i], data))];
    var m := ManyScans(slices[..i], data, perScan);
    assert ManyScans(slices[..i + 1], data, perScan) == m + a + b;
    assert segs + m + (a + b) == segs + (m + a + b);
  }

  method WriteScanOfSlice(w: FrameBuffer, s: Slice, data: seq<Byte>, perScan: bool,
                          ghost segs: seq<Segment>, ghost before: seq<Byte>)
    requires s.offset as int + s.size as int <= |data| && |s.components| <= MAX_COMPONENTS
    requires w.Valid() && w.ptr + ScansRoom(1, perScan) + s.size as int <= w.buf.Length
    requires w.Written() == before + EncodeAll(segs)
    modifies w, w.buf
    ensures w.Valid() && w.ptr <= old(w.ptr) + ScansRoom(1, perScan) + s.size as int
    ensures w.Written() == before + EncodeAll(segs + SliceSegments(s, data, perScan))
  {
    hide EncodeSegment;
    hide ScanHeader;
    hide SliceBytes;
    ghost var segs' := segs + RestartSegments(perScan, s.restart);
    WriteOptionalDri(w, perScan, s.restart, segs, before);
    WriteOneScan(w, [s], data);
    OneSlice(s, data);
    ghost var scan := ScanSegment(s.components, SliceBytes(s, data));
    EncodeSnoc(segs', scan);
    Join(before, EncodeAll(segs'), EncodeSegment(scan));
    assert segs' + [scan] == segs + SliceSegments(s, data, perScan);
  }

  method WriteOptionalDri(w: FrameBuffer, wanted: bool, interval: U16,
                          ghost segs: seq<Segment>, ghost before: seq<Byte>)
    requires w.Valid() && (wanted ==> w.ptr + 6 <= w.buf.Length)
    requires w.Written() == before + EncodeAll(segs)
    modifies w, w.buf
    ensures w.Valid() && w.ptr <= old(w.ptr) + if wanted then 6 else 0
    ensures w.Written() == before + EncodeAll(segs + RestartSegments(wanted, interval))
  {
    hide EncodeSegment;
    if wanted && interval != 0 {
      WriteDri(w, interval);
      EncodeSnoc(segs, Dri(interval));
    } else {
      assert segs + [] == segs;
    }
  }

  lemma OneSlice(s: Slice, data: seq<Byte>)
    requires s.offset as int + s.size as int <= |data|
    ensures AllBytes([s], data) == SliceBytes(s, data) && TotalSize([s]) == s.size as int
  {
  }

  // ---------------------------------------------------------------- checking the slices

  method ComponentInFrame(pic: Picture, id: Byte) returns (found: bool)
    ensures found <==> InFrame(pic, id)
  {
    for i := 0 to |pic.components|
      invariant forall j :: 0 <= j < i ==> pic.components[j].id != id
    {
      if pic.components[i].id == id {
        return true;
      }
    }
    found := false;
  }

  ghost predicate ComponentAccepted(pic: Picture, c: ScanComponent) {
    InFrame(pic, c.selector) && c.dc <= 1 && c.ac <= 1
  }

  ghost function DcSelectors(cs: seq<ScanComponent>): set<int> {
    set c <- cs :: c.dc as int
  }

  ghost function AcSelectors(cs: seq<ScanComponent>): set<int> {
    set c <- cs :: c.ac as int
  }

  ghost predicate AllAccepted(pic: Picture, cs: seq<ScanComponent>) {
    forall c <- cs :: ComponentAccepted(pic, c)
  }

  lemma AcceptedMeans(pic: Picture, s: Slice)
    ensures AllAccepted(pic, s.components)
       <==> forall c <- s.components :: InFrame(pic, c.selector) && c.dc <= 1 && c.ac <= 1
    ensures DcSelectors(s.components) == DcOf(s) && AcSelectors(s.components) == AcOf(s)
  {
    hide InFrame;
    forall c | c in s.components
      ensures ComponentAccepted(pic, c) <==> InFrame(pic, c.selector) && c.dc <= 1 && c.ac <= 1
    {
    }
  }

  lemma NoneSelected(pic: Picture)
    ensures AllAccepted(pic, []) && DcSelectors([]) == {} && AcSelectors([]) == {}
  {
  }

  /** One more component: refused, it spoils the slice; accepted, it adds its two selectors. */
  lemma OneMore(pic: Picture, cs: seq<ScanComponent>, i: nat)
    requires i < |cs| && AllAccepted(pic, cs[..i])
    ensures var c := cs[i];
            if InFrame(pic, c.selector) && c.dc <= 1 && c.ac <= 1 then
              && AllAccepted(pic, cs[..i + 1])
              && DcSelectors(cs[..i + 1]) == DcSelectors(cs[..i]) + {c.dc as int}
              && AcSelectors(cs[..i + 1]) == AcSelectors(cs[..i]) + {c.ac as int}
            else !AllAccepted(pic, cs)
  {
    hide InFrame;
    assert cs[..i + 1] == cs[..i] + [cs[i]];
    assert forall x :: x in cs[..i + 1] <==> x in cs[..i] || x == cs[i];
    assert cs[i] in cs;
  }

  /** `validateSliceAndCollectHuffmanUsage`. */
  method ValidateSlice(pic: Picture, s: Slice, dc: set<int>, ac: set<int>)
    returns (ok: bool, dc': set<int>, ac': set<int>)
    ensures ok <==> 1 <= |s.components| <= MAX_COMPONENTS
                    && forall c <- s.components :: InFrame(pic, c.selector) && c.dc <= 1 && c.ac <= 1
    ensures ok ==> dc' == dc + DcOf(s) && ac' == ac + AcOf(s)
  {
    hide InFrame;
    hide ComponentAccepted;
    hide AllAccepted;
    hide DcSelectors;
    hide AcSelectors;
    dc', ac' := dc, ac;
    var cs := s.components;
    AcceptedMeans(pic, s);
    if |cs| == 0 || |cs| > MAX_COMPONENTS {
      return false, dc', ac';
    }
    assert cs[..0] == [];
    NoneSelected(pic);
    for i := 0 to |cs|
      invariant AllAccepted(pic, cs[..i])
      invariant dc' == dc + DcSelectors(cs[..i]) && ac' == ac + AcSelectors(cs[..i])
    {
      var known := ComponentInFrame(pic, cs[i].selector);
      OneMore(pic, cs, i);
      if !known || cs[i].dc > 1 || cs[i].ac > 1 {
        return false, dc', ac';
      }
      dc', ac' := dc' + {cs[i].dc as int}, ac' + {cs[i].ac as int};
    }
    assert cs[..|cs|] == cs;
    ok := true;
  }

  /** The first loop of `reconstructJPEG`. */
  method ValidateSlices(pic: Picture, slices: seq<Slice>, dataSize: U32)
    returns (ok: bool, total: U64, dc: set<int>, ac: set<int>)
    requires |slices| <= U32_MAX
    ensures ok <==> forall s <- slices :: SliceAccepted(pic, s, dataSize as int)
    ensures ok ==> total as int == TotalSize(slices) && dc == RequiredDc(slices) && ac == RequiredAc(slices)
  {
    total, dc, ac := 0, {}, {};
    for i := 0 to |slices|
      invariant forall j :: 0 <= j < i ==> SliceAccepted(pic, slices[j], dataSize as int)
      invariant total as int == TotalSize(slices[..i]) <= i * U32_MAX
      invariant dc == RequiredDc(slices[..i]) && ac == RequiredAc(slices[..i])
    {
      var s := slices[i];
      assert slices[..i + 1][..i] == slices[..i];
      assert s in slices;
      if s.flag != SLICE_DATA_FLAG_ALL {
        assert !SliceAccepted(pic, s, dataSize as int);
        return false, 0, {}, {};
      }
      var valid;
      valid, dc, ac := ValidateSlice(pic, s, dc, ac);
      if !valid || s.offset > dataSize || s.size > dataSize - s.offset {
        assert !SliceAccepted(pic, s, dataSize as int);
        return false, 0, {}, {};
      }
      // the 64-bit overflow test of the source is never true: i slices of at most U32_MAX bytes each
      total := total + s.size;
    }
    assert slices[..|slices|] == slices;
    ok := true;
  }

  method SameComponents(a: seq<ScanComponent>, b: seq<ScanComponent>) returns (same: bool)
    ensures same <==> a == b
  {
    if |a| != |b| {
      return false;
    }
    for c := 0 to |a|
      invariant a[..c] == b[..c]
    {
      if a[c].selector != b[c].selector || a[c].dc != b[c].dc || a[c].ac != b[c].ac {
        return false;
      }
      assert a[..c + 1] == a[..c] + [a[c]] && b[..c + 1] == b[..c] + [b[c]];
    }
    assert a[..|a|] == a && b[..|a|] == b;
    same := true;
  }

  /** The second loop of `reconstructJPEG`: do all slices share the first one's header and restart interval? */
  method CompareSlices(slices: seq<Slice>) returns (sameHeader: bool, sameRestart: bool)
    requires slices != []
    ensures sameHeader <==> SameHeader(slices)
    ensures sameRestart <==> SameRestart(slices)
  {
    sameHeader, sameRestart := true, true;
    for i := 1 to |slices|
      invariant sameHeader <==> forall j :: 0 <= j < i ==> slices[j].components == slices[0].components
      invariant sameRestart <==> forall j :: 0 <= j < i ==> slices[j].restart == slices[0].restart
    {
      if slices[i].restart != slices[0].restart {
        sameRestart := false;
      }
      var same := SameComponents(slices[i].components, slices[0].components);
      if !same {
        sameHeader := false;
      }
    }
  }

  // ---------------------------------------------------------------- the end of the image

  /** The last two bytes written are the client's EOI exactly when the last scan's data ends with it. */
  lemma ScanEnd(front: seq<Byte>, cs: seq<ScanComponent>, d: seq<Byte>)
    requires |cs| <= MAX_COMPONENTS
    ensures EndsWithEoi(front + EncodeSegment(ScanSegment(cs, d))) <==> EndsWithEoi(d)
  {
    hide EncodeSegment;
    hide EncodeScanComponents;
    ScanLayout(cs, d);
    var h := ScanHeader(cs);
    assert |h| >= 3 && h[|h| - 1] == 0;
    var b := front + (h + d);
    if |d| >= 2 {
      assert b[|b| - 1] == d[|d| - 1] && b[|b| - 2] == d[|d| - 2];
    } else if |d| == 1 {
      assert b[|b| - 2] == h[|h| - 1];
    } else {
      assert b[|b| - 1] == h[|h| - 1];
    }
  }

  lemma StripEoiRejoins(d: seq<Byte>)
    ensures d + (if EndsWithEoi(d) then [] else [MARKER, EOI]) == StripEoi(d) + [MARKER, EOI]
  {
    if EndsWithEoi(d) {
      assert d == d[..|d| - 2] + [d[|d| - 2], d[|d| - 1]];
    }
  }

  /** Closing the file yields the encoding of the segments with the client's EOI taken off the last scan. */
  lemma FinishImage(front: seq<Segment>, cs: seq<ScanComponent>, d: seq<Byte>)
    requires |cs| <= MAX_COMPONENTS
    ensures var body := [MARKER, SOI] + EncodeAll(front + [ScanSegment(cs, d)]);
            body + (if EndsWithEoi(body) then [] else [MARKER, EOI]) == Encode(front + [ScanSegment(cs, StripEoi(d))])
  {
    hide EncodeSegment;
    hide ScanHeader;
    hide EndsWithEoi;
    hide StripEoi;
    var scan, scan' := ScanSegment(cs, d), ScanSegment(cs, StripEoi(d));
    var f: seq<Byte> := [MARKER, SOI] + EncodeAll(front);
    EncodeSnoc(front, scan);
    EncodeSnoc(front, scan');
    assert [MARKER, SOI] + (EncodeAll(front) + EncodeSegment(scan)) == f + EncodeSegment(scan);
    assert [MARKER, SOI] + (EncodeAll(front) + EncodeSegment(scan')) == f + EncodeSegment(scan');
    ScanEnd(f, cs, d);
    ScanLayout(cs, d);
    ScanLayout(cs, StripEoi(d));
    StripEoiRejoins(d);
    var tail: seq<Byte> := if EndsWithEoi(d) then [] else [MARKER, EOI];
    assert f + (ScanHeader(cs) + d) + tail == f + (ScanHeader(cs) + (d + tail));
    assert f + (ScanHeader(cs) + (StripEoi(d) + [MARKER, EOI])) == f + (ScanHeader(cs) + StripEoi(d)) + [MARKER, EOI];
  }

  // ---------------------------------------------------------------- the whole frame

  const SOI_BYTES: seq<Byte> := [MARKER, SOI]

  lemma JfifLayout()
    ensures [0xFF, 0xD8, 0xFF, 0xE0, 0x00, 0x10] + JFIF == SOI_BYTES + EncodeAll([App0(JFIF)])
  {
    OneSegment(App0(JFIF));
  }

  /** `useVAHuffman`, its attempt and the two ways to the standard tables. */
  method WriteHuffmanTables(w: FrameBuffer, st: JpegState, dc: set<int>, ac: set<int>,
                            ghost segs: seq<Segment>, ghost before: seq<Byte>)
    requires w.Valid() && w.ptr + 432 <= w.buf.Length
    requires w.Written() == before + EncodeAll(segs)
    modifies w, w.buf
    ensures w.Valid() && w.ptr <= old(w.ptr) + 432
    ensures w.Written() == before + EncodeAll(segs +
      if VaHuffmanUsable(st, dc, ac) then VaHuffmanSegments(st.huff, dc, ac, 2) else StandardHuffman())
  {
    hide VaHuffmanSegments;
    hide StandardHuffman;
    hide PairReady;
    hide EncodeAll;
    var written := false;
    if st.hasHuff && dc <= st.validDc && ac <= st.validAc {
      written := WriteVaHuffmanTables(w, st.huff, dc, ac, st.validDc, st.validAc);
    }
    assert written <==> VaHuffmanUsable(st, dc, ac);
    if !written {
      WriteStandardHuffmanTables(w);
    }
    ghost var tables :=
      if VaHuffmanUsable(st, dc, ac) then VaHuffmanSegments(st.huff, dc, ac, 2) else StandardHuffman();
    EncodeAllAppend(segs, tables);
    Join(before, EncodeAll(segs), EncodeAll(tables));
  }

  ghost function FrontSegments(st: JpegState): seq<Segment> {
    [App0(JFIF)] + QuantSegments(UsedQuants(st.pic), st.iq, 4)
    + [Sof0(8, st.pic.height, st.pic.width, st.pic.components)]
  }

  /** JFIF header, DQT and SOF0. */
  method WriteFront(w: FrameBuffer, st: JpegState) returns (ok: bool)
    requires |st.pic.components| <= MAX_COMPONENTS
    requires (forall c <- st.pic.components :: c.quant < 4) && UsedQuants(st.pic) <= st.validQuant
    requires w.Valid() && w.ptr == 0 && w.buf.Length >= 306 + 3 * |st.pic.components|
    modifies w, w.buf
    ensures w.Valid() && w.ptr <= 306 + 3 * |st.pic.components|
    ensures ok <==> QuantsNonEmpty(st)
    ensures ok ==> w.Written() == SOI_BYTES + EncodeAll(FrontSegments(st))
  {
    hide EncodeSegment;
    hide QuantSegments;
    w.Copy([0xFF, 0xD8, 0xFF, 0xE0, 0x00, 0x10] + JFIF);
    JfifLayout();
    ok := WriteQuantTables(w, st.iq, st.pic, st.validQuant);
    if !ok {
      return;
    }
    ghost var quants := QuantSegments(UsedQuants(st.pic), st.iq, 4);
    Join(SOI_BYTES, EncodeAll([App0(JFIF)]), EncodeAll(quants));
    EncodeAllAppend([App0(JFIF)], quants);
    WriteSof0(w, st.pic);
    ghost var sof := Sof0(8, st.pic.height, st.pic.width, st.pic.components);
    EncodeSnoc([App0(JFIF)] + quants, sof);
    Join(SOI_BYTES, EncodeAll([App0(JFIF)] + quants), EncodeSegment(sof));
  }

  /** Everything up to the scans: `WriteFront`, DHT and the common DRI. */
  method WriteHeader(w: FrameBuffer, st: JpegState, slices: seq<Slice>, dc: set<int>, ac: set<int>, sameRestart: bool)
    returns (ok: bool)
    requires slices != [] && |st.pic.components| <= MAX_COMPONENTS
    requires (forall c <- st.pic.components :: c.quant < 4) && UsedQuants(st.pic) <= st.validQuant
    requires dc == RequiredDc(slices) && ac == RequiredAc(slices) && (sameRestart <==> SameRestart(slices))
    requires w.Valid() && w.ptr == 0 && w.buf.Length >= 738 + 3 * |st.pic.components| + 6
    modifies w, w.buf
    ensures w.Valid() && w.ptr <= 738 + 3 * |st.pic.components| + if sameRestart then 6 else 0
    ensures ok <==> QuantsNonEmpty(st)
    ensures ok ==> w.Written() == SOI_BYTES + EncodeAll(HeaderSegments(st, slices))
  {
    hide EncodeSegment;
    hide QuantSegments;
    hide VaHuffmanSegments;
    hide StandardHuffman;
    hide RestartSegments;
    hide QuantsNonEmpty;
    ok := WriteFront(w, st);
    if !ok {
      return;
    }
    WriteHuffmanTables(w, st, dc, ac, FrontSegments(st), SOI_BYTES);
    ghost var segs := FrontSegments(st) + HuffmanSegments(st, slices);
    WriteOptionalDri(w, sameRestart, slices[0].restart, segs, SOI_BYTES);
  }

  /** The scans end with a scan. */
  lemma ScansEnd(slices: seq<Slice>, data: seq<Byte>)
    returns (front: seq<Segment>, cs: seq<ScanComponent>, d: seq<Byte>)
    requires slices != [] && SlicesFit(slices, |data|) && forall s <- slices :: |s.components| <= MAX_COMPONENTS
    ensures |cs| <= MAX_COMPONENTS
    ensures ScanSegments(slices, data) == front + [ScanSegment(cs, d)]
    ensures StripLast(ScanSegments(slices, data)) == front + [ScanSegment(cs, StripEoi(d))]
  {
    hide AllBytes;
    hide SliceBytes;
    hide StripEoi;
    if SameHeader(slices) {
      front, cs, d := [], slices[0].components, AllBytes(slices, data);
    } else {
      var n := |slices| - 1;
      front := ManyScans(slices[..n], data, !SameRestart(slices))
        + RestartSegments(!SameRestart(slices), slices[n].restart);
      cs, d := slices[n].components, SliceBytes(slices[n], data);
    }
  }

  method WriteScans(w: FrameBuffer, slices: seq<Slice>, data: seq<Byte>, sameHeader: bool, sameRestart: bool,
                    ghost segs: seq<Segment>, ghost before: seq<Byte>)
    requires slices != [] && SlicesFit(slices, |data|) && forall s <- slices :: |s.components| <= MAX_COMPONENTS
    requires (sameHeader <==> SameHeader(slices)) && (sameRestart <==> SameRestart(slices))
    requires w.Valid() && w.ptr + ScansRoom(|slices|, !sameRestart) + TotalSize(slices) <= w.buf.Length
    requires w.Written() == before + EncodeAll(segs)
    modifies w, w.buf
    ensures w.Valid() && w.ptr <= old(w.ptr) + ScansRoom(|slices|, !sameRestart) + TotalSize(slices)
    ensures w.Written() == before + EncodeAll(segs + ScanSegments(slices, data))
  {
    hide EncodeSegment;
    hide AllBytes;
    if sameHeader {
      WriteOneScan(w, slices, data);
      ghost var scan := ScanSegment(slices[0].components, AllBytes(slices, data));
      EncodeSnoc(segs, scan);
      Join(before, EncodeAll(segs), EncodeSegment(scan));
    } else {
      WriteManyScans(w, slices, data, !sameRestart, segs, before);
    }
  }

  /** What the writers need of accepted inputs. */
  lemma AcceptedShape(st: JpegState, slices: seq<Slice>, data: seq<Byte>)
    requires InputsAccepted(st, slices, |data|)
    ensures slices != [] && |st.pic.components| <= MAX_COMPONENTS && SlicesFit(slices, |data|)
    ensures (forall c <- st.pic.components :: c.quant < 4) && UsedQuants(st.pic) <= st.validQuant
    ensures forall s <- slices :: |s.components| <= MAX_COMPONENTS
  {
  }

  /** The worst case covers the header, the scans of either form and the final EOI. */
  lemma RoomEnough(components: nat, n: nat, total: nat, sameRestart: bool)
    requires n >= 1
    ensures MaxSize(components, n, total) >= 738 + 3 * components + 6
    ensures MaxSize(components, n, total) >=
      738 + 3 * components + (if sameRestart then 6 else 0) + ScansRoom(n, !sameRestart) + total + 2
  {
  }

  /** The printing half of `reconstructJPEG`, into a buffer of the computed worst-case size. */
  method PrintImage(w: FrameBuffer, st: JpegState, slices: seq<Slice>, data: seq<Byte>,
                    dc: set<int>, ac: set<int>, sameHeader: bool, sameRestart: bool) returns (ok: bool)
    requires InputsAccepted(st, slices, |data|)
    requires dc == RequiredDc(slices) && ac == RequiredAc(slices)
    requires (sameHeader <==> SameHeader(slices)) && (sameRestart <==> SameRestart(slices))
    requires w.Valid() && w.ptr == 0
    requires w.buf.Length == MaxSize(|st.pic.components|, |slices|, TotalSize(slices))
    modifies w, w.buf
    ensures w.Valid() && (ok <==> QuantsNonEmpty(st))
    ensures ok ==> w.Written() == Encode(Image(st, slices, data))
  {
    hide HeaderSegments;
    hide EncodeAll;
    hide ScanSegments;
    hide Image;
    hide Encode;
    hide QuantsNonEmpty;
    hide EndsWithEoi;
    AcceptedShape(st, slices, data);
    hide InputsAccepted;
    RoomEnough(|st.pic.components|, |slices|, TotalSize(slices), sameRestart);
    hide MaxSize;
    hide ScansRoom;
    hide TotalSize;
    ok := WriteHeader(w, st, slices, dc, ac, sameRestart);
    if !ok {
      return;
    }
    WriteScans(w, slices, data, sameHeader, sameRestart, HeaderSegments(st, slices), SOI_BYTES);
    WriteEoi(w);
    FrameFinish(st, slices, data);
  }

  /** Step 7 of `reconstructJPEG`: no second EOI when the client's data already ends with one. */
  method WriteEoi(w: FrameBuffer)
    requires w.Valid() && w.ptr + 2 <= w.buf.Length
    modifies w, w.buf
    ensures w.Valid()
    ensures w.Written() == old(w.Written()) + if EndsWithEoi(old(w.Written())) then [] else [MARKER, EOI]
  {
    ghost var body := w.Written();
    if !(w.ptr >= 2 && w.buf[w.ptr - 2] == MARKER && w.buf[w.ptr - 1] == EOI) {
      assert !EndsWithEoi(body);
      w.Put(MARKER);
      w.Put(EOI);
    } else {
      assert EndsWithEoi(body);
    }
  }

  lemma FrameFinish(st: JpegState, slices: seq<Slice>, data: seq<Byte>)
    requires slices != [] && SlicesFit(slices, |data|) && forall s <- slices :: |s.components| <= MAX_COMPONENTS
    ensures var body := SOI_BYTES + EncodeAll(HeaderSegments(st, slices) + ScanSegments(slices, data));
            body + (if EndsWithEoi(body) then [] else [MARKER, EOI]) == Encode(Image(st, slices, data))
  {
    hide HeaderSegments;
    hide EncodeAll;
    hide ScanSegments;
    hide StripLast;
    hide Encode;
    hide EndsWithEoi;
    hide StripEoi;
    var header := HeaderSegments(st, slices);
    var front, cs, d := ScansEnd(slices, data);
    assert header + (front + [ScanSegment(cs, d)]) == header + front + [ScanSegment(cs, d)];
    assert header + (front + [ScanSegment(cs, StripEoi(d))]) == header + front + [ScanSegment(cs, StripEoi(d))];
    FinishImage(header + front, cs, d);
  }

  /**
   `reconstructJPEG`. The frame is returned exactly for accepted inputs, and is the encoding of `Image`.
   `memory` says whether the allocation succeeds (including the `SIZE_MAX` test before it). The
   worst case must not wrap in 64 bits; `MaxSizeFits` and `MaxSizeWraps` say when it does not.
   */
  method Reconstruct(st: JpegState, slices: seq<Slice>, data: seq<Byte>, memory: bool)
    returns (frame: Option<seq<Byte>>)
    requires |data| <= U32_MAX && |slices| <= U32_MAX
    requires MaxSize(|st.pic.components|, |slices|, TotalSize(slices)) <= U64_MAX
    ensures frame.Some? <==> InputsAccepted(st, slices, |data|) && memory && QuantsNonEmpty(st)
                             && |Encode(Image(st, slices, data))| <= U32_MAX
    ensures frame.Some? ==> frame.value == Encode(Image(st, slices, data))
  {
    hide Image;
    hide Encode;
    hide QuantsNonEmpty;
    if !st.hasPic || !st.hasIq || st.pic.width == 0 || st.pic.height == 0
       || |st.pic.components| == 0 || |st.pic.components| > MAX_COMPONENTS {
      return None;
    }
    var inRange, used := GetUsedQuantTables(st.pic);
    if !inRange || !(used <= st.validQuant) || |slices| == 0 {
      return None;
    }
    var valid, total, dc, ac := ValidateSlices(st.pic, slices, |data|);
    if !valid {
      return None;
    }
    var sameHeader, sameRestart := CompareSlices(slices);
    var max := Wrap64(MaxSize(|st.pic.components|, |slices|, total as int));
    if !memory {
      return None;
    }
    var w := new FrameBuffer(max as int);
    var ok := PrintImage(w, st, slices, data, dc, ac, sameHeader, sameRestart);
    if !ok || w.ptr > U32_MAX {
      return None;
    }
    frame := Some(w.buf[..w.ptr]);
  }

  lemma {:induction false} TotalSizeBound(slices: seq<Slice>)
    ensures TotalSize(slices) <= |slices| * U32_MAX
  {
    if slices != [] {
      TotalSizeBound(slices[..|slices| - 1]);
    }
  }

  /** The worst-case computation does not wrap for any slice list of fewer than 2^32 - 21 elements. */
  lemma MaxSizeFits(pic: Picture, slices: seq<Slice>)
    requires |pic.components| <= MAX_COMPONENTS && |slices| < U32_MAX - 20
    ensures MaxSize(|pic.components|, |slices|, TotalSize(slices)) <= U64_MAX
  {
    TotalSizeBound(slices);
  }

  /** It can wrap from there on, and a wrapped size has no room even for the slice data. */
  lemma MaxSizeWraps(components: nat, slices: seq<Slice>)
    requires 1 <= components <= MAX_COMPONENTS && |slices| <= U32_MAX
    ensures TotalSize(slices) <= Wrap64(MaxSize(components, |slices|, TotalSize(slices)))
       <==> MaxSize(components, |slices|, TotalSize(slices)) <= U64_MAX
    ensures |slices| == U32_MAX - 20 && (forall s <- slices :: s.size == U32_MAX) ==>
              MaxSize(components, |slices|, TotalSize(slices)) > U64_MAX
  {
    hide TotalSize;
    TotalSizeBound(slices);
    if forall s <- slices :: s.size == U32_MAX {
      TotalSizeFull(slices);
    }
  }

  lemma {:induction false} TotalSizeFull(slices: seq<Slice>)
    requires forall s <- slices :: s.size == U32_MAX
    ensures TotalSize(slices) == |slices| * U32_MAX
  {
    if slices != [] {
      TotalSizeFull(slices[..|slices| - 1]);
    }
  }
}
