/**
 The state a decoder has reached after a list of segments: the quantiser and Huffman tables in force and
 the restart interval (sections B.2.4.1, B.2.4.2 and B.2.4.4 of ISO/IEC 10918-1: a later definition
 replaces an earlier one with the same destination). For every accepted input the reconstructed image is
 proved to define each table before the header that names it, with the contents of the driver's context.
 */
module JpegDecoder {
  import opened Words
  import opened JpegSyntax
  import opened JpegImage

  function LastQuant(qs: seq<QuantDef>, id: Byte): Option<seq<Byte>> {
    if qs == [] then None
    else if qs[|qs| - 1].id == id then Some(qs[|qs| - 1].values)
    else LastQuant(qs[..|qs| - 1], id)
  }

  function LastHuff(hs: seq<HuffDef>, cls: Byte, id: Byte): Option<HuffDef> {
    if hs == [] then None
    else if hs[|hs| - 1].cls == cls && hs[|hs| - 1].id == id then Some(hs[|hs| - 1])
    else LastHuff(hs[..|hs| - 1], cls, id)
  }

  function Or<T>(a: Option<T>, b: Option<T>): Option<T> {
    if a.Some? then a else b
  }

  function QuantOf(s: Segment, id: Byte): Option<seq<Byte>> {
    if s.Dqt? then LastQuant(s.quants, id) else None
  }

  function HuffOf(s: Segment, cls: Byte, id: Byte): Option<HuffDef> {
    if s.Dht? then LastHuff(s.huffs, cls, id) else None
  }

  /** The quantiser table with destination `id` after `segs`. */
  function QuantInForce(segs: seq<Segment>, id: Byte): Option<seq<Byte>> {
    if segs == [] then None
    else Or(QuantOf(segs[|segs| - 1], id), QuantInForce(segs[..|segs| - 1], id))
  }

  /** The Huffman table of class `cls` with destination `id` after `segs`. */
  function HuffInForce(segs: seq<Segment>, cls: Byte, id: Byte): Option<HuffDef> {
    if segs == [] then None
    else Or(HuffOf(segs[|segs| - 1], cls, id), HuffInForce(segs[..|segs| - 1], cls, id))
  }

  /** The restart interval after `segs`; zero, that is disabled, until one is defined. */
  function RestartInForce(segs: seq<Segment>): U16 {
    if segs == [] then 0
    else if segs[|segs| - 1].Dri? then segs[|segs| - 1].interval
    else RestartInForce(segs[..|segs| - 1])
  }

  lemma {:induction false} QuantAppend(xs: seq<Segment>, ys: seq<Segment>, id: Byte)
    ensures QuantInForce(xs + ys, id) == Or(QuantInForce(ys, id), QuantInForce(xs, id))
  {
    if ys == [] {
      assert xs + ys == xs;
    } else {
      assert (xs + ys)[..|xs + ys| - 1] == xs + ys[..|ys| - 1];
      QuantAppend(xs, ys[..|ys| - 1], id);
    }
  }

  lemma {:induction false} HuffAppend(xs: seq<Segment>, ys: seq<Segment>, cls: Byte, id: Byte)
    ensures HuffInForce(xs + ys, cls, id) == Or(HuffInForce(ys, cls, id), HuffInForce(xs, cls, id))
  {
    if ys == [] {
      assert xs + ys == xs;
    } else {
      assert (xs + ys)[..|xs + ys| - 1] == xs + ys[..|ys| - 1];
      HuffAppend(xs, ys[..|ys| - 1], cls, id);
    }
  }

  lemma {:induction false} NoHuff(segs: seq<Segment>, cls: Byte, id: Byte)
    requires forall s <- segs :: !s.Dht?
    ensures HuffInForce(segs, cls, id) == None
  {
    if segs != [] {
      NoHuff(segs[..|segs| - 1], cls, id);
    }
  }

  // ---------------------------------------------------------------- quantiser tables

  lemma OneQuant(q: QuantDef, id: Byte)
    ensures QuantInForce([Dqt([q])], id) == if q.id == id then Some(q.values) else None
  {
    var qs, segs := [q], [Dqt([q])];
    assert qs[..|qs| - 1] == [] && segs[..|segs| - 1] == [];
    assert LastQuant(qs, id) == if q.id == id then Some(q.values) else None;
    assert QuantInForce(segs, id) == Or(QuantOf(segs[0], id), QuantInForce([], id));
  }

  /** Of the tables below `n`, exactly the used ones are in force, each with its own contents. */
  lemma {:induction false} QuantSegmentsInForce(used: set<int>, iq: QuantTables, n: nat, id: Byte)
    requires n <= 4
    ensures QuantInForce(QuantSegments(used, iq, n), id) == if id < n && id as int in used then Some(iq[id]) else None
    ensures forall s <- QuantSegments(used, iq, n) :: s.Dqt?
  {
    if n != 0 {
      QuantSegmentsInForce(used, iq, n - 1, id);
      if n - 1 in used {
        OneQuant(QuantDef(n - 1, iq[n - 1]), id);
        QuantAppend(QuantSegments(used, iq, n - 1), [Dqt([QuantDef(n - 1, iq[n - 1])])], id);
      } else {
        assert QuantSegments(used, iq, n) == QuantSegments(used, iq, n - 1);
      }
    }
  }

  // ---------------------------------------------------------------- Huffman tables

  /** The values of a loaded pair that a DHT segment of class `cls` carries. */
  function LoadedTable(h: HuffTable, cls: Byte, t: Byte): HuffDef
    requires cls < 2
  {
    if cls == 0 then HuffDef(0, t, h.dcCodes, h.dcValues[..Min(Sum(h.dcCodes), 12)])
    else HuffDef(1, t, h.acCodes, h.acValues[..Min(Sum(h.acCodes), 162)])
  }

  /** The standard table of class `cls` and destination `t`. */
  function StandardTable(cls: Byte, t: Byte): HuffDef
    requires cls < 2 && t < 2
  {
    if cls == 0 then HuffDef(0, t, if t == 0 then DC_LUMINANCE_BITS else DC_CHROMINANCE_BITS, DC_VALUES)
    else if t == 0 then HuffDef(1, 0, AC_LUMINANCE_BITS, AC_LUMINANCE_VALUES)
    else HuffDef(1, 1, AC_CHROMINANCE_BITS, AC_CHROMINANCE_VALUES)
  }

  /** The table the image should define for class `cls`, destination `t`: the loaded one, or the standard one. */
  function ExpectedTable(st: JpegState, slices: seq<Slice>, cls: Byte, t: Byte): HuffDef
    requires cls < 2 && t < 2
  {
    if VaHuffmanUsable(st, RequiredDc(slices), RequiredAc(slices)) then LoadedTable(st.huff[t], cls, t)
    else StandardTable(cls, t)
  }

  lemma OneHuff(h: HuffDef, cls: Byte, id: Byte)
    ensures HuffInForce([Dht([h])], cls, id) == if h.cls == cls && h.id == id then Some(h) else None
  {
    var hs, segs := [h], [Dht([h])];
    assert hs[..|hs| - 1] == [] && segs[..|segs| - 1] == [];
    assert LastHuff(hs, cls, id) == if h.cls == cls && h.id == id then Some(h) else None;
    assert HuffInForce(segs, cls, id) == Or(HuffOf(segs[0], cls, id), HuffInForce([], cls, id));
  }

  lemma StandardInForce(cls: Byte, t: Byte)
    requires cls < 2 && t < 2
    ensures HuffInForce(StandardHuffman(), cls, t) == Some(StandardTable(cls, t))
  {
    hide HuffInForce;
    var h00, h01 := HuffDef(0, 0, DC_LUMINANCE_BITS, DC_VALUES), HuffDef(0, 1, DC_CHROMINANCE_BITS, DC_VALUES);
    var h10 := HuffDef(1, 0, AC_LUMINANCE_BITS, AC_LUMINANCE_VALUES);
    var h11 := HuffDef(1, 1, AC_CHROMINANCE_BITS, AC_CHROMINANCE_VALUES);
    FourHuffs(h00, h01, h10, h11, cls, t);
  }

  lemma FourHuffs(a: HuffDef, b: HuffDef, c: HuffDef, d: HuffDef, cls: Byte, id: Byte)
    ensures HuffInForce([Dht([a]), Dht([b]), Dht([c]), Dht([d])], cls, id) ==
      if d.cls == cls && d.id == id then Some(d)
      else if c.cls == cls && c.id == id then Some(c)
      else if b.cls == cls && b.id == id then Some(b)
      else if a.cls == cls && a.id == id then Some(a) else None
  {
    hide HuffInForce;
    OneHuff(a, cls, id);
    OneHuff(b, cls, id);
    OneHuff(c, cls, id);
    OneHuff(d, cls, id);
    HuffAppend([Dht([a])], [Dht([b])], cls, id);
    HuffAppend([Dht([a])] + [Dht([b])], [Dht([c])], cls, id);
    HuffAppend([Dht([a])] + [Dht([b])] + [Dht([c])], [Dht([d])], cls, id);
    assert [Dht([a]), Dht([b]), Dht([c]), Dht([d])] == [Dht([a])] + [Dht([b])] + [Dht([c])] + [Dht([d])];
  }

  /** Of the loaded tables below `n`, exactly those the scans name are in force. */
  lemma {:induction false} VaSegmentsInForce(huff: HuffTables, dc: set<int>, ac: set<int>, n: nat, cls: Byte, t: Byte)
    requires n <= 2 && cls < 2 && t < 2
    ensures HuffInForce(VaHuffmanSegments(huff, dc, ac, n), cls, t) ==
      if t < n && t as int in (if cls == 0 then dc else ac)
      then Some((if cls == 0 then DcSegment(huff, t) else AcSegment(huff, t)).huffs[0]) else None
  {
    hide HuffInForce;
    NoHuff([], cls, t);
    if n != 0 {
      VaSegmentsInForce(huff, dc, ac, n - 1, cls, t);
      var v := VaHuffmanSegments(huff, dc, ac, n - 1);
      var dcSegment, acSegment := DcSegment(huff, n - 1), AcSegment(huff, n - 1);
      var d := if n - 1 in dc then [dcSegment] else [];
      var a := if n - 1 in ac then [acSegment] else [];
      assert VaHuffmanSegments(huff, dc, ac, n) == v + d + a;
      hide VaHuffmanSegments;
      var dh, ah := dcSegment.huffs[0], acSegment.huffs[0];
      assert dcSegment == Dht([dh]) && dh.cls == 0 && dh.id == n - 1;
      assert acSegment == Dht([ah]) && ah.cls == 1 && ah.id == n - 1;
      HuffAppend(v + d, a, cls, t);
      HuffAppend(v, d, cls, t);
      OneHuff(dh, cls, t);
      OneHuff(ah, cls, t);
      hide TableSegment;
    }
  }

  // ---------------------------------------------------------------- define before use

  lemma {:induction false} NamedTablesRequired(slices: seq<Slice>, s: Slice, c: ScanComponent)
    requires s in slices && c in s.components
    ensures c.dc as int in RequiredDc(slices) && c.ac as int in RequiredAc(slices)
  {
    var n := |slices| - 1;
    if s in slices[..n] {
      NamedTablesRequired(slices[..n], s, c);
    } else {
      assert slices == slices[..n] + [slices[n]];
      assert s == slices[n];
      assert c.dc as int in DcOf(s) && c.ac as int in AcOf(s);
    }
  }

  lemma HuffmanSegmentsInForce(st: JpegState, slices: seq<Slice>, s: Slice, c: ScanComponent)
    requires s in slices && c in s.components && c.dc < 2 && c.ac < 2
    ensures HuffInForce(HuffmanSegments(st, slices), 0, c.dc) == Some(ExpectedTable(st, slices, 0, c.dc))
    ensures HuffInForce(HuffmanSegments(st, slices), 1, c.ac) == Some(ExpectedTable(st, slices, 1, c.ac))
  {
    hide HuffInForce;
    var dc, ac := RequiredDc(slices), RequiredAc(slices);
    if VaHuffmanUsable(st, dc, ac) {
      hide VaHuffmanUsable;
      NamedTablesRequired(slices, s, c);
      VaSegmentsInForce(st.huff, dc, ac, 2, 0, c.dc);
      VaSegmentsInForce(st.huff, dc, ac, 2, 1, c.ac);
    } else {
      hide StandardHuffman;
      StandardInForce(0, c.dc);
      StandardInForce(1, c.ac);
    }
  }

  /** The header puts in force every Huffman table that a slice names. */
  lemma HeaderHuffInForce(st: JpegState, slices: seq<Slice>, s: Slice, c: ScanComponent)
    requires s in slices && c in s.components && c.dc < 2 && c.ac < 2
    ensures HuffInForce(HeaderSegments(st, slices), 0, c.dc) == Some(ExpectedTable(st, slices, 0, c.dc))
    ensures HuffInForce(HeaderSegments(st, slices), 1, c.ac) == Some(ExpectedTable(st, slices, 1, c.ac))
  {
    hide HuffInForce;
    hide HuffmanSegments;
    hide QuantSegments;
    hide ExpectedTable;
    var front := [App0(JFIF)] + QuantSegments(UsedQuants(st.pic), st.iq, 4)
      + [Sof0(8, st.pic.height, st.pic.width, st.pic.components)];
    var h, r := HuffmanSegments(st, slices), RestartSegments(SameRestart(slices), slices[0].restart);
    HuffmanSegmentsInForce(st, slices, s, c);
    NoHuff(r, 0, c.dc);
    NoHuff(r, 1, c.ac);
    HuffAppend(front + h, r, 0, c.dc);
    HuffAppend(front + h, r, 1, c.ac);
    HuffAppend(front, h, 0, c.dc);
    HuffAppend(front, h, 1, c.ac);
  }

  lemma {:induction false} HuffmanSegmentsKind(huff: HuffTables, dc: set<int>, ac: set<int>, n: nat)
    requires n <= 2
    ensures forall s <- VaHuffmanSegments(huff, dc, ac, n) :: s.Dht?
  {
    if n != 0 {
      HuffmanSegmentsKind(huff, dc, ac, n - 1);
    }
  }

  /** A segment of the scan part is a restart interval or the scan of some slice. */
  predicate FromSlices(s: Segment, slices: seq<Slice>) {
    s.Dri? || (s.Scan? && exists x <- slices :: s.scan == x.components)
  }

  lemma {:induction false} ManyScansFromSlices(slices: seq<Slice>, data: seq<Byte>, perScan: bool)
    requires SlicesFit(slices, |data|)
    ensures forall s <- ManyScans(slices, data, perScan) :: FromSlices(s, slices)
  {
    if slices != [] {
      var n := |slices| - 1;
      ManyScansFromSlices(slices[..n], data, perScan);
      assert slices[n] in slices;
      forall s | s in ManyScans(slices, data, perScan) ensures FromSlices(s, slices) {
        if s in ManyScans(slices[..n], data, perScan) {
          assert FromSlices(s, slices[..n]);
        }
      }
    }
  }

  lemma ScansFromSlices(slices: seq<Slice>, data: seq<Byte>)
    requires slices != [] && SlicesFit(slices, |data|)
    ensures forall s <- StripLast(ScanSegments(slices, data)) :: FromSlices(s, slices)
  {
    hide StripEoi;
    hide AllBytes;
    var scans := ScanSegments(slices, data);
    if SameHeader(slices) {
      assert slices[0] in slices;
    } else {
      ManyScansFromSlices(slices, data, !SameRestart(slices));
    }
    forall s | s in StripLast(scans) ensures FromSlices(s, slices) {
      var last := scans[|scans| - 1];
      if s !in scans {
        assert last in scans && FromSlices(last, slices);
        assert s == last.(data := StripEoi(last.data));
      }
    }
  }

  /** Segment kinds of the header behind the frame header. */
  lemma HeaderTail(st: JpegState, slices: seq<Slice>)
    requires slices != []
    ensures forall s <- HuffmanSegments(st, slices) + RestartSegments(SameRestart(slices), slices[0].restart) ::
              s.Dht? || s.Dri?
  {
    HuffmanSegmentsKind(st.huff, RequiredDc(slices), RequiredAc(slices), 2);
  }

  /** Every quantiser table the frame header names is in force there, with the contents held by the context. */
  lemma QuantsDefinedBeforeUse(st: JpegState, slices: seq<Slice>, data: seq<Byte>, k: nat)
    requires InputsAccepted(st, slices, |data|) && SlicesFit(slices, |data|)
    requires k < |Image(st, slices, data)| && Image(st, slices, data)[k].Sof0?
    ensures Image(st, slices, data)[k] == Sof0(8, st.pic.height, st.pic.width, st.pic.components)
    ensures forall c <- st.pic.components ::
              QuantInForce(Image(st, slices, data)[..k], c.quant) == Some(st.iq[c.quant])
  {
    hide QuantInForce;
    hide QuantSegments;
    hide HuffmanSegments;
    hide RestartSegments;
    hide ScanSegments;
    hide StripLast;
    hide FromSlices;
    var q := QuantSegments(UsedQuants(st.pic), st.iq, 4);
    var sof := Sof0(8, st.pic.height, st.pic.width, st.pic.components);
    var tail := HuffmanSegments(st, slices) + RestartSegments(SameRestart(slices), slices[0].restart);
    var scans := StripLast(ScanSegments(slices, data));
    QuantSegmentsInForce(UsedQuants(st.pic), st.iq, 4, 0);
    HeaderTail(st, slices);
    ScanKinds(slices, data);
    assert Image(st, slices, data) == [App0(JFIF)] + q + [sof] + (tail + scans);
    OnlySof0([App0(JFIF)] + q, sof, tail + scans, k);
    forall c | c in st.pic.components ensures QuantInForce([App0(JFIF)] + q, c.quant) == Some(st.iq[c.quant]) {
      assert c.quant as int in UsedQuants(st.pic);
      QuantSegmentsInForce(UsedQuants(st.pic), st.iq, 4, c.quant);
      QuantAppend([App0(JFIF)], q, c.quant);
    }
  }

  lemma ScanKinds(slices: seq<Slice>, data: seq<Byte>)
    requires slices != [] && SlicesFit(slices, |data|)
    ensures forall s <- StripLast(ScanSegments(slices, data)) :: s.Dri? || s.Scan?
  {
    hide StripLast;
    hide ScanSegments;
    ScansFromSlices(slices, data);
    forall s | s in StripLast(ScanSegments(slices, data)) ensures s.Dri? || s.Scan? {
      assert FromSlices(s, slices);
    }
  }

  lemma OnlySof0(xs: seq<Segment>, sof: Segment, ys: seq<Segment>, k: nat)
    requires (forall s <- xs :: !s.Sof0?) && (forall s <- ys :: !s.Sof0?)
    requires k < |xs + [sof] + ys| && (xs + [sof] + ys)[k].Sof0?
    ensures (xs + [sof] + ys)[k] == sof && (xs + [sof] + ys)[..k] == xs
  {
    var all := xs + [sof] + ys;
    assert forall i :: 0 <= i < |xs| ==> all[i] == xs[i];
    assert forall i :: 0 <= i < |ys| ==> all[|xs| + 1 + i] == ys[i];
    forall i | 0 <= i < |all| && i != |xs| ensures !all[i].Sof0? {
      assert i > |xs| ==> all[|xs| + 1 + (i - |xs| - 1)] == ys[i - |xs| - 1];
    }
  }

  /** Every Huffman table a scan header names is in force there: the loaded table, or the standard one. */
  lemma HuffmanDefinedBeforeUse(st: JpegState, slices: seq<Slice>, data: seq<Byte>, k: nat, c: ScanComponent)
    requires InputsAccepted(st, slices, |data|) && SlicesFit(slices, |data|)
    requires k < |Image(st, slices, data)| && Image(st, slices, data)[k].Scan? && c in Image(st, slices, data)[k].scan
    ensures c.dc < 2 && c.ac < 2
    ensures HuffInForce(Image(st, slices, data)[..k], 0, c.dc) == Some(ExpectedTable(st, slices, 0, c.dc))
    ensures HuffInForce(Image(st, slices, data)[..k], 1, c.ac) == Some(ExpectedTable(st, slices, 1, c.ac))
  {
    hide HuffInForce;
    hide HeaderSegments;
    hide ScanSegments;
    hide StripLast;
    hide ExpectedTable;
    var h, scans := HeaderSegments(st, slices), StripLast(ScanSegments(slices, data));
    HeaderHasNoScan(st, slices);
    assert k >= |h| && Image(st, slices, data)[k] == scans[k - |h|];
    ScansFromSlices(slices, data);
    assert FromSlices(scans[k - |h|], slices);
    var s :| s in slices && scans[k - |h|].scan == s.components;
    assert SliceAccepted(st.pic, s, |data|);
    HeaderHuffInForce(st, slices, s, c);
    var u := scans[..k - |h|];
    assert Image(st, slices, data)[..k] == h + u;
    ScanKinds(slices, data);
    assert forall x <- u :: x in scans;
    NoHuff(u, 0, c.dc);
    NoHuff(u, 1, c.ac);
    HuffAppend(h, u, 0, c.dc);
    HuffAppend(h, u, 1, c.ac);
  }

  /** The tables a scan of the image names are among those required by the slices. */
  lemma ScanTablesRequired(st: JpegState, slices: seq<Slice>, data: seq<Byte>, k: nat, c: ScanComponent)
    requires slices != [] && SlicesFit(slices, |data|)
    requires k < |Image(st, slices, data)| && Image(st, slices, data)[k].Scan? && c in Image(st, slices, data)[k].scan
    ensures c.dc as int in RequiredDc(slices) && c.ac as int in RequiredAc(slices)
  {
    hide HeaderSegments;
    hide ScanSegments;
    hide StripLast;
    var h, scans := HeaderSegments(st, slices), StripLast(ScanSegments(slices, data));
    HeaderHasNoScan(st, slices);
    assert k >= |h| && Image(st, slices, data)[k] == scans[k - |h|];
    ScansFromSlices(slices, data);
    assert FromSlices(scans[k - |h|], slices);
    var s :| s in slices && scans[k - |h|].scan == s.components;
    NamedTablesRequired(slices, s, c);
  }

  lemma HeaderHasNoScan(st: JpegState, slices: seq<Slice>)
    requires slices != []
    ensures forall s <- HeaderSegments(st, slices) :: !s.Scan?
  {
    hide QuantSegments;
    hide HuffmanSegments;
    hide RestartSegments;
    HeaderTail(st, slices);
    QuantSegmentsInForce(UsedQuants(st.pic), st.iq, 4, 0);
    var tail := HuffmanSegments(st, slices) + RestartSegments(SameRestart(slices), slices[0].restart);
    forall s | s in HeaderSegments(st, slices) ensures !s.Scan? {
      assert s in [App0(JFIF)] || s in QuantSegments(UsedQuants(st.pic), st.iq, 4)
        || s == Sof0(8, st.pic.height, st.pic.width, st.pic.components) || s in tail;
    }
  }

  // ---------------------------------------------------------------- restart intervals

  /** For each scan in order, the restart interval it is decoded under. */
  function ScanIntervals(segs: seq<Segment>): seq<U16> {
    if segs == [] then []
    else
      var front := segs[..|segs| - 1];
      ScanIntervals(front) + if segs[|segs| - 1].Scan? then [RestartInForce(front)] else []
  }

  function LastNonZero(slices: seq<Slice>): U16 {
    if slices == [] then 0
    else if slices[|slices| - 1].restart != 0 then slices[|slices| - 1].restart
    else LastNonZero(slices[..|slices| - 1])
  }

  lemma Snoc(segs: seq<Segment>, s: Segment)
    ensures RestartInForce(segs + [s]) == if s.Dri? then s.interval else RestartInForce(segs)
    ensures ScanIntervals(segs + [s]) == ScanIntervals(segs) + if s.Scan? then [RestartInForce(segs)] else []
  {
    assert (segs + [s])[..|segs + [s]| - 1] == segs;
  }

  lemma {:induction false} NoScanNoDri(segs: seq<Segment>)
    requires forall s <- segs :: !s.Scan? && !s.Dri?
    ensures RestartInForce(segs) == 0 && ScanIntervals(segs) == []
  {
    if segs != [] {
      NoScanNoDri(segs[..|segs| - 1]);
    }
  }

  /** The header announces the common interval, or none if the slices disagree. */
  lemma HeaderInterval(st: JpegState, slices: seq<Slice>)
    requires slices != []
    ensures RestartInForce(HeaderSegments(st, slices)) == if SameRestart(slices) then slices[0].restart else 0
    ensures ScanIntervals(HeaderSegments(st, slices)) == []
  {
    hide QuantSegments;
    hide VaHuffmanSegments;
    hide StandardHuffman;
    hide SameRestart;
    var front := [App0(JFIF)] + QuantSegments(UsedQuants(st.pic), st.iq, 4)
      + [Sof0(8, st.pic.height, st.pic.width, st.pic.components)] + HuffmanSegments(st, slices);
    QuantSegmentsInForce(UsedQuants(st.pic), st.iq, 4, 0);
    HuffmanKind(st, slices);
    hide HuffmanSegments;
    forall s | s in front ensures !s.Scan? && !s.Dri? {
      assert s in [App0(JFIF)] || s in QuantSegments(UsedQuants(st.pic), st.iq, 4)
        || s == Sof0(8, st.pic.height, st.pic.width, st.pic.components) || s in HuffmanSegments(st, slices);
    }
    NoScanNoDri(front);
    if SameRestart(slices) && slices[0].restart != 0 {
      Snoc(front, Dri(slices[0].restart));
    } else {
      assert front + [] == front;
    }
  }

  lemma HuffmanKind(st: JpegState, slices: seq<Slice>)
    ensures forall s <- HuffmanSegments(st, slices) :: s.Dht?
  {
    HuffmanSegmentsKind(st.huff, RequiredDc(slices), RequiredAc(slices), 2);
  }

  /** The interval in force after the scans of `slices`, given the interval `r` before them. */
  function IntervalAfter(r: U16, slices: seq<Slice>, perScan: bool): U16 {
    if perScan && LastNonZero(slices) != 0 then LastNonZero(slices) else r
  }

  /** The intervals that the scans of `slices` see, one after the other. */
  function Intervals(r: U16, slices: seq<Slice>, perScan: bool): (v: seq<U16>)
    ensures |v| == |slices|
  {
    if slices == [] then []
    else Intervals(r, slices[..|slices| - 1], perScan) + [IntervalAfter(r, slices, perScan)]
  }

  lemma {:induction false} IntervalsAt(r: U16, slices: seq<Slice>, perScan: bool, i: nat)
    requires i < |slices|
    ensures Intervals(r, slices, perScan)[i] == IntervalAfter(r, slices[..i + 1], perScan)
  {
    var n := |slices| - 1;
    if i < n {
      IntervalsAt(r, slices[..n], perScan, i);
      assert slices[..n][..i + 1] == slices[..i + 1];
    } else {
      assert slices[..i + 1] == slices;
    }
  }

  lemma ScanStep(m: seq<Segment>, perScan: bool, r: U16, scan: Segment)
    requires scan.Scan?
    ensures var r' := if perScan && r != 0 then r else RestartInForce(m);
            && RestartInForce(m + RestartSegments(perScan, r) + [scan]) == r'
            && ScanIntervals(m + RestartSegments(perScan, r) + [scan]) == ScanIntervals(m) + [r']
  {
    hide ScanIntervals;
    hide RestartInForce;
    Snoc(m, Dri(r));
    Snoc(m + RestartSegments(perScan, r), scan);
    assert m + [] == m;
  }

  lemma {:induction false} ManyScansIntervals(h: seq<Segment>, slices: seq<Slice>, data: seq<Byte>, perScan: bool)
    requires SlicesFit(slices, |data|) && ScanIntervals(h) == []
    ensures RestartInForce(h + ManyScans(slices, data, perScan)) == IntervalAfter(RestartInForce(h), slices, perScan)
    ensures ScanIntervals(h + ManyScans(slices, data, perScan)) == Intervals(RestartInForce(h), slices, perScan)
  {
    hide ScanIntervals;
    hide RestartInForce;
    hide SliceBytes;
    hide RestartSegments;
    if slices == [] {
      assert h + ManyScans(slices, data, perScan) == h;
    } else {
      var n := |slices| - 1;
      ManyScansIntervals(h, slices[..n], data, perScan);
      var s, m := slices[n], ManyScans(slices[..n], data, perScan);
      var scan := ScanSegment(s.components, SliceBytes(s, data));
      ScanStep(h + m, perScan, s.restart, scan);
      var dri := RestartSegments(perScan, s.restart);
      assert h + (m + dri + [scan]) == h + m + dri + [scan];
    }
  }

  lemma ReplaceLastScan(front: seq<Segment>, s: Segment, s': Segment)
    requires s.Scan? && s'.Scan?
    ensures ScanIntervals(front + [s]) == ScanIntervals(front + [s'])
  {
    Snoc(front, s);
    Snoc(front, s');
  }

  /** Taking the client's EOI off the last scan does not touch the intervals. */
  lemma StripLastIntervals(h: seq<Segment>, scans: seq<Segment>)
    requires scans != [] && scans[|scans| - 1].Scan?
    ensures ScanIntervals(h + StripLast(scans)) == ScanIntervals(h + scans)
  {
    hide ScanIntervals;
    hide StripEoi;
    var last := scans[|scans| - 1];
    var front, last' := h + scans[..|scans| - 1], last.(data := StripEoi(last.data));
    ReplaceLastScan(front, last, last');
    assert h + StripLast(scans) == front + [last'];
    assert h + scans == front + [last];
  }

  /** The intervals a decoder of the image sees, scan by scan. */
  lemma ImageIntervals(st: JpegState, slices: seq<Slice>, data: seq<Byte>)
    requires slices != [] && SlicesFit(slices, |data|)
    ensures ScanIntervals(Image(st, slices, data)) ==
      var r := if SameRestart(slices) then slices[0].restart else 0;
      if SameHeader(slices) then [r] else Intervals(r, slices, !SameRestart(slices))
  {
    hide HeaderSegments;
    hide ScanIntervals;
    hide RestartInForce;
    hide Intervals;
    hide StripLast;
    hide SameRestart;
    hide SliceBytes;
    hide AllBytes;
    var h, scans := HeaderSegments(st, slices), ScanSegments(slices, data);
    HeaderInterval(st, slices);
    StripLastIntervals(h, scans);
    if SameHeader(slices) {
      Snoc(h, ScanSegment(slices[0].components, AllBytes(slices, data)));
    } else {
      ManyScansIntervals(h, slices, data, !SameRestart(slices));
    }
  }

  /** The interval the data of slice `i` is decoded under. */
  function IntervalOf(st: JpegState, slices: seq<Slice>, data: seq<Byte>, i: nat): U16
    requires i < |slices| && SlicesFit(slices, |data|)
  {
    var v := ScanIntervals(Image(st, slices, data));
    var k := if SameHeader(slices) then 0 else i;
    if k < |v| then v[k] else 0
  }

  /** No slice without restart markers follows one with them. */
  predicate NoZeroAfterNonZero(slices: seq<Slice>) {
    forall i, j :: 0 <= i < j < |slices| && slices[i].restart != 0 ==> slices[j].restart != 0
  }

  lemma {:induction false} LastNonZeroIsLast(slices: seq<Slice>)
    requires slices != [] && NoZeroAfterNonZero(slices)
    ensures LastNonZero(slices) == slices[|slices| - 1].restart
  {
    var n := |slices| - 1;
    if slices[n].restart == 0 && n > 0 {
      assert slices[n - 1].restart == 0;
      LastNonZeroIsLast(slices[..n]);
    }
  }

  lemma {:induction false} LastNonZeroStays(slices: seq<Slice>, i: nat)
    requires i < |slices| && slices[i].restart != 0
    ensures LastNonZero(slices) != 0
  {
    if slices[|slices| - 1].restart == 0 {
      LastNonZeroStays(slices[..|slices| - 1], i);
    }
  }

  /**
   Every slice's data is decoded under the restart interval the client gave for it if and only if all
   slices agree on it, or the slices get scans of their own and none without an interval follows one with.
   */
  lemma RestartIntervalsFaithful(st: JpegState, slices: seq<Slice>, data: seq<Byte>)
    requires slices != [] && SlicesFit(slices, |data|)
    ensures (forall i :: 0 <= i < |slices| ==> IntervalOf(st, slices, data, i) == slices[i].restart)
       <==> SameRestart(slices) || (!SameHeader(slices) && NoZeroAfterNonZero(slices))
  {
    hide Image;
    hide ScanIntervals;
    ImageIntervals(st, slices, data);
    if SameHeader(slices) {
      OneIntervalFaithful(st, slices, data);
    } else if SameRestart(slices) {
      forall i | 0 <= i < |slices| ensures IntervalOf(st, slices, data, i) == slices[i].restart {
        IntervalsAt(slices[0].restart, slices, false, i);
        assert slices[i] in slices;
      }
    } else {
      ManyIntervalsFaithful(st, slices, data);
    }
  }

  lemma OneIntervalFaithful(st: JpegState, slices: seq<Slice>, data: seq<Byte>)
    requires slices != [] && SlicesFit(slices, |data|) && SameHeader(slices)
    ensures (forall i :: 0 <= i < |slices| ==> IntervalOf(st, slices, data, i) == slices[i].restart)
       <==> SameRestart(slices)
  {
    hide Image;
    hide ScanIntervals;
    ImageIntervals(st, slices, data);
    if SameRestart(slices) {
      forall i | 0 <= i < |slices| ensures IntervalOf(st, slices, data, i) == slices[i].restart {
        assert slices[i] in slices;
      }
    }
  }

  /** With headers and intervals that differ, a scan is decoded under the last non-zero interval up to it. */
  lemma IntervalIsLastNonZero(st: JpegState, slices: seq<Slice>, data: seq<Byte>, i: nat)
    requires slices != [] && SlicesFit(slices, |data|) && !SameHeader(slices) && !SameRestart(slices)
    requires i < |slices|
    ensures IntervalOf(st, slices, data, i) == LastNonZero(slices[..i + 1])
  {
    hide Image;
    hide ScanIntervals;
    ImageIntervals(st, slices, data);
    IntervalsAt(0, slices, true, i);
  }

  lemma LastNonZeroFaithful(slices: seq<Slice>)
    ensures (forall i :: 0 <= i < |slices| ==> LastNonZero(slices[..i + 1]) == slices[i].restart) <==>
            NoZeroAfterNonZero(slices)
  {
    if NoZeroAfterNonZero(slices) {
      forall i | 0 <= i < |slices| ensures LastNonZero(slices[..i + 1]) == slices[i].restart {
        LastNonZeroIsLast(slices[..i + 1]);
      }
    }
    hide LastNonZero;
    if forall i :: 0 <= i < |slices| ==> LastNonZero(slices[..i + 1]) == slices[i].restart {
      forall i, j | 0 <= i < j < |slices| && slices[i].restart != 0 ensures slices[j].restart != 0 {
        LastNonZeroStays(slices[..j + 1], i);
      }
    }
  }

  lemma ManyIntervalsFaithful(st: JpegState, slices: seq<Slice>, data: seq<Byte>)
    requires slices != [] && SlicesFit(slices, |data|) && !SameHeader(slices) && !SameRestart(slices)
    ensures (forall i :: 0 <= i < |slices| ==> IntervalOf(st, slices, data, i) == slices[i].restart)
       <==> NoZeroAfterNonZero(slices)
  {
    forall i | 0 <= i < |slices| ensures IntervalOf(st, slices, data, i) == LastNonZero(slices[..i + 1]) {
      IntervalIsLastNonZero(st, slices, data, i);
    }
    hide IntervalOf;
    hide SameHeader;
    hide SameRestart;
    LastNonZeroFaithful(slices);
    hide LastNonZero;
    hide NoZeroAfterNonZero;
  }

  /** An empty slice of component `c` with a restart interval. */
  function EmptySlice(c: Byte, restart: U16): Slice {
    Slice(0, 0, SLICE_DATA_FLAG_ALL, [ScanComponent(c, 0, 0)], restart)
  }

  /** Intervals 8 and 0 under different headers: no DRI takes the 8 back, so the second scan is decoded under it. */
  lemma ZeroIntervalIgnored(st: JpegState)
    ensures IntervalOf(st, [EmptySlice(1, 8), EmptySlice(2, 0)], [], 1) == 8
  {
    var slices := [EmptySlice(1, 8), EmptySlice(2, 0)];
    assert slices[1].components != slices[0].components && slices[1].restart != slices[0].restart;
    assert slices[1] in slices;
    IntervalIsLastNonZero(st, slices, [], 1);
    hide IntervalOf;
    assert slices[..2] == slices && slices[..1] == [EmptySlice(1, 8)];
    LastNonZeroUpTo(slices);
  }

  lemma LastNonZeroUpTo(slices: seq<Slice>)
    requires |slices| == 2 && slices[0].restart == 8 && slices[1].restart == 0
    ensures LastNonZero(slices) == 8
  {
    assert slices[..1][0].restart == 8;
  }

  /** The same intervals under equal headers: one scan and no DRI, so the first slice loses its 8. */
  lemma CommonIntervalLost(st: JpegState)
    ensures IntervalOf(st, [EmptySlice(1, 8), EmptySlice(1, 0)], [], 0) == 0
  {
    var slices := [EmptySlice(1, 8), EmptySlice(1, 0)];
    assert slices[1].restart != slices[0].restart;
    assert slices[1] in slices;
    assert SameHeader(slices) && !SameRestart(slices);
    hide Image;
    hide ScanIntervals;
    ImageIntervals(st, slices, []);
  }
}
