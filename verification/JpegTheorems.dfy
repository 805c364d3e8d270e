/**
 The reconstructed image parses back to its own segments, exactly when the client's sampling factors and
 scan data allow it.
 */
module JpegTheorems {
  import opened Words
  import opened JpegSyntax
  import opened JpegImage

  // ---------------------------------------------------------------- parse-back

  /** Both sampling factors of every component fit the nibbles of SOF0. */
  predicate SamplingFits(pic: Picture) {
    forall c <- pic.components :: c.h < 16 && c.v < 16
  }

  /** Every scan's data is entropy-coded data, but for one EOI at the very end. */
  predicate ScanDataClean(slices: seq<Slice>, data: seq<Byte>)
    requires slices != [] && SlicesFit(slices, |data|)
  {
    if SameHeader(slices) then MarkerFree(StripEoi(AllBytes(slices, data)))
    else
      && (forall i :: 0 <= i < |slices| - 1 ==> MarkerFree(SliceBytes(slices[i], data)))
      && MarkerFree(StripEoi(SliceBytes(slices[|slices| - 1], data)))
  }

  lemma {:induction false} QuantSegmentsWellFormed(used: set<int>, iq: QuantTables, n: nat)
    requires n <= 4
    ensures AllWellFormed(QuantSegments(used, iq, n))
  {
    if n != 0 {
      QuantSegmentsWellFormed(used, iq, n - 1);
      var q := QuantDef(n - 1, iq[n - 1]);
      assert EncodeQuants([q]) == [q.id] + q.values + EncodeQuants([]);
    }
  }

  lemma TableWellFormed(h: HuffDef)
    requires h.cls < 16 && h.id < 16 && |h.counts| == 16 && |h.values| == Sum(h.counts) <= 162
    ensures WellFormed(Dht([h]))
  {
    hide Sum;
    hide PackNibbles;
    assert EncodeHuffs([h]) == [PackNibbles(h.cls, h.id)] + h.counts + h.values + EncodeHuffs([]);
  }

  lemma {:induction false} VaSegmentsWellFormed(st: JpegState, dc: set<int>, ac: set<int>, n: nat)
    requires VaHuffmanUsable(st, dc, ac) && n <= 2
    ensures AllWellFormed(VaHuffmanSegments(st.huff, dc, ac, n))
  {
    hide WellFormed;
    if n != 0 {
      var t := n - 1;
      VaSegmentsWellFormed(st, dc, ac, t);
      assert PairReady(st.huff, t, dc, ac, st.validDc, st.validAc);
      if t in dc {
        TableWellFormed(DcSegment(st.huff, t).huffs[0]);
      }
      if t in ac {
        TableWellFormed(AcSegment(st.huff, t).huffs[0]);
      }
    }
  }

  lemma SumOf16(s: seq<Byte>)
    requires |s| == 16
    ensures Sum(s) == s[0] as int + s[1] as int + s[2] as int + s[3] as int + s[4] as int + s[5] as int + s[6] as int
      + s[7] as int + s[8] as int + s[9] as int + s[10] as int + s[11] as int + s[12] as int + s[13] as int
      + s[14] as int + s[15] as int
  {
    hide Sum;
    SumTail(s, 0);
    SumTail(s, 1);
    SumTail(s, 2);
    SumTail(s, 3);
    SumTail(s, 4);
    SumTail(s, 5);
    SumTail(s, 6);
    SumTail(s, 7);
    SumTail(s, 8);
    SumTail(s, 9);
    SumTail(s, 10);
    SumTail(s, 11);
    SumTail(s, 12);
    SumTail(s, 13);
    SumTail(s, 14);
    SumTail(s, 15);
    assert s[0..] == s && s[16..] == [] && Sum([]) == 0 by { NoSum(); }
  }

  lemma NoSum()
    ensures Sum([]) == 0
  {
  }

  lemma SumTail(s: seq<Byte>, i: nat)
    requires i < |s|
    ensures Sum(s[i..]) == s[i] as int + Sum(s[i + 1..])
  {
    assert s[i..][1..] == s[i + 1..];
  }

  lemma DcStandardWellFormed()
    ensures WellFormed(Dht([HuffDef(0, 0, DC_LUMINANCE_BITS, DC_VALUES)]))
    ensures WellFormed(Dht([HuffDef(0, 1, DC_CHROMINANCE_BITS, DC_VALUES)]))
  {
    hide WellFormed;
    hide Sum;
    SumOf16(DC_LUMINANCE_BITS);
    SumOf16(DC_CHROMINANCE_BITS);
    TableWellFormed(HuffDef(0, 0, DC_LUMINANCE_BITS, DC_VALUES));
    TableWellFormed(HuffDef(0, 1, DC_CHROMINANCE_BITS, DC_VALUES));
  }

  lemma AcLuminanceWellFormed()
    ensures WellFormed(Dht([HuffDef(1, 0, AC_LUMINANCE_BITS, AC_LUMINANCE_VALUES)]))
  {
    hide WellFormed;
    hide Sum;
    SumOf16(AC_LUMINANCE_BITS);
    TableWellFormed(HuffDef(1, 0, AC_LUMINANCE_BITS, AC_LUMINANCE_VALUES));
  }

  lemma AcChrominanceWellFormed()
    ensures WellFormed(Dht([HuffDef(1, 1, AC_CHROMINANCE_BITS, AC_CHROMINANCE_VALUES)]))
  {
    hide WellFormed;
    hide Sum;
    SumOf16(AC_CHROMINANCE_BITS);
    TableWellFormed(HuffDef(1, 1, AC_CHROMINANCE_BITS, AC_CHROMINANCE_VALUES));
  }

  /** The standard tables carry exactly as many values as their code counts announce. */
  lemma StandardWellFormed()
    ensures AllWellFormed(StandardHuffman())
  {
    hide WellFormed;
    DcStandardWellFormed();
    AcLuminanceWellFormed();
    AcChrominanceWellFormed();
  }

  lemma ScanWellFormed(cs: seq<ScanComponent>, d: seq<Byte>)
    requires |cs| <= MAX_COMPONENTS && forall c <- cs :: c.dc <= 1 && c.ac <= 1
    ensures WellFormed(ScanSegment(cs, d)) <==> MarkerFree(d)
  {
    ScanComponentsLength(cs);
  }

  lemma AllWellFormedAppend(xs: seq<Segment>, ys: seq<Segment>)
    ensures AllWellFormed(xs + ys) <==> AllWellFormed(xs) && AllWellFormed(ys)
  {
    assert forall s <- xs :: s in xs + ys;
    assert forall s <- ys :: s in xs + ys;
  }

  lemma HeaderWellFormed(st: JpegState, slices: seq<Slice>)
    requires slices != [] && |st.pic.components| <= MAX_COMPONENTS
    ensures AllWellFormed(HeaderSegments(st, slices)) <==> SamplingFits(st.pic)
  {
    hide AllWellFormed;
    hide QuantSegments;
    hide VaHuffmanSegments;
    hide StandardHuffman;
    hide VaHuffmanUsable;
    var a, q, f, h, r := [App0(JFIF)], QuantSegments(UsedQuants(st.pic), st.iq, 4),
      [Sof0(8, st.pic.height, st.pic.width, st.pic.components)], HuffmanSegments(st, slices),
      RestartSegments(SameRestart(slices), slices[0].restart);
    var dc, ac := RequiredDc(slices), RequiredAc(slices);
    QuantSegmentsWellFormed(UsedQuants(st.pic), st.iq, 4);
    if VaHuffmanUsable(st, dc, ac) {
      VaSegmentsWellFormed(st, dc, ac, 2);
    } else {
      StandardWellFormed();
    }
    SmallSegmentsWellFormed(st.pic, SameRestart(slices), slices[0].restart);
    AllWellFormedAppend(a, q);
    AllWellFormedAppend(a + q, f);
    AllWellFormedAppend(a + q + f, h);
    AllWellFormedAppend(a + q + f + h, r);
  }

  lemma SmallSegmentsWellFormed(pic: Picture, wanted: bool, interval: U16)
    requires |pic.components| <= MAX_COMPONENTS
    ensures AllWellFormed([App0(JFIF)]) && AllWellFormed(RestartSegments(wanted, interval))
    ensures AllWellFormed([Sof0(8, pic.height, pic.width, pic.components)]) <==> SamplingFits(pic)
  {
    FrameComponentsLength(pic.components);
    var f := Sof0(8, pic.height, pic.width, pic.components);
    assert WellFormed(f) <==> SamplingFits(pic);
    assert f in [f];
  }

  lemma {:induction false} ManyScansWellFormed(pic: Picture, slices: seq<Slice>, data: seq<Byte>, perScan: bool)
    requires SlicesFit(slices, |data|) && forall s <- slices :: SliceAccepted(pic, s, |data|)
    ensures AllWellFormed(ManyScans(slices, data, perScan))
       <==> forall i :: 0 <= i < |slices| ==> MarkerFree(SliceBytes(slices[i], data))
  {
    hide AllWellFormed;
    hide MarkerFree;
    hide SliceBytes;
    if slices == [] {
      assert AllWellFormed([]) by { NoneWellFormed(); }
    } else {
      var n := |slices| - 1;
      var s, front := slices[n], slices[..n];
      ManyScansWellFormed(pic, front, data, perScan);
      var m, r := ManyScans(front, data, perScan), RestartSegments(perScan, s.restart);
      SmallSegmentsWellFormed(Picture(1, 1, []), perScan, s.restart);
      OneScanWellFormed(pic, s, SliceBytes(s, data), |data|);
      AllWellFormedAppend(m, r);
      AllWellFormedAppend(m + r, [ScanSegment(s.components, SliceBytes(s, data))]);
      assert forall i :: 0 <= i < n ==> front[i] == slices[i];
    }
  }

  lemma NoneWellFormed()
    ensures AllWellFormed([])
  {
  }

  lemma OneScanWellFormed(pic: Picture, s: Slice, d: seq<Byte>, dataSize: nat)
    requires SliceAccepted(pic, s, dataSize)
    ensures AllWellFormed([ScanSegment(s.components, d)]) <==> MarkerFree(d)
  {
    hide MarkerFree;
    ScanWellFormed(s.components, d);
    assert ScanSegment(s.components, d) in [ScanSegment(s.components, d)];
  }

  lemma OneScanForAll(pic: Picture, slices: seq<Slice>, data: seq<Byte>)
    requires slices != [] && SlicesFit(slices, |data|) && forall s <- slices :: SliceAccepted(pic, s, |data|)
    requires SameHeader(slices)
    ensures AllWellFormed(StripLast(ScanSegments(slices, data))) <==> MarkerFree(StripEoi(AllBytes(slices, data)))
  {
    hide AllWellFormed;
    hide MarkerFree;
    hide AllBytes;
    hide StripEoi;
    assert slices[0] in slices;
    var d := StripEoi(AllBytes(slices, data));
    assert StripLast(ScanSegments(slices, data)) == [ScanSegment(slices[0].components, d)];
    OneScanWellFormed(pic, slices[0], d, |data|);
  }

  lemma ScanForEach(pic: Picture, slices: seq<Slice>, data: seq<Byte>)
    requires slices != [] && SlicesFit(slices, |data|) && forall s <- slices :: SliceAccepted(pic, s, |data|)
    requires !SameHeader(slices)
    ensures AllWellFormed(StripLast(ScanSegments(slices, data))) <==> ScanDataClean(slices, data)
  {
    hide AllWellFormed;
    hide MarkerFree;
    hide SliceBytes;
    hide StripEoi;
    var n, perScan := |slices| - 1, !SameRestart(slices);
    var s, front := slices[n], slices[..n];
    assert s in slices;
    var m, r := ManyScans(front, data, perScan), RestartSegments(perScan, s.restart);
    var d := StripEoi(SliceBytes(s, data));
    StripLastSnoc(m + r, ScanSegment(s.components, SliceBytes(s, data)));
    assert StripLast(ScanSegments(slices, data)) == m + r + [ScanSegment(s.components, d)];
    ManyScansWellFormed(pic, front, data, perScan);
    SmallSegmentsWellFormed(Picture(1, 1, []), perScan, s.restart);
    OneScanWellFormed(pic, s, d, |data|);
    AllWellFormedAppend(m, r);
    AllWellFormedAppend(m + r, [ScanSegment(s.components, d)]);
    hide ManyScans;
    hide StripLast;
    hide RestartSegments;
    assert forall i :: 0 <= i < n ==> front[i] == slices[i];
  }

  lemma ScansWellFormed(pic: Picture, slices: seq<Slice>, data: seq<Byte>)
    requires slices != [] && SlicesFit(slices, |data|) && forall s <- slices :: SliceAccepted(pic, s, |data|)
    ensures AllWellFormed(StripLast(ScanSegments(slices, data))) <==> ScanDataClean(slices, data)
  {
    if SameHeader(slices) {
      OneScanForAll(pic, slices, data);
    } else {
      ScanForEach(pic, slices, data);
    }
    hide AllWellFormed;
    hide StripLast;
    hide ScanSegments;
    hide MarkerFree;
    hide SliceAccepted;
  }

  lemma StripLastSnoc(front: seq<Segment>, s: Segment)
    requires s.Scan?
    ensures StripLast(front + [s]) == front + [s.(data := StripEoi(s.data))]
  {
  }

  /** All segments of the image are well-formed exactly when the client's sampling factors and scan data are. */
  lemma ImageWellFormed(st: JpegState, slices: seq<Slice>, data: seq<Byte>)
    requires InputsAccepted(st, slices, |data|)
    ensures AllWellFormed(Image(st, slices, data)) <==> SamplingFits(st.pic) && ScanDataClean(slices, data)
  {
    hide AllWellFormed;
    hide HeaderSegments;
    hide ScanSegments;
    hide StripLast;
    hide SamplingFits;
    hide ScanDataClean;
    HeaderWellFormed(st, slices);
    ScansWellFormed(st.pic, slices, data);
    AllWellFormedAppend(HeaderSegments(st, slices), StripLast(ScanSegments(slices, data)));
  }

  /**
   Parse-back: from the reconstructed frame a parser recovers exactly the tables, headers and scan data of
   the image if and only if the sampling factors fit their nibbles and no scan hides a marker in its data.
   */
  lemma ParseBack(st: JpegState, slices: seq<Slice>, data: seq<Byte>)
    requires InputsAccepted(st, slices, |data|)
    ensures Parse(Encode(Image(st, slices, data))) == Some(Image(st, slices, data))
       <==> SamplingFits(st.pic) && ScanDataClean(slices, data)
  {
    ImageWellFormed(st, slices, data);
    EncodeParseRoundTrip(Image(st, slices, data));
  }

  // ---------------------------------------------------------------- inputs that do not parse back

  /** A picture of 8x8 with one component of sampling `h` by 1 and the given tables, the first of them loaded. */
  function OneComponent(h: Byte, iq: QuantTables, huff: HuffTables): JpegState {
    JpegState(Picture(8, 8, [FrameComponent(1, h, 1, 0)]), true, iq, true, {0}, huff, false, {}, {})
  }

  /** One slice of all the data. */
  function WholeSlice(size: U32): seq<Slice> {
    [Slice(size, 0, SLICE_DATA_FLAG_ALL, [ScanComponent(1, 0, 0)], 0)]
  }

  /** Both inputs below are accepted and make an image. */
  lemma OneComponentAccepted(h: Byte, iq: QuantTables, huff: HuffTables, size: U32)
    requires Sum(iq[0]) != 0
    ensures InputsAccepted(OneComponent(h, iq, huff), WholeSlice(size), size) && SlicesFit(WholeSlice(size), size)
    ensures QuantsNonEmpty(OneComponent(h, iq, huff))
  {
    var st, slices := OneComponent(h, iq, huff), WholeSlice(size);
    assert st.pic.components[0] == FrameComponent(1, h, 1, 0);
    assert st.pic.components[0] in st.pic.components;
    assert InFrame(st.pic, 1);
    assert UsedQuants(st.pic) == {0};
    forall s | s in slices ensures SliceAccepted(st.pic, s, size) {
      assert s == slices[0];
    }
  }

  /** A sampling factor of 16 does not fit its four bits: the accepted image parses to something else. */
  lemma SamplingSixteenLost(iq: QuantTables, huff: HuffTables)
    requires Sum(iq[0]) != 0
    ensures var st, slices := OneComponent(16, iq, huff), WholeSlice(0);
            && InputsAccepted(st, slices, 0) && SlicesFit(slices, 0) && QuantsNonEmpty(st)
            && Parse(Encode(Image(st, slices, []))) != Some(Image(st, slices, []))
  {
    var st, slices := OneComponent(16, iq, huff), WholeSlice(0);
    OneComponentAccepted(16, iq, huff, 0);
    assert st.pic.components[0] in st.pic.components && !SamplingFits(st.pic);
    ParseBack(st, slices, []);
  }

  /** A DHT marker inside the slice data: the accepted image parses to something else. */
  lemma MarkerInDataLost(iq: QuantTables, huff: HuffTables)
    requires Sum(iq[0]) != 0
    ensures var st, slices := OneComponent(1, iq, huff), WholeSlice(2);
            && InputsAccepted(st, slices, 2) && SlicesFit(slices, 2) && QuantsNonEmpty(st)
            && Parse(Encode(Image(st, slices, [0xFF, 0xC4]))) != Some(Image(st, slices, [0xFF, 0xC4]))
  {
    var st, slices := OneComponent(1, iq, huff), WholeSlice(2);
    var data: seq<Byte> := [0xFF, 0xC4];
    OneComponentAccepted(1, iq, huff, 2);
    WholeSliceNotClean(data);
    ParseBack(st, slices, data);
  }

  lemma WholeSliceNotClean(data: seq<Byte>)
    requires data == [0xFF, 0xC4]
    ensures SlicesFit(WholeSlice(2), 2) && !ScanDataClean(WholeSlice(2), data)
  {
    var slices := WholeSlice(2);
    assert slices[0] == Slice(2, 0, SLICE_DATA_FLAG_ALL, [ScanComponent(1, 0, 0)], 0);
    assert SlicesFit(slices, 2);
    assert SliceBytes(slices[0], data) == data;
    assert slices[..0] == [];
    assert AllBytes(slices, data) == data by {
      assert AllBytes([], data) == [];
    }
    assert SameHeader(slices);
    assert !EndsWithEoi(data) && StripEoi(data) == data;
    assert data[0] == MARKER && !IsRestart(data[1]) && !MarkerFree(data);
  }
}
