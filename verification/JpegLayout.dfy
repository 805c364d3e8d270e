/**
 Where the client's data ends up in the reconstructed image, byte by byte and field by field, said without the
 functions the writer is specified by.
 */
module JpegLayout {
  import opened Words
  import opened JpegSyntax
  import opened JpegImage
  import opened JpegDecoder
  import JpegWriter

  // ---------------------------------------------------------------- slice bytes

  /** Bytes of the slices before slice `i`. */
  function Before(slices: seq<Slice>, i: nat): nat
    requires i <= |slices|
  {
    if i == 0 then 0 else Before(slices, i - 1) + slices[i - 1].size as int
  }

  /** Where byte `j` of slice `i` lies in the data of all slices, and where it comes from. */
  function Position(slices: seq<Slice>, i: nat, j: nat): nat
    requires i < |slices|
  {
    Before(slices, i) + j
  }

  function Source(slices: seq<Slice>, i: nat, j: nat): nat
    requires i < |slices|
  {
    slices[i].offset as int + j
  }

  /** `d` is the data of all slices one behind the other, byte for byte. */
  ghost predicate Concatenates(d: seq<Byte>, slices: seq<Slice>, data: seq<Byte>) {
    && |d| == Before(slices, |slices|)
    && forall i, j :: 0 <= i < |slices| && 0 <= j < slices[i].size as int ==>
         && Position(slices, i, j) < |d| && Source(slices, i, j) < |data|
         && d[Position(slices, i, j)] == data[Source(slices, i, j)]
  }

  /** `d` is `full`, without a final FF D9. */
  predicate WithoutEoi(full: seq<Byte>, d: seq<Byte>) {
    d == if |full| >= 2 && full[|full| - 2] == 0xFF && full[|full| - 1] == 0xD9 then full[..|full| - 2] else full
  }

  /** `d` is the data of one slice, byte for byte. */
  ghost predicate IsSlice(d: seq<Byte>, s: Slice, data: seq<Byte>) {
    && |d| == s.size as int && s.offset as int + |d| <= |data|
    && forall j :: 0 <= j < |d| ==> d[j] == data[s.offset as int + j]
  }

  lemma {:induction false} BeforePrefix(slices: seq<Slice>, n: nat, i: nat)
    requires i <= n <= |slices|
    ensures Before(slices[..n], i) == Before(slices, i)
  {
    if i > 0 {
      BeforePrefix(slices, n, i - 1);
    }
  }

  lemma {:induction false} BeforeGrows(slices: seq<Slice>, n: nat, i: nat)
    requires i <= n <= |slices|
    ensures Before(slices, i) <= Before(slices, n)
    decreases n
  {
    if i < n {
      BeforeGrows(slices, n - 1, i);
    }
  }

  lemma SliceBytesAre(s: Slice, data: seq<Byte>)
    requires s.offset as int + s.size as int <= |data|
    ensures IsSlice(SliceBytes(s, data), s, data)
  {
  }

  lemma {:induction false} AllBytesConcatenate(slices: seq<Slice>, data: seq<Byte>)
    requires SlicesFit(slices, |data|)
    ensures Concatenates(AllBytes(slices, data), slices, data)
  {
    if slices != [] {
      var n := |slices| - 1;
      var front, s := slices[..n], slices[n];
      AllBytesConcatenate(front, data);
      SliceBytesAre(s, data);
      hide SliceBytes;
      var d, a, b := AllBytes(slices, data), AllBytes(front, data), SliceBytes(s, data);
      assert d == a + b;
      BeforePrefix(slices, n, n);
      hide AllBytes;
      forall i, j | 0 <= i < |slices| && 0 <= j < slices[i].size as int
        ensures && Position(slices, i, j) < |d| && Source(slices, i, j) < |data|
                && d[Position(slices, i, j)] == data[Source(slices, i, j)]
      {
        if i < n {
          BeforePrefix(slices, n, i);
          hide Before;
          assert front[i] == slices[i];
          assert Position(front, i, j) == Position(slices, i, j) && Source(front, i, j) == Source(slices, i, j);
        }
      }
    }
  }

  lemma StripIsWithout(full: seq<Byte>)
    ensures WithoutEoi(full, StripEoi(full))
  {
  }

  // ---------------------------------------------------------------- the scans of the image

  function Scans(segs: seq<Segment>): seq<Segment> {
    if segs == [] then []
    else Scans(segs[..|segs| - 1]) + if segs[|segs| - 1].Scan? then [segs[|segs| - 1]] else []
  }

  lemma {:induction false} ScansAppend(xs: seq<Segment>, ys: seq<Segment>)
    ensures Scans(xs + ys) == Scans(xs) + Scans(ys)
  {
    if ys == [] {
      assert xs + ys == xs;
    } else {
      var n := |ys| - 1;
      assert (xs + ys)[..|xs + ys| - 1] == xs + ys[..n];
      assert (xs + ys)[|xs + ys| - 1] == ys[n];
      ScansAppend(xs, ys[..n]);
    }
  }

  lemma {:induction false} NoScans(segs: seq<Segment>)
    requires forall s <- segs :: !s.Scan?
    ensures Scans(segs) == []
  {
    if segs != [] {
      NoScans(segs[..|segs| - 1]);
    }
  }

  lemma OneScanOf(s: Segment)
    requires s.Scan?
    ensures Scans([s]) == [s]
  {
    assert [s][..0] == [];
  }

  lemma ImageScans(st: JpegState, slices: seq<Slice>, data: seq<Byte>)
    requires slices != [] && SlicesFit(slices, |data|)
    ensures Scans(Image(st, slices, data)) == Scans(StripLast(ScanSegments(slices, data)))
  {
    hide HeaderSegments;
    hide ScanSegments;
    hide StripLast;
    HeaderHasNoScan(st, slices);
    NoScans(HeaderSegments(st, slices));
    ScansAppend(HeaderSegments(st, slices), StripLast(ScanSegments(slices, data)));
    hide Scans;
  }

  /**
   Equal scan headers: the image has one scan, with the common components and the whole spectrum, and its data is
   byte j of slice i at the sum of the earlier sizes plus j, but for an EOI the client put at the very end.
   */
  lemma OneScanOfAllSlices(st: JpegState, slices: seq<Slice>, data: seq<Byte>) returns (full: seq<Byte>)
    requires slices != [] && SlicesFit(slices, |data|)
    requires forall s <- slices :: s.components == slices[0].components
    ensures Concatenates(full, slices, data)
    ensures |Scans(Image(st, slices, data))| == 1
    ensures var scan := Scans(Image(st, slices, data))[0];
            && scan.Scan? && scan == Scan(slices[0].components, 0, 63, 0, scan.data)
            && WithoutEoi(full, scan.data)
  {
    full := AllBytes(slices, data);
    AllBytesConcatenate(slices, data);
    StripIsWithout(full);
    ImageScans(st, slices, data);
    var scan := ScanSegment(slices[0].components, StripEoi(full));
    assert StripLast(ScanSegments(slices, data)) == [scan];
    OneScanOf(scan);
    hide Image;
    hide Concatenates;
    hide Scans;
    hide WithoutEoi;
  }

  /** One more scan behind an optional DRI. */
  lemma ScansBehind(m: seq<Segment>, r: seq<Segment>, scan: Segment)
    requires (forall x <- r :: !x.Scan?) && scan.Scan?
    ensures Scans(m + r + [scan]) == Scans(m) + [scan]
  {
    NoScans(r);
    ScansAppend(m, r);
    ScansAppend(m + r, [scan]);
    OneScanOf(scan);
    hide Scans;
  }

  /** One scan per slice, without restart intervals. */
  function ScanList(slices: seq<Slice>, data: seq<Byte>): seq<Segment>
    requires SlicesFit(slices, |data|)
  {
    if slices == [] then []
    else
      var s := slices[|slices| - 1];
      ScanList(slices[..|slices| - 1], data) + [ScanSegment(s.components, SliceBytes(s, data))]
  }

  lemma {:induction false} ManyScansAre(slices: seq<Slice>, data: seq<Byte>, perScan: bool)
    requires SlicesFit(slices, |data|)
    ensures Scans(ManyScans(slices, data, perScan)) == ScanList(slices, data)
  {
    if slices != [] {
      var n := |slices| - 1;
      var front, s := slices[..n], slices[n];
      ManyScansAre(front, data, perScan);
      var m, r := ManyScans(front, data, perScan), RestartSegments(perScan, s.restart);
      var scan := ScanSegment(s.components, SliceBytes(s, data));
      assert ManyScans(slices, data, perScan) == m + r + [scan];
      hide SliceBytes;
      hide ManyScans;
      ScansBehind(m, r, scan);
      hide Scans;
      hide RestartSegments;
    }
  }

  lemma {:induction false} ScanListAt(slices: seq<Slice>, data: seq<Byte>, i: nat)
    requires SlicesFit(slices, |data|) && i < |slices|
    ensures |ScanList(slices, data)| == |slices| && slices[i] in slices
    ensures ScanList(slices, data)[i] == ScanSegment(slices[i].components, SliceBytes(slices[i], data))
  {
    var n := |slices| - 1;
    hide SliceBytes;
    if n > 0 {
      ScanListAt(slices[..n], data, if i < n then i else 0);
    }
  }

  lemma StripLastScan(front: seq<Segment>, s: Segment)
    requires s.Scan?
    ensures StripLast(front + [s]) == front + [s.(data := StripEoi(s.data))]
  {
    assert (front + [s])[..|front|] == front;
  }

  lemma RestartIsNoScan(wanted: bool, interval: U16)
    ensures forall x <- RestartSegments(wanted, interval) :: !x.Scan?
  {
  }

  lemma StrippedScans(slices: seq<Slice>, data: seq<Byte>)
    requires slices != [] && SlicesFit(slices, |data|) && !SameHeader(slices)
    ensures var n, perScan := |slices| - 1, !SameRestart(slices);
            && slices[n] in slices && SlicesFit(slices[..n], |data|)
            && StripLast(ScanSegments(slices, data)) ==
               ManyScans(slices[..n], data, perScan) + RestartSegments(perScan, slices[n].restart)
               + [ScanSegment(slices[n].components, StripEoi(SliceBytes(slices[n], data)))]
  {
    hide StripEoi;
    hide SameHeader;
    hide SameRestart;
    hide SliceBytes;
    var n, perScan := |slices| - 1, !SameRestart(slices);
    var s := slices[n];
    var m, r := ManyScans(slices[..n], data, perScan), RestartSegments(perScan, s.restart);
    hide RestartSegments;
    assert ScanSegments(slices, data) == m + r + [ScanSegment(s.components, SliceBytes(s, data))];
    hide ManyScans;
    hide ScanSegments;
    StripLastScan(m + r, ScanSegment(s.components, SliceBytes(s, data)));
    hide StripLast;
  }

  lemma PerSliceScans(st: JpegState, slices: seq<Slice>, data: seq<Byte>)
    requires slices != [] && SlicesFit(slices, |data|) && !SameHeader(slices)
    ensures var n := |slices| - 1;
            slices[n] in slices && Scans(Image(st, slices, data)) == ScanList(slices[..n], data)
              + [ScanSegment(slices[n].components, StripEoi(SliceBytes(slices[n], data)))]
  {
    hide StripEoi;
    hide SameHeader;
    hide SameRestart;
    hide Image;
    hide ScanSegments;
    hide StripLast;
    hide ScanList;
    hide SliceBytes;
    hide ManyScans;
    hide RestartSegments;
    var n, perScan := |slices| - 1, !SameRestart(slices);
    var front, s := slices[..n], slices[n];
    ImageScans(st, slices, data);
    StrippedScans(slices, data);
    ManyScansAre(front, data, perScan);
    var r := RestartSegments(perScan, s.restart);
    RestartIsNoScan(perScan, s.restart);
    ScansBehind(ManyScans(front, data, perScan), r, ScanSegment(s.components, StripEoi(SliceBytes(s, data))));
    hide Scans;
  }

  /** Scan `i` is that of slice `i`: its components, the whole spectrum, and data that `full` says. */
  ghost predicate IsScanOf(scan: Segment, s: Slice, full: seq<Byte>, data: seq<Byte>) {
    && scan.Scan? && scan == Scan(s.components, 0, 63, 0, scan.data)
    && IsSlice(full, s, data)
  }

  /**
   Differing scan headers: the image has one scan for each slice, in order, with that slice's components and the
   whole spectrum; its data is the slice's, byte j from the slice's offset plus j, but for an EOI at the very end.
   */
  lemma OneScanPerSlice(st: JpegState, slices: seq<Slice>, data: seq<Byte>, i: nat) returns (full: seq<Byte>)
    requires slices != [] && SlicesFit(slices, |data|) && i < |slices|
    requires exists s <- slices :: s.components != slices[0].components
    ensures |Scans(Image(st, slices, data))| == |slices|
    ensures var scan := Scans(Image(st, slices, data))[i];
            && IsScanOf(scan, slices[i], full, data)
            && if i == |slices| - 1 then WithoutEoi(full, scan.data) else scan.data == full
  {
    hide Image;
    hide Scans;
    hide ScanList;
    hide StripEoi;
    hide IsSlice;
    hide WithoutEoi;
    var n := |slices| - 1;
    assert slices[i] in slices;
    full := SliceBytes(slices[i], data);
    SliceBytesAre(slices[i], data);
    StripIsWithout(full);
    PerSliceScans(st, slices, data);
    ScanListLength(slices[..n], data);
    if i < n {
      ScanListAt(slices[..n], data, i);
    }
    hide SliceBytes;
  }

  lemma {:induction false} ScanListLength(slices: seq<Slice>, data: seq<Byte>)
    requires SlicesFit(slices, |data|)
    ensures |ScanList(slices, data)| == |slices|
  {
    if slices != [] {
      ScanListLength(slices[..|slices| - 1], data);
    }
  }

  // ---------------------------------------------------------------- the frame header

  /** The image starts with the JFIF segment and has exactly one frame header, with the picture's own fields. */
  lemma OneFrameHeader(st: JpegState, slices: seq<Slice>, data: seq<Byte>) returns (k: nat)
    requires InputsAccepted(st, slices, |data|) && SlicesFit(slices, |data|)
    ensures var image := Image(st, slices, data);
            && k < |image| && image[k] == Sof0(8, st.pic.height, st.pic.width, st.pic.components)
            && (forall i :: 0 <= i < |image| && i != k ==> !image[i].Sof0?)
            && image[0] == App0([0x4A, 0x46, 0x49, 0x46, 0, 1, 1, 0, 0, 1, 0, 1, 0, 0])
  {
    var q := QuantSegments(UsedQuants(st.pic), st.iq, 4);
    k := 1 + |q|;
    var image := Image(st, slices, data);
    FrameAt(st, slices, data);
    forall i | 0 <= i < |image| && i != k ensures !image[i].Sof0? {
      if image[i].Sof0? {
        QuantsDefinedBeforeUse(st, slices, data, i);
        FrameOnlyThere(st, slices, data, i);
      }
    }
  }

  lemma FrameAt(st: JpegState, slices: seq<Slice>, data: seq<Byte>)
    requires slices != [] && SlicesFit(slices, |data|)
    ensures var image, k := Image(st, slices, data), 1 + |QuantSegments(UsedQuants(st.pic), st.iq, 4)|;
            && k < |image| && image[0] == App0(JFIF)
            && image[k] == Sof0(8, st.pic.height, st.pic.width, st.pic.components)
  {
    hide QuantSegments;
    hide HuffmanSegments;
    hide RestartSegments;
    hide ScanSegments;
    hide StripLast;
  }

  lemma FrameOnlyThere(st: JpegState, slices: seq<Slice>, data: seq<Byte>, i: nat)
    requires slices != [] && SlicesFit(slices, |data|)
    requires i < |Image(st, slices, data)| && Image(st, slices, data)[i].Sof0?
    ensures i == 1 + |QuantSegments(UsedQuants(st.pic), st.iq, 4)|
  {
    hide QuantSegments;
    hide HuffmanSegments;
    hide RestartSegments;
    hide ScanSegments;
    hide StripLast;
    hide UsedQuants;
    hide SameRestart;
    var q := QuantSegments(UsedQuants(st.pic), st.iq, 4);
    var sof := Sof0(8, st.pic.height, st.pic.width, st.pic.components);
    var tail := HuffmanSegments(st, slices) + RestartSegments(SameRestart(slices), slices[0].restart);
    var scans := StripLast(ScanSegments(slices, data));
    QuantSegmentsInForce(UsedQuants(st.pic), st.iq, 4, 0);
    HeaderTail(st, slices);
    ScanKinds(slices, data);
    var image := Image(st, slices, data);
    assert image == [App0(JFIF)] + q + [sof] + (tail + scans);
    hide Image;
    hide QuantInForce;
    OnlySof0([App0(JFIF)] + q, sof, tail + scans, i);
    assert |image[..i]| == |[App0(JFIF)] + q|;
  }

  // ---------------------------------------------------------------- segments as bytes

  /** The frame header on the wire: lines before samples, sampling factors and the quantiser of each component. */
  lemma FrameHeaderBytes()
    ensures EncodeSegment(Sof0(8, 0x1234, 0x5678, [FrameComponent(9, 2, 1, 3)]))
         == [0xFF, 0xC0, 0x00, 0x0B, 8, 0x12, 0x34, 0x56, 0x78, 1, 9, 0x21, 3]
  {
    assert PackNibbles(2, 1) == 0x21 by {
      BitOrNibble(2, 1);
    }
    var cs := [FrameComponent(9, 2, 1, 3)];
    FrameHeaderPayload(cs, 0x21);
    hide PackNibbles;
    hide Payload;
  }

  lemma FrameHeaderPayload(cs: seq<FrameComponent>, packed: Byte)
    requires cs == [FrameComponent(9, 2, 1, 3)] && PackNibbles(2, 1) == packed
    ensures Payload(Sof0(8, 0x1234, 0x5678, cs)) == [8, 0x12, 0x34, 0x56, 0x78, 1, 9, packed, 3]
  {
    hide PackNibbles;
    assert EncodeFrameComponents(cs[1..]) == [];
    assert EncodeFrameComponents(cs) == [9, packed, 3];
    hide EncodeFrameComponents;
  }

  /** A scan on the wire: DC selector in the high half, the spectrum, then the data. */
  lemma ScanBytes()
    ensures EncodeSegment(Scan([ScanComponent(7, 1, 0)], 0, 63, 0, [0xAB]))
         == [0xFF, 0xDA, 0x00, 0x08, 1, 7, 0x10, 0, 63, 0, 0xAB]
  {
    assert PackNibbles(1, 0) == 0x10 by {
      BitOrNibble(1, 0);
    }
    var cs := [ScanComponent(7, 1, 0)];
    assert EncodeScanComponents(cs[1..]) == [];
    assert EncodeScanComponents(cs) == [7, 0x10];
  }

  /** A restart interval, and the start and the end of a file. */
  lemma RestartAndFileBytes(segs: seq<Segment>)
    ensures EncodeSegment(Dri(0x0102)) == [0xFF, 0xDD, 0x00, 0x04, 0x01, 0x02]
    ensures Encode(segs) == [0xFF, 0xD8] + EncodeAll(segs) + [0xFF, 0xD9]
  {
  }

  /** A table of class 1 and destination 0, with its length and its values behind the counts. */
  lemma HuffmanBytes(counts: seq<Byte>, values: seq<Byte>)
    requires |counts| == 16 && |values| == 3
    ensures EncodeSegment(Dht([HuffDef(1, 0, counts, values)])) == [0xFF, 0xC4, 0x00, 0x16, 0x10] + counts + values
  {
    JpegWriter.DhtLayout(1, 0, counts, values);
    hide EncodeSegment;
    assert PackNibbles(1, 0) == 0x10 by {
      BitOrNibble(1, 0);
    }
    hide PackNibbles;
    assert U16be(22) == [0x00, 0x16];
    assert [0xFF, 0xC4] + [0x00, 0x16] + [0x10] == [0xFF, 0xC4, 0x00, 0x16, 0x10];
  }

  /** A quantiser table, with its length and its number. */
  lemma QuantBytes(values: seq<Byte>)
    requires |values| == 64
    ensures EncodeSegment(Dqt([QuantDef(3, values)])) == [0xFF, 0xDB, 0x00, 0x43, 3] + values
  {
    var q: QuantTable := values;
    JpegWriter.DqtLayout(3, q);
    hide EncodeSegment;
  }
}
