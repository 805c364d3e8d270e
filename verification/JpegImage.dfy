/**
 What `reconstructJPEG` (src/jpeg.c) should produce, said without writing a byte: the conditions on
 its inputs and, for accepted inputs, the list of segments of the image. A `uint8_t` bit mask is
 modelled by the set of its bit numbers.
 */
module JpegImage {
  import opened Words
  import opened JpegSyntax

  const MAX_COMPONENTS := 4
  /** `VA_SLICE_DATA_FLAG_ALL`. */
  const SLICE_DATA_FLAG_ALL: U32 := 0

  type QuantTable = q: seq<Byte> | |q| == 64 witness seq(64, _ => 0)

  datatype HuffBuffer = HuffBuffer(dcCodes: seq<Byte>, dcValues: seq<Byte>, acCodes: seq<Byte>, acValues: seq<Byte>)

  type HuffTable = h: HuffBuffer | |h.dcCodes| == 16 && |h.dcValues| == 12 && |h.acCodes| == 16 && |h.acValues| == 162
    witness HuffBuffer(seq(16, _ => 0), seq(12, _ => 0), seq(16, _ => 0), seq(162, _ => 0))

  const ZERO_QUANT: QuantTable := seq(64, _ => 0)
  const ZERO_HUFF: HuffTable := HuffBuffer(seq(16, _ => 0), seq(12, _ => 0), seq(16, _ => 0), seq(162, _ => 0))

  type QuantTables = q: seq<QuantTable> | |q| == 4
    witness [ZERO_QUANT, ZERO_QUANT, ZERO_QUANT, ZERO_QUANT]

  type HuffTables = h: seq<HuffTable> | |h| == 2
    witness [ZERO_HUFF, ZERO_HUFF]

  /** The picture parameter buffer; `num_components` is the length of `components`. */
  datatype Picture = Picture(width: U16, height: U16, components: seq<FrameComponent>)

  /** One slice parameter element; `num_components` is the length of `components`. */
  datatype Slice = Slice(size: U32, offset: U32, flag: U32, components: seq<ScanComponent>, restart: U16)

  /** The value of a `JPEGContext`. */
  datatype JpegState = JpegState(
    pic: Picture, hasPic: bool,
    iq: QuantTables, hasIq: bool, validQuant: set<int>,
    huff: HuffTables, hasHuff: bool, validDc: set<int>, validAc: set<int>)

  const JFIF: seq<Byte> := [0x4A, 0x46, 0x49, 0x46, 0x00, 0x01, 0x01, 0x00, 0x00, 0x01, 0x00, 0x01, 0x00, 0x00]

  // ---------------------------------------------------------------- what the image should be

  function UsedQuants(pic: Picture): set<int> {
    set c <- pic.components :: c.quant as int
  }

  function DcOf(s: Slice): set<int> {
    set c <- s.components :: c.dc as int
  }

  function AcOf(s: Slice): set<int> {
    set c <- s.components :: c.ac as int
  }

  /** DC table selectors named by any slice. */
  function RequiredDc(slices: seq<Slice>): set<int> {
    if slices == [] then {} else RequiredDc(slices[..|slices| - 1]) + DcOf(slices[|slices| - 1])
  }

  function RequiredAc(slices: seq<Slice>): set<int> {
    if slices == [] then {} else RequiredAc(slices[..|slices| - 1]) + AcOf(slices[|slices| - 1])
  }

  predicate InFrame(pic: Picture, id: Byte) {
    exists c <- pic.components :: c.id == id
  }

  predicate SliceAccepted(pic: Picture, s: Slice, dataSize: nat) {
    && s.flag == SLICE_DATA_FLAG_ALL
    && 1 <= |s.components| <= MAX_COMPONENTS
    && (forall c <- s.components :: InFrame(pic, c.selector) && c.dc <= 1 && c.ac <= 1)
    && s.offset as int + s.size as int <= dataSize
  }

  /** Everything `reconstructJPEG` asks of its inputs before it starts to print. */
  predicate InputsAccepted(st: JpegState, slices: seq<Slice>, dataSize: nat) {
    && st.hasPic && st.hasIq
    && st.pic.width != 0 && st.pic.height != 0
    && 1 <= |st.pic.components| <= MAX_COMPONENTS
    && (forall c <- st.pic.components :: c.quant < 4)
    && UsedQuants(st.pic) <= st.validQuant
    && slices != []
    && forall s <- slices :: SliceAccepted(st.pic, s, dataSize)
  }

  /** Every table the frame uses has a non-zero entry. */
  predicate QuantsNonEmpty(st: JpegState) {
    forall t :: 0 <= t < 4 && t in UsedQuants(st.pic) ==> Sum(st.iq[t]) != 0
  }

  function QuantSegments(used: set<int>, iq: QuantTables, n: nat): seq<Segment>
    requires n <= 4
  {
    if n == 0 then []
    else QuantSegments(used, iq, n - 1) + if n - 1 in used then [Dqt([QuantDef(n - 1, iq[n - 1])])] else []
  }

  predicate DcUsable(h: HuffTable) {
    1 <= Sum(h.dcCodes) <= 12
  }

  predicate AcUsable(h: HuffTable) {
    1 <= Sum(h.acCodes) <= 162
  }

  /** The tables of index `t` that the scans need were loaded and are usable. */
  predicate PairReady(huff: HuffTables, t: nat, dc: set<int>, ac: set<int>, validDc: set<int>, validAc: set<int>)
    requires t < 2
  {
    && (t in dc ==> t in validDc && DcUsable(huff[t]))
    && (t in ac ==> t in validAc && AcUsable(huff[t]))
  }

  /** The loaded Huffman tables are complete and valid for the scans. */
  predicate VaHuffmanUsable(st: JpegState, dc: set<int>, ac: set<int>) {
    && st.hasHuff && dc <= st.validDc && ac <= st.validAc
    && forall t :: 0 <= t < 2 ==> PairReady(st.huff, t, dc, ac, st.validDc, st.validAc)
  }

  /** A loaded table as a segment: as many values as the code counts announce. */
  function TableSegment(cls: Byte, id: Byte, codes: seq<Byte>, values: seq<Byte>): Segment {
    Dht([HuffDef(cls, id, codes, values[..Min(Sum(codes), |values|)])])
  }

  function DcSegment(huff: HuffTables, t: nat): Segment
    requires t < 2
  {
    TableSegment(0, t, huff[t].dcCodes, huff[t].dcValues)
  }

  function AcSegment(huff: HuffTables, t: nat): Segment
    requires t < 2
  {
    TableSegment(1, t, huff[t].acCodes, huff[t].acValues)
  }

  /** The loaded tables below index `n` that the scans name: DC before AC, table 0 before table 1. */
  function VaHuffmanSegments(huff: HuffTables, dc: set<int>, ac: set<int>, n: nat): seq<Segment>
    requires n <= 2
  {
    if n == 0 then []
    else
      VaHuffmanSegments(huff, dc, ac, n - 1)
      + (if n - 1 in dc then [DcSegment(huff, n - 1)] else [])
      + (if n - 1 in ac then [AcSegment(huff, n - 1)] else [])
  }

  const DC_LUMINANCE_BITS: seq<Byte> := [0, 1, 5, 1, 1, 1, 1, 1, 1, 0, 0, 0, 0, 0, 0, 0]
  const DC_VALUES: seq<Byte> := [0, 1, 2, 3, 4, 5, 6, 7, 8, 9, 10, 11]
  const DC_CHROMINANCE_BITS: seq<Byte> := [0, 3, 1, 1, 1, 1, 1, 1, 1, 1, 1, 0, 0, 0, 0, 0]
  const AC_LUMINANCE_BITS: seq<Byte> := [0, 2, 1, 3, 3, 2, 4, 3, 5, 5, 4, 4, 0, 0, 1, 0x7d]
  const AC_CHROMINANCE_BITS: seq<Byte> := [0, 2, 1, 2, 4, 4, 3, 4, 7, 5, 4, 4, 0, 1, 2, 0x77]
  const AC_LUMINANCE_VALUES: seq<Byte> := [
    0x01, 0x02, 0x03, 0x00, 0x04, 0x11, 0x05, 0x12, 0x21, 0x31, 0x41, 0x06, 0x13, 0x51, 0x61, 0x07,
    0x22, 0x71, 0x14, 0x32, 0x81, 0x91, 0xa1, 0x08, 0x23, 0x42, 0xb1, 0xc1, 0x15, 0x52, 0xd1, 0xf0,
    0x24, 0x33, 0x62, 0x72, 0x82, 0x09, 0x0a, 0x16, 0x17, 0x18, 0x19, 0x1a, 0x25, 0x26, 0x27, 0x28,
    0x29, 0x2a, 0x34, 0x35, 0x36, 0x37, 0x38, 0x39, 0x3a, 0x43, 0x44, 0x45, 0x46, 0x47, 0x48, 0x49,
    0x4a, 0x53, 0x54, 0x55, 0x56, 0x57, 0x58, 0x59, 0x5a, 0x63, 0x64, 0x65, 0x66, 0x67, 0x68, 0x69,
    0x6a, 0x73, 0x74, 0x75, 0x76, 0x77, 0x78, 0x79, 0x7a, 0x83, 0x84, 0x85, 0x86, 0x87, 0x88, 0x89,
    0x8a, 0x92, 0x93, 0x94, 0x95, 0x96, 0x97, 0x98, 0x99, 0x9a, 0xa2, 0xa3, 0xa4, 0xa5, 0xa6, 0xa7,
    0xa8, 0xa9, 0xaa, 0xb2, 0xb3, 0xb4, 0xb5, 0xb6, 0xb7, 0xb8, 0xb9, 0xba, 0xc2, 0xc3, 0xc4, 0xc5,
    0xc6, 0xc7, 0xc8, 0xc9, 0xca, 0xd2, 0xd3, 0xd4, 0xd5, 0xd6, 0xd7, 0xd8, 0xd9, 0xda, 0xe1, 0xe2,
    0xe3, 0xe4, 0xe5, 0xe6, 0xe7, 0xe8, 0xe9, 0xea, 0xf1, 0xf2, 0xf3, 0xf4, 0xf5, 0xf6, 0xf7, 0xf8,
    0xf9, 0xfa]

  const AC_CHROMINANCE_VALUES: seq<Byte> := [
    0x00, 0x01, 0x02, 0x03, 0x11, 0x04, 0x05, 0x21, 0x31, 0x06, 0x12, 0x41, 0x51, 0x07, 0x61, 0x71,
    0x13, 0x22, 0x32, 0x81, 0x08, 0x14, 0x42, 0x91, 0xa1, 0xb1, 0xc1, 0x09, 0x23, 0x33, 0x52, 0xf0,
    0x15, 0x62, 0x72, 0xd1, 0x0a, 0x16, 0x24, 0x34, 0xe1, 0x25, 0xf1, 0x17, 0x18, 0x19, 0x1a, 0x26,
    0x27, 0x28, 0x29, 0x2a, 0x35, 0x36, 0x37, 0x38, 0x39, 0x3a, 0x43, 0x44, 0x45, 0x46, 0x47, 0x48,
    0x49, 0x4a, 0x53, 0x54, 0x55, 0x56, 0x57, 0x58, 0x59, 0x5a, 0x63, 0x64, 0x65, 0x66, 0x67, 0x68,
    0x69, 0x6a, 0x73, 0x74, 0x75, 0x76, 0x77, 0x78, 0x79, 0x7a, 0x82, 0x83, 0x84, 0x85, 0x86, 0x87,
    0x88, 0x89, 0x8a, 0x92, 0x93, 0x94, 0x95, 0x96, 0x97, 0x98, 0x99, 0x9a, 0xa2, 0xa3, 0xa4, 0xa5,
    0xa6, 0xa7, 0xa8, 0xa9, 0xaa, 0xb2, 0xb3, 0xb4, 0xb5, 0xb6, 0xb7, 0xb8, 0xb9, 0xba, 0xc2, 0xc3,
    0xc4, 0xc5, 0xc6, 0xc7, 0xc8, 0xc9, 0xca, 0xd2, 0xd3, 0xd4, 0xd5, 0xd6, 0xd7, 0xd8, 0xd9, 0xda,
    0xe2, 0xe3, 0xe4, 0xe5, 0xe6, 0xe7, 0xe8, 0xe9, 0xea, 0xf2, 0xf3, 0xf4, 0xf5, 0xf6, 0xf7, 0xf8,
    0xf9, 0xfa]

  /** The tables of Annex K.3, in the order `writeStandardHuffmanTables` emits them. */
  function StandardHuffman(): seq<Segment> {
    [Dht([HuffDef(0, 0, DC_LUMINANCE_BITS, DC_VALUES)]),
     Dht([HuffDef(0, 1, DC_CHROMINANCE_BITS, DC_VALUES)]),
     Dht([HuffDef(1, 0, AC_LUMINANCE_BITS, AC_LUMINANCE_VALUES)]),
     Dht([HuffDef(1, 1, AC_CHROMINANCE_BITS, AC_CHROMINANCE_VALUES)])]
  }

  function HuffmanSegments(st: JpegState, slices: seq<Slice>): seq<Segment> {
    var dc, ac := RequiredDc(slices), RequiredAc(slices);
    if VaHuffmanUsable(st, dc, ac) then VaHuffmanSegments(st.huff, dc, ac, 2) else StandardHuffman()
  }

  predicate SameRestart(slices: seq<Slice>)
    requires slices != []
  {
    forall s <- slices :: s.restart == slices[0].restart
  }

  predicate SameHeader(slices: seq<Slice>)
    requires slices != []
  {
    forall s <- slices :: s.components == slices[0].components
  }

  /** The bytes a slice refers to. */
  function SliceBytes(s: Slice, data: seq<Byte>): seq<Byte>
    requires s.offset as int + s.size as int <= |data|
  {
    data[s.offset as int..s.offset as int + s.size as int]
  }

  predicate SlicesFit(slices: seq<Slice>, dataSize: nat) {
    forall s <- slices :: s.offset as int + s.size as int <= dataSize
  }

  function AllBytes(slices: seq<Slice>, data: seq<Byte>): seq<Byte>
    requires SlicesFit(slices, |data|)
  {
    if slices == [] then []
    else AllBytes(slices[..|slices| - 1], data) + SliceBytes(slices[|slices| - 1], data)
  }

  function TotalSize(slices: seq<Slice>): nat {
    if slices == [] then 0 else TotalSize(slices[..|slices| - 1]) + slices[|slices| - 1].size as int
  }

  function ScanSegment(components: seq<ScanComponent>, data: seq<Byte>): Segment {
    Scan(components, 0, 63, 0, data)
  }

  /** The DRI segment that announces a non-zero interval, if `wanted`. */
  function RestartSegments(wanted: bool, interval: U16): seq<Segment> {
    if wanted && interval != 0 then [Dri(interval)] else []
  }

  /** One scan per slice, each preceded by its restart interval when `perScan` holds. */
  function ManyScans(slices: seq<Slice>, data: seq<Byte>, perScan: bool): seq<Segment>
    requires SlicesFit(slices, |data|)
  {
    if slices == [] then []
    else
      var s := slices[|slices| - 1];
      ManyScans(slices[..|slices| - 1], data, perScan) + RestartSegments(perScan, s.restart)
      + [ScanSegment(s.components, SliceBytes(s, data))]
  }

  function ScanSegments(slices: seq<Slice>, data: seq<Byte>): seq<Segment>
    requires slices != [] && SlicesFit(slices, |data|)
  {
    if SameHeader(slices) then [ScanSegment(slices[0].components, AllBytes(slices, data))]
    else ManyScans(slices, data, !SameRestart(slices))
  }

  /** The tables and the frame header, in the order of the file. */
  function HeaderSegments(st: JpegState, slices: seq<Slice>): seq<Segment>
    requires slices != []
  {
    [App0(JFIF)] + QuantSegments(UsedQuants(st.pic), st.iq, 4)
    + [Sof0(8, st.pic.height, st.pic.width, st.pic.components)]
    + HuffmanSegments(st, slices) + RestartSegments(SameRestart(slices), slices[0].restart)
  }

  predicate EndsWithEoi(b: seq<Byte>) {
    |b| >= 2 && b[|b| - 2] == MARKER && b[|b| - 1] == EOI
  }

  function StripEoi(d: seq<Byte>): seq<Byte> {
    if EndsWithEoi(d) then d[..|d| - 2] else d
  }

  /** An EOI that the client put at the very end is not part of the last scan. */
  function StripLast(segs: seq<Segment>): seq<Segment> {
    if segs == [] then []
    else
      var last := segs[|segs| - 1];
      segs[..|segs| - 1] + [if last.Scan? then last.(data := StripEoi(last.data)) else last]
  }

  /** The segments of the finished image. */
  function Image(st: JpegState, slices: seq<Slice>, data: seq<Byte>): seq<Segment>
    requires slices != [] && SlicesFit(slices, |data|)
  {
    HeaderSegments(st, slices) + StripLast(ScanSegments(slices, data))
  }

  /** The worst case that `reconstructJPEG` computes, before reduction to 64 bits. */
  function MaxSize(components: nat, slices: nat, total: nat): nat {
    20 + 4 * (2 + 2 + 1 + 64)
    + (2 + 2 + 1 + 2 + 2 + 1 + components * 3)
    + 2 * ((2 + 2 + 1 + 16 + 12) + (2 + 2 + 1 + 16 + 162))
    + slices * (2 + 2 + 2)
    + slices * (2 + 2 + 1 + 4 * 2 + 3)
    + total + 2
  }
}
