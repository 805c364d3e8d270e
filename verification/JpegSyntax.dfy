/**
 The compressed-data syntax of sections B.1.1 and B.2 of ISO/IEC 10918-1, as far as a baseline
 frame needs it: marker segments with a two-byte length that counts itself, fill bytes before a
 marker, and entropy-coded data that runs up to the next marker that is not a restart marker.
 `Encode` is the reference encoder for a list of segments and `Parse` a parser that knows nothing
 of how the bytes were made; the two are inverse to each other exactly on well-formed segments.
 */
module JpegSyntax {
  import opened Words

  const MARKER: Byte := 0xFF
  const SOI: Byte := 0xD8
  const EOI: Byte := 0xD9
  const APP0: Byte := 0xE0
  const DQT: Byte := 0xDB
  const SOF0: Byte := 0xC0
  const DHT: Byte := 0xC4
  const DRI: Byte := 0xDD
  const SOS: Byte := 0xDA

  datatype FrameComponent = FrameComponent(id: Byte, h: Byte, v: Byte, quant: Byte)
  datatype ScanComponent = ScanComponent(selector: Byte, dc: Byte, ac: Byte)
  datatype QuantDef = QuantDef(id: Byte, values: seq<Byte>)
  datatype HuffDef = HuffDef(cls: Byte, id: Byte, counts: seq<Byte>, values: seq<Byte>)

  datatype Segment =
    | App0(payload: seq<Byte>)
    | Dqt(quants: seq<QuantDef>)
    | Sof0(precision: Byte, height: U16, width: U16, frame: seq<FrameComponent>)
    | Dht(huffs: seq<HuffDef>)
    | Dri(interval: U16)
    | Scan(scan: seq<ScanComponent>, ss: Byte, se: Byte, approx: Byte, data: seq<Byte>)

  // ---------------------------------------------------------------- reference encoder

  function EncodeQuants(defs: seq<QuantDef>): seq<Byte> {
    if defs == [] then [] else [defs[0].id] + defs[0].values + EncodeQuants(defs[1..])
  }

  function EncodeHuffs(defs: seq<HuffDef>): seq<Byte> {
    if defs == [] then []
    else [PackNibbles(defs[0].cls, defs[0].id)] + defs[0].counts + defs[0].values + EncodeHuffs(defs[1..])
  }

  function EncodeFrameComponents(cs: seq<FrameComponent>): seq<Byte> {
    if cs == [] then []
    else [cs[0].id, PackNibbles(cs[0].h, cs[0].v), cs[0].quant] + EncodeFrameComponents(cs[1..])
  }

  function EncodeScanComponents(cs: seq<ScanComponent>): seq<Byte> {
    if cs == [] then []
    else [cs[0].selector, PackNibbles(cs[0].dc, cs[0].ac)] + EncodeScanComponents(cs[1..])
  }

  function Code(s: Segment): Byte {
    match s
    case App0(_) => APP0
    case Dqt(_) => DQT
    case Sof0(_, _, _, _) => SOF0
    case Dht(_) => DHT
    case Dri(_) => DRI
    case Scan(_, _, _, _, _) => SOS
  }

  function Payload(s: Segment): seq<Byte> {
    match s
    case App0(p) => p
    case Dqt(qs) => EncodeQuants(qs)
    case Sof0(p, h, w, cs) => [p] + U16be(h) + U16be(w) + [|cs| % 256] + EncodeFrameComponents(cs)
    case Dht(hs) => EncodeHuffs(hs)
    case Dri(n) => U16be(n)
    case Scan(cs, ss, se, a, _) => [|cs| % 256] + EncodeScanComponents(cs) + [ss, se, a]
  }

  /** Entropy-coded bytes that follow the segment proper. */
  function Trailer(s: Segment): seq<Byte> {
    if s.Scan? then s.data else []
  }

  function EncodeSegment(s: Segment): seq<Byte> {
    [MARKER, Code(s)] + U16be((2 + |Payload(s)|) % 0x1_0000) + Payload(s) + Trailer(s)
  }

  function EncodeAll(segs: seq<Segment>): seq<Byte> {
    if segs == [] then [] else EncodeSegment(segs[0]) + EncodeAll(segs[1..])
  }

  /** A whole image: SOI, the segments, EOI. */
  function Encode(segs: seq<Segment>): seq<Byte> {
    [MARKER, SOI] + EncodeAll(segs) + [MARKER, EOI]
  }

  // ---------------------------------------------------------------- well-formed segments

  predicate IsRestart(b: Byte) {
    0xD0 <= b <= 0xD7
  }

  /** Entropy-coded data: every 0xFF is followed by a stuffed zero or is part of a restart marker (B.1.1.5). */
  predicate MarkerFree(d: seq<Byte>) {
    forall i :: 0 <= i < |d| && d[i] == MARKER ==> i + 1 < |d| && (d[i + 1] == 0 || IsRestart(d[i + 1]))
  }

  predicate WellFormed(s: Segment) {
    && |Payload(s)| <= U16_MAX - 2
    && match s
       case App0(_) => true
       case Dqt(qs) => forall q <- qs :: q.id < 16 && |q.values| == 64
       case Sof0(_, _, _, cs) => |cs| < 256 && forall c <- cs :: c.h < 16 && c.v < 16
       case Dht(hs) => forall h <- hs :: h.cls < 16 && h.id < 16 && |h.counts| == 16 && |h.values| == Sum(h.counts)
       case Dri(_) => true
       case Scan(cs, _, _, _, d) => |cs| < 256 && (forall c <- cs :: c.dc < 16 && c.ac < 16) && MarkerFree(d)
  }

  predicate AllWellFormed(segs: seq<Segment>) {
    forall s <- segs :: WellFormed(s)
  }

  // ---------------------------------------------------------------- parser

  function ParseQuants(p: seq<Byte>): Option<seq<QuantDef>> {
    if p == [] then Some([])
    else if |p| < 65 || p[0] / 16 != 0 then None
    else
      match ParseQuants(p[65..])
      case None => None
      case Some(rest) => Some([QuantDef(p[0], p[1..65])] + rest)
  }

  function ParseHuffs(p: seq<Byte>): Option<seq<HuffDef>>
    decreases |p|
  {
    if p == [] then Some([])
    else if |p| < 17 then None
    else
      var n := Sum(p[1..17]);
      if |p| < 17 + n then None
      else
        match ParseHuffs(p[17 + n..])
        case None => None
        case Some(rest) => Some([HuffDef(p[0] / 16, p[0] % 16, p[1..17], p[17..17 + n])] + rest)
  }

  function ParseFrameComponents(p: seq<Byte>): seq<FrameComponent> {
    if |p| < 3 then []
    else [FrameComponent(p[0], p[1] / 16, p[1] % 16, p[2])] + ParseFrameComponents(p[3..])
  }

  function ParseScanComponents(p: seq<Byte>): seq<ScanComponent> {
    if |p| < 2 then []
    else [ScanComponent(p[0], p[1] / 16, p[1] % 16)] + ParseScanComponents(p[2..])
  }

  function ParsePayload(code: Byte, p: seq<Byte>, data: seq<Byte>): Option<Segment> {
    if code == APP0 then Some(App0(p))
    else if code == DQT then
      match ParseQuants(p)
      case None => None
      case Some(qs) => Some(Dqt(qs))
    else if code == SOF0 then
      if |p| < 6 || |p| != 6 + 3 * (p[5] as int) then None
      else Some(Sof0(p[0], FromU16be(p[1], p[2]), FromU16be(p[3], p[4]), ParseFrameComponents(p[6..])))
    else if code == DHT then
      match ParseHuffs(p)
      case None => None
      case Some(hs) => Some(Dht(hs))
    else if code == DRI then
      if |p| != 2 then None else Some(Dri(FromU16be(p[0], p[1])))
    else if code == SOS then
      if |p| < 1 || |p| != 4 + 2 * (p[0] as int) then None
      else Some(Scan(ParseScanComponents(p[1..|p| - 3]), p[|p| - 3], p[|p| - 2], p[|p| - 1], data))
    else None
  }

  /** Length of the entropy-coded data at the head of `s`: up to the first marker that is not RSTn. */
  function EcsLength(s: seq<Byte>): (n: nat)
    ensures n <= |s|
  {
    if |s| == 0 then 0
    else if s[0] != MARKER then 1 + EcsLength(s[1..])
    else if |s| >= 2 && (s[1] == 0 || IsRestart(s[1])) then 2 + EcsLength(s[2..])
    else 0
  }

  /** Splits off what the two-byte length at the head of `s` covers. */
  function Cut(s: seq<Byte>): (r: Option<(seq<Byte>, seq<Byte>)>)
    ensures r.Some? ==> |r.value.0| <= U16_MAX - 2 && |r.value.1| < |s|
  {
    if |s| < 2 then None
    else
      var len := FromU16be(s[0], s[1]) as int;
      if len < 2 || |s| < len then None else Some((s[2..len], s[len..]))
  }

  /** Parses the segment whose marker code is `code` and whose length field starts `s`; also returns what follows. */
  function ParseSegment(code: Byte, s: seq<Byte>): (r: Option<(Segment, seq<Byte>)>)
    ensures r.Some? ==> |r.value.1| < |s|
  {
    match Cut(s)
    case None => None
    case Some((payload, rest)) =>
      var n := if code == SOS then EcsLength(rest) else 0;
      match ParsePayload(code, payload, rest[..n])
      case None => None
      case Some(seg) => Some((seg, rest[n..]))
  }

  function ParseSegments(s: seq<Byte>): Option<seq<Segment>>
    decreases |s|
  {
    if |s| < 2 || s[0] != MARKER then None
    else if s[1] == MARKER then ParseSegments(s[1..])
    else if s[1] == EOI then if |s| == 2 then Some([]) else None
    else
      match ParseSegment(s[1], s[2..])
      case None => None
      case Some((seg, rest)) =>
        match ParseSegments(rest)
        case None => None
        case Some(segs) => Some([seg] + segs)
  }

  function Parse(s: seq<Byte>): Option<seq<Segment>> {
    if |s| >= 2 && s[0] == MARKER && s[1] == SOI then ParseSegments(s[2..]) else None
  }

  // ---------------------------------------------------------------- entropy-coded data

  /** In front of a marker, the scanner stops exactly at the end of marker-free data. */
  lemma {:induction false} EcsLengthStops(d: seq<Byte>, t: seq<Byte>)
    requires MarkerFree(d)
    requires |t| >= 2 && t[0] == MARKER && t[1] != 0 && !IsRestart(t[1])
    ensures EcsLength(d + t) == |d|
  {
    if d == [] {
      assert d + t == t;
    } else if d[0] != MARKER {
      assert (d + t)[1..] == d[1..] + t;
      assert forall i :: 0 <= i < |d[1..]| ==> d[1..][i] == d[i + 1];
      EcsLengthStops(d[1..], t);
    } else {
      assert (d + t)[2..] == d[2..] + t;
      assert forall i :: 0 <= i < |d[2..]| ==> d[2..][i] == d[i + 2];
      EcsLengthStops(d[2..], t);
    }
  }

  /** Whatever the scanner accepts is marker-free. */
  lemma {:induction false} EcsIsMarkerFree(s: seq<Byte>)
    ensures MarkerFree(s[..EcsLength(s)])
  {
    if |s| == 0 {
    } else if s[0] != MARKER {
      EcsIsMarkerFree(s[1..]);
      var d, d' := s[..EcsLength(s)], s[1..][..EcsLength(s[1..])];
      assert d == [s[0]] + d';
      forall i | 0 <= i < |d| && d[i] == MARKER ensures i + 1 < |d| && (d[i + 1] == 0 || IsRestart(d[i + 1])) {
        assert d'[i - 1] == d[i];
      }
    } else if |s| >= 2 && (s[1] == 0 || IsRestart(s[1])) {
      EcsIsMarkerFree(s[2..]);
      var d, d' := s[..EcsLength(s)], s[2..][..EcsLength(s[2..])];
      assert d == [s[0], s[1]] + d';
      forall i | 0 <= i < |d| && d[i] == MARKER ensures i + 1 < |d| && (d[i + 1] == 0 || IsRestart(d[i + 1])) {
        if i >= 2 {
          assert d'[i - 2] == d[i];
        }
      }
    }
  }

  // ---------------------------------------------------------------- round trip of payloads

  lemma {:induction false} QuantsRoundTrip(qs: seq<QuantDef>)
    requires forall q <- qs :: q.id < 16 && |q.values| == 64
    ensures ParseQuants(EncodeQuants(qs)) == Some(qs)
  {
    if qs != [] {
      QuantsRoundTrip(qs[1..]);
      Parts([qs[0].id], qs[0].values, EncodeQuants(qs[1..]));
      assert qs == [qs[0]] + qs[1..];
    }
  }

  lemma {:induction false} HuffsRoundTrip(hs: seq<HuffDef>)
    requires forall h <- hs :: h.cls < 16 && h.id < 16 && |h.counts| == 16 && |h.values| == Sum(h.counts)
    ensures ParseHuffs(EncodeHuffs(hs)) == Some(hs)
  {
    if hs != [] {
      HuffsRoundTrip(hs[1..]);
      var p, h := EncodeHuffs(hs), hs[0];
      PackNibblesSplits(h.cls, h.id);
      assert p[1..17] == h.counts;
      assert p[17..17 + |h.values|] == h.values;
      assert p[17 + |h.values|..] == EncodeHuffs(hs[1..]);
      assert hs == [h] + hs[1..];
    }
  }

  lemma {:induction false} FrameComponentsLength(cs: seq<FrameComponent>)
    ensures |EncodeFrameComponents(cs)| == 3 * |cs|
  {
    if cs != [] {
      FrameComponentsLength(cs[1..]);
    }
  }

  lemma {:induction false} ScanComponentsLength(cs: seq<ScanComponent>)
    ensures |EncodeScanComponents(cs)| == 2 * |cs|
  {
    if cs != [] {
      ScanComponentsLength(cs[1..]);
    }
  }

  lemma {:induction false} FrameComponentsRoundTrip(cs: seq<FrameComponent>)
    requires forall c <- cs :: c.h < 16 && c.v < 16
    ensures |EncodeFrameComponents(cs)| == 3 * |cs|
    ensures ParseFrameComponents(EncodeFrameComponents(cs)) == cs
  {
    if cs != [] {
      FrameComponentsRoundTrip(cs[1..]);
      PackNibblesSplits(cs[0].h, cs[0].v);
      assert EncodeFrameComponents(cs)[3..] == EncodeFrameComponents(cs[1..]);
      assert cs == [cs[0]] + cs[1..];
    }
  }

  lemma {:induction false} ScanComponentsRoundTrip(cs: seq<ScanComponent>)
    requires forall c <- cs :: c.dc < 16 && c.ac < 16
    ensures |EncodeScanComponents(cs)| == 2 * |cs|
    ensures ParseScanComponents(EncodeScanComponents(cs)) == cs
  {
    if cs != [] {
      ScanComponentsRoundTrip(cs[1..]);
      PackNibblesSplits(cs[0].dc, cs[0].ac);
      assert EncodeScanComponents(cs)[2..] == EncodeScanComponents(cs[1..]);
      assert cs == [cs[0]] + cs[1..];
    }
  }

  lemma Sof0RoundTrip(s: Segment)
    requires WellFormed(s) && s.Sof0?
    ensures ParsePayload(SOF0, Payload(s), []) == Some(s)
  {
    hide PackNibbles;
    var fixed := [s.precision] + U16be(s.height) + U16be(s.width) + [|s.frame| % 256];
    FrameComponentsRoundTrip(s.frame);
    Parts(fixed, EncodeFrameComponents(s.frame), []);
    assert Payload(s) == fixed + EncodeFrameComponents(s.frame) + [];
    assert Payload(s)[..6] == fixed;
  }

  /** How the payload of an SOS segment is taken apart. */
  lemma ParseSos(p: seq<Byte>, data: seq<Byte>, n: Byte, cs: seq<Byte>, ss: Byte, se: Byte, approx: Byte)
    requires p == [n] + cs + [ss, se, approx] && |cs| == 2 * (n as int)
    ensures ParsePayload(SOS, p, data) == Some(Scan(ParseScanComponents(cs), ss, se, approx, data))
  {
    hide ParseScanComponents;
    assert |p| == 4 + 2 * (n as int) && p[0] == n;
    assert p[1..|p| - 3] == cs;
    assert p[|p| - 3] == ss && p[|p| - 2] == se && p[|p| - 1] == approx;
  }

  lemma ScanRoundTrip(s: Segment)
    requires WellFormed(s) && s.Scan?
    ensures ParsePayload(SOS, Payload(s), s.data) == Some(s)
  {
    ScanComponentsRoundTrip(s.scan);
    var cs, n := EncodeScanComponents(s.scan), |s.scan| % 256;
    assert n == |s.scan|;
    ParseSos([n] + cs + [s.ss, s.se, s.approx], s.data, n, cs, s.ss, s.se, s.approx);
    assert Payload(s) == [n] + cs + [s.ss, s.se, s.approx];
    hide ParsePayload;
  }

  lemma PayloadRoundTrip(s: Segment)
    requires WellFormed(s)
    ensures ParsePayload(Code(s), Payload(s), Trailer(s)) == Some(s)
  {
    match s
    case App0(_) =>
    case Dqt(qs) => QuantsRoundTrip(qs);
    case Sof0(_, _, _, _) => Sof0RoundTrip(s);
    case Dht(hs) => HuffsRoundTrip(hs);
    case Dri(_) =>
    case Scan(_, _, _, _, _) => ScanRoundTrip(s);
  }

  // ---------------------------------------------------------------- round trip of images

  /** The length field is exact: cutting at it returns the payload and all that follows. */
  lemma CutPayload(p: seq<Byte>, t: seq<Byte>)
    requires |p| <= U16_MAX - 2
    ensures Cut(U16be(2 + |p|) + p + t) == Some((p, t))
  {
    Parts(U16be(2 + |p|), p, t);
  }

  /** What follows the marker of a segment, up to the end of the file. */
  function AfterMarker(s: Segment, t: seq<Byte>): seq<Byte>
    requires WellFormed(s)
  {
    U16be(2 + |Payload(s)|) + Payload(s) + (Trailer(s) + t)
  }

  lemma SegmentLayout(s: Segment, t: seq<Byte>)
    requires WellFormed(s)
    ensures EncodeSegment(s) + t == [MARKER, Code(s)] + AfterMarker(s, t)
  {
    var p := Payload(s);
    assert (2 + |p|) % 0x1_0000 == 2 + |p|;
    hide WellFormed;
    hide Payload;
    hide Trailer;
    hide Code;
    hide U16be;
    Regroup([MARKER, Code(s)], U16be(2 + |p|), p, Trailer(s), t);
  }

  /** One segment in front of anything that starts with a proper marker is parsed off. */
  lemma SegmentParses(s: Segment, t: seq<Byte>)
    requires WellFormed(s)
    requires |t| >= 2 && t[0] == MARKER && t[1] != 0 && !IsRestart(t[1])
    ensures ParseSegment(Code(s), AfterMarker(s, t)) == Some((s, t))
  {
    PayloadRoundTrip(s);
    CutPayload(Payload(s), Trailer(s) + t);
    var n := if Code(s) == SOS then EcsLength(Trailer(s) + t) else 0;
    assert n == |Trailer(s)| by {
      if s.Scan? {
        EcsLengthStops(s.data, t);
      }
    }
    hide Cut;
    hide ParsePayload;
    hide Payload;
    hide EcsLength;
    hide U16be;
    hide Trailer;
    assert (Trailer(s) + t)[..n] == Trailer(s) && (Trailer(s) + t)[n..] == t;
  }

  lemma ParseStep(code: Byte, body: seq<Byte>, s: Segment, t: seq<Byte>, segs: seq<Segment>)
    requires code != MARKER && code != EOI
    requires ParseSegment(code, body) == Some((s, t)) && ParseSegments(t) == Some(segs)
    ensures ParseSegments([MARKER, code] + body) == Some([s] + segs)
  {
    var b: seq<Byte> := [MARKER, code] + body;
    assert b[2..] == body;
  }

  lemma SegmentPrepends(s: Segment, t: seq<Byte>, segs: seq<Segment>)
    requires WellFormed(s)
    requires |t| >= 2 && t[0] == MARKER && t[1] != 0 && !IsRestart(t[1])
    requires ParseSegments(t) == Some(segs)
    ensures ParseSegments(EncodeSegment(s) + t) == Some([s] + segs)
  {
    SegmentParses(s, t);
    SegmentLayout(s, t);
    ParseStep(Code(s), AfterMarker(s, t), s, t, segs);
  }

  lemma MarkerAhead(segs: seq<Segment>)
    ensures var t := EncodeAll(segs) + [MARKER, EOI]; |t| >= 2 && t[0] == MARKER && t[1] != 0 && !IsRestart(t[1])
  {
    if segs != [] {
      assert EncodeSegment(segs[0])[..2] == [MARKER, Code(segs[0])];
    }
  }

  lemma NothingParses()
    ensures ParseSegments([MARKER, EOI]) == Some([])
  {
  }

  lemma {:induction false} SegmentsRoundTrip(segs: seq<Segment>)
    requires AllWellFormed(segs)
    ensures ParseSegments(EncodeAll(segs) + [MARKER, EOI]) == Some(segs)
  {
    hide ParseSegments;
    hide EncodeSegment;
    hide WellFormed;
    var eoi: seq<Byte> := [MARKER, EOI];
    if segs == [] {
      NothingParses();
      assert EncodeAll(segs) + eoi == eoi;
    } else {
      SegmentsRoundTrip(segs[1..]);
      var s, rest := segs[0], EncodeAll(segs[1..]);
      assert EncodeAll(segs) == EncodeSegment(s) + rest;
      MarkerAhead(segs[1..]);
      hide EncodeAll;
      SegmentPrepends(s, rest + eoi, segs[1..]);
      Parts(EncodeSegment(s), rest, eoi);
      assert segs == [s] + segs[1..];
    }
  }

  // ---------------------------------------------------------------- whatever parses is well-formed

  lemma {:induction false} ParsedQuantsWellFormed(p: seq<Byte>)
    requires ParseQuants(p).Some?
    ensures forall q <- ParseQuants(p).value :: q.id < 16 && |q.values| == 64
    ensures |EncodeQuants(ParseQuants(p).value)| == |p|
  {
    if p != [] {
      ParsedQuantsWellFormed(p[65..]);
      var qs := ParseQuants(p).value;
      assert qs[1..] == ParseQuants(p[65..]).value;
    }
  }

  lemma {:induction false} ParsedHuffsWellFormed(p: seq<Byte>)
    requires ParseHuffs(p).Some?
    ensures forall h <- ParseHuffs(p).value ::
              h.cls < 16 && h.id < 16 && |h.counts| == 16 && |h.values| == Sum(h.counts)
    ensures |EncodeHuffs(ParseHuffs(p).value)| == |p|
    decreases |p|
  {
    if p != [] {
      var n := Sum(p[1..17]);
      ParsedHuffsWellFormed(p[17 + n..]);
      var hs := ParseHuffs(p).value;
      assert hs[1..] == ParseHuffs(p[17 + n..]).value;
    }
  }

  lemma {:induction false} ParsedFrameComponentsWellFormed(p: seq<Byte>)
    requires |p| % 3 == 0
    ensures forall c <- ParseFrameComponents(p) :: c.h < 16 && c.v < 16
    ensures |p| == 3 * |ParseFrameComponents(p)| == |EncodeFrameComponents(ParseFrameComponents(p))|
  {
    if |p| >= 3 {
      ParsedFrameComponentsWellFormed(p[3..]);
      assert ParseFrameComponents(p)[1..] == ParseFrameComponents(p[3..]);
    }
  }

  lemma {:induction false} ParsedScanComponentsWellFormed(p: seq<Byte>)
    requires |p| % 2 == 0
    ensures forall c <- ParseScanComponents(p) :: c.dc < 16 && c.ac < 16
    ensures |p| == 2 * |ParseScanComponents(p)| == |EncodeScanComponents(ParseScanComponents(p))|
  {
    if |p| >= 2 {
      ParsedScanComponentsWellFormed(p[2..]);
      assert ParseScanComponents(p)[1..] == ParseScanComponents(p[2..]);
    }
  }

  /** A parsed payload is a well-formed segment. */
  lemma ParsedPayloadWellFormed(code: Byte, p: seq<Byte>, data: seq<Byte>)
    requires |p| <= U16_MAX - 2 && MarkerFree(data)
    requires ParsePayload(code, p, data).Some?
    ensures WellFormed(ParsePayload(code, p, data).value)
  {
    if code == DQT {
      ParsedQuantsWellFormed(p);
    } else if code == SOF0 {
      ParsedFrameComponentsWellFormed(p[6..]);
    } else if code == DHT {
      ParsedHuffsWellFormed(p);
    } else if code == SOS {
      ParsedScanComponentsWellFormed(p[1..|p| - 3]);
    }
  }

  lemma {:induction false} ParsedSegmentsWellFormed(s: seq<Byte>)
    requires ParseSegments(s).Some?
    ensures AllWellFormed(ParseSegments(s).value)
    decreases |s|
  {
    if s[1] == MARKER {
      ParsedSegmentsWellFormed(s[1..]);
    } else if s[1] != EOI {
      var (payload, rest) := Cut(s[2..]).value;
      var n := if s[1] == SOS then EcsLength(rest) else 0;
      EcsIsMarkerFree(rest);
      ParsedPayloadWellFormed(s[1], payload, rest[..n]);
      ParsedSegmentsWellFormed(rest[n..]);
    }
  }

  /** The parser recovers a list of segments from its encoding if and only if every segment is well-formed. */
  lemma EncodeParseRoundTrip(segs: seq<Segment>)
    ensures Parse(Encode(segs)) == Some(segs) <==> AllWellFormed(segs)
  {
    var b := Encode(segs);
    assert b[2..] == EncodeAll(segs) + [MARKER, EOI];
    if AllWellFormed(segs) {
      SegmentsRoundTrip(segs);
    }
    if Parse(b) == Some(segs) {
      ParsedSegmentsWellFormed(b[2..]);
    }
  }

  lemma {:induction false} EncodeAllAppend(xs: seq<Segment>, ys: seq<Segment>)
    ensures EncodeAll(xs + ys) == EncodeAll(xs) + EncodeAll(ys)
  {
    if xs == [] {
      assert xs + ys == ys;
    } else {
      assert (xs + ys)[1..] == xs[1..] + ys;
      EncodeAllAppend(xs[1..], ys);
    }
  }
}
