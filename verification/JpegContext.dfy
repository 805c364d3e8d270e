/**
 The JPEG codec's buffer handlers (src/jpeg.c:111-122 and 605-743). Quantiser and Huffman tables persist
 across pictures, picture and slice parameters do not. `Context` is the mutable codec context, `Step` says
 what each handler does to its value, and the lemmas speak about every run of handlers.
 */
module JpegContext {
  import opened Words
  import opened JpegSyntax
  import opened JpegImage
  import opened JpegDecoder
  import JpegWriter

  type Flags4 = f: seq<bool> | |f| == 4 witness [false, false, false, false]
  type Flags2 = f: seq<bool> | |f| == 2 witness [false, false]

  /** A buffer passed to vaRenderPicture, or the start of a picture. */
  datatype Event =
    | BeginPicture
    | PicParam(pic: Picture)
    | IqMatrix(loadQuant: Flags4, quants: QuantTables)
    | HuffmanTable(loadHuff: Flags2, huffs: HuffTables)
    | SliceParam(slices: seq<Slice>)

  datatype CodecState = CodecState(jpeg: JpegState, slices: seq<Slice>)

  const NO_PICTURE := Picture(0, 0, [])

  /** A fresh context: nothing loaded. What its tables contain does not matter. */
  predicate Fresh(s: CodecState) {
    && !s.jpeg.hasPic && !s.jpeg.hasIq && !s.jpeg.hasHuff
    && s.jpeg.validQuant == {} && s.jpeg.validDc == {} && s.jpeg.validAc == {} && s.slices == []
  }

  predicate PictureUsable(pic: Picture) {
    pic.width != 0 && pic.height != 0 && 1 <= |pic.components| <= MAX_COMPONENTS
  }

  /** The table indices below `n` whose load flag is set. */
  function Loaded(load: seq<bool>, n: nat): set<int>
    requires n <= |load|
  {
    if n == 0 then {} else Loaded(load, n - 1) + if load[n - 1] then {n - 1} else {}
  }

  lemma {:induction false} LoadedIs(load: seq<bool>, n: nat, t: int)
    requires n <= |load|
    ensures t in Loaded(load, n) <==> 0 <= t < n && load[t]
  {
    if n != 0 {
      LoadedIs(load, n - 1, t);
    }
  }

  function LoadQuants(current: QuantTables, load: Flags4, buffer: QuantTables): QuantTables {
    [if load[0] then buffer[0] else current[0], if load[1] then buffer[1] else current[1],
     if load[2] then buffer[2] else current[2], if load[3] then buffer[3] else current[3]]
  }

  function LoadHuffs(current: HuffTables, load: Flags2, buffer: HuffTables): HuffTables {
    [if load[0] then buffer[0] else current[0], if load[1] then buffer[1] else current[1]]
  }

  function ApplyIq(j: JpegState, load: Flags4, quants: QuantTables, valid: set<int>): JpegState {
    j.(iq := LoadQuants(j.iq, load, quants), validQuant := valid, hasIq := valid != {})
  }

  function ApplyHuffman(j: JpegState, load: Flags2, huffs: HuffTables, dc: set<int>, ac: set<int>): JpegState {
    j.(huff := LoadHuffs(j.huff, load, huffs), validDc := dc, validAc := ac, hasHuff := dc + ac != {})
  }

  /** What one handler does to the value of the context. */
  function Step(s: CodecState, e: Event): CodecState {
    match e
    case BeginPicture => CodecState(s.jpeg.(pic := NO_PICTURE, hasPic := false), [])
    case PicParam(pic) => s.(jpeg := s.jpeg.(pic := pic, hasPic := PictureUsable(pic)))
    case IqMatrix(load, quants) =>
      s.(jpeg := ApplyIq(s.jpeg, load, quants, s.jpeg.validQuant + Loaded(load, 4)))
    case HuffmanTable(load, huffs) =>
      s.(jpeg := ApplyHuffman(s.jpeg, load, huffs, s.jpeg.validDc + Loaded(load, 2), s.jpeg.validAc + Loaded(load, 2)))
    case SliceParam(slices) => s.(slices := slices)
  }

  function Run(start: CodecState, events: seq<Event>): CodecState {
    if events == [] then start else Step(Run(start, events[..|events| - 1]), events[|events| - 1])
  }

  // ---------------------------------------------------------------- what was loaded last

  function QuantLoadedBy(e: Event, t: nat): Option<QuantTable>
    requires t < 4
  {
    if e.IqMatrix? && e.loadQuant[t] then Some(e.quants[t]) else None
  }

  function HuffLoadedBy(e: Event, t: nat): Option<HuffTable>
    requires t < 2
  {
    if e.HuffmanTable? && e.loadHuff[t] then Some(e.huffs[t]) else None
  }

  /** The last quantiser table `t` that an IQ buffer of the run asked to load. */
  function LastLoadedQuant(events: seq<Event>, t: nat): Option<QuantTable>
    requires t < 4
  {
    if events == [] then None
    else Or(QuantLoadedBy(events[|events| - 1], t), LastLoadedQuant(events[..|events| - 1], t))
  }

  /** The last Huffman table pair `t` that a Huffman buffer of the run asked to load. */
  function LastLoadedHuff(events: seq<Event>, t: nat): Option<HuffTable>
    requires t < 2
  {
    if events == [] then None
    else Or(HuffLoadedBy(events[|events| - 1], t), LastLoadedHuff(events[..|events| - 1], t))
  }

  /** The picture parameters given since the last picture began. */
  function CurrentPicture(events: seq<Event>): Option<Picture> {
    if events == [] || events[|events| - 1].BeginPicture? then None
    else if events[|events| - 1].PicParam? then Some(events[|events| - 1].pic)
    else CurrentPicture(events[..|events| - 1])
  }

  /** The slice parameters given last since the last picture began. */
  function CurrentSlices(events: seq<Event>): seq<Slice> {
    if events == [] || events[|events| - 1].BeginPicture? then []
    else if events[|events| - 1].SliceParam? then events[|events| - 1].slices
    else CurrentSlices(events[..|events| - 1])
  }

  lemma StepQuant(s: CodecState, e: Event, t: nat)
    requires t < 4
    ensures var s', q := Step(s, e).jpeg, QuantLoadedBy(e, t);
            && (t in s'.validQuant <==> t in s.jpeg.validQuant || q.Some?)
            && s'.iq[t] == (if q.Some? then q.value else s.jpeg.iq[t])
            && (t in s.jpeg.validQuant && s.jpeg.hasIq ==> s'.hasIq) && (q.Some? ==> s'.hasIq)
  {
    if e.IqMatrix? {
      LoadedIs(e.loadQuant, 4, t);
    }
  }

  /** After every run a quantiser table is valid exactly if it was ever loaded, and is then the last one loaded. */
  lemma {:induction false} QuantsAreLastLoaded(start: CodecState, events: seq<Event>, t: nat)
    requires t < 4 && Fresh(start)
    ensures t in Run(start, events).jpeg.validQuant <==> LastLoadedQuant(events, t).Some?
    ensures LastLoadedQuant(events, t).Some? ==> Run(start, events).jpeg.iq[t] == LastLoadedQuant(events, t).value
    ensures t in Run(start, events).jpeg.validQuant ==> Run(start, events).jpeg.hasIq
  {
    if events != [] {
      var front, e := events[..|events| - 1], events[|events| - 1];
      QuantsAreLastLoaded(start, front, t);
      StepQuant(Run(start, front), e, t);
      hide Step;
    }
  }

  lemma {:induction false} HuffmanIsLastLoaded(start: CodecState, events: seq<Event>, t: nat)
    requires t < 2 && Fresh(start)
    ensures t in Run(start, events).jpeg.validDc <==> LastLoadedHuff(events, t).Some?
    ensures t in Run(start, events).jpeg.validAc <==> LastLoadedHuff(events, t).Some?
    ensures LastLoadedHuff(events, t).Some? ==> Run(start, events).jpeg.huff[t] == LastLoadedHuff(events, t).value
    ensures t in Run(start, events).jpeg.validDc ==> Run(start, events).jpeg.hasHuff
  {
    if events != [] {
      HuffmanIsLastLoaded(start, events[..|events| - 1], t);
      var e := events[|events| - 1];
      if e.HuffmanTable? {
        LoadedIs(e.loadHuff, 2, t);
      }
    }
  }

  /** Picture and slice parameters are those of the current picture only. */
  lemma {:induction false} PictureIsCurrent(start: CodecState, events: seq<Event>)
    requires Fresh(start)
    ensures Run(start, events).jpeg.hasPic <==>
      CurrentPicture(events).Some? && PictureUsable(CurrentPicture(events).value)
    ensures CurrentPicture(events).Some? ==> Run(start, events).jpeg.pic == CurrentPicture(events).value
    ensures Run(start, events).slices == CurrentSlices(events)
  {
    if events != [] {
      PictureIsCurrent(start, events[..|events| - 1]);
    }
  }

  // ---------------------------------------------------------------- over whole runs

  lemma LoadedBelow(load: seq<bool>, n: nat)
    requires n <= |load|
    ensures forall t :: t in Loaded(load, n) ==> 0 <= t < n
  {
    forall t | t in Loaded(load, n) ensures 0 <= t < n {
      LoadedIs(load, n, t);
    }
  }

  /** The summary flags say that some table is valid; only existing tables are. */
  lemma {:induction false} FlagsSayValid(start: CodecState, events: seq<Event>)
    requires Fresh(start)
    ensures var j := Run(start, events).jpeg;
            && (j.hasIq <==> j.validQuant != {}) && (j.hasHuff <==> j.validDc + j.validAc != {})
            && (forall t :: t in j.validQuant ==> 0 <= t < 4)
            && (forall t :: t in j.validDc + j.validAc ==> 0 <= t < 2)
  {
    if events != [] {
      var e := events[|events| - 1];
      FlagsSayValid(start, events[..|events| - 1]);
      if e.IqMatrix? {
        LoadedBelow(e.loadQuant, 4);
      } else if e.HuffmanTable? {
        LoadedBelow(e.loadHuff, 2);
      }
      hide Loaded;
    }
  }

  lemma SomeOf(s: set<int>) returns (t: int)
    requires s != {}
    ensures t in s
  {
    assert (forall t :: t !in s) ==> s == {};
    t :| t in s;
  }

  /**
   After any run: there is a picture if the current one has a size and one to four components, quantisers if one was
   ever loaded, and Huffman tables if a pair was.
   */
  lemma ValidityOverRuns(start: CodecState, events: seq<Event>)
    requires Fresh(start)
    ensures var j, p := Run(start, events).jpeg, CurrentPicture(events);
            && (j.hasPic <==> p.Some? && p.value.width > 0 && p.value.height > 0 && 1 <= |p.value.components| <= 4)
            && (j.hasIq <==> exists t :: 0 <= t < 4 && LastLoadedQuant(events, t).Some?)
            && (j.hasHuff <==> exists t :: 0 <= t < 2 && LastLoadedHuff(events, t).Some?)
  {
    hide Run;
    hide LastLoadedQuant;
    hide LastLoadedHuff;
    hide CurrentPicture;
    PictureIsCurrent(start, events);
    FlagsSayValid(start, events);
    forall t: nat | t < 4
      ensures t in Run(start, events).jpeg.validQuant <==> LastLoadedQuant(events, t).Some?
    {
      QuantsAreLastLoaded(start, events, t);
    }
    forall t: nat | t < 2
      ensures t in Run(start, events).jpeg.validDc <==> LastLoadedHuff(events, t).Some?
      ensures t in Run(start, events).jpeg.validAc <==> LastLoadedHuff(events, t).Some?
    {
      HuffmanIsLastLoaded(start, events, t);
    }
    var j := Run(start, events).jpeg;
    if j.validQuant != {} {
      var t := SomeOf(j.validQuant);
      assert 0 <= t < 4 && LastLoadedQuant(events, t).Some?;
    } else {
      assert forall t :: 0 <= t < 4 ==> t !in j.validQuant;
    }
    if j.validDc + j.validAc != {} {
      var t := SomeOf(j.validDc + j.validAc);
      assert 0 <= t < 2 && LastLoadedHuff(events, t).Some?;
    } else {
      assert forall t :: 0 <= t < 2 ==> t !in j.validDc + j.validAc;
    }
  }

  /** After any run, the inputs are accepted exactly if the handlers were given all that is needed. */
  lemma AcceptedOverRuns(start: CodecState, events: seq<Event>, size: nat)
    requires Fresh(start)
    ensures var s, p := Run(start, events), CurrentPicture(events);
            InputsAccepted(s.jpeg, s.slices, size) <==>
            && p.Some? && p.value.width > 0 && p.value.height > 0 && 1 <= |p.value.components| <= 4
            && (forall c <- p.value.components :: c.quant < 4 && LastLoadedQuant(events, c.quant).Some?)
            && CurrentSlices(events) != []
            && forall x <- CurrentSlices(events) :: SliceAccepted(p.value, x, size)
  {
    var s, p := Run(start, events), CurrentPicture(events);
    PictureIsCurrent(start, events);
    ValidityOverRuns(start, events);
    forall t: nat | t < 4 ensures t in s.jpeg.validQuant <==> LastLoadedQuant(events, t).Some? {
      QuantsAreLastLoaded(start, events, t);
    }
    hide Run;
    hide LastLoadedQuant;
    hide LastLoadedHuff;
    hide CurrentPicture;
    hide CurrentSlices;
    hide SliceAccepted;
    if p.Some? {
      assert forall c <- s.jpeg.pic.components :: c.quant as int in UsedQuants(s.jpeg.pic);
      assert p.value.components != [] ==> p.value.components[0] in p.value.components;
    }
  }

  /**
   Define before use with latest contents: after any run of handlers, in the frame made from accepted slice
   data the table in force for a component of the frame header is the one loaded last under its selector.
   */
  lemma RunQuantsLatest(start: CodecState, events: seq<Event>, data: seq<Byte>, k: nat, c: FrameComponent)
    requires Fresh(start)
    requires var s := Run(start, events); InputsAccepted(s.jpeg, s.slices, |data|) && SlicesFit(s.slices, |data|)
    requires var s := Run(start, events);
             k < |Image(s.jpeg, s.slices, data)| && Image(s.jpeg, s.slices, data)[k].Sof0?
             && c in Image(s.jpeg, s.slices, data)[k].frame
    ensures CurrentPicture(events).Some? && c in CurrentPicture(events).value.components && c.quant < 4
    ensures LastLoadedQuant(events, c.quant).Some?
    ensures var s := Run(start, events);
            QuantInForce(Image(s.jpeg, s.slices, data)[..k], c.quant) == LastLoadedQuant(events, c.quant)
  {
    hide Image;
    hide QuantInForce;
    var s := Run(start, events);
    QuantsDefinedBeforeUse(s.jpeg, s.slices, data, k);
    PictureIsCurrent(start, events);
    assert c.quant as int in UsedQuants(s.jpeg.pic);
    QuantsAreLastLoaded(start, events, c.quant);
  }

  /** Every table the current slices name was loaded, and its code counts announce a usable number of values. */
  predicate TablesLoaded(events: seq<Event>, slices: seq<Slice>) {
    forall s <- slices, c <- s.components ::
      && c.dc < 2 && LastLoadedHuff(events, c.dc).Some? && 1 <= Sum(LastLoadedHuff(events, c.dc).value.dcCodes) <= 12
      && c.ac < 2 && LastLoadedHuff(events, c.ac).Some? && 1 <= Sum(LastLoadedHuff(events, c.ac).value.acCodes) <= 162
  }

  lemma {:induction false} RequiredIsNamed(slices: seq<Slice>, t: int)
    ensures t in RequiredDc(slices) <==> exists s <- slices, c <- s.components :: c.dc as int == t
    ensures t in RequiredAc(slices) <==> exists s <- slices, c <- s.components :: c.ac as int == t
  {
    if slices != [] {
      var n := |slices| - 1;
      RequiredIsNamed(slices[..n], t);
      assert slices == slices[..n] + [slices[n]];
      assert forall s :: s in slices <==> s in slices[..n] || s == slices[n];
    }
  }

  lemma LoadsSuffice(start: CodecState, events: seq<Event>)
    requires Fresh(start) && TablesLoaded(events, Run(start, events).slices)
    requires exists s <- Run(start, events).slices :: s.components != []
    ensures var s := Run(start, events);
            VaHuffmanUsable(s.jpeg, RequiredDc(s.slices), RequiredAc(s.slices))
  {
    var st := Run(start, events);
    hide Run;
    forall t | 0 <= t < 2
      ensures PairReady(st.jpeg.huff, t, RequiredDc(st.slices), RequiredAc(st.slices), st.jpeg.validDc, st.jpeg.validAc)
    {
      HuffmanIsLastLoaded(start, events, t);
      RequiredIsNamed(st.slices, t);
    }
    forall t | t in RequiredDc(st.slices) ensures t in st.jpeg.validDc {
      RequiredIsNamed(st.slices, t);
      HuffmanIsLastLoaded(start, events, t);
    }
    forall t | t in RequiredAc(st.slices) ensures t in st.jpeg.validAc {
      RequiredIsNamed(st.slices, t);
      HuffmanIsLastLoaded(start, events, t);
    }
    var s :| s in st.slices && s.components != [];
    var c := s.components[0];
    assert c in s.components;
    HuffmanIsLastLoaded(start, events, c.dc);
  }

  lemma LoadsNeeded(start: CodecState, events: seq<Event>)
    requires Fresh(start)
    requires forall s <- Run(start, events).slices, c <- s.components :: c.dc < 2 && c.ac < 2
    requires var s := Run(start, events); VaHuffmanUsable(s.jpeg, RequiredDc(s.slices), RequiredAc(s.slices))
    ensures TablesLoaded(events, Run(start, events).slices)
  {
    var st := Run(start, events);
    hide Run;
    forall s, c | s in st.slices && c in s.components
      ensures && LastLoadedHuff(events, c.dc).Some? && 1 <= Sum(LastLoadedHuff(events, c.dc).value.dcCodes) <= 12
              && LastLoadedHuff(events, c.ac).Some? && 1 <= Sum(LastLoadedHuff(events, c.ac).value.acCodes) <= 162
    {
      NamedTablesRequired(st.slices, s, c);
      HuffmanIsLastLoaded(start, events, c.dc);
      HuffmanIsLastLoaded(start, events, c.ac);
      assert PairReady(st.jpeg.huff, c.dc, RequiredDc(st.slices), RequiredAc(st.slices),
                       st.jpeg.validDc, st.jpeg.validAc);
      assert PairReady(st.jpeg.huff, c.ac, RequiredDc(st.slices), RequiredAc(st.slices),
                       st.jpeg.validDc, st.jpeg.validAc);
    }
  }

  /**
   Over every run with acceptable inputs the loaded tables are used if and only if every table a slice names was
   loaded with 1 to 12 DC and 1 to 162 AC codes.
   */
  lemma LoadedTablesUsedExactly(start: CodecState, events: seq<Event>, size: nat)
    requires Fresh(start)
    requires var s := Run(start, events); InputsAccepted(s.jpeg, s.slices, size)
    ensures var s := Run(start, events);
            VaHuffmanUsable(s.jpeg, RequiredDc(s.slices), RequiredAc(s.slices)) <==> TablesLoaded(events, s.slices)
  {
    var s := Run(start, events);
    assert s.slices[0] in s.slices && SliceAccepted(s.jpeg.pic, s.slices[0], size);
    assert forall x <- s.slices, c <- x.components :: c.dc < 2 && c.ac < 2 by {
      assert forall x <- s.slices :: SliceAccepted(s.jpeg.pic, x, size);
    }
    hide Run;
    if TablesLoaded(events, s.slices) {
      LoadsSuffice(start, events);
    }
    if VaHuffmanUsable(s.jpeg, RequiredDc(s.slices), RequiredAc(s.slices)) {
      LoadsNeeded(start, events);
    }
  }

  /** Likewise for Huffman tables: the ones loaded last, or the standard set for the whole frame. */
  lemma RunHuffmanLatest(start: CodecState, events: seq<Event>, data: seq<Byte>, k: nat, c: ScanComponent)
    requires Fresh(start)
    requires var s := Run(start, events); InputsAccepted(s.jpeg, s.slices, |data|) && SlicesFit(s.slices, |data|)
    requires var s := Run(start, events);
             k < |Image(s.jpeg, s.slices, data)| && Image(s.jpeg, s.slices, data)[k].Scan?
             && c in Image(s.jpeg, s.slices, data)[k].scan
    ensures c.dc < 2 && c.ac < 2
    ensures var s := Run(start, events);
            var dc := HuffInForce(Image(s.jpeg, s.slices, data)[..k], 0, c.dc);
            var ac := HuffInForce(Image(s.jpeg, s.slices, data)[..k], 1, c.ac);
            if TablesLoaded(events, s.slices) then
              && LastLoadedHuff(events, c.dc).Some? && LastLoadedHuff(events, c.ac).Some?
              && dc == Some(LoadedTable(LastLoadedHuff(events, c.dc).value, 0, c.dc))
              && ac == Some(LoadedTable(LastLoadedHuff(events, c.ac).value, 1, c.ac))
            else dc == Some(StandardTable(0, c.dc)) && ac == Some(StandardTable(1, c.ac))
  {
    hide Image;
    hide HuffInForce;
    var s := Run(start, events);
    HuffmanDefinedBeforeUse(s.jpeg, s.slices, data, k, c);
    LoadedTablesUsedExactly(start, events, |data|);
    hide Run;
    hide TablesLoaded;
    hide VaHuffmanUsable;
    if VaHuffmanUsable(s.jpeg, RequiredDc(s.slices), RequiredAc(s.slices)) {
      ScanTablesRequired(s.jpeg, s.slices, data, k, c);
      HuffmanIsLastLoaded(start, events, c.dc);
      HuffmanIsLastLoaded(start, events, c.ac);
    }
  }

  // ---------------------------------------------------------------- the handlers themselves

  /** `ctx->codecData` with the slice-parameter pointer of the context. */
  class Context {
    var pic: Picture
    var hasPic: bool
    var iq: QuantTables
    var hasIq: bool
    var validQuant: set<int>
    var huff: HuffTables
    var hasHuff: bool
    var validDc: set<int>
    var validAc: set<int>
    var slices: seq<Slice>

    ghost function State(): CodecState
      reads this
    {
      CodecState(JpegState(pic, hasPic, iq, hasIq, validQuant, huff, hasHuff, validDc, validAc), slices)
    }

    constructor ()
      ensures Fresh(State())
    {
      pic, hasPic, slices := NO_PICTURE, false, [];
      iq, hasIq, validQuant := [ZERO_QUANT, ZERO_QUANT, ZERO_QUANT, ZERO_QUANT], false, {};
      huff, hasHuff, validDc, validAc := [ZERO_HUFF, ZERO_HUFF], false, {}, {};
    }

    /** `resetJPEGPictureState`: tables stay. */
    method BeginPicture()
      modifies this
      ensures State() == Step(old(State()), Event.BeginPicture)
    {
      pic, hasPic := NO_PICTURE, false;
      slices := [];
    }

    method CopyPicParam(p: Picture)
      modifies this
      ensures State() == Step(old(State()), PicParam(p))
    {
      pic := p;
      hasPic := p.width != 0 && p.height != 0 && |p.components| > 0 && |p.components| <= MAX_COMPONENTS;
    }

    method CopyIqMatrix(load: Flags4, quants: QuantTables)
      modifies this
      ensures State() == Step(old(State()), IqMatrix(load, quants))
    {
      var tables, valid := iq, validQuant;
      for t := 0 to 4
        invariant valid == validQuant + Loaded(load, t)
        invariant forall u :: 0 <= u < 4 ==> tables[u] == if u < t && load[u] then quants[u] else iq[u]
      {
        if load[t] {
          tables := tables[t := quants[t]];
          valid := valid + {t};
        }
      }
      assert tables == LoadQuants(iq, load, quants);
      iq, validQuant, hasIq := tables, valid, valid != {};
    }

    method CopyHuffmanTable(load: Flags2, huffs: HuffTables)
      modifies this
      ensures State() == Step(old(State()), HuffmanTable(load, huffs))
    {
      var tables, validD, validA := huff, validDc, validAc;
      for t := 0 to 2
        invariant validD == validDc + Loaded(load, t) && validA == validAc + Loaded(load, t)
        invariant forall u :: 0 <= u < 2 ==> tables[u] == if u < t && load[u] then huffs[u] else huff[u]
      {
        if load[t] {
          tables := tables[t := huffs[t]];
          validD, validA := validD + {t}, validA + {t};
        }
      }
      assert tables == LoadHuffs(huff, load, huffs);
      huff, validDc, validAc, hasHuff := tables, validD, validA, validD + validA != {};
    }

    method CopySliceParam(s: seq<Slice>)
      modifies this
      ensures State() == Step(old(State()), SliceParam(s))
    {
      slices := s;
    }

    /** `copyJPEGSliceData` up to the append: the frame made of the current parameters, if there is one. */
    method CopySliceData(data: seq<Byte>, memory: bool) returns (frame: Option<seq<Byte>>)
      requires |slices| <= U32_MAX && MaxSize(|pic.components|, |slices|, TotalSize(slices)) <= U64_MAX
      ensures frame.Some? <==>
        && |data| <= U32_MAX && InputsAccepted(State().jpeg, slices, |data|) && memory
        && QuantsNonEmpty(State().jpeg) && |Encode(Image(State().jpeg, slices, data))| <= U32_MAX
      ensures frame.Some? ==> frame.value == Encode(Image(State().jpeg, slices, data))
    {
      hide Encode;
      hide Image;
      hide QuantsNonEmpty;
      if |slices| == 0 || |data| > U32_MAX {
        return None;
      }
      frame := JpegWriter.Reconstruct(
        JpegState(pic, hasPic, iq, hasIq, validQuant, huff, hasHuff, validDc, validAc), slices, data, memory);
    }
  }
}
