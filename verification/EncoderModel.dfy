/**
 The NVENC side of a context (src/vabackend.c): rate-control setters, visible rectangle, debounced
 reconfigure, and the submission of a picture with its retry paths, as functions on the value of an
 `NVContext`. Every answer of the encoder, of CUDA, of the allocator and of the clock is an input.
 `EncodeContext` in EncoderContext.dfy performs the same steps in place.
 */
module EncoderModel {
  import opened Words

  datatype RcMode = ConstQp | Cbr | Vbr

  datatype Qp = Qp(interB: U32, interP: U32, intra: U32)

  /** The parts of `encConfig` and `encInitParams` that the driver writes. */
  datatype Config = Config(
    mode: RcMode, avg: U32, max: U32, maxQp: Qp, minQp: Qp, gop: U32, idrPeriod: U32,
    fpsNum: U32, fpsDen: U32,
    encodeW: U32, encodeH: U32, darW: U32, darH: U32, maxW: U32, maxH: U32)

  datatype Visible = Visible(x: U32, y: U32, w: U32, h: U32, valid: bool)

  /**
   What a run has done so far; not stored by the driver. `accepted` is the configuration the encoder runs
   with, `dropped` whether a pending update was discarded since it was set, `since` the outputs since the
   encoder was created or last changed its size, `clock` the latest clock reading.
   */
  datatype History = History(
    accepted: Config, dropped: bool, since: nat, outputs: nat, needMore: nat, clock: nat)

  /** The configuration held by the context and `encNeedsReconfigure`. */
  datatype Held = Held(cfg: Config, pending: bool)

  /** Frame counters, the startup IDR budget and the I/O slot ring. */
  datatype Counters = Counters(
    frameNum: U32, startupLeft: U32, outputCount: U32, streak: U32, ioCount: U32, ioIndex: U32)

  datatype Encoder = Encoder(
    held: Held, hevc: bool, width: U32, height: U32, lastReconfigure: U64, visible: Visible,
    hasTarget: bool, hasCoded: bool, forceIdr: bool, count: Counters, past: History)

  /** The process-wide settings read from the environment, and whether the library offers reconfiguration. */
  datatype Settings = Settings(
    startupFrames: U32, forceEvery: U32, minMs: U32, visibleReconfigure: bool, canReconfigure: bool)

  // ---------------------------------------------------------------- setters

  /** `encNeedsReconfigure` becomes set when the configuration changed. */
  function WithConfig(k: Held, cfg: Config): Held {
    Held(cfg, k.pending || cfg != k.cfg)
  }

  function BitrateConfig(c: Config, bps: U32): Config {
    if bps == 0 || c.mode.ConstQp? then c
    else c.(avg := bps, max := if c.mode.Cbr? || c.max < bps then bps else c.max)
  }

  function SetBitrate(k: Held, bps: U32): Held {
    WithConfig(k, BitrateConfig(k.cfg, bps))
  }

  function SetFrameRate(k: Held, num: U32, den: U32): Held {
    if num == 0 then k else WithConfig(k, k.cfg.(fpsNum := num, fpsDen := if den == 0 then 1 else den))
  }

  function SetGop(k: Held, gop: U32, idrPeriod: U32): Held {
    WithConfig(k, k.cfg.(gop := if gop > 0 then gop else k.cfg.gop,
                         idrPeriod := if idrPeriod > 0 then idrPeriod else k.cfg.idrPeriod))
  }

  /** One axis of `nvencSetVisibleRect`: the clipped extent, 0 if nothing is left. The sum wraps as in C. */
  function ClipExtent(pos: U32, len: U32, size: U32): U32 {
    var p, l := Even(pos), Even(len);
    if l == 0 || p >= size then 0
    else if Wrap32(p + l) > size then Even(size - p)
    else l
  }

  function VisibleRect(s: Encoder, x: U32, y: U32, w: U32, h: U32): Visible {
    var w', h' := ClipExtent(x, w, s.width), ClipExtent(y, h, s.height);
    if w' == 0 || h' == 0 then s.visible.(valid := false)
    else Visible(Even(x), Even(y), w', h', true)
  }

  function SetVisibleRect(s: Encoder, x: U32, y: U32, w: U32, h: U32): Encoder {
    s.(visible := VisibleRect(s, x, y, w, h))
  }

  /** `nvencMaybeUseVisibleResolution`, with the test of its callers that the rectangle is valid. */
  function MaybeUseVisible(env: Settings, s: Encoder): Encoder {
    var v := s.visible;
    if !env.visibleReconfigure || !v.valid || v.w == 0 || v.h == 0 || v.x != 0 || v.y != 0
       || (v.w == s.width && v.h == s.height) || v.w > s.held.cfg.maxW || v.h > s.held.cfg.maxH then s
    else s.(held := Held(s.held.cfg.(encodeW := v.w, encodeH := v.h, darW := v.w, darH := v.h), true))
  }

  // ---------------------------------------------------------------- buffers

  datatype Sequence =
    | H264Seq(bps: U32, intraPeriod: U32, idrPeriod: U32, mbsW: U16, mbsH: U16, chroma: U32, frameMbsOnly: bool,
              cropping: bool, cropL: U32, cropR: U32, cropT: U32, cropB: U32,
              timing: bool, timeScale: U32, unitsInTick: U32)
    | HevcSeq(bps: U32, intraPeriod: U32, idrPeriod: U32, picW: U16, picH: U16,
              timing: bool, timeScale: U32, unitsInTick: U32)

  function CropUnitX(chroma: U32): U32 {
    if chroma == 1 || chroma == 2 then 2 else 1
  }

  function CropUnitY(chroma: U32, frameMbsOnly: bool): U32 {
    if chroma == 1 then if frameMbsOnly then 2 else 4
    else if frameMbsOnly then 1 else 2
  }

  /** The coded extent less both crops, unless the (wrapping) crops are no smaller than it. */
  function Cropped(coded: U32, lo: U32, hi: U32): U32 {
    var crop := Wrap32(lo + hi);
    if coded > crop then coded - crop else coded
  }

  /** The rectangle an H.264 sequence header announces: x, y, width, height. */
  function H264Rect(q: Sequence): (U32, U32, U32, U32)
    requires q.H264Seq?
  {
    var ux, uy := CropUnitX(q.chroma), CropUnitY(q.chroma, q.frameMbsOnly);
    var l, r := if q.cropping then Wrap32(q.cropL * ux) else 0, if q.cropping then Wrap32(q.cropR * ux) else 0;
    var t, b := if q.cropping then Wrap32(q.cropT * uy) else 0, if q.cropping then Wrap32(q.cropB * uy) else 0;
    (l, t, Cropped(q.mbsW * 16, l, r), Cropped(q.mbsH * 16, t, b))
  }

  function UpdateVisible(env: Settings, s: Encoder, q: Sequence): Encoder {
    if q.H264Seq? then
      var (x, y, w, h) := H264Rect(q);
      MaybeUseVisible(env, SetVisibleRect(s, x, y, w, h))
    else if q.picW == 0 || q.picH == 0 then s
    else MaybeUseVisible(env, SetVisibleRect(s, 0, 0, q.picW, q.picH))
  }

  function SequenceFrameRate(k: Held, q: Sequence): Held {
    if q.timing && q.timeScale != 0 then
      var den := if q.unitsInTick == 0 then 1 else if q.H264Seq? then Wrap32(q.unitsInTick * 2) else q.unitsInTick;
      SetFrameRate(k, q.timeScale, den)
    else k
  }

  /** A sequence parameter buffer; one of the other codec's type is ignored. */
  function RenderSequence(env: Settings, s: Encoder, q: Sequence): Encoder {
    if q.HevcSeq? != s.hevc then s
    else
      var s1 := s.(held := SetGop(SetBitrate(s.held, q.bps), q.intraPeriod, q.idrPeriod));
      var s2 := UpdateVisible(env, s1, q);
      s2.(held := SequenceFrameRate(s2.held, q))
  }

  /** A picture parameter buffer: `coded` says whether it names an existing coded buffer. */
  function RenderPictureParams(s: Encoder, coded: bool, idr: bool): Encoder {
    s.(hasCoded := s.hasCoded || coded, forceIdr := s.forceIdr || idr)
  }

  /** A misc rate-control buffer. */
  datatype RateControl = RateControl(bps: U32, percent: U32, maxQp: U32, minQp: U32)

  /** The average that a target percentage asks for, capped to 32 bits. */
  function TargetAverage(rc: RateControl): U32 {
    Min(rc.bps * rc.percent / 100, U32_MAX)
  }

  function UsesTarget(c: Config, rc: RateControl): bool {
    rc.bps > 0 && rc.percent != 0 && c.mode.Vbr?
  }

  /** The bit-rate half of a rate-control buffer: two updates when a target percentage applies. */
  function RateControlRates(k: Held, rc: RateControl): Held {
    if rc.bps == 0 then k
    else if UsesTarget(k.cfg, rc) then
      var k1 := SetBitrate(k, TargetAverage(rc));
      WithConfig(k1, k1.cfg.(max := rc.bps))
    else SetBitrate(k, rc.bps)
  }

  function SetMaxQp(k: Held, q: U32): Held {
    if q > 0 then WithConfig(k, k.cfg.(maxQp := Qp(q, q, q))) else k
  }

  function SetMinQp(k: Held, q: U32): Held {
    if q > 0 then WithConfig(k, k.cfg.(minQp := Qp(q, q, q))) else k
  }

  function RenderRateControl(k: Held, rc: RateControl): Held {
    SetMinQp(SetMaxQp(RateControlRates(k, rc), rc.maxQp), rc.minQp)
  }

  /** A misc frame-rate buffer: numerator in the low half, denominator in the high half. */
  function RenderFrameRate(k: Held, rate: U32): Held {
    SetFrameRate(k, rate % 0x1_0000, if rate / 0x1_0000 == 0 then 1 else rate / 0x1_0000)
  }

  function Begin(s: Encoder): Encoder {
    s.(hasTarget := true, hasCoded := false, forceIdr := s.count.frameNum == 0)
  }

  // ---------------------------------------------------------------- reconfigure

  function ResolutionChange(s: Encoder): bool {
    var c := s.held.cfg;
    c.encodeW != s.width || c.encodeH != s.height || c.darW != s.width || c.darH != s.height
  }

  function MinIntervalNs(env: Settings): nat {
    env.minMs * 1000000
  }

  function Debounced(env: Settings, s: Encoder, now: U64): bool {
    !ResolutionChange(s) && env.minMs > 0 && s.lastReconfigure != 0
    && now > s.lastReconfigure && now - s.lastReconfigure < MinIntervalNs(env)
  }

  /** Does `nvencReconfigureIfNeeded` call the encoder? */
  function Attempts(env: Settings, s: Encoder, now: U64): bool {
    s.held.pending && env.canReconfigure && !Debounced(env, s, now)
  }

  /** `nvencReconfigureIfNeeded`; `ok` is the encoder's answer, `now` and `after` the two clock readings. */
  function Reconfigure(env: Settings, s: Encoder, ok: bool, now: U64, after: U64): Encoder {
    var c := s.held.cfg;
    if !s.held.pending then s
    else if !env.canReconfigure then s.(held := Held(c, false), past := s.past.(dropped := true))
    else if Debounced(env, s, now) then s
    else if !ok then s.(held := Held(c, false), past := s.past.(dropped := true))
    else
      var resized := c.encodeW != s.width || c.encodeH != s.height;
      s.(held := Held(c, false), width := c.encodeW, height := c.encodeH, lastReconfigure := after,
         count := if resized then s.count.(startupLeft := env.startupFrames) else s.count,
         past := s.past.(accepted := c, dropped := false, since := if resized then 0 else s.past.since))
  }

  // ---------------------------------------------------------------- submission

  datatype NvStatus = Success | NeedMoreInput | InvalidParam | OtherError

  /** The surface being encoded: its size and the rectangle that was put into it. */
  datatype Surface = Surface(width: U32, height: U32, cx: U32, cy: U32, cw: U32, ch: U32, contentValid: bool)

  /** Source offset and size of the staging copy. */
  datatype Copy = Copy(x: U32, y: U32, w: U32, h: U32)

  /** The answers one `nvEndPicture` gets, in the order it asks for them. */
  datatype EndInputs = EndInputs(
    objectsOk: bool, buffersOk: bool, reconfigureOk: bool, pushOk: bool, lockOk: bool, unlockOk: bool,
    first: NvStatus, resizeOk: bool, second: NvStatus, fallback: NvStatus,
    bitstreamOk: bool, popOk: bool, surface: Surface, now: U64, after: U64, resized: U64)

  datatype Submission = Submission(idr: bool, w: U32, h: U32)

  datatype Outcome = Failed | Buffered | Produced

  datatype EndResult = EndResult(enc: Encoder, submissions: seq<Submission>, outcome: Outcome)

  function WholeSurface(s: Encoder, f: Surface): Copy {
    Copy(0, 0, Min(f.width, s.width), Min(f.height, s.height))
  }

  /** The rectangle to copy before it is made even. */
  function RawCopy(s: Encoder, f: Surface): Copy {
    if s.visible.valid && s.visible.w > 0 && s.visible.h > 0 then
      Copy(s.visible.x, s.visible.y, Min(s.visible.w, s.width), Min(s.visible.h, s.height))
    else if f.contentValid && f.cw > 0 && f.ch > 0 then
      if f.cx >= f.width || f.cy >= f.height then WholeSurface(s, f)
      else Copy(f.cx, f.cy, ClipSum(f.cx, Min(f.cw, s.width), f.width), ClipSum(f.cy, Min(f.ch, s.height), f.height))
    else WholeSurface(s, f)
  }

  /** src/vabackend.c:2745-2805. */
  function ChooseCopy(s: Encoder, f: Surface): Copy {
    var r := RawCopy(s, f);
    if Even(r.w) == 0 || Even(r.h) == 0 then Copy(0, 0, Even(s.width), Even(s.height))
    else Copy(Even(r.x), Even(r.y), Even(r.w), Even(r.h))
  }

  /** `encForceIdr` after the periodic and the startup rule. */
  function WithIdrRules(env: Settings, s: Encoder): Encoder {
    s.(forceIdr := s.forceIdr || (env.forceEvery > 0 && s.count.frameNum % env.forceEvery == 0)
                   || s.count.startupLeft > 0)
  }

  /** A successful resize inside `nvEndPicture`. */
  function Resize(env: Settings, s: Encoder, c: Copy, at: U64): Encoder {
    var was := s.held.cfg;
    var cfg := was.(encodeW := c.w, encodeH := c.h, darW := c.w, darH := c.h,
                     maxW := Max(was.maxW, c.w), maxH := Max(was.maxH, c.h));
    s.(held := s.held.(cfg := cfg), width := c.w, height := c.h, lastReconfigure := at,
       count := s.count.(startupLeft := env.startupFrames),
       past := s.past.(accepted := cfg, dropped := false, since := 0))
  }

  /** Is the picture rejected for its size, so that the retry path is entered? */
  function Rejected(s: Encoder, c: Copy, first: NvStatus): bool {
    first.InvalidParam? && (c.w != s.width || c.h != s.height)
  }

  /** The calls to `nvEncEncodePicture`: state, submissions and last answer. */
  function Submit(env: Settings, s: Encoder, c: Copy, io: EndInputs): (Encoder, seq<Submission>, NvStatus) {
    var idr := s.forceIdr || s.count.frameNum == 0;
    var first := Submission(idr, c.w, c.h);
    if !Rejected(s, c, io.first) then (s, [first], io.first)
    else if env.canReconfigure && io.resizeOk then
      var s1 := Resize(env, s, c, io.resized);
      if io.second.InvalidParam? then (s1, [first, first, Submission(idr, s1.width, s1.height)], io.fallback)
      else (s1, [first, first], io.second)
    else (s, [first, Submission(idr, s.width, s.height)], io.fallback)
  }

  /** The slot ring and the frame number after an accepted picture. */
  function Advance(n: Counters): Counters
    requires n.ioCount > 0
  {
    n.(frameNum := Wrap32(n.frameNum + 1), ioIndex := (n.ioIndex % n.ioCount + 1) % n.ioCount)
  }

  /** The counters after a picture that produced output. */
  function Produce(n: Counters): Counters
    requires n.ioCount > 0
  {
    Advance(n).(streak := 0, outputCount := Wrap32(n.outputCount + 1),
                startupLeft := if n.startupLeft > 0 then n.startupLeft - 1 else 0)
  }

  function Finish(s: Encoder, status: NvStatus, io: EndInputs): (Encoder, Outcome)
    requires s.count.ioCount > 0
  {
    match status
    case InvalidParam => (s, Failed)
    case OtherError => (s, Failed)
    case NeedMoreInput =>
      var n := s.count.(streak := Wrap32(s.count.streak + 1));
      if !io.popOk then (s.(count := n), Failed)
      else (s.(count := Advance(n), forceIdr := false, past := s.past.(needMore := s.past.needMore + 1)), Buffered)
    case Success =>
      if !io.bitstreamOk then (s, Failed)
      else if !io.popOk then (s.(count := s.count.(streak := 0)), Failed)
      else
        (s.(count := Produce(s.count), forceIdr := false,
            past := s.past.(outputs := s.past.outputs + 1, since := s.past.since + 1)), Produced)
  }

  /** The encode branch of `nvEndPicture`. */
  function End(env: Settings, s: Encoder, io: EndInputs): EndResult {
    if !s.hasTarget || !s.hasCoded || !io.objectsOk || s.count.ioCount == 0 || !io.buffersOk then
      EndResult(s, [], Failed)
    else
      var s1 := Reconfigure(env, s, io.reconfigureOk, io.now, io.after);
      if !io.pushOk || !io.lockOk || !io.unlockOk then EndResult(s1, [], Failed)
      else
        var c := ChooseCopy(s1, io.surface);
        var s2 := WithIdrRules(env, s1);
        var (s3, subs, status) := Submit(env, s2, c, io);
        var (s4, outcome) := Finish(s3, status, io);
        EndResult(s4, subs, outcome)
  }

  // ---------------------------------------------------------------- runs

  datatype Event =
    | BeginPicture
    | CodedBuffer
    | SequenceBuffer(seqParams: Sequence)
    | PictureBuffer(coded: bool, idr: bool)
    | RateControlBuffer(rc: RateControl)
    | FrameRateBuffer(rate: U32)
    | EndPicture(io: EndInputs)

  /** The latest clock reading an event takes. */
  function ClockAfter(clock: nat, e: Event): nat {
    if e.EndPicture? then Max(clock, e.io.resized) else clock
  }

  function Apply(env: Settings, s: Encoder, e: Event): Encoder {
    match e
    case BeginPicture => Begin(s)
    case CodedBuffer => s.(hasCoded := true)
    case SequenceBuffer(q) => RenderSequence(env, s, q)
    case PictureBuffer(coded, idr) => RenderPictureParams(s, coded, idr)
    case RateControlBuffer(rc) => s.(held := RenderRateControl(s.held, rc))
    case FrameRateBuffer(rate) => s.(held := RenderFrameRate(s.held, rate))
    case EndPicture(io) => End(env, s, io).enc
  }

  function Step(env: Settings, s: Encoder, e: Event): Encoder {
    var s1 := Apply(env, s, e);
    s1.(past := s1.past.(clock := ClockAfter(s.past.clock, e)))
  }

  function Run(env: Settings, start: Encoder, events: seq<Event>): Encoder {
    if events == [] then start
    else Step(env, Run(env, start, events[..|events| - 1]), events[|events| - 1])
  }

  /** What `nvCreateContext` leaves behind for a picture of the given size at clock reading `at`. */
  predicate Created(env: Settings, s: Encoder, w: U32, h: U32, at: U64) {
    && 0 < w < 0x8000_0000 && 0 < h < 0x8000_0000
    && var c, n := s.held.cfg, s.count;
       && s.width == c.encodeW == c.darW == c.maxW == w
       && s.height == c.encodeH == c.darH == c.maxH == h
       && (c.mode.Cbr? ==> c.avg == c.max == 5000000)
       && (c.mode.Vbr? ==> c.avg == 5000000 && c.max == 10000000)
       && !s.held.pending && s.lastReconfigure == at
       && s.visible == Visible(0, 0, w, h, false)
       && !s.hasTarget && !s.hasCoded && !s.forceIdr
       && n == Counters(0, env.startupFrames, 0, 0, n.ioCount, 0) && 1 <= n.ioCount <= 4
       && s.past == History(c, false, 0, 0, 0, at)
  }
}
