/**
 The encode half of `NVContext` as the driver keeps it, with the methods that change it in place
 (src/vabackend.c:819-1098, 2479-2495, 2546-2661 and 2694-3080). Each is proved to do what the
 corresponding function of `EncoderModel` says, so the theorems about runs hold of this code.
 */
module EncoderContext {
  import opened Words
  import opened EncoderModel
  import EncoderTheorems

  class EncodeContext {
    var held: Held
    const hevc: bool
    var width: U32
    var height: U32
    var lastReconfigure: U64
    var visible: Visible
    var hasTarget: bool
    var hasCoded: bool
    var forceIdr: bool
    var count: Counters
    ghost var past: History

    ghost function State(): Encoder
      reads this
    {
      Encoder(held, hevc, width, height, lastReconfigure, visible, hasTarget, hasCoded, forceIdr, count, past)
    }

    /** `nvCreateContext` once the encoder session is open; `preset` supplies what the driver does not set. */
    constructor (env: Settings, preset: Config, mode: RcMode, isHevc: bool, w: U32, h: U32, ioDepth: U32, at: U64)
      requires 0 < w < 0x8000_0000 && 0 < h < 0x8000_0000
      ensures Created(env, State(), w, h, at)
      ensures count.ioCount == if ioDepth == 0 then 1 else if ioDepth > 4 then 4 else ioDepth
    {
      var c := preset.(mode := mode, gop := 120, idrPeriod := 120, fpsNum := 30, fpsDen := 1,
                       encodeW := w, encodeH := h, darW := w, darH := h, maxW := w, maxH := h);
      if mode.Cbr? {
        c := c.(avg := 5000000, max := 5000000);
      } else if mode.Vbr? {
        c := c.(avg := 5000000, max := 10000000);
      }
      held, hevc, width, height, lastReconfigure := Held(c, false), isHevc, w, h, at;
      visible := Visible(0, 0, w, h, false);
      hasTarget, hasCoded, forceIdr := false, false, false;
      count := Counters(0, env.startupFrames, 0, 0, if ioDepth == 0 then 1 else if ioDepth > 4 then 4 else ioDepth, 0);
      past := History(c, false, 0, 0, 0, at);
    }

    // ------------------------------------------------------------ setters

    method SetBitrate(bps: U32)
      modifies `held
      ensures held == EncoderModel.SetBitrate(old(held), bps)
    {
      var c := held.cfg;
      if bps == 0 || c.mode.ConstQp? {
        return;
      }
      var max := bps;
      if !c.mode.Cbr? && !(c.max < bps) {
        max := c.max;
      }
      var changed := false;
      if c.avg != bps {
        c, changed := c.(avg := bps), true;
      }
      if c.max != max {
        c, changed := c.(max := max), true;
      }
      held := Held(c, held.pending || changed);
    }

    method SetFrameRate(num: U32, den: U32)
      modifies `held
      ensures held == EncoderModel.SetFrameRate(old(held), num, den)
    {
      if num == 0 {
        return;
      }
      var d := if den == 0 then 1 else den;
      var c, changed := held.cfg, false;
      if c.fpsNum != num {
        c, changed := c.(fpsNum := num), true;
      }
      if c.fpsDen != d {
        c, changed := c.(fpsDen := d), true;
      }
      held := Held(c, held.pending || changed);
    }

    method SetGop(gop: U32, idrPeriod: U32)
      modifies `held
      ensures held == EncoderModel.SetGop(old(held), gop, idrPeriod)
    {
      if gop > 0 && held.cfg.gop != gop {
        held := Held(held.cfg.(gop := gop), true);
      }
      if idrPeriod > 0 && held.cfg.idrPeriod != idrPeriod {
        held := Held(held.cfg.(idrPeriod := idrPeriod), true);
      }
    }

    method SetVisibleRect(x: U32, y: U32, w: U32, h: U32)
      modifies `visible
      ensures State() == EncoderModel.SetVisibleRect(old(State()), x, y, w, h)
    {
      hide ClipExtent;
      var w' := Clip(x, w, width);
      var h' := Clip(y, h, height);
      visible := if w' == 0 || h' == 0 then visible.(valid := false) else Visible(Even(x), Even(y), w', h', true);
    }

    /** One axis of the clipping: masked, rejected if it starts outside, cut at the frame edge. */
    static method Clip(pos: U32, len: U32, size: U32) returns (l: U32)
      ensures l == ClipExtent(pos, len, size)
    {
      var p := Even(pos);
      l := Even(len);
      EvenTwice(len);
      hide Even;
      if l == 0 || p >= size {
        return 0;
      }
      if Wrap32(p + l) > size {
        l := size - p;
      }
      l := Even(l);
    }

    method MaybeUseVisibleResolution(env: Settings)
      modifies `held
      ensures State() == MaybeUseVisible(env, old(State()))
    {
      var v, c := visible, held.cfg;
      if !env.visibleReconfigure || !v.valid || v.w == 0 || v.h == 0 || v.x != 0 || v.y != 0 {
        return;
      }
      if (v.w == width && v.h == height) || v.w > c.maxW || v.h > c.maxH {
        return;
      }
      held := Held(c.(encodeW := v.w, encodeH := v.h, darW := v.w, darH := v.h), true);
    }

    // ------------------------------------------------------------ vaBeginPicture and vaRenderPicture

    method BeginPicture()
      modifies this
      ensures State() == Begin(old(State()))
    {
      hasTarget, hasCoded := true, false;
      forceIdr := count.frameNum == 0;
    }

    /** `VAEncCodedBufferType`. */
    method RenderCodedBuffer()
      modifies `hasCoded
      ensures State() == old(State()).(hasCoded := true)
    {
      hasCoded := true;
    }

    /** `coded` says whether the buffer names an existing coded buffer, `idr` is its IDR flag. */
    method RenderPictureBuffer(coded: bool, idr: bool)
      modifies `hasCoded, `forceIdr
      ensures State() == RenderPictureParams(old(State()), coded, idr)
    {
      if coded {
        hasCoded := true;
      }
      if idr {
        forceIdr := true;
      }
    }

    method RenderSequenceBuffer(env: Settings, q: Sequence)
      modifies `held, `visible
      ensures State() == RenderSequence(env, old(State()), q)
    {
      hide EncoderModel.SetBitrate;
      hide EncoderModel.SetGop;
      hide EncoderModel.SetFrameRate;
      hide EncoderModel.SetVisibleRect;
      hide MaybeUseVisible;
      hide H264Rect;
      if q.HevcSeq? != hevc {
        return;
      }
      SetBitrate(q.bps);
      SetGop(q.intraPeriod, q.idrPeriod);
      if q.H264Seq? {
        var (x, y, w, h) := H264Rect(q);
        SetVisibleRect(x, y, w, h);
        MaybeUseVisibleResolution(env);
      } else if q.picW != 0 && q.picH != 0 {
        SetVisibleRect(0, 0, q.picW, q.picH);
        MaybeUseVisibleResolution(env);
      }
      if q.timing && q.timeScale != 0 {
        var den := if q.unitsInTick == 0 then 1 else if q.H264Seq? then Wrap32(q.unitsInTick * 2) else q.unitsInTick;
        SetFrameRate(q.timeScale, den);
      }
    }

    method RenderRateControlBuffer(rc: RateControl)
      modifies `held
      ensures held == RenderRateControl(old(held), rc)
    {
      RenderRates(rc);
      hide RateControlRates;
      if rc.maxQp > 0 {
        var q := Qp(rc.maxQp, rc.maxQp, rc.maxQp);
        held := Held(held.cfg.(maxQp := q), held.pending || held.cfg.maxQp != q);
      }
      if rc.minQp > 0 {
        var q := Qp(rc.minQp, rc.minQp, rc.minQp);
        held := Held(held.cfg.(minQp := q), held.pending || held.cfg.minQp != q);
      }
    }

    /** The bit-rate half of the rate-control case. */
    method RenderRates(rc: RateControl)
      modifies `held
      ensures held == RateControlRates(old(held), rc)
    {
      hide EncoderModel.SetBitrate;
      hide TargetAverage;
      if rc.bps > 0 {
        if rc.percent != 0 && held.cfg.mode.Vbr? {
          SetBitrate(TargetAverage(rc));
          held := Held(held.cfg.(max := rc.bps), held.pending || held.cfg.max != rc.bps);
        } else {
          SetBitrate(rc.bps);
        }
      }
    }

    // ------------------------------------------------------------ vaEndPicture

    method ReconfigureIfNeeded(env: Settings, ok: bool, now: U64, after: U64)
      modifies this
      ensures State() == Reconfigure(env, old(State()), ok, now, after)
    {
      var c := held.cfg;
      if !held.pending {
        return;
      }
      if !env.canReconfigure {
        held, past := Held(c, false), past.(dropped := true);
        return;
      }
      var resolutionChange := c.encodeW != width || c.encodeH != height || c.darW != width || c.darH != height;
      if !resolutionChange && env.minMs > 0 && lastReconfigure != 0
         && now > lastReconfigure && now - lastReconfigure < MinIntervalNs(env) {
        return;
      }
      if !ok {
        held, past := Held(c, false), past.(dropped := true);
        return;
      }
      var resized := width != c.encodeW || height != c.encodeH;
      width, height, lastReconfigure, held := c.encodeW, c.encodeH, after, Held(c, false);
      if resized {
        count := count.(startupLeft := env.startupFrames);
      }
      past := past.(accepted := c, dropped := false, since := if resized then 0 else past.since);
    }

    /** The retry path's reconfigure to the size of the copy. */
    method ResizeTo(env: Settings, c: Copy, at: U64)
      modifies this
      ensures State() == Resize(env, old(State()), c, at)
    {
      var d := held.cfg.(encodeW := c.w, encodeH := c.h, darW := c.w, darH := c.h);
      if d.maxW < c.w {
        d := d.(maxW := c.w);
      }
      if d.maxH < c.h {
        d := d.(maxH := c.h);
      }
      held, width, height, lastReconfigure := held.(cfg := d), c.w, c.h, at;
      count := count.(startupLeft := env.startupFrames);
      past := past.(accepted := d, dropped := false, since := 0);
    }

    /** The calls to `nvEncEncodePicture`: the first, the one after a resize, the fall-back to the context size. */
    method SubmitPicture(env: Settings, c: Copy, io: EndInputs) returns (subs: seq<Submission>, status: NvStatus)
      modifies this
      ensures (State(), subs, status) == Submit(env, old(State()), c, io)
    {
      var idr := forceIdr || count.frameNum == 0;
      var first := Submission(idr, c.w, c.h);
      subs, status := [first], io.first;
      if status.InvalidParam? && (c.w != width || c.h != height) {
        if env.canReconfigure && io.resizeOk {
          ResizeTo(env, c, io.resized);
          subs, status := [first, first], io.second;
        }
        if status.InvalidParam? {
          ghost var before := subs;
          subs, status := subs + [Submission(idr, width, height)], io.fallback;
          assert before == [first] ==> subs == [first, Submission(idr, width, height)];
          assert before == [first, first] ==> subs == [first, first, Submission(idr, width, height)];
        }
      }
    }

    method FinishPicture(status: NvStatus, io: EndInputs) returns (outcome: Outcome)
      requires count.ioCount > 0
      modifies this
      ensures (State(), outcome) == Finish(old(State()), status, io)
    {
      var n := count;
      var slot := n.ioIndex % n.ioCount;
      outcome := Failed;
      if status.NeedMoreInput? {
        n := n.(streak := Wrap32(n.streak + 1));
        if io.popOk {
          n := n.(frameNum := Wrap32(n.frameNum + 1), ioIndex := (slot + 1) % n.ioCount);
          forceIdr, outcome, past := false, Buffered, past.(needMore := past.needMore + 1);
        }
      } else if status.Success? && io.bitstreamOk {
        n := n.(streak := 0);
        if io.popOk {
          n := n.(outputCount := Wrap32(n.outputCount + 1), frameNum := Wrap32(n.frameNum + 1),
                  startupLeft := if n.startupLeft > 0 then n.startupLeft - 1 else 0,
                  ioIndex := (slot + 1) % n.ioCount);
          forceIdr, outcome := false, Produced;
          past := past.(outputs := past.outputs + 1, since := past.since + 1);
        }
      }
      count := n;
    }

    /** The encode branch of `nvEndPicture`; the staging copy itself is `Staging.StageFrame`. */
    method EndPicture(env: Settings, io: EndInputs) returns (subs: seq<Submission>, outcome: Outcome)
      modifies this
      ensures EndResult(State(), subs, outcome) == End(env, old(State()), io)
    {
      hide Reconfigure;
      hide ChooseCopy;
      hide Submit;
      hide Finish;
      if !hasTarget || !hasCoded || !io.objectsOk || count.ioCount == 0 || !io.buffersOk {
        return [], Failed;
      }
      ReconfigureIfNeeded(env, io.reconfigureOk, io.now, io.after);
      if !io.pushOk || !io.lockOk || !io.unlockOk {
        return [], Failed;
      }
      ghost var s1 := State();
      EncoderTheorems.RingDepthKept(env, old(State()), io);
      var c := CurrentCopy(io.surface);
      if env.forceEvery > 0 && count.frameNum % env.forceEvery == 0 {
        forceIdr := true;
      }
      if count.startupLeft > 0 {
        forceIdr := true;
      }
      assert State() == WithIdrRules(env, s1);
      var status;
      subs, status := SubmitPicture(env, c, io);
      outcome := FinishPicture(status, io);
    }

    /** The choice of the source rectangle. */
    method CurrentCopy(f: Surface) returns (c: Copy)
      ensures c == ChooseCopy(State(), f)
    {
      hide Wrap32;
      c := Copy(0, 0, Min(f.width, width), Min(f.height, height));
      if visible.valid && visible.w > 0 && visible.h > 0 {
        c := Copy(visible.x, visible.y, Min(visible.w, width), Min(visible.h, height));
      } else if f.contentValid && f.cw > 0 && f.ch > 0 && f.cx < f.width && f.cy < f.height {
        c := Copy(f.cx, f.cy, Min(f.cw, width), Min(f.ch, height));
        if Wrap32(c.x + c.w) > f.width {
          c := c.(w := f.width - c.x);
        }
        if Wrap32(c.y + c.h) > f.height {
          c := c.(h := f.height - c.y);
        }
      }
      assert c == RawCopy(State(), f);
      hide RawCopy;
      c := Copy(Even(c.x), Even(c.y), Even(c.w), Even(c.h));
      if c.w == 0 || c.h == 0 {
        c := Copy(0, 0, Even(width), Even(height));
      }
    }
  }

  lemma EvenTwice(x: nat)
    ensures Even(Even(x)) == Even(x)
  {
  }
}
