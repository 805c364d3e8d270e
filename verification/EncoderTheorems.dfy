/** Invariants of every run of an encode context, and the exact limits of what the driver guarantees. */
module EncoderTheorems {
  import opened Words
  import opened EncoderModel
  import Staging

  // ---------------------------------------------------------------- frames of the steps

  /** A sequence buffer touches the held configuration and the visible rectangle only. */
  lemma SequenceFrame(env: Settings, s: Encoder, q: Sequence)
    ensures var r := RenderSequence(env, s, q); r == s.(held := r.held, visible := r.visible)
  {
    hide H264Rect;
    hide VisibleRect;
    hide SetGop;
    hide SetBitrate;
    hide SequenceFrameRate;
  }

  /** Rendering leaves everything else alone as well. */
  lemma RenderFrame(env: Settings, s: Encoder, e: Event)
    requires !e.EndPicture?
    ensures var r := Apply(env, s, e);
            && r.count == s.count && r.past == s.past && r.lastReconfigure == s.lastReconfigure
            && r.width == s.width && r.height == s.height
  {
    hide RenderSequence;
    hide RenderRateControl;
    hide RenderFrameRate;
    match e
    case SequenceBuffer(q) => SequenceFrame(env, s, q);
    case _ =>
  }

  /** Does `nvEndPicture` get as far as the reconfigure? */
  predicate Opens(s: Encoder, io: EndInputs) {
    s.hasTarget && s.hasCoded && io.objectsOk && s.count.ioCount != 0 && io.buffersOk
  }

  /** Does it get as far as submitting the picture? */
  predicate Submits(s: Encoder, io: EndInputs) {
    Opens(s, io) && io.pushOk && io.lockOk && io.unlockOk
  }

  function Reconfigured(env: Settings, s: Encoder, io: EndInputs): Encoder {
    Reconfigure(env, s, io.reconfigureOk, io.now, io.after)
  }

  /** Does the encoder accept the pending configuration? */
  predicate Reconfigures(env: Settings, s: Encoder, io: EndInputs) {
    Opens(s, io) && Attempts(env, s, io.now) && io.reconfigureOk
  }

  /** Is the encoder resized to the copied size after rejecting the picture? */
  predicate Resizes(env: Settings, s: Encoder, io: EndInputs) {
    && Submits(s, io) && env.canReconfigure && io.resizeOk
    && var s1 := Reconfigured(env, s, io);
       Rejected(s1, ChooseCopy(s1, io.surface), io.first)
  }

  function Submitted(env: Settings, s: Encoder, io: EndInputs): (Encoder, seq<Submission>, NvStatus) {
    var s1 := Reconfigured(env, s, io);
    Submit(env, WithIdrRules(env, s1), ChooseCopy(s1, io.surface), io)
  }

  /** The three ways through `End`. */
  lemma EndPhases(env: Settings, s: Encoder, io: EndInputs)
    ensures Submitted(env, s, io).0.count.ioCount == s.count.ioCount
    ensures Submits(s, io) ==>
      var (s3, subs, status) := Submitted(env, s, io);
      End(env, s, io) == EndResult(Finish(s3, status, io).0, subs, Finish(s3, status, io).1)
    ensures !Submits(s, io) ==>
      End(env, s, io) == EndResult(if Opens(s, io) then Reconfigured(env, s, io) else s, [], Failed)
  {
    hide ChooseCopy;
    hide Finish;
    hide Submit;
    hide Reconfigure;
    RingDepthKept(env, s, io);
  }

  lemma RingDepthKept(env: Settings, s: Encoder, io: EndInputs)
    ensures Reconfigured(env, s, io).count.ioCount == s.count.ioCount
    ensures Submitted(env, s, io).0.count.ioCount == s.count.ioCount
  {
    hide ChooseCopy;
    hide Debounced;
    hide Rejected;
  }

  /** `Finish` touches counters and history counts only. */
  lemma FinishFrame(s: Encoder, status: NvStatus, io: EndInputs)
    requires s.count.ioCount > 0
    ensures var r := Finish(s, status, io).0;
            && r == s.(count := r.count, forceIdr := r.forceIdr, past := r.past)
            && r.past.accepted == s.past.accepted && r.past.dropped == s.past.dropped
  {
    hide Advance;
    hide Produce;
  }

  // ---------------------------------------------------------------- no update is lost

  /** Nothing pending and nothing dropped: the encoder runs with the configuration the context holds. */
  predicate NothingLost(k: Held, past: History) {
    !k.pending && !past.dropped ==> past.accepted == k.cfg
  }

  lemma SequenceKeepsNothingLost(env: Settings, s: Encoder, q: Sequence)
    requires NothingLost(s.held, s.past)
    ensures NothingLost(RenderSequence(env, s, q).held, s.past)
  {
    hide H264Rect;
    hide VisibleRect;
    hide BitrateConfig;
    hide Wrap32;
    var s1 := s.(held := SetGop(SetBitrate(s.held, q.bps), q.intraPeriod, q.idrPeriod));
    assert NothingLost(s1.held, s.past);
    hide SetGop;
    hide SetBitrate;
    var s2 := UpdateVisible(env, s1, q);
    assert NothingLost(s2.held, s.past);
    hide UpdateVisible;
  }

  lemma RateControlKeepsNothingLost(k: Held, rc: RateControl, past: History)
    requires NothingLost(k, past)
    ensures NothingLost(RenderRateControl(k, rc), past)
  {
    hide TargetAverage;
    hide BitrateConfig;
    var k1 := RateControlRates(k, rc);
    assert NothingLost(k1, past);
    hide RateControlRates;
    assert NothingLost(SetMaxQp(k1, rc.maxQp), past);
    hide SetMaxQp;
  }

  lemma EndKeepsNothingLost(env: Settings, s: Encoder, io: EndInputs)
    requires NothingLost(s.held, s.past)
    ensures NothingLost(End(env, s, io).enc.held, End(env, s, io).enc.past)
  {
    hide ChooseCopy;
    hide Debounced;
    hide Finish;
    hide Rejected;
    EndPhases(env, s, io);
    hide End;
    var s1 := Reconfigured(env, s, io);
    assert NothingLost(s1.held, s1.past);
    hide Reconfigured;
    if Submits(s, io) {
      var (s3, _, status) := Submitted(env, s, io);
      assert NothingLost(s3.held, s3.past);
      FinishFrame(s3, status, io);
    }
  }

  lemma StepKeepsNothingLost(env: Settings, s: Encoder, e: Event)
    requires NothingLost(s.held, s.past)
    ensures NothingLost(Step(env, s, e).held, Step(env, s, e).past)
  {
    hide RenderSequence;
    hide RenderRateControl;
    hide End;
    match e
    case SequenceBuffer(q) =>
      SequenceKeepsNothingLost(env, s, q);
      SequenceFrame(env, s, q);
    case RateControlBuffer(rc) => RateControlKeepsNothingLost(s.held, rc, s.past);
    case EndPicture(io) => EndKeepsNothingLost(env, s, io);
    case _ =>
  }

  /** Over every run: if no update is pending and none was dropped since, the accepted configuration is the held one. */
  lemma {:induction false} NoUpdateLost(env: Settings, start: Encoder, events: seq<Event>, w: U32, h: U32, at: U64)
    requires Created(env, start, w, h, at)
    ensures NothingLost(Run(env, start, events).held, Run(env, start, events).past)
  {
    if events != [] {
      hide Step;
      var n := |events| - 1;
      NoUpdateLost(env, start, events[..n], w, h, at);
      StepKeepsNothingLost(env, Run(env, start, events[..n]), events[n]);
    }
  }

  // ---------------------------------------------------------------- sizes only shrink

  /** The encode size never exceeds the context size, and that never exceeds the created size. */
  predicate Ratchet(s: Encoder, w: U32, h: U32) {
    && s.held.cfg.encodeW <= s.width <= s.held.cfg.maxW == w
    && s.held.cfg.encodeH <= s.height <= s.held.cfg.maxH == h
  }

  /** A valid visible rectangle is even, not empty and inside a frame of the given size. */
  predicate VisibleInside(v: Visible, w: U32, h: U32) {
    v.valid ==>
      && v.x % 2 == v.y % 2 == v.w % 2 == v.h % 2 == 0 && v.w > 0 && v.h > 0
      && v.x + v.w <= w && v.y + v.h <= h
  }

  lemma EvenIsEven(x: nat)
    ensures Even(x) % 2 == 0 && Even(x) <= x
  {
  }

  lemma CutInside(p: U32, l: U32, size: U32, rest: nat)
    requires p < size && rest <= size - p
    ensures p + (if Wrap32(p + l) > size then rest else l) <= size <==> p + l <= U32_MAX
  {
    if p + l <= U32_MAX {
      assert Wrap32(p + l) == p + l;
    } else {
      assert Wrap32(p + l) == p + l - 0x1_0000_0000;
    }
  }

  /** One axis of the visible rectangle stays inside the frame exactly when the sum in the clip test does not wrap. */
  lemma ClipInside(pos: U32, len: U32, size: U32)
    requires ClipExtent(pos, len, size) != 0
    ensures ClipExtent(pos, len, size) % 2 == 0 && Even(pos) < size && Even(pos) % 2 == 0
    ensures Even(pos) + ClipExtent(pos, len, size) <= size <==> Even(pos) + Even(len) <= U32_MAX
  {
    hide Even;
    hide Wrap32;
    var p, l := Even(pos), Even(len);
    EvenIsEven(pos);
    EvenIsEven(len);
    assert p < size;
    EvenIsEven(size - p);
    CutInside(p, l, size, Even(size - p));
  }

  /** For the helper alone the wrap is real, at lengths that no sequence header announces (`H264RectSmall`). */
  lemma ClipWrapExample(size: U32)
    requires size > 2
    ensures ClipExtent(2, 0xFFFF_FFFE, size) == 0xFFFF_FFFE
  {
  }

  /** Sequence headers never reach the wrap: their lengths are at most 16 * 65535, whatever the crops do. */
  lemma H264RectSmall(q: Sequence)
    requires q.H264Seq?
    ensures H264Rect(q).2 <= 16 * U16_MAX && H264Rect(q).3 <= 16 * U16_MAX
  {
    hide Wrap32;
  }

  /** The rectangle set from a header is inside the frame as it is then, even when crop products wrap. */
  lemma SetVisibleInside(s: Encoder, x: U32, y: U32, w: U32, h: U32)
    requires w <= 16 * U16_MAX && h <= 16 * U16_MAX && s.width < 0x8000_0000 && s.height < 0x8000_0000
    ensures VisibleInside(VisibleRect(s, x, y, w, h), s.width, s.height)
    ensures !VisibleRect(s, x, y, w, h).valid ==> VisibleRect(s, x, y, w, h) == s.visible.(valid := false)
  {
    hide ClipExtent;
    if ClipExtent(x, w, s.width) != 0 && ClipExtent(y, h, s.height) != 0 {
      ClipInside(x, w, s.width);
      ClipInside(y, h, s.height);
    }
  }

  lemma VisibleKeepsRatchet(env: Settings, s: Encoder, x: U32, y: U32, vw: U32, vh: U32, w: U32, h: U32)
    requires Ratchet(s, w, h) && w < 0x8000_0000 && h < 0x8000_0000
    requires vw <= 16 * U16_MAX && vh <= 16 * U16_MAX
    ensures var s1 := MaybeUseVisible(env, SetVisibleRect(s, x, y, vw, vh));
            Ratchet(s1, w, h) && VisibleInside(s1.visible, w, h)
  {
    hide VisibleRect;
    SetVisibleInside(s, x, y, vw, vh);
  }

  /** Setters leave the sizes in the configuration alone. */
  predicate SameSizes(c: Config, d: Config) {
    d.encodeW == c.encodeW && d.encodeH == c.encodeH && d.maxW == c.maxW && d.maxH == c.maxH
  }

  lemma SequenceKeepsRatchet(env: Settings, s: Encoder, q: Sequence, w: U32, h: U32)
    requires Ratchet(s, w, h) && w < 0x8000_0000 && h < 0x8000_0000 && VisibleInside(s.visible, w, h)
    ensures var s1 := RenderSequence(env, s, q); Ratchet(s1, w, h) && VisibleInside(s1.visible, w, h)
  {
    hide H264Rect;
    hide SetVisibleRect;
    hide MaybeUseVisible;
    hide Wrap32;
    var k := SetGop(SetBitrate(s.held, q.bps), q.intraPeriod, q.idrPeriod);
    assert SameSizes(s.held.cfg, k.cfg);
    hide SetGop;
    hide SetBitrate;
    var s1 := s.(held := k);
    if q.H264Seq? {
      H264RectSmall(q);
      var (x, y, vw, vh) := H264Rect(q);
      VisibleKeepsRatchet(env, s1, x, y, vw, vh, w, h);
    } else {
      VisibleKeepsRatchet(env, s1, 0, 0, q.picW, q.picH, w, h);
    }
    var s2 := UpdateVisible(env, s1, q);
    assert Ratchet(s2, w, h) && VisibleInside(s2.visible, w, h);
    hide UpdateVisible;
    assert SameSizes(s2.held.cfg, SequenceFrameRate(s2.held, q).cfg);
    hide SequenceFrameRate;
  }

  lemma RateControlKeepsSizes(k: Held, rc: RateControl)
    ensures SameSizes(k.cfg, RenderRateControl(k, rc).cfg)
  {
    hide TargetAverage;
    assert SameSizes(k.cfg, RateControlRates(k, rc).cfg);
    hide RateControlRates;
  }

  lemma ClipToSmaller(pos: U32, len: U32, size: U32)
    requires pos < size
    ensures ClipSum(pos, len, size) <= len
  {
  }

  /** The copy is even and never larger than the context. */
  lemma CopyFits(s: Encoder, f: Surface)
    ensures var c := ChooseCopy(s, f);
            && c.w <= s.width && c.h <= s.height
            && c.x % 2 == c.y % 2 == c.w % 2 == c.h % 2 == 0
  {
    hide ClipSum;
    if f.cx < f.width && f.cy < f.height {
      ClipToSmaller(f.cx, Min(f.cw, s.width), f.width);
      ClipToSmaller(f.cy, Min(f.ch, s.height), f.height);
    }
    var r := RawCopy(s, f);
    assert r.w <= s.width && r.h <= s.height;
    hide RawCopy;
    EvenIsEven(r.x);
    EvenIsEven(r.y);
    EvenIsEven(r.w);
    EvenIsEven(r.h);
    EvenIsEven(s.width);
    EvenIsEven(s.height);
    hide Even;
  }

  lemma SubmitKeepsRatchet(env: Settings, s: Encoder, c: Copy, io: EndInputs, w: U32, h: U32)
    requires Ratchet(s, w, h) && c.w <= s.width && c.h <= s.height
    ensures var s1 := Submit(env, s, c, io).0;
            Ratchet(s1, w, h) && s1.width <= s.width && s1.height <= s.height && s1.visible == s.visible
  {
    hide Rejected;
  }

  lemma EndKeepsRatchet(env: Settings, s: Encoder, io: EndInputs, w: U32, h: U32)
    requires Ratchet(s, w, h)
    ensures var s1 := End(env, s, io).enc;
            Ratchet(s1, w, h) && s1.width <= s.width && s1.height <= s.height && s1.visible == s.visible
  {
    hide ChooseCopy;
    hide Submit;
    hide Finish;
    hide Debounced;
    EndPhases(env, s, io);
    hide End;
    var s1 := Reconfigured(env, s, io);
    assert Ratchet(s1, w, h) && s1.width <= s.width && s1.height <= s.height && s1.visible == s.visible;
    hide Reconfigured;
    if Submits(s, io) {
      CopyFits(s1, io.surface);
      SubmitKeepsRatchet(env, WithIdrRules(env, s1), ChooseCopy(s1, io.surface), io, w, h);
      var (s3, _, status) := Submitted(env, s, io);
      FinishFrame(s3, status, io);
    }
  }

  /** One step never enlarges the context. */
  lemma StepKeepsRatchet(env: Settings, s: Encoder, e: Event, w: U32, h: U32)
    requires Ratchet(s, w, h) && w < 0x8000_0000 && h < 0x8000_0000 && VisibleInside(s.visible, w, h)
    ensures var s1 := Step(env, s, e);
            && Ratchet(s1, w, h) && VisibleInside(s1.visible, w, h)
            && s1.width <= s.width && s1.height <= s.height
  {
    hide RenderSequence;
    hide RenderRateControl;
    hide End;
    match e
    case SequenceBuffer(q) =>
      SequenceKeepsRatchet(env, s, q, w, h);
      SequenceFrame(env, s, q);
    case RateControlBuffer(rc) => RateControlKeepsSizes(s.held, rc);
    case EndPicture(io) => EndKeepsRatchet(env, s, io, w, h);
    case _ =>
  }

  /**
   Size ratchet: in every reachable state the encode size is within the context size and that within the
   created size, which also bounds every valid visible rectangle; so the bumps of the maximum never happen.
   */
  lemma {:induction false} SizesNeverGrow(env: Settings, start: Encoder, events: seq<Event>, w: U32, h: U32, at: U64)
    requires Created(env, start, w, h, at)
    ensures var s := Run(env, start, events); Ratchet(s, w, h) && VisibleInside(s.visible, w, h)
  {
    if events != [] {
      hide Step;
      var n := |events| - 1;
      SizesNeverGrow(env, start, events[..n], w, h, at);
      StepKeepsRatchet(env, Run(env, start, events[..n]), events[n], w, h);
    }
  }

  /** Along every run neither dimension ever grows: each state's frame fits in that of every earlier one. */
  lemma {:induction false} SizesShrinkAlongRuns(
    env: Settings, start: Encoder, events: seq<Event>, n: nat, w: U32, h: U32, at: U64)
    requires Created(env, start, w, h, at) && n <= |events|
    ensures var before, after := Run(env, start, events[..n]), Run(env, start, events);
            after.width <= before.width && after.height <= before.height
  {
    if n == |events| {
      assert events[..n] == events;
    } else {
      hide Step;
      var last := |events| - 1;
      assert events[..last][..n] == events[..n];
      SizesShrinkAlongRuns(env, start, events[..last], n, w, h, at);
      SizesNeverGrow(env, start, events[..last], w, h, at);
      StepKeepsRatchet(env, Run(env, start, events[..last]), events[last], w, h);
    }
  }

  /** In every reachable state the staged frame fits an input buffer made for the created size, whatever its pitch. */
  lemma StagingFitsInput(env: Settings, start: Encoder, events: seq<Event>, w: U32, h: U32, at: U64, pitch: nat)
    requires Created(env, start, w, h, at) && w as int <= pitch
    ensures var s := Run(env, start, events);
            s.width as int <= pitch && Staging.FrameBytes(pitch, s.height) <= Staging.FrameBytes(pitch, h)
  {
    SizesNeverGrow(env, start, events, w, h, at);
    Staging.FrameBytesMonotone(pitch, Run(env, start, events).height, h);
  }

  // ---------------------------------------------------------------- IDR budget and counters

  /** What is left of the startup budget after the outputs so far. */
  predicate Budget(env: Settings, n: Counters, past: History) {
    n.startupLeft as int == if past.since < env.startupFrames as int then env.startupFrames as int - past.since else 0
  }

  function Total(past: History): nat {
    past.outputs + past.needMore
  }

  /** Counters and slot index as functions of the number of accepted pictures. */
  predicate Counted(n: Counters, past: History) {
    && 1 <= n.ioCount <= 4
    && n.frameNum as int == Total(past) % 0x1_0000_0000
    && n.outputCount as int == past.outputs % 0x1_0000_0000
    && n.ioIndex as int == Total(past) % (n.ioCount as int)
  }

  lemma NextOfTwo(total: nat)
    ensures (total % 2 % 2 + 1) % 2 == (total + 1) % 2
  {
  }

  lemma NextOfThree(total: nat)
    ensures (total % 3 % 3 + 1) % 3 == (total + 1) % 3
  {
  }

  lemma NextOfFour(total: nat)
    ensures (total % 4 % 4 + 1) % 4 == (total + 1) % 4
  {
  }

  lemma NextSlot(total: nat, n: nat)
    requires 1 <= n <= 4
    ensures (total % n % n + 1) % n == (total + 1) % n
  {
    NextOfTwo(total);
    NextOfThree(total);
    NextOfFour(total);
    assert total % 1 == 0;
  }

  lemma NextCount(total: nat)
    ensures (total % 0x1_0000_0000 + 1) % 0x1_0000_0000 == (total + 1) % 0x1_0000_0000
  {
  }

  lemma FinishCounts(env: Settings, s: Encoder, status: NvStatus, io: EndInputs)
    requires Budget(env, s.count, s.past) && Counted(s.count, s.past)
    ensures var (s1, outcome) := Finish(s, status, io);
            && Budget(env, s1.count, s1.past) && Counted(s1.count, s1.past)
            && Total(s1.past) == Total(s.past) + (if outcome.Failed? then 0 else 1)
            && s1.past.outputs == s.past.outputs + (if outcome.Produced? then 1 else 0)
            && s1.past.since == s.past.since + (if outcome.Produced? then 1 else 0)
  {
    NextSlot(Total(s.past), s.count.ioCount);
    NextCount(Total(s.past));
    NextCount(s.past.outputs);
  }

  lemma ReconfigureBudget(env: Settings, s: Encoder, io: EndInputs)
    requires Budget(env, s.count, s.past) && Counted(s.count, s.past)
    ensures var s1 := Reconfigured(env, s, io);
            && Budget(env, s1.count, s1.past) && Counted(s1.count, s1.past)
            && s1.count.frameNum == s.count.frameNum && s1.forceIdr == s.forceIdr
            && s1.past.since == (if (s1.width, s1.height) != (s.width, s.height) then 0 else s.past.since)
  {
    hide Debounced;
  }

  lemma SubmitBudget(env: Settings, s: Encoder, c: Copy, io: EndInputs)
    requires Budget(env, s.count, s.past) && Counted(s.count, s.past)
    ensures var r := Submit(env, s, c, io).0; Budget(env, r.count, r.past) && Counted(r.count, r.past)
    ensures forall x <- Submit(env, s, c, io).1 :: x.idr <==> s.forceIdr || s.count.frameNum == 0
  {
    hide Rejected;
  }

  /** The rule for forced IDR pictures in terms of the outputs since the last size change. */
  predicate MustBeIdr(env: Settings, s: Encoder) {
    || s.past.since < env.startupFrames as int
    || s.count.frameNum == 0 || s.forceIdr
    || (env.forceEvery > 0 && s.count.frameNum % env.forceEvery == 0)
  }

  /**
   One End: the budget and the counters stay exact, and each submission is an IDR exactly if the rule says so
   for the state after `nvencReconfigureIfNeeded`.
   */
  lemma EndKeepsBudget(env: Settings, s: Encoder, io: EndInputs)
    requires Budget(env, s.count, s.past) && Counted(s.count, s.past)
    ensures var r := End(env, s, io).enc; Budget(env, r.count, r.past) && Counted(r.count, r.past)
    ensures forall x <- End(env, s, io).submissions :: x.idr <==> MustBeIdr(env, Reconfigured(env, s, io))
  {
    hide ChooseCopy;
    hide Reconfigured;
    hide Submit;
    hide Finish;
    EndPhases(env, s, io);
    hide End;
    ReconfigureBudget(env, s, io);
    var s1 := Reconfigured(env, s, io);
    if Submits(s, io) {
      var s2 := WithIdrRules(env, s1);
      assert s2.forceIdr || s2.count.frameNum == 0 <==> MustBeIdr(env, s1);
      SubmitBudget(env, s2, ChooseCopy(s1, io.surface), io);
      var (s3, _, status) := Submitted(env, s, io);
      FinishCounts(env, s3, status, io);
    }
  }

  lemma StepKeepsBudget(env: Settings, s: Encoder, e: Event)
    requires Budget(env, s.count, s.past) && Counted(s.count, s.past)
    ensures var r := Step(env, s, e); Budget(env, r.count, r.past) && Counted(r.count, r.past)
  {
    hide End;
    hide RenderSequence;
    hide RenderRateControl;
    if e.EndPicture? {
      EndKeepsBudget(env, s, e.io);
    } else {
      RenderFrame(env, s, e);
    }
  }

  /** Over every run the startup budget and all counters are exact. */
  lemma {:induction false} BudgetAndCounters(env: Settings, start: Encoder, events: seq<Event>, w: U32, h: U32, at: U64)
    requires Created(env, start, w, h, at)
    ensures var s := Run(env, start, events); Budget(env, s.count, s.past) && Counted(s.count, s.past)
  {
    if events != [] {
      hide Step;
      var n := |events| - 1;
      BudgetAndCounters(env, start, events[..n], w, h, at);
      StepKeepsBudget(env, Run(env, start, events[..n]), events[n]);
    }
  }

  /** Over every run each submission is an IDR exactly if the rule says so; in particular until N outputs exist. */
  lemma IdrUntilBudgetSpent(env: Settings, start: Encoder, events: seq<Event>, io: EndInputs, w: U32, h: U32, at: U64)
    requires Created(env, start, w, h, at)
    ensures var s := Run(env, start, events);
            forall x <- End(env, s, io).submissions :: x.idr <==> MustBeIdr(env, Reconfigured(env, s, io))
  {
    BudgetAndCounters(env, start, events, w, h, at);
    EndKeepsBudget(env, Run(env, start, events), io);
  }

  /**
   The slot index is the frame number modulo the ring depth for ever if the depth divides 2^32; with a depth of
   three exactly while the number of wraps of the 32-bit frame number is a multiple of three.
   */
  lemma SlotFollowsFrameNumber(n: Counters, past: History)
    requires Counted(n, past)
    ensures n.ioIndex == n.frameNum % n.ioCount <==> n.ioCount != 3 || Total(past) / 0x1_0000_0000 % 3 == 0
  {
    WrapDivides(Total(past));
    WrapThirds(Total(past));
  }

  lemma SameRemainder(k: nat, c: nat)
    ensures (3 * k + c) % 3 == c % 3
  {
  }

  lemma SumOfRemainders(q: nat, r: nat)
    ensures r % 3 == (q + r) % 3 <==> q % 3 == 0
  {
    var a, b := q % 3, r % 3;
    assert q + r == 3 * (q / 3 + r / 3) + (a + b);
    SameRemainder(q / 3 + r / 3, a + b);
  }

  lemma WrapThirds(total: nat)
    ensures total % 0x1_0000_0000 % 3 == total % 3 <==> total / 0x1_0000_0000 % 3 == 0
  {
    var q, r := total / 0x1_0000_0000, total % 0x1_0000_0000;
    SameRemainder(0x5555_5555 * q, q + r);
    SumOfRemainders(q, r);
  }

  lemma Remainder(m: nat, k: nat, c: nat)
    requires (m == 2 || m == 4) && c < m
    ensures (m * k + c) % m == c
  {
    if m == 2 {
      assert (2 * k + c) % 2 == c;
    } else {
      assert (4 * k + c) % 4 == c;
    }
  }

  lemma WrapDivides(total: nat)
    ensures total % 0x1_0000_0000 % 2 == total % 2 && total % 0x1_0000_0000 % 4 == total % 4
  {
    var q, r := total / 0x1_0000_0000, total % 0x1_0000_0000;
    Remainder(2, 0x8000_0000 * q + r / 2, r % 2);
    Remainder(4, 0x4000_0000 * q + r / 4, r % 4);
  }

  lemma ResizingSubmission(env: Settings, s: Encoder, io: EndInputs)
    requires Resizes(env, s, io)
    ensures var (s3, subs, _) := Submitted(env, s, io);
            |subs| >= 2 && s3.past.since == 0 && s3.count.startupLeft == env.startupFrames
  {
    hide ChooseCopy;
    hide Reconfigure;
  }

  /**
   A picture resubmitted after a resize inside End keeps the flags computed before it: over every run it opens the
   new size with an IDR exactly if the rule asked for one before the resize, although the budget starts anew.
   */
  lemma ResubmissionKeepsFlags(
    env: Settings, start: Encoder, events: seq<Event>, io: EndInputs, w: U32, h: U32, at: U64)
    requires Created(env, start, w, h, at) && Resizes(env, Run(env, start, events), io)
    ensures var s := Run(env, start, events);
            var s3 := Submitted(env, s, io).0;
            && |End(env, s, io).submissions| >= 2 && s3.past.since == 0 && s3.count.startupLeft == env.startupFrames
            && (End(env, s, io).submissions[1].idr <==> MustBeIdr(env, Reconfigured(env, s, io)))
  {
    var s := Run(env, start, events);
    IdrUntilBudgetSpent(env, start, events, io, w, h, at);
    hide Run;
    ResizingSubmission(env, s, io);
    hide Submit;
    hide ChooseCopy;
    hide Finish;
    hide Reconfigure;
    EndPhases(env, s, io);
    hide End;
    var subs := End(env, s, io).submissions;
    assert subs[1] in subs;
  }

  // ---------------------------------------------------------------- rate control

  /** Outside constant-QP mode the average rate does not exceed the maximum. */
  predicate RatesOrdered(c: Config) {
    !c.mode.ConstQp? ==> c.avg <= c.max
  }

  lemma BitrateOrdered(c: Config, bps: U32)
    requires RatesOrdered(c)
    ensures RatesOrdered(BitrateConfig(c, bps)) && BitrateConfig(c, bps).mode == c.mode
  {
  }

  /** A target percentage keeps the order exactly if its average, or else the old one, fits the new maximum. */
  lemma TargetKeepsOrder(k: Held, rc: RateControl)
    requires RatesOrdered(k.cfg) && UsesTarget(k.cfg, rc)
    ensures RatesOrdered(RateControlRates(k, rc).cfg)
       <==> TargetAverage(rc) <= rc.bps && (TargetAverage(rc) == 0 ==> k.cfg.avg <= rc.bps)
  {
    hide TargetAverage;
  }

  /** Percentages up to 100 that do not round to nothing are always fine. */
  predicate Sensible(rc: RateControl) {
    rc.bps == 0 || rc.percent == 0 || (rc.percent <= 100 && rc.bps * rc.percent >= 100)
  }

  lemma MulBelow(a: nat, b: nat)
    requires b <= 100
    ensures a * b <= 100 * a
  {
    assert 100 * a - a * b == a * (100 - b);
  }

  lemma SensibleTarget(rc: RateControl)
    requires Sensible(rc) && rc.bps != 0 && rc.percent != 0
    ensures 1 <= TargetAverage(rc) <= rc.bps
  {
    var x: int := rc.bps * rc.percent;
    MulBelow(rc.bps, rc.percent);
    assert 100 <= x <= 100 * rc.bps as int;
    assert 1 <= x / 100 <= rc.bps;
  }

  /** One that rounds to zero updates only the maximum: 50 bit/s at 1 per cent leaves the average above it. */
  lemma RoundedAwayExample(k: Held)
    requires k.cfg.mode.Vbr? && k.cfg.avg == 5000000 && k.cfg.max == 10000000
    ensures !RatesOrdered(RenderRateControl(k, RateControl(50, 1, 0, 0)).cfg)
  {
    assert TargetAverage(RateControl(50, 1, 0, 0)) == 0;
  }

  lemma RateControlOrdered(k: Held, rc: RateControl)
    requires RatesOrdered(k.cfg) && Sensible(rc)
    ensures RatesOrdered(RenderRateControl(k, rc).cfg)
  {
    hide TargetAverage;
    if UsesTarget(k.cfg, rc) {
      SensibleTarget(rc);
      TargetKeepsOrder(k, rc);
    } else {
      BitrateOrdered(k.cfg, rc.bps);
    }
    assert RatesOrdered(RateControlRates(k, rc).cfg);
    hide RateControlRates;
  }

  lemma SequenceOrdered(env: Settings, s: Encoder, q: Sequence)
    requires RatesOrdered(s.held.cfg)
    ensures RatesOrdered(RenderSequence(env, s, q).held.cfg)
  {
    hide H264Rect;
    hide VisibleRect;
    hide BitrateConfig;
    hide Wrap32;
    BitrateOrdered(s.held.cfg, q.bps);
    var s1 := s.(held := SetGop(SetBitrate(s.held, q.bps), q.intraPeriod, q.idrPeriod));
    assert RatesOrdered(s1.held.cfg);
    hide SetGop;
    hide SetBitrate;
    assert RatesOrdered(UpdateVisible(env, s1, q).held.cfg);
    hide UpdateVisible;
  }

  lemma EndKeepsRates(env: Settings, s: Encoder, io: EndInputs)
    ensures var c := End(env, s, io).enc.held.cfg;
            c.mode == s.held.cfg.mode && c.avg == s.held.cfg.avg && c.max == s.held.cfg.max
  {
    hide ChooseCopy;
    hide Debounced;
    hide Rejected;
    hide Finish;
    EndPhases(env, s, io);
    hide End;
    if Submits(s, io) {
      var (s3, _, status) := Submitted(env, s, io);
      FinishFrame(s3, status, io);
    }
  }

  lemma StepOrdered(env: Settings, s: Encoder, e: Event)
    requires RatesOrdered(s.held.cfg) && (e.RateControlBuffer? ==> Sensible(e.rc))
    ensures RatesOrdered(Step(env, s, e).held.cfg)
  {
    hide RenderSequence;
    hide RenderRateControl;
    hide End;
    match e
    case SequenceBuffer(q) => SequenceOrdered(env, s, q);
    case RateControlBuffer(rc) => RateControlOrdered(s.held, rc);
    case EndPicture(io) => EndKeepsRates(env, s, io);
    case _ =>
  }

  /** Over every run of sensible rate-control buffers the average rate stays within the maximum. */
  lemma {:induction false} AverageWithinMaximum(
    env: Settings, start: Encoder, events: seq<Event>, w: U32, h: U32, at: U64)
    requires Created(env, start, w, h, at)
    requires forall e <- events :: e.RateControlBuffer? ==> Sensible(e.rc)
    ensures RatesOrdered(Run(env, start, events).held.cfg)
  {
    if events != [] {
      hide Sensible;
      hide Step;
      var n := |events| - 1;
      AverageWithinMaximum(env, start, events[..n], w, h, at);
      StepOrdered(env, Run(env, start, events[..n]), events[n]);
    }
  }

  /**
   A rate-control buffer raises the reconfigure flag exactly if it changes a stored value; the one exception is
   a target average above the stated maximum, whose two updates always disagree.
   */
  lemma RateControlFlagExact(k: Held, rc: RateControl)
    ensures var k1 := RenderRateControl(k, rc);
            k1.pending <==> k.pending || k1.cfg != k.cfg || (UsesTarget(k.cfg, rc) && TargetAverage(rc) > rc.bps)
  {
    hide TargetAverage;
    hide RateControlRates;
    hide SetMaxQp;
    hide SetMinQp;
    RatesFlagExact(k, rc);
    var k1 := RateControlRates(k, rc);
    QpsFlagExact(k1, rc.maxQp);
    QpsFlagExact(SetMaxQp(k1, rc.maxQp), rc.minQp);
  }

  lemma RatesFlagExact(k: Held, rc: RateControl)
    ensures var k1 := RateControlRates(k, rc);
            && (k1.pending <==> k.pending || k1.cfg != k.cfg || (UsesTarget(k.cfg, rc) && TargetAverage(rc) > rc.bps))
            && k1.cfg == k.cfg.(avg := k1.cfg.avg, max := k1.cfg.max)
  {
    hide TargetAverage;
  }

  lemma QpsFlagExact(k: Held, q: U32)
    ensures var k1 := SetMaxQp(k, q);
            && (k1.pending <==> k.pending || k1.cfg != k.cfg) && k1.cfg == k.cfg.(maxQp := k1.cfg.maxQp)
    ensures var k1 := SetMinQp(k, q);
            && (k1.pending <==> k.pending || k1.cfg != k.cfg) && k1.cfg == k.cfg.(minQp := k1.cfg.minQp)
  {
  }

  // ---------------------------------------------------------------- rendering a buffer twice

  /** The rectangle a sequence buffer leaves, if it is of the encoder's codec. */
  function SequenceVisible(s: Encoder, q: Sequence): Visible {
    if q.H264Seq? then var (x, y, w, h) := H264Rect(q); VisibleRect(s, x, y, w, h)
    else if q.picW == 0 || q.picH == 0 then s.visible
    else VisibleRect(s, 0, 0, q.picW, q.picH)
  }

  /** The encode size that a rectangle makes pending, for a frame of the given size. */
  function Sized(env: Settings, v: Visible, width: U32, height: U32, k: Held): Held {
    if !env.visibleReconfigure || !v.valid || v.w == 0 || v.h == 0 || v.x != 0 || v.y != 0
       || (v.w == width && v.h == height) || v.w > k.cfg.maxW || v.h > k.cfg.maxH then k
    else Held(k.cfg.(encodeW := v.w, encodeH := v.h, darW := v.w, darH := v.h), true)
  }

  /** The configuration a sequence buffer leaves. */
  function SequenceHeld(env: Settings, s: Encoder, v: Visible, q: Sequence): Held {
    var k := SetGop(SetBitrate(s.held, q.bps), q.intraPeriod, q.idrPeriod);
    var sets := q.H264Seq? || (q.picW != 0 && q.picH != 0);
    SequenceFrameRate(if sets then Sized(env, v, s.width, s.height, k) else k, q)
  }

  lemma SequenceEffect(env: Settings, s: Encoder, q: Sequence)
    requires q.HevcSeq? == s.hevc
    ensures var v := SequenceVisible(s, q);
            RenderSequence(env, s, q) == s.(held := SequenceHeld(env, s, v, q), visible := v)
  {
    hide H264Rect;
    hide ClipExtent;
    hide SetGop;
    hide SetBitrate;
    hide SequenceFrameRate;
  }

  lemma BitrateTwice(k: Held, j: Held, bps: U32)
    requires var c := SetBitrate(k, bps).cfg; j.cfg.mode == c.mode && j.cfg.avg == c.avg && j.cfg.max == c.max
    ensures SetBitrate(j, bps) == j
  {
  }

  lemma GopTwice(k: Held, j: Held, gop: U32, idrPeriod: U32)
    requires var c := SetGop(k, gop, idrPeriod).cfg; j.cfg.gop == c.gop && j.cfg.idrPeriod == c.idrPeriod
    ensures SetGop(j, gop, idrPeriod) == j
  {
  }

  lemma FrameRateTwice(k: Held, q: Sequence)
    ensures SequenceFrameRate(SequenceFrameRate(k, q), q) == SequenceFrameRate(k, q)
  {
    hide Wrap32;
  }

  lemma SizedTwice(env: Settings, v: Visible, width: U32, height: U32, k: Held, q: Sequence)
    ensures var j := SequenceFrameRate(Sized(env, v, width, height, k), q); Sized(env, v, width, height, j) == j
  {
    hide Wrap32;
    var k1 := Sized(env, v, width, height, k);
    var j := SequenceFrameRate(k1, q);
    assert j.cfg == k1.cfg.(fpsNum := j.cfg.fpsNum, fpsDen := j.cfg.fpsDen) && (k1.pending ==> j.pending);
    hide SequenceFrameRate;
  }

  /** No setter changes a configuration that it has set already. */
  lemma SequenceHeldTwice(env: Settings, s: Encoder, v: Visible, q: Sequence)
    ensures var k := SequenceHeld(env, s, v, q); SequenceHeld(env, s.(held := k), v, q) == k
  {
    hide Wrap32;
    hide BitrateConfig;
    var k1 := SetBitrate(s.held, q.bps);
    var k2 := SetGop(k1, q.intraPeriod, q.idrPeriod);
    assert k2.cfg == k1.cfg.(gop := k2.cfg.gop, idrPeriod := k2.cfg.idrPeriod);
    var sets := q.H264Seq? || (q.picW != 0 && q.picH != 0);
    var k3 := if sets then Sized(env, v, s.width, s.height, k2) else k2;
    assert SameRates(k3.cfg, k2.cfg);
    var k4 := SequenceFrameRate(k3, q);
    assert SameRates(k4.cfg, k3.cfg);
    FrameRateTwice(k3, q);
    if sets {
      SizedTwice(env, v, s.width, s.height, k2, q);
    }
    hide SequenceFrameRate;
    hide Sized;
    GopTwice(k1, k4, q.intraPeriod, q.idrPeriod);
    hide SetGop;
    BitrateTwice(s.held, k4, q.bps);
    hide SetBitrate;
  }

  predicate SameRates(c: Config, d: Config) {
    c.mode == d.mode && c.avg == d.avg && c.max == d.max && c.gop == d.gop && c.idrPeriod == d.idrPeriod
  }

  lemma VisibleTwice(s: Encoder, t: Encoder, x: U32, y: U32, w: U32, h: U32)
    requires t.width == s.width && t.height == s.height && t.visible == VisibleRect(s, x, y, w, h)
    ensures VisibleRect(t, x, y, w, h) == t.visible
  {
    hide ClipExtent;
  }

  lemma SequenceVisibleTwice(s: Encoder, q: Sequence, k: Held)
    ensures SequenceVisible(s.(held := k, visible := SequenceVisible(s, q)), q) == SequenceVisible(s, q)
  {
    hide VisibleRect;
    hide H264Rect;
    var r := s.(held := k, visible := SequenceVisible(s, q));
    if q.H264Seq? {
      var (x, y, w, h) := H264Rect(q);
      VisibleTwice(s, r, x, y, w, h);
    } else if q.picW != 0 && q.picH != 0 {
      VisibleTwice(s, r, 0, 0, q.picW, q.picH);
    }
  }

  lemma SequenceTwice(env: Settings, s: Encoder, q: Sequence)
    ensures RenderSequence(env, RenderSequence(env, s, q), q) == RenderSequence(env, s, q)
  {
    if q.HevcSeq? == s.hevc {
      var v := SequenceVisible(s, q);
      var k := SequenceHeld(env, s, v, q);
      var r := s.(held := k, visible := v);
      SequenceEffect(env, s, q);
      SequenceEffect(env, r, q);
      SequenceVisibleTwice(s, q, k);
      SequenceHeldTwice(env, s, v, q);
      assert SequenceHeld(env, r, v, q) == SequenceHeld(env, s.(held := k), v, q);
      hide RenderSequence;
      hide SequenceHeld;
      hide SequenceVisible;
    }
  }

  lemma TargetTwice(k: Held, rc: RateControl)
    requires UsesTarget(k.cfg, rc) && TargetAverage(rc) != 0
    requires k.cfg.avg == TargetAverage(rc) && k.cfg.max == rc.bps && (TargetAverage(rc) > rc.bps ==> k.pending)
    ensures RateControlRates(k, rc) == k
  {
    hide TargetAverage;
  }

  lemma RatesTwice(k: Held, j: Held, rc: RateControl)
    requires var r := RateControlRates(k, rc);
             j.cfg.mode == r.cfg.mode && j.cfg.avg == r.cfg.avg && j.cfg.max == r.cfg.max && (r.pending ==> j.pending)
    ensures RateControlRates(j, rc) == j
  {
    hide TargetAverage;
    RatesFlagExact(k, rc);
    if UsesTarget(k.cfg, rc) && TargetAverage(rc) != 0 {
      TargetTwice(j, rc);
    }
  }

  lemma RateControlTwice(k: Held, rc: RateControl)
    ensures RenderRateControl(RenderRateControl(k, rc), rc) == RenderRateControl(k, rc)
  {
    hide RateControlRates;
    var k1 := RateControlRates(k, rc);
    var k2 := SetMaxQp(k1, rc.maxQp);
    QpsFlagExact(k1, rc.maxQp);
    var k3 := SetMinQp(k2, rc.minQp);
    QpsFlagExact(k2, rc.minQp);
    RatesTwice(k, k3, rc);
    assert SetMaxQp(k3, rc.maxQp) == k3;
    assert SetMinQp(k3, rc.minQp) == k3;
  }

  /** Rendering the same parameter buffer twice in a row changes nothing the second time. */
  lemma RenderTwice(env: Settings, s: Encoder, e: Event)
    requires !e.EndPicture?
    ensures Apply(env, Apply(env, s, e), e) == Apply(env, s, e)
  {
    hide RenderSequence;
    hide RenderRateControl;
    match e
    case SequenceBuffer(q) => SequenceTwice(env, s, q);
    case RateControlBuffer(rc) => RateControlTwice(s.held, rc);
    case _ =>
  }
}
