/**
 Where the visible rectangle lies in the frame, and where the staging copy reads in the surface: the exact
 conditions under which the encoder stays inside, and runs from creation on which it does not.
 */
module EncoderGeometry {
  import opened Words
  import opened EncoderModel
  import opened EncoderTheorems
  import Staging
  import SurfaceImage

  // ---------------------------------------------------------------- the rectangle in the frame

  predicate FitsFrame(v: Visible, w: U32, h: U32) {
    v.x + v.w <= w && v.y + v.h <= h
  }

  /** The shape every reachable rectangle has. */
  predicate EvenRect(v: Visible) {
    v.valid ==> v.x % 2 == v.y % 2 == v.w % 2 == v.h % 2 == 0 && v.w > 0 && v.h > 0
  }

  /** The frame after the reconfigure of one End: the pending encode size if the encoder accepts it. */
  function NextWidth(env: Settings, s: Encoder, io: EndInputs): U32 {
    if Reconfigures(env, s, io) then s.held.cfg.encodeW else s.width
  }

  function NextHeight(env: Settings, s: Encoder, io: EndInputs): U32 {
    if Reconfigures(env, s, io) then s.held.cfg.encodeH else s.height
  }

  /** The encoder rejects a picture of the rectangle's size and accepts the resize to it. */
  predicate RetriesAtRect(env: Settings, s: Encoder, io: EndInputs) {
    && Submits(s, io) && io.first.InvalidParam? && env.canReconfigure && io.resizeOk
    && (s.visible.w != NextWidth(env, s, io) || s.visible.h != NextHeight(env, s, io))
  }

  lemma ReconfiguredFrame(env: Settings, s: Encoder, io: EndInputs)
    requires Opens(s, io)
    ensures var s1 := Reconfigured(env, s, io);
            && s1.width == NextWidth(env, s, io) && s1.height == NextHeight(env, s, io)
            && s1.visible == s.visible
  {
    hide Debounced;
  }

  /** A rectangle inside the frame is what gets copied. */
  lemma RectIsCopied(s: Encoder, f: Surface)
    requires s.visible.valid && EvenRect(s.visible) && FitsFrame(s.visible, s.width, s.height)
    ensures ChooseCopy(s, f) == Copy(s.visible.x, s.visible.y, s.visible.w, s.visible.h)
  {
    hide ClipSum;
  }

  lemma SubmitFrame(env: Settings, s: Encoder, c: Copy, io: EndInputs)
    ensures var s1 := Submit(env, s, c, io).0;
            var resized := Rejected(s, c, io.first) && env.canReconfigure && io.resizeOk;
            && s1.width == (if resized then c.w else s.width) && s1.height == (if resized then c.h else s.height)
            && s1.visible == s.visible
  {
    hide Rejected;
  }

  /** A rectangle is inside the frame that a resize to its copy leaves exactly if it was inside and at the origin. */
  lemma ResizeKeepsRectExactly(env: Settings, s: Encoder, f: Surface, at: U64)
    requires s.visible.valid && EvenRect(s.visible)
    ensures var s1 := Resize(env, s, ChooseCopy(s, f), at);
            VisibleInside(s1.visible, s1.width, s1.height) <==>
            FitsFrame(s.visible, s.width, s.height) && s.visible.x == 0 && s.visible.y == 0
  {
    CopyFits(s, f);
    if FitsFrame(s.visible, s.width, s.height) {
      RectIsCopied(s, f);
    }
    hide ChooseCopy;
  }

  /** What has to hold for a valid rectangle to be inside the frame after an End. */
  predicate EndKeepsRect(env: Settings, s: Encoder, io: EndInputs) {
    s.visible.valid ==>
      && FitsFrame(s.visible, NextWidth(env, s, io), NextHeight(env, s, io))
      && (RetriesAtRect(env, s, io) ==> s.visible.x == 0 && s.visible.y == 0)
  }

  lemma SubmittedRect(env: Settings, s: Encoder, io: EndInputs)
    requires EvenRect(s.visible) && s.visible.valid && Submits(s, io)
    ensures var s3 := Submitted(env, s, io).0;
            && s3.visible == s.visible
            && (FitsFrame(s3.visible, s3.width, s3.height) <==> EndKeepsRect(env, s, io))
  {
    hide Submit;
    hide ChooseCopy;
    hide Attempts;
    hide Reconfigure;
    ReconfiguredFrame(env, s, io);
    var s1 := Reconfigured(env, s, io);
    hide Reconfigured;
    var s2 := WithIdrRules(env, s1);
    var c := ChooseCopy(s1, io.surface);
    CopyFits(s1, io.surface);
    SubmitFrame(env, s2, c, io);
    if FitsFrame(s1.visible, s1.width, s1.height) {
      RectIsCopied(s1, io.surface);
    }
  }

  /** One End: the rectangle is inside the resulting frame exactly if it fits and any retry found it at the origin. */
  lemma EndRectExactly(env: Settings, s: Encoder, io: EndInputs)
    requires EvenRect(s.visible)
    ensures var r := End(env, s, io).enc;
            VisibleInside(r.visible, r.width, r.height) <==> EndKeepsRect(env, s, io)
    ensures End(env, s, io).enc.visible == s.visible
  {
    hide Finish;
    hide Submit;
    hide Reconfigure;
    hide ChooseCopy;
    hide Attempts;
    EndPhases(env, s, io);
    hide End;
    if Submits(s, io) {
      var (s3, _, status) := Submitted(env, s, io);
      SubmittedFrame(env, s, io);
      if s.visible.valid {
        SubmittedRect(env, s, io);
      }
      hide Submitted;
      FinishFrame(s3, status, io);
    } else if Opens(s, io) {
      ReconfiguredFrame(env, s, io);
    }
  }

  lemma SubmittedFrame(env: Settings, s: Encoder, io: EndInputs)
    requires Submits(s, io)
    ensures Submitted(env, s, io).0.visible == s.visible
  {
    hide ChooseCopy;
    hide Submit;
    hide Reconfigure;
    hide Attempts;
    ReconfiguredFrame(env, s, io);
    SubmitFrame(env, WithIdrRules(env, Reconfigured(env, s, io)), ChooseCopy(Reconfigured(env, s, io), io.surface), io);
  }

  /** A sequence header that sets the rectangle. */
  predicate SetsRect(s: Encoder, q: Sequence) {
    q.HevcSeq? == s.hevc && (q.HevcSeq? ==> q.picW != 0 && q.picH != 0)
  }

  /** Whether the rectangle is inside the frame after an event. */
  predicate KeepsRect(env: Settings, s: Encoder, e: Event) {
    match e
    case EndPicture(io) => EndKeepsRect(env, s, io)
    case SequenceBuffer(q) => SetsRect(s, q) || VisibleInside(s.visible, s.width, s.height)
    case _ => VisibleInside(s.visible, s.width, s.height)
  }

  lemma SequenceRect(env: Settings, s: Encoder, q: Sequence)
    requires s.width < 0x8000_0000 && s.height < 0x8000_0000
    ensures var r := RenderSequence(env, s, q);
            && r.width == s.width && r.height == s.height
            && (SetsRect(s, q) ==> VisibleInside(r.visible, s.width, s.height))
            && (!SetsRect(s, q) ==> r.visible == s.visible)
  {
    hide H264Rect;
    hide VisibleRect;
    hide SetGop;
    hide SetBitrate;
    hide SequenceFrameRate;
    SequenceFrame(env, s, q);
    var s1 := s.(held := SetGop(SetBitrate(s.held, q.bps), q.intraPeriod, q.idrPeriod));
    if q.H264Seq? {
      H264RectSmall(q);
      var (x, y, vw, vh) := H264Rect(q);
      SetVisibleInside(s1, x, y, vw, vh);
    } else {
      SetVisibleInside(s1, 0, 0, q.picW, q.picH);
    }
  }

  lemma StepRectExactly(env: Settings, s: Encoder, e: Event)
    requires EvenRect(s.visible) && s.width < 0x8000_0000 && s.height < 0x8000_0000
    ensures var r := Step(env, s, e);
            VisibleInside(r.visible, r.width, r.height) <==> KeepsRect(env, s, e)
  {
    hide RenderSequence;
    hide RenderRateControl;
    hide RenderFrameRate;
    hide End;
    match e
    case SequenceBuffer(q) => SequenceRect(env, s, q);
    case EndPicture(io) =>
      EndRectExactly(env, s, io);
      hide EndKeepsRect;
    case _ =>
  }

  /**
   The rectangle over runs: in every reachable state, whatever the next event, a valid rectangle is inside the
   frame afterwards if and only if `KeepsRect` holds. Only an End can push it out, by one of two ways.
   */
  lemma RectInsideExactly(
    env: Settings, start: Encoder, events: seq<Event>, e: Event, w: U32, h: U32, at: U64)
    requires Created(env, start, w, h, at)
    ensures var s, r := Run(env, start, events), Run(env, start, events + [e]);
            VisibleInside(r.visible, r.width, r.height) <==> KeepsRect(env, s, e)
  {
    hide Step;
    hide KeepsRect;
    SizesNeverGrow(env, start, events, w, h, at);
    assert (events + [e])[..|events|] == events;
    StepRectExactly(env, Run(env, start, events), e);
  }

  // ---------------------------------------------------------------- runs on which it leaves the frame

  lemma RunSnoc(env: Settings, start: Encoder, events: seq<Event>, e: Event)
    ensures Run(env, start, events + [e]) == Step(env, Run(env, start, events), e)
  {
    hide Step;
    assert (events + [e])[..|events|] == events;
  }

  lemma RunOfOne(env: Settings, start: Encoder, a: Event)
    ensures Run(env, start, [a]) == Step(env, start, a)
  {
    hide Step;
    RunSnoc(env, start, [], a);
    assert [] + [a] == [a];
  }

  /** A picture that names its coded buffer, behind any prefix. */
  lemma RunPicture(env: Settings, start: Encoder, prefix: seq<Event>, io: EndInputs)
    ensures var s := Run(env, start, prefix);
            && Step(env, Step(env, s, BeginPicture), CodedBuffer) == Prepared(s)
            && Run(env, start, prefix + [BeginPicture, CodedBuffer]) == Prepared(s)
            && prefix + Picture(io) == prefix + [BeginPicture, CodedBuffer] + [EndPicture(io)]
  {
    RunSnoc(env, start, prefix, BeginPicture);
    RunSnoc(env, start, prefix + [BeginPicture], CodedBuffer);
    assert prefix + [BeginPicture] + [CodedBuffer] == prefix + [BeginPicture, CodedBuffer];
    assert prefix + Picture(io) == prefix + [BeginPicture, CodedBuffer] + [EndPicture(io)];
    hide Run;
  }

  function Picture(io: EndInputs): seq<Event> {
    [BeginPicture, CodedBuffer, EndPicture(io)]
  }

  function Prepared(s: Encoder): Encoder {
    s.(hasTarget := true, hasCoded := true, forceIdr := s.count.frameNum == 0)
  }

  /** A 640x480 header that crops one chroma sample at the left and at the top, and asks for nothing else. */
  const CROPPED := H264Seq(0, 0, 0, 40, 30, 1, true, true, 1, 0, 1, 0, false, 0, 0)

  lemma CroppedRect()
    ensures H264Rect(CROPPED) == (2, 2, 638, 478)
  {
    assert Wrap32(2) == 2 && Wrap32(0) == 0;
    hide Wrap32;
  }

  lemma CroppedAxis(len: U32, size: U32)
    requires 2 <= len == size - 2 && len % 2 == 0
    ensures ClipExtent(2, len, size) == len
  {
    assert Wrap32(2 + len) == 2 + len;
    hide Wrap32;
    assert Even(len) == len && Even(2) == 2;
    hide Even;
  }

  lemma CroppedVisible(s: Encoder)
    requires s.width == 640 && s.height == 480
    ensures VisibleRect(s, 2, 2, 638, 478) == Visible(2, 2, 638, 478, true)
  {
    hide ClipExtent;
    CroppedAxis(638, 640);
    CroppedAxis(478, 480);
    assert Even(2) == 2;
    hide Even;
  }

  lemma CroppedHeader(env: Settings, s: Encoder)
    requires !s.hevc && s.width == 640 && s.height == 480
    ensures Step(env, s, SequenceBuffer(CROPPED)) == s.(visible := Visible(2, 2, 638, 478, true))
  {
    hide SetGop;
    hide SetBitrate;
    hide H264Rect;
    hide VisibleRect;
    SilentHeld(s.held);
    CroppedRect();
    CroppedVisible(s);
  }

  /** First way out: the encoder rejects the cropped picture and is resized to the size of the rectangle. */
  lemma ResizeLeavesRectOutside(env: Settings, start: Encoder, io: EndInputs, at: U64)
    requires Created(env, start, 640, 480, at) && !start.hevc && env.canReconfigure
    requires io.objectsOk && io.buffersOk && io.pushOk && io.lockOk && io.unlockOk
    requires io.first.InvalidParam? && io.resizeOk
    ensures var r := Run(env, start, [SequenceBuffer(CROPPED)] + Picture(io));
            !VisibleInside(r.visible, r.width, r.height)
  {
    hide Step;
    hide Run;
    var header := [SequenceBuffer(CROPPED)];
    RunOfOne(env, start, header[0]);
    CroppedHeader(env, start);
    RunPicture(env, start, header, io);
    RectInsideExactly(env, start, header + [BeginPicture, CodedBuffer], EndPicture(io), 640, 480, at);
  }

  function HevcHeader(w: U16, h: U16): Event {
    SequenceBuffer(HevcSeq(0, 0, 0, w, h, false, 0, 0))
  }

  lemma SilentHeld(k: Held)
    ensures SetGop(SetBitrate(k, 0), 0, 0) == k
  {
  }

  lemma WholeAxis(len: U16, size: U32)
    requires 2 <= len <= size && len % 2 == 0
    ensures ClipExtent(0, len, size) == len
  {
    assert Wrap32(len) == len;
    hide Wrap32;
    EvenIsEven(0);
    assert Even(len) == len;
    hide Even;
    assert 0 + len == len;
  }

  lemma HevcRect(s: Encoder, w: U16, h: U16)
    requires 2 <= w <= s.width && 2 <= h <= s.height && w % 2 == 0 && h % 2 == 0
    ensures VisibleRect(s, 0, 0, w, h) == Visible(0, 0, w, h, true)
  {
    WholeAxis(w, s.width);
    WholeAxis(h, s.height);
    assert Even(0) == 0;
    hide ClipExtent;
  }

  /** A header that changes nothing but the rectangle, and with it perhaps the pending encode size. */
  lemma HevcHeaderEffect(env: Settings, s: Encoder, w: U16, h: U16)
    requires s.hevc && 2 <= w <= s.width && 2 <= h <= s.height && w % 2 == 0 && h % 2 == 0
    ensures Step(env, s, HevcHeader(w, h)) == MaybeUseVisible(env, s.(visible := Visible(0, 0, w, h, true)))
  {
    hide MaybeUseVisible;
    HevcRect(s, w, h);
    hide VisibleRect;
    SilentHeld(s.held);
    hide SetGop;
    hide SetBitrate;
    var s1 := s.(visible := Visible(0, 0, w, h, true));
    MaybeUseFrame(env, s1);
    assert RenderSequence(env, s, HevcHeader(w, h).seqParams) == MaybeUseVisible(env, s1);
    hide RenderSequence;
  }

  lemma MaybeUseFrame(env: Settings, s: Encoder)
    ensures MaybeUseVisible(env, s).past == s.past
  {
  }

  /**
   Second way out: a header for 320x240 makes that size pending, one for the full frame widens the rectangle but
   not the pending size, and the next End shrinks the frame under it.
   */
  lemma PendingSizeLeavesRectOutside(env: Settings, start: Encoder, io: EndInputs, at: U64)
    requires Created(env, start, 640, 480, at) && start.hevc && env.canReconfigure && env.visibleReconfigure
    requires io.objectsOk && io.buffersOk && io.reconfigureOk
    ensures var r := Run(env, start, [HevcHeader(320, 240), HevcHeader(640, 480)] + Picture(io));
            !VisibleInside(r.visible, r.width, r.height)
  {
    hide Step;
    hide Run;
    var first := [HevcHeader(320, 240)];
    RunOfOne(env, start, first[0]);
    HevcHeaderEffect(env, start, 320, 240);
    RunSnoc(env, start, first, HevcHeader(640, 480));
    var both := [HevcHeader(320, 240), HevcHeader(640, 480)];
    assert first + [HevcHeader(640, 480)] == both;
    HevcHeaderEffect(env, Run(env, start, first), 640, 480);
    RunPicture(env, start, both, io);
    RectInsideExactly(env, start, both + [BeginPicture, CodedBuffer], EndPicture(io), 640, 480, at);
    hide HevcHeader;
  }

  // ---------------------------------------------------------------- a new size without an IDR

  /** An End with nothing pending whose picture comes out at once. */
  predicate Ordinary(io: EndInputs) {
    && io.objectsOk && io.buffersOk && io.pushOk && io.lockOk && io.unlockOk
    && io.first.Success? && io.bitstreamOk && io.popOk
  }

  lemma OrdinaryEnd(env: Settings, s: Encoder, io: EndInputs)
    requires Ordinary(io) && Opens(s, io) && !s.held.pending
    ensures var r := End(env, s, io).enc;
            && r.count == Produce(s.count) && !r.forceIdr && r.hasTarget && r.hasCoded
            && r.held == s.held && r.width == s.width && r.height == s.height && r.visible == s.visible
  {
    hide ChooseCopy;
    hide Produce;
    EndPhases(env, s, io);
    hide End;
  }

  /** A picture of a quarter of the frame, which the encoder rejects and then takes after a resize. */
  predicate Shrinking(io: EndInputs) {
    && io.objectsOk && io.buffersOk && io.pushOk && io.lockOk && io.unlockOk
    && io.first.InvalidParam? && io.resizeOk && io.second.Success?
    && io.surface == Surface(640, 480, 0, 0, 320, 240, true)
  }

  lemma QuarterCopy(s: Encoder)
    requires !s.visible.valid && s.width == 640 && s.height == 480
    ensures ChooseCopy(s, Surface(640, 480, 0, 0, 320, 240, true)) == Copy(0, 0, 320, 240)
  {
    FilledRaw(s, Surface(640, 480, 0, 0, 320, 240, true));
    hide RawCopy;
  }

  lemma NothingPending(env: Settings, s: Encoder, io: EndInputs)
    requires !s.held.pending
    ensures Reconfigured(env, s, io) == s
  {
  }

  lemma ShrinkingSubmit(env: Settings, s: Encoder, io: EndInputs)
    requires Shrinking(io) && s.width == 640 && env.canReconfigure && s.count.frameNum != 0 && !s.forceIdr
    ensures var (r, subs, _) := Submit(env, s, Copy(0, 0, 320, 240), io);
            && subs == [Submission(false, 320, 240), Submission(false, 320, 240)]
            && r.count.startupLeft == env.startupFrames
  {
  }

  lemma ShrinkingEnd(env: Settings, s: Encoder, io: EndInputs)
    requires Shrinking(io) && Opens(s, io) && !s.held.pending && !s.visible.valid && s.width == 640 && s.height == 480
    requires env.canReconfigure && env.forceEvery == 0
    requires s.count.startupLeft == 0 && s.count.frameNum != 0 && !s.forceIdr
    ensures End(env, s, io).submissions == [Submission(false, 320, 240), Submission(false, 320, 240)]
    ensures Submitted(env, s, io).0.count.startupLeft == env.startupFrames
  {
    hide ChooseCopy;
    hide Submit;
    hide Finish;
    QuarterCopy(s);
    NothingPending(env, s, io);
    hide Reconfigured;
    assert WithIdrRules(env, s) == s;
    hide WithIdrRules;
    ShrinkingSubmit(env, s, io);
    EndPhases(env, s, io);
    hide End;
  }

  /**
   The flags of a resubmitted picture are stale: with a budget of one, after one output and a resize inside the
   next End, the new size opens with a picture that is not an IDR although the budget has just been refilled.
   */
  lemma NewSizeOpensWithoutIdr(env: Settings, start: Encoder, io: EndInputs, next: EndInputs, at: U64)
    requires Created(env, start, 640, 480, at) && env.canReconfigure && env.startupFrames == 1 && env.forceEvery == 0
    requires Ordinary(io) && Shrinking(next)
    ensures var s := Run(env, start, Picture(io) + [BeginPicture, CodedBuffer]);
            && End(env, s, next).submissions == [Submission(false, 320, 240), Submission(false, 320, 240)]
            && Submitted(env, s, next).0.count.startupLeft == 1
  {
    hide Run;
    hide End;
    RunOfNone(env, start);
    RunPicture(env, start, [], io);
    assert [] + Picture(io) == Picture(io);
    var begun: seq<Event> := [BeginPicture, CodedBuffer];
    assert [] + begun == begun;
    RunSnoc(env, start, begun, EndPicture(io));
    OrdinaryEnd(env, Prepared(start), io);
    var s := Run(env, start, Picture(io));
    assert s.count.frameNum == 1 && s.count.startupLeft == 0;
    RunPicture(env, start, Picture(io), next);
    ShrinkingEnd(env, Prepared(s), next);
  }

  lemma RunOfNone(env: Settings, start: Encoder)
    ensures Run(env, start, []) == start
  {
  }

  // ---------------------------------------------------------------- the copy in the surface

  predicate InsideSurface(c: Copy, f: Surface) {
    c.x + c.w <= f.width && c.y + c.h <= f.height
  }

  /** The content rectangle has 32-bit edges; every put keeps it inside its surface (`ContentIsSmallestCover`). */
  predicate ContentFits(f: Surface) {
    f.cx + f.cw <= U32_MAX && f.cy + f.ch <= U32_MAX
  }

  /** The part of the surface that counts: what was put into it, cut to its size, or all of it. */
  function Filled(f: Surface): Copy {
    if f.contentValid && f.cw > 0 && f.ch > 0 && f.cx < f.width && f.cy < f.height then
      Copy(f.cx, f.cy, Min(f.cw, f.width - f.cx), Min(f.ch, f.height - f.cy))
    else Copy(0, 0, f.width, f.height)
  }

  /** The whole context, made even, fits the surface. */
  predicate ContextFits(s: Encoder, f: Surface) {
    Even(s.width) <= f.width && Even(s.height) <= f.height
  }

  /** When the copy reads inside the surface, said of the rectangle, the filled part and the two sizes. */
  predicate ReadsInside(s: Encoder, f: Surface) {
    var v, a := s.visible, Filled(f);
    if s.width < 2 || s.height < 2 then ContextFits(s, f)
    else if v.valid then
      v.x + Even(Min(v.w, s.width)) <= f.width && v.y + Even(Min(v.h, s.height)) <= f.height
    else (a.w >= 2 && a.h >= 2) || ContextFits(s, f)
  }

  lemma EvenSum(x: nat, w: nat, size: nat)
    requires x + w <= size
    ensures Even(x) + Even(w) <= size
  {
  }

  lemma RectCopyInside(s: Encoder, f: Surface)
    requires s.visible.valid && EvenRect(s.visible)
    ensures InsideSurface(ChooseCopy(s, f), f) <==> ReadsInside(s, f)
  {
    hide ClipSum;
    hide Filled;
  }

  /** Without a rectangle the filled part is taken, cut to the frame. */
  lemma FilledRaw(s: Encoder, f: Surface)
    requires !s.visible.valid && ContentFits(f)
    ensures var a := Filled(f); RawCopy(s, f) == Copy(a.x, a.y, Min(a.w, s.width), Min(a.h, s.height))
  {
    hide ClipSum;
    if f.cx < f.width && f.cy < f.height {
      ClipExact(f.cx, Min(f.cw, s.width), f.width);
      ClipExact(f.cy, Min(f.ch, s.height), f.height);
    }
  }

  lemma FilledCopyInside(s: Encoder, f: Surface)
    requires !s.visible.valid && ContentFits(f)
    ensures InsideSurface(ChooseCopy(s, f), f) <==> ReadsInside(s, f)
  {
    var a, r := Filled(f), RawCopy(s, f);
    FilledRaw(s, f);
    assert a.x + a.w <= f.width && a.y + a.h <= f.height;
    hide RawCopy;
    hide Filled;
    EvenSum(r.x, r.w, f.width);
    EvenSum(r.y, r.h, f.height);
  }

  /** The state in which a reachable End chooses its copy. */
  function AtCopy(env: Settings, start: Encoder, events: seq<Event>, io: EndInputs): Encoder {
    Reconfigured(env, Run(env, start, events), io)
  }

  lemma AtCopySound(env: Settings, start: Encoder, events: seq<Event>, io: EndInputs, w: U32, h: U32, at: U64)
    requires Created(env, start, w, h, at)
    ensures var s := AtCopy(env, start, events, io); s.width <= w && s.height <= h && VisibleInside(s.visible, w, h)
  {
    SizesNeverGrow(env, start, events, w, h, at);
    hide Run;
    hide Debounced;
  }

  /** Whenever an End chooses its copy, the copy reads inside the surface if and only if `ReadsInside` holds. */
  lemma CopyInsideSurface(
    env: Settings, start: Encoder, events: seq<Event>, io: EndInputs, f: Surface, w: U32, h: U32, at: U64)
    requires Created(env, start, w, h, at) && ContentFits(f)
    ensures var s := AtCopy(env, start, events, io);
            InsideSurface(ChooseCopy(s, f), f) <==> ReadsInside(s, f)
  {
    var s := AtCopy(env, start, events, io);
    AtCopySound(env, start, events, io, w, h, at);
    hide AtCopy;
    hide ChooseCopy;
    hide ReadsInside;
    if s.visible.valid {
      RectCopyInside(s, f);
    } else {
      FilledCopyInside(s, f);
    }
  }

  /** With a rectangle inside the frame the condition is that the surface covers the rectangle. */
  lemma RectReads(s: Encoder, f: Surface)
    requires s.visible.valid && EvenRect(s.visible) && FitsFrame(s.visible, s.width, s.height)
    ensures ReadsInside(s, f) <==> FitsFrame(s.visible, f.width, f.height)
  {
  }

  /** The rectangle is never cut to the surface: after a 640x480 header a 64x64 surface is read far outside. */
  lemma RectOverSmallSurface(env: Settings, start: Encoder, f: Surface, at: U64)
    requires Created(env, start, 640, 480, at) && start.hevc && f.width == 64 && f.height == 64
    ensures var s := Run(env, start, [HevcHeader(640, 480)]);
            ChooseCopy(s, f) == Copy(0, 0, 640, 480) && !InsideSurface(ChooseCopy(s, f), f)
  {
    hide Step;
    RunOfOne(env, start, HevcHeader(640, 480));
    HevcHeaderEffect(env, start, 640, 480);
    hide Run;
    hide HevcHeader;
    var s := Run(env, start, [HevcHeader(640, 480)]);
    assert s.visible == Visible(0, 0, 640, 480, true) && s.width == 640 && s.height == 480;
    RectIsCopied(s, f);
  }

  lemma OnePixelRaw(s: Encoder, f: Surface)
    requires !s.visible.valid && s.width == 640 && s.height == 480
    requires f == Surface(64, 64, 0, 0, 1, 1, true)
    ensures RawCopy(s, f) == Copy(0, 0, 1, 1)
  {
    FilledRaw(s, f);
    hide RawCopy;
  }

  /** A single filled pixel makes the code fall back to the context's size, whatever the surface's. */
  lemma OnePixelCopiesContext(env: Settings, start: Encoder, f: Surface, at: U64)
    requires Created(env, start, 640, 480, at)
    requires f == Surface(64, 64, 0, 0, 1, 1, true)
    ensures ChooseCopy(start, f) == Copy(0, 0, 640, 480) && !InsideSurface(ChooseCopy(start, f), f)
  {
    hide RawCopy;
    OnePixelRaw(start, f);
    assert Even(1) == 0 && Even(640) == 640 && Even(480) == 480;
    hide Even;
  }

  // ---------------------------------------------------------------- from the choice to the staged bytes

  /** A surface as `nvEndPicture` sees it. */
  function Seen(f: SurfaceImage.Surface): Surface
    requires f.content.Some? ==> SurfaceImage.InSurface(f.content.value, f.width, f.height)
    reads f
  {
    match f.content
    case None => Surface(f.width, f.height, 0, 0, f.width, f.height, false)
    case Some(b) => Surface(f.width, f.height, b.x, b.y, b.w, b.h, true)
  }

  lemma RowsInHost(f: SurfaceImage.Surface, c: Copy)
    requires f.Valid() && c.x + c.w <= f.width && c.y + c.h <= f.height && c.y % 2 == c.h % 2 == 0
    ensures c.x + c.w <= f.pitch && (c.y + c.h) * f.pitch <= f.ySize
    ensures f.ySize + (c.y / 2 + c.h / 2) * f.pitch <= f.host.Length
  {
    Staging.CopiedRowsFit(c.y + c.h, f.height, f.pitch);
    Staging.CopiedRowsFit(c.y / 2 + c.h / 2, f.height / 2, f.pitch);
  }

  /** What the staging asks of a copy, a frame and the two buffers. */
  ghost predicate Stageable(c: Copy, s: Encoder, f: SurfaceImage.Surface, p: nat, size: nat) {
    && 0 < p && s.width <= p && c.w <= s.width && c.h <= s.height
    && c.x % 2 == c.y % 2 == c.w % 2 == c.h % 2 == 0
    && Staging.FrameBytes(p, s.height) <= size
    && c.x + c.w <= f.pitch && (c.y + c.h) * f.pitch <= f.ySize
    && f.ySize + (c.y / 2 + c.h / 2) * f.pitch <= f.host.Length
  }

  /** The copy chosen in any reachable End meets it: for an input buffer of the created size and an admitted surface. */
  lemma ReachableCopyStageable(
    env: Settings, start: Encoder, events: seq<Event>, io: EndInputs, w: U32, h: U32, at: U64,
    f: SurfaceImage.Surface, seen: Surface, p: nat, size: nat)
    requires Created(env, start, w, h, at) && f.Valid() && w <= p && Staging.FrameBytes(p, h) <= size
    requires seen.width == f.width && seen.height == f.height && ContentFits(seen)
    requires ReadsInside(AtCopy(env, start, events, io), seen)
    ensures var s := AtCopy(env, start, events, io);
            InsideSurface(ChooseCopy(s, seen), seen) && Stageable(ChooseCopy(s, seen), s, f, p, size)
  {
    var s := AtCopy(env, start, events, io);
    AtCopySound(env, start, events, io, w, h, at);
    CopyInsideSurface(env, start, events, io, seen, w, h, at);
    CopyFits(s, seen);
    RowsInHost(f, ChooseCopy(s, seen));
    Staging.FrameBytesMonotone(p, s.height, h);
    hide AtCopy;
    hide ReadsInside;
    hide ChooseCopy;
    hide Staging.FrameBytes;
  }

  /**
   The staging of any reachable picture: with an input buffer made for the created size and a surface that
   `ReadsInside` admits, the encoder input gets the copied rectangle padded to the frame.
   */
  method StagePicture(ghost env: Settings, ghost start: Encoder, ghost events: seq<Event>, ghost io: EndInputs,
                      ghost w: U32, ghost h: U32, ghost at: U64,
                      s: Encoder, f: SurfaceImage.Surface, dst: array<Byte>, p: nat) returns (c: Copy)
    requires Created(env, start, w, h, at) && s == AtCopy(env, start, events, io)
    requires f.Valid() && (f.content.Some? ==> SurfaceImage.InSurface(f.content.value, f.width, f.height))
    requires ReadsInside(s, Seen(f))
    requires dst != f.host && w <= p && Staging.FrameBytes(p, h) <= dst.Length
    modifies dst
    ensures c == ChooseCopy(s, Seen(f)) && InsideSurface(c, Seen(f))
    ensures Staged(dst, old(dst[..]), p, s.width, s.height, f, Staging.Rect(c.x, c.y, c.w, c.h))
  {
    hide AtCopy;
    hide ReadsInside;
    hide ChooseCopy;
    hide Staging.FrameBytes;
    hide Staging.LumaPixel;
    hide Staging.ChromaPixel;
    hide Created;
    ReachableCopyStageable(env, start, events, io, w, h, at, f, Seen(f), p, dst.Length);
    c := ChooseCopy(s, Seen(f));
    Staging.StageFrame(dst, p, s.width, s.height, f.host, f.pitch, f.ySize, Staging.Rect(c.x, c.y, c.w, c.h));
  }

  /** Every pixel of the frame is the surface's or padding, and nothing past the two planes changed. */
  ghost predicate Staged(dst: array<Byte>, before: seq<Byte>, p: nat, encW: nat, encH: nat,
                         f: SurfaceImage.Surface, r: Staging.Rect)
    reads dst, f.host
  {
    && (forall y, x :: 0 <= y < encH && 0 <= x < encW ==> Staging.LumaPixel(dst, p, f.host, f.pitch, r, y, x))
    && (forall y, x :: 0 <= y < encH / 2 && 0 <= x < encW ==>
          Staging.ChromaPixel(dst, p, encH, f.host, f.pitch, f.ySize, r, y, x))
    && |before| == dst.Length
    && (forall i :: 0 <= i < dst.Length && Staging.FrameBytes(p, encH) <= i ==> dst[i] == before[i])
  }
}
