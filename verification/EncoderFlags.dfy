/**
 What makes an End submit its picture, what makes the picture an IDR, and the streak of needs for more input, read off
 the calls and answers of a run.
 */
module EncoderFlags {
  import opened Words
  import opened EncoderModel
  import opened EncoderTheorems
  import opened EncoderHistory

  /** Has a picture been begun? */
  predicate Begun(events: seq<Event>) {
    events != [] && (events[|events| - 1].BeginPicture? || Begun(events[..|events| - 1]))
  }

  /** Has a coded buffer been named since the last Begin? */
  predicate CodedNamed(events: seq<Event>) {
    events != [] &&
    var front, e := events[..|events| - 1], events[|events| - 1];
    && !e.BeginPicture?
    && (e.CodedBuffer? || (e.PictureBuffer? && e.coded) || CodedNamed(front))
  }

  /** Do the periodic rule or the startup budget ask for an IDR, once the reconfigure is done? */
  predicate RulesAsk(env: Settings, s: Encoder, io: EndInputs) {
    || (env.forceEvery > 0 && s.count.frameNum % env.forceEvery == 0)
    || Reconfigured(env, s, io).count.startupLeft > 0
  }

  /**
   Is an IDR asked for? A Begin asks for one at frame 0 only, a picture buffer may add the wish, and an accepted
   picture clears it; one that was submitted in vain leaves the rules' wish behind.
   */
  predicate IdrAsked(env: Settings, start: Encoder, events: seq<Event>) {
    events != [] &&
    var front, e := events[..|events| - 1], events[|events| - 1];
    var s := Run(env, start, front);
    match e
    case BeginPicture => s.count.frameNum == 0
    case PictureBuffer(_, idr) => idr || IdrAsked(env, start, front)
    case EndPicture(io) =>
      && Verdict(env, s, io).Failed?
      && (IdrAsked(env, start, front) || (Submits(s, io) && RulesAsk(env, s, io)))
    case _ => IdrAsked(env, start, front)
  }

  function StreakAfter(env: Settings, s: Encoder, io: EndInputs, was: nat): nat {
    if !Submits(s, io) then was
    else
      match LastAnswer(env, Reconfigured(env, s, io), io)
      case NeedMoreInput => was + 1
      case Success => if io.bitstreamOk then 0 else was
      case _ => was
  }

  /** Needs for more input since the encoder last had output to lock, also those whose picture failed afterwards. */
  function Streak(env: Settings, start: Encoder, events: seq<Event>): nat {
    if events == [] then 0
    else
      var front, e := events[..|events| - 1], events[|events| - 1];
      var s := Run(env, start, front);
      if e.EndPicture? then StreakAfter(env, s, e.io, Streak(env, start, front)) else Streak(env, start, front)
  }

  // ---------------------------------------------------------------- one End

  /** The flags and the streak after one End. */
  predicate EndFlags(env: Settings, s: Encoder, io: EndInputs, r: Encoder) {
    && r.hasTarget == s.hasTarget && r.hasCoded == s.hasCoded
    && (r.forceIdr <==>
          Verdict(env, s, io).Failed? && (s.forceIdr || (Submits(s, io) && RulesAsk(env, s, io))))
    && r.count.streak == Wrap32(StreakAfter(env, s, io, s.count.streak))
  }

  lemma ReconfigureFlags(env: Settings, s: Encoder, io: EndInputs)
    ensures var s1 := Reconfigured(env, s, io);
            && s1.hasTarget == s.hasTarget && s1.hasCoded == s.hasCoded && s1.forceIdr == s.forceIdr
            && s1.count.streak == s.count.streak && s1.count.frameNum == s.count.frameNum
  {
    hide Debounced;
  }

  lemma SubmitFlags(env: Settings, s: Encoder, c: Copy, io: EndInputs)
    requires c == ChooseCopy(s, io.surface)
    ensures var (r, subs, status) := Submit(env, s, c, io);
            && r.hasTarget == s.hasTarget && r.hasCoded == s.hasCoded && r.forceIdr == s.forceIdr
            && r.count.streak == s.count.streak && subs != [] && status == LastAnswer(env, s, io)
  {
    hide ChooseCopy;
  }

  lemma FinishFlags(s: Encoder, status: NvStatus, io: EndInputs)
    requires s.count.ioCount > 0
    ensures var (r, outcome) := Finish(s, status, io);
            && r.hasTarget == s.hasTarget && r.hasCoded == s.hasCoded
            && (r.forceIdr <==> s.forceIdr && outcome.Failed?)
            && r.count.streak == match status
                                 case NeedMoreInput => Wrap32(s.count.streak + 1)
                                 case Success => if io.bitstreamOk then 0 else s.count.streak
                                 case _ => s.count.streak
  {
    hide Wrap32;
  }

  lemma EndKeepsFlags(env: Settings, s: Encoder, io: EndInputs)
    ensures EndFlags(env, s, io, End(env, s, io).enc)
    ensures End(env, s, io).submissions != [] <==> Submits(s, io)
  {
    hide ChooseCopy;
    hide Submit;
    hide Finish;
    hide Reconfigure;
    hide Wrap32;
    EndPhases(env, s, io);
    EndHistory(env, s, io);
    assert End(env, s, io).outcome == Verdict(env, s, io);
    hide EndMeans;
    ReconfigureFlags(env, s, io);
    hide Verdict;
    hide End;
    var s1 := Reconfigured(env, s, io);
    if Submits(s, io) {
      var s2 := WithIdrRules(env, s1);
      SameCopy(env, s1, io);
      SubmitFlags(env, s2, ChooseCopy(s1, io.surface), io);
      var (s3, _, status) := Submitted(env, s, io);
      FinishFlags(s3, status, io);
      hide LastAnswer;
    }
    SmallWord(s.count.streak);
  }

  // ---------------------------------------------------------------- runs

  lemma RenderKeepsFlags(env: Settings, s: Encoder, q: Sequence)
    ensures var r := RenderSequence(env, s, q);
            r.hasTarget == s.hasTarget && r.hasCoded == s.hasCoded && r.forceIdr == s.forceIdr && r.count == s.count
  {
    hide H264Rect;
    hide VisibleRect;
    hide SetBitrate;
    hide SetGop;
    hide SequenceFrameRate;
  }

  lemma StepFlags(env: Settings, s: Encoder, e: Event)
    ensures var r := Step(env, s, e);
      match e
      case BeginPicture =>
        r.hasTarget && !r.hasCoded && (r.forceIdr <==> s.count.frameNum == 0) && r.count == s.count
      case CodedBuffer => r.hasTarget == s.hasTarget && r.hasCoded && r.forceIdr == s.forceIdr && r.count == s.count
      case PictureBuffer(coded, idr) =>
        && r.hasTarget == s.hasTarget && (r.hasCoded <==> coded || s.hasCoded)
        && (r.forceIdr <==> idr || s.forceIdr) && r.count == s.count
      case EndPicture(io) => EndFlags(env, s, io, r)
      case _ => r.hasTarget == s.hasTarget && r.hasCoded == s.hasCoded && r.forceIdr == s.forceIdr && r.count == s.count
  {
    hide RenderSequence;
    hide RenderRateControl;
    hide RenderFrameRate;
    match e
    case SequenceBuffer(q) => RenderKeepsFlags(env, s, q);
    case EndPicture(io) =>
      EndKeepsFlags(env, s, io);
      hide End;
      hide Verdict;
      hide RulesAsk;
      hide Reconfigured;
      hide LastAnswer;
    case _ =>
  }

  lemma SmallWord(w: U32)
    ensures Wrap32(w) == w && Wrap32(0) == 0
  {
  }

  lemma WrapNext(n: nat)
    ensures Wrap32(Wrap32(n) + 1) == Wrap32(n + 1)
  {
  }

  lemma StepStreak(env: Settings, s: Encoder, e: Event, was: nat)
    requires s.count.streak == Wrap32(was)
    ensures Step(env, s, e).count.streak ==
            Wrap32(if e.EndPicture? then StreakAfter(env, s, e.io, was) else was)
  {
    StepFlags(env, s, e);
    WrapNext(was);
    SmallWord(Wrap32(was));
    hide Step;
    hide Verdict;
    hide Submits;
    hide RulesAsk;
    hide Reconfigured;
    hide LastAnswer;
    hide Wrap32;
  }

  /** Over every run: target, coded buffer and the wish for an IDR are what the calls and answers made them. */
  lemma {:induction false} FlagsFollowCalls(
    env: Settings, start: Encoder, events: seq<Event>, w: U32, h: U32, at: U64)
    requires Created(env, start, w, h, at)
    ensures var s := Run(env, start, events);
            && (s.hasTarget <==> Begun(events)) && (s.hasCoded <==> CodedNamed(events))
            && (s.forceIdr <==> IdrAsked(env, start, events))
  {
    if events != [] {
      hide Step;
      hide Verdict;
      hide Submits;
      hide RulesAsk;
      hide Reconfigured;
      hide LastAnswer;
      var n := |events| - 1;
      FlagsFollowCalls(env, start, events[..n], w, h, at);
      StepFlags(env, Run(env, start, events[..n]), events[n]);
    }
  }

  /** Over every run the streak counts the needs for more input since there was output to lock. */
  lemma {:induction false} StreakFollowsAnswers(
    env: Settings, start: Encoder, events: seq<Event>, w: U32, h: U32, at: U64)
    requires Created(env, start, w, h, at)
    ensures Run(env, start, events).count.streak == Wrap32(Streak(env, start, events))
  {
    SmallWord(0);
    hide Wrap32;
    hide StreakAfter;
    if events != [] {
      hide Step;
      var n := |events| - 1;
      StreakFollowsAnswers(env, start, events[..n], w, h, at);
      StepStreak(env, Run(env, start, events[..n]), events[n], Streak(env, start, events[..n]));
    }
  }

  /**
   Over every run an End calls the encoder exactly if a picture was begun, a coded buffer named since, and every step
   before the call worked.
   */
  lemma SubmitsExactly(env: Settings, start: Encoder, events: seq<Event>, io: EndInputs, w: U32, h: U32, at: U64)
    requires Created(env, start, w, h, at)
    ensures End(env, Run(env, start, events), io).submissions != [] <==>
            && Begun(events) && CodedNamed(events)
            && io.objectsOk && io.buffersOk && io.pushOk && io.lockOk && io.unlockOk
  {
    FlagsFollowCalls(env, start, events, w, h, at);
    CountersFollowAnswers(env, start, events, w, h, at);
    EndKeepsFlags(env, Run(env, start, events), io);
    hide Run;
    hide End;
    hide Begun;
    hide CodedNamed;
    hide EndFlags;
  }
}
