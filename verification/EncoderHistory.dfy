/**
 The history of a run read off its events alone: what the encoder answered, what it accepted and what was dropped.
 The counters, the startup budget, the IDR rule and the accepted configuration are tied to it.
 */
module EncoderHistory {
  import opened Words
  import opened EncoderModel
  import opened EncoderTheorems

  // ---------------------------------------------------------------- one End

  /** The last answer of the encoder to a picture: of the first call, the one after a resize, or the fall-back. */
  function LastAnswer(env: Settings, s: Encoder, io: EndInputs): NvStatus {
    var c := ChooseCopy(s, io.surface);
    if !(io.first.InvalidParam? && (c.w != s.width || c.h != s.height)) then io.first
    else if env.canReconfigure && io.resizeOk && !io.second.InvalidParam? then io.second
    else io.fallback
  }

  /** What became of the picture of one End: an output, a need for more input, or nothing. */
  function Verdict(env: Settings, s: Encoder, io: EndInputs): Outcome {
    if !Submits(s, io) then Failed
    else
      match LastAnswer(env, Reconfigured(env, s, io), io)
      case Success => if io.bitstreamOk && io.popOk then Produced else Failed
      case NeedMoreInput => if io.popOk then Buffered else Failed
      case InvalidParam => Failed
      case OtherError => Failed
  }

  /** The frame changes its size, in the reconfigure or in the retry. */
  predicate ChangesSize(env: Settings, s: Encoder, io: EndInputs) {
    || (Reconfigures(env, s, io) && (s.held.cfg.encodeW != s.width || s.held.cfg.encodeH != s.height))
    || Resizes(env, s, io)
  }

  /** A pending update is given up: the library cannot reconfigure, or the encoder refuses. */
  predicate Discards(env: Settings, s: Encoder, io: EndInputs) {
    && Opens(s, io) && s.held.pending
    && (!env.canReconfigure || (Attempts(env, s, io.now) && !io.reconfigureOk))
  }

  /** The configuration a retry runs with. */
  function AtCopySize(s: Encoder, c: Copy): Config {
    s.held.cfg.(encodeW := c.w, encodeH := c.h, darW := c.w, darH := c.h,
                maxW := Max(s.held.cfg.maxW, c.w), maxH := Max(s.held.cfg.maxH, c.h))
  }

  lemma ReconfigureHistory(env: Settings, s: Encoder, io: EndInputs)
    requires Opens(s, io)
    ensures var s1 := Reconfigured(env, s, io);
            var grown := Reconfigures(env, s, io) && (s.held.cfg.encodeW != s.width || s.held.cfg.encodeH != s.height);
            && s1.held.cfg == s.held.cfg
            && s1.count == (if grown then s.count.(startupLeft := env.startupFrames) else s.count)
            && s1.past == s.past.(
                 accepted := if Reconfigures(env, s, io) then s.held.cfg else s.past.accepted,
                 dropped := if Reconfigures(env, s, io) then false else s.past.dropped || Discards(env, s, io),
                 since := if grown then 0 else s.past.since)
  {
    hide Debounced;
  }

  lemma SubmitHistory(env: Settings, s: Encoder, c: Copy, io: EndInputs)
    requires c == ChooseCopy(s, io.surface)
    ensures var (r, subs, status) := Submit(env, s, c, io);
            var resized := Rejected(s, c, io.first) && env.canReconfigure && io.resizeOk;
            && status == LastAnswer(env, s, io)
            && r.count == (if resized then s.count.(startupLeft := env.startupFrames) else s.count)
            && r.past == (if !resized then s.past
                           else s.past.(accepted := AtCopySize(s, c), dropped := false, since := 0))
  {
    hide ChooseCopy;
  }

  lemma FinishHistory(s: Encoder, status: NvStatus, io: EndInputs)
    requires s.count.ioCount > 0
    ensures var (r, outcome) := Finish(s, status, io);
            && outcome == (match status
                           case Success => if io.bitstreamOk && io.popOk then Produced else Failed
                           case NeedMoreInput => if io.popOk then Buffered else Failed
                           case InvalidParam => Failed
                           case OtherError => Failed)
            && r.past.outputs == s.past.outputs + (if outcome.Produced? then 1 else 0)
            && r.past.needMore == s.past.needMore + (if outcome.Buffered? then 1 else 0)
            && r.past.since == s.past.since + (if outcome.Produced? then 1 else 0)
            && r.past.accepted == s.past.accepted && r.past.dropped == s.past.dropped
            && (!outcome.Produced? ==>
                  r.count.startupLeft == s.count.startupLeft && r.count.outputCount == s.count.outputCount)
  {
  }

  /** What one End does to the history, and its outcome, in terms of its answers. */
  predicate EndMeans(env: Settings, s: Encoder, io: EndInputs, past: History, outcome: Outcome) {
    var produced := Verdict(env, s, io).Produced?;
    && outcome == Verdict(env, s, io)
    && past.outputs == s.past.outputs + (if produced then 1 else 0)
    && past.needMore == s.past.needMore + (if Verdict(env, s, io).Buffered? then 1 else 0)
    && past.since == (if ChangesSize(env, s, io) then 0 else s.past.since) + (if produced then 1 else 0)
    && past.accepted == (if Resizes(env, s, io) then AtCopySize(s, ChooseCopy(Reconfigured(env, s, io), io.surface))
                         else if Reconfigures(env, s, io) then s.held.cfg else s.past.accepted)
    && past.dropped == (if Resizes(env, s, io) || Reconfigures(env, s, io) then false
                        else s.past.dropped || Discards(env, s, io))
  }

  lemma EndHistory(env: Settings, s: Encoder, io: EndInputs)
    ensures EndMeans(env, s, io, End(env, s, io).enc.past, End(env, s, io).outcome)
  {
    hide ChooseCopy;
    hide Submit;
    hide Finish;
    hide Reconfigure;
    hide Attempts;
    EndPhases(env, s, io);
    hide End;
    if Opens(s, io) {
      ReconfigureHistory(env, s, io);
      if Submits(s, io) {
        var s1 := Reconfigured(env, s, io);
        var s2 := WithIdrRules(env, s1);
        var c := ChooseCopy(s1, io.surface);
        SameCopy(env, s1, io);
        SubmitHistory(env, s2, c, io);
        var (s3, _, status) := Submitted(env, s, io);
        FinishHistory(s3, status, io);
      }
    }
  }

  /** The IDR rules do not touch what the copy and the last answer depend on. */
  lemma SameCopy(env: Settings, s: Encoder, io: EndInputs)
    ensures var t := WithIdrRules(env, s);
            ChooseCopy(t, io.surface) == ChooseCopy(s, io.surface) && LastAnswer(env, t, io) == LastAnswer(env, s, io)
  {
  }

  lemma RenderHistory(env: Settings, s: Encoder, e: Event)
    requires !e.EndPicture?
    ensures Step(env, s, e).past == s.past.(clock := ClockAfter(s.past.clock, e))
  {
    hide RenderSequence;
    hide RenderRateControl;
    hide RenderFrameRate;
    RenderFrame(env, s, e);
  }

  /** A need for more input spends nothing: budget and output count are as after the reconfigure or the retry. */
  lemma MoreInputSpendsNothing(env: Settings, s: Encoder, io: EndInputs)
    requires Verdict(env, s, io).Buffered?
    ensures var r := End(env, s, io);
            && r.outcome.Buffered? && r.enc.count.outputCount == s.count.outputCount
            && r.enc.count.startupLeft == if ChangesSize(env, s, io) then env.startupFrames else s.count.startupLeft
  {
    hide ChooseCopy;
    hide Submit;
    hide Finish;
    hide Reconfigure;
    hide Attempts;
    EndPhases(env, s, io);
    hide End;
    ReconfigureHistory(env, s, io);
    var s1 := Reconfigured(env, s, io);
    var s2 := WithIdrRules(env, s1);
    SameCopy(env, s1, io);
    SubmitHistory(env, s2, ChooseCopy(s1, io.surface), io);
    var (s3, _, status) := Submitted(env, s, io);
    FinishHistory(s3, status, io);
  }

  // ---------------------------------------------------------------- runs

  function Outputs(env: Settings, start: Encoder, events: seq<Event>): nat {
    if events == [] then 0
    else
      var front, e := events[..|events| - 1], events[|events| - 1];
      Outputs(env, start, front)
      + if e.EndPicture? && Verdict(env, Run(env, start, front), e.io).Produced? then 1 else 0
  }

  function MoreInputs(env: Settings, start: Encoder, events: seq<Event>): nat {
    if events == [] then 0
    else
      var front, e := events[..|events| - 1], events[|events| - 1];
      MoreInputs(env, start, front)
      + if e.EndPicture? && Verdict(env, Run(env, start, front), e.io).Buffered? then 1 else 0
  }

  /** Outputs since creation, or since the frame last changed its size. */
  function OutputsSince(env: Settings, start: Encoder, events: seq<Event>): nat {
    if events == [] then 0
    else
      var front, e := events[..|events| - 1], events[|events| - 1];
      var s := Run(env, start, front);
      if !e.EndPicture? then OutputsSince(env, start, front)
      else
        (if ChangesSize(env, s, e.io) then 0 else OutputsSince(env, start, front))
        + if Verdict(env, s, e.io).Produced? then 1 else 0
  }

  /** The configuration the encoder accepted last, at creation or since. */
  function LastAccepted(env: Settings, start: Encoder, events: seq<Event>): Config {
    if events == [] then start.held.cfg
    else
      var front, e := events[..|events| - 1], events[|events| - 1];
      var s := Run(env, start, front);
      if e.EndPicture? && Resizes(env, s, e.io) then AtCopySize(s, ChooseCopy(Reconfigured(env, s, e.io), e.io.surface))
      else if e.EndPicture? && Reconfigures(env, s, e.io) then s.held.cfg
      else LastAccepted(env, start, front)
  }

  /** Has an update been given up since the encoder last accepted one? */
  predicate GivenUp(env: Settings, start: Encoder, events: seq<Event>) {
    events != [] &&
    var front, e := events[..|events| - 1], events[|events| - 1];
    var s := Run(env, start, front);
    if !e.EndPicture? then GivenUp(env, start, front)
    else
      !Resizes(env, s, e.io) && !Reconfigures(env, s, e.io)
      && (GivenUp(env, start, front) || Discards(env, s, e.io))
  }

  /** The history a state carries is that of the run's events. */
  lemma {:induction false} HistoryIsOfEvents(
    env: Settings, start: Encoder, events: seq<Event>, w: U32, h: U32, at: U64)
    requires Created(env, start, w, h, at)
    ensures var p := Run(env, start, events).past;
            && p.outputs == Outputs(env, start, events) && p.needMore == MoreInputs(env, start, events)
            && p.since == OutputsSince(env, start, events)
            && p.accepted == LastAccepted(env, start, events)
            && (p.dropped <==> GivenUp(env, start, events))
  {
    if events != [] {
      hide Step;
      hide Verdict;
      hide ChangesSize;
      hide Discards;
      hide Resizes;
      hide Reconfigures;
      hide AtCopySize;
      hide ChooseCopy;
      var n := |events| - 1;
      HistoryIsOfEvents(env, start, events[..n], w, h, at);
      var s := Run(env, start, events[..n]);
      StepHistory(env, s, events[n]);
    }
  }

  lemma StepHistory(env: Settings, s: Encoder, e: Event)
    ensures if e.EndPicture? then exists outcome :: EndMeans(env, s, e.io, Step(env, s, e).past, outcome)
            else Step(env, s, e).past == s.past.(clock := ClockAfter(s.past.clock, e))
  {
    if e.EndPicture? {
      EndHistory(env, s, e.io);
      hide End;
      var r := End(env, s, e.io);
      assert Step(env, s, e).past == r.enc.past.(clock := ClockAfter(s.past.clock, e));
      hide Verdict;
      hide ChangesSize;
      hide Resizes;
      hide Reconfigures;
      hide Discards;
      assert EndMeans(env, s, e.io, Step(env, s, e).past, r.outcome);
    } else {
      RenderHistory(env, s, e);
    }
  }

  /** The counters for so many outputs since the last change of size, outputs in all, and answered pictures. */
  predicate CountersAre(env: Settings, n: Counters, since: nat, outputs: nat, answered: nat) {
    && n.startupLeft as int == (if since < env.startupFrames then env.startupFrames - since else 0)
    && n.outputCount as int == outputs % 0x1_0000_0000
    && n.frameNum as int == answered % 0x1_0000_0000
    && 1 <= n.ioCount <= 4 && n.ioIndex as int == answered % n.ioCount
  }

  lemma CountersMean(env: Settings, n: Counters, past: History)
    requires Budget(env, n, past) && Counted(n, past)
    ensures CountersAre(env, n, past.since, past.outputs, past.outputs + past.needMore)
  {
  }

  /**
   Over every run, from the answers alone: the budget left is N less the outputs since the last change of size, and
   the counters and the slot count outputs and needs for more input.
   */
  lemma CountersFollowAnswers(env: Settings, start: Encoder, events: seq<Event>, w: U32, h: U32, at: U64)
    requires Created(env, start, w, h, at)
    ensures var n := Run(env, start, events).count;
            var outputs := Outputs(env, start, events);
            CountersAre(env, n, OutputsSince(env, start, events), outputs, outputs + MoreInputs(env, start, events))
  {
    BudgetAndCounters(env, start, events, w, h, at);
    HistoryIsOfEvents(env, start, events, w, h, at);
    hide Run;
    hide Outputs;
    hide MoreInputs;
    hide OutputsSince;
    hide Budget;
    hide Counted;
    hide CountersAre;
    var s := Run(env, start, events);
    CountersMean(env, s.count, s.past);
  }

  /** Over every run: with nothing pending and nothing given up since, the encoder runs with the held configuration. */
  lemma AcceptedIsHeld(env: Settings, start: Encoder, events: seq<Event>, w: U32, h: U32, at: U64)
    requires Created(env, start, w, h, at)
    requires !Run(env, start, events).held.pending && !GivenUp(env, start, events)
    ensures LastAccepted(env, start, events) == Run(env, start, events).held.cfg
  {
    NoUpdateLost(env, start, events, w, h, at);
    HistoryIsOfEvents(env, start, events, w, h, at);
  }

  /** The rule for an IDR: within the budget, first, asked for, or periodic. */
  predicate IdrRule(env: Settings, since: nat, frame: nat, forced: bool) {
    || since < env.startupFrames as int || frame == 0 || forced
    || (env.forceEvery > 0 && frame % (env.forceEvery as int) == 0)
  }

  lemma RuleAfterReconfigure(env: Settings, s: Encoder, io: EndInputs)
    requires Opens(s, io)
    ensures var resized := Reconfigures(env, s, io)
                           && (s.held.cfg.encodeW != s.width || s.held.cfg.encodeH != s.height);
            MustBeIdr(env, Reconfigured(env, s, io)) <==>
            IdrRule(env, if resized then 0 else s.past.since, s.count.frameNum, s.forceIdr)
  {
    ReconfigureHistory(env, s, io);
    ReconfigureKeepsForce(env, s, io);
    hide Reconfigured;
    hide Reconfigures;
    hide Discards;
  }

  /**
   Over every run a submission is an IDR exactly by the rule, for the outputs since the last change of size, the
   reconfigure of this End included, and the number of pictures answered so far.
   */
  lemma IdrFollowsAnswers(
    env: Settings, start: Encoder, events: seq<Event>, io: EndInputs, w: U32, h: U32, at: U64)
    requires Created(env, start, w, h, at)
    ensures var s := Run(env, start, events);
            var frame := (Outputs(env, start, events) + MoreInputs(env, start, events)) % 0x1_0000_0000;
            var resized := Reconfigures(env, s, io)
                           && (s.held.cfg.encodeW != s.width || s.held.cfg.encodeH != s.height);
            forall x <- End(env, s, io).submissions :: x.idr <==>
              IdrRule(env, if resized then 0 else OutputsSince(env, start, events), frame, s.forceIdr)
  {
    var s := Run(env, start, events);
    IdrUntilBudgetSpent(env, start, events, io, w, h, at);
    CountersFollowAnswers(env, start, events, w, h, at);
    HistoryIsOfEvents(env, start, events, w, h, at);
    NothingSubmitted(env, s, io);
    if Opens(s, io) {
      RuleAfterReconfigure(env, s, io);
    }
    hide Run;
    hide End;
    hide Outputs;
    hide MoreInputs;
    hide OutputsSince;
    hide IdrRule;
    hide MustBeIdr;
    hide Reconfigured;
    hide Reconfigures;
  }

  lemma NothingSubmitted(env: Settings, s: Encoder, io: EndInputs)
    ensures !Opens(s, io) ==> End(env, s, io).submissions == []
  {
    hide Submit;
    hide Reconfigure;
    hide ChooseCopy;
    hide Finish;
    EndPhases(env, s, io);
    hide End;
  }

  lemma ReconfigureKeepsForce(env: Settings, s: Encoder, io: EndInputs)
    ensures Reconfigured(env, s, io).forceIdr == s.forceIdr
  {
    hide Debounced;
  }

  /** The sizes submitted: the copy's, again after a resize, and the frame's as it then is for the fall-back. */
  lemma SubmittedSizes(env: Settings, s: Encoder, c: Copy, io: EndInputs)
    ensures var subs := Submit(env, s, c, io).1;
            var rejected := io.first.InvalidParam? && (c.w != s.width || c.h != s.height);
            var resized := rejected && env.canReconfigure && io.resizeOk;
            && |subs| >= 1 && subs[0].w == c.w && subs[0].h == c.h
            && (!rejected ==> |subs| == 1)
            && (rejected && !resized ==> |subs| == 2 && subs[1].w == s.width && subs[1].h == s.height)
            && (resized ==> |subs| >= 2 && subs[1].w == c.w && subs[1].h == c.h)
            && (resized && io.second.InvalidParam? ==> |subs| == 3 && subs[2].w == c.w && subs[2].h == c.h)
            && (resized && !io.second.InvalidParam? ==> |subs| == 2)
  {
  }
}
