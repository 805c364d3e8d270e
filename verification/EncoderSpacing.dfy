/** When the encoder is asked to change: the debounce of non-resolution updates, over whole runs. */
module EncoderSpacing {
  import opened Words
  import opened EncoderModel
  import opened EncoderTheorems

  /** Clock readings of an event, each later than all before. */
  predicate ClockAdvances(s: Encoder, e: Event) {
    e.EndPicture? ==> s.past.clock < e.io.now < e.io.after < e.io.resized
  }

  predicate StrictClock(env: Settings, start: Encoder, events: seq<Event>) {
    events != [] ==>
      && StrictClock(env, start, events[..|events| - 1])
      && ClockAdvances(Run(env, start, events[..|events| - 1]), events[|events| - 1])
  }

  predicate ClockSane(s: Encoder) {
    0 < s.lastReconfigure <= s.past.clock
  }

  /** The encoder accepts a change of its configuration or of its size. */
  predicate Succeeds(env: Settings, s: Encoder, e: Event) {
    e.EndPicture? && (Reconfigures(env, s, e.io) || Resizes(env, s, e.io))
  }

  /** The clock reading the driver takes after the last change it made in one End. */
  function Reading(env: Settings, s: Encoder, io: EndInputs): U64 {
    if Resizes(env, s, io) then io.resized else io.after
  }

  lemma ReconfigureTime(env: Settings, s: Encoder, io: EndInputs)
    requires Opens(s, io)
    ensures Reconfigured(env, s, io).lastReconfigure == if Reconfigures(env, s, io) then io.after else s.lastReconfigure
  {
    hide Debounced;
  }

  lemma SubmitTime(env: Settings, s: Encoder, io: EndInputs)
    requires Submits(s, io)
    ensures Submitted(env, s, io).0.lastReconfigure ==
            if Resizes(env, s, io) then io.resized else Reconfigured(env, s, io).lastReconfigure
  {
    hide ChooseCopy;
    hide Reconfigured;
  }

  /** One End moves the timestamp exactly when the encoder accepts a change. */
  lemma EndTime(env: Settings, s: Encoder, io: EndInputs)
    ensures End(env, s, io).enc.lastReconfigure ==
            if Succeeds(env, s, EndPicture(io)) then Reading(env, s, io) else s.lastReconfigure
  {
    hide Finish;
    hide Submit;
    hide Reconfigure;
    hide ChooseCopy;
    EndPhases(env, s, io);
    hide End;
    if Opens(s, io) {
      ReconfigureTime(env, s, io);
      if Submits(s, io) {
        SubmitTime(env, s, io);
        var (s3, _, status) := Submitted(env, s, io);
        FinishFrame(s3, status, io);
      }
    }
  }

  lemma StepTime(env: Settings, s: Encoder, e: Event)
    ensures Step(env, s, e).lastReconfigure ==
            if Succeeds(env, s, e) then Reading(env, s, e.io) else s.lastReconfigure
  {
    hide End;
    hide RenderSequence;
    hide RenderRateControl;
    if e.EndPicture? {
      EndTime(env, s, e.io);
    } else {
      RenderFrame(env, s, e);
    }
  }

  /** The reading taken at the last success of a run, or at creation. */
  function LastSuccess(env: Settings, start: Encoder, events: seq<Event>, at: U64): U64 {
    if events == [] then at
    else
      var front, e := events[..|events| - 1], events[|events| - 1];
      var s := Run(env, start, front);
      if Succeeds(env, s, e) then Reading(env, s, e.io) else LastSuccess(env, start, front, at)
  }

  /** Over every run the driver's timestamp is the reading of the last success, or of creation. */
  lemma {:induction false} TimestampIsLastSuccess(
    env: Settings, start: Encoder, events: seq<Event>, w: U32, h: U32, at: U64)
    requires Created(env, start, w, h, at)
    ensures Run(env, start, events).lastReconfigure == LastSuccess(env, start, events, at)
  {
    if events != [] {
      hide Step;
      hide Succeeds;
      hide Reading;
      var n := |events| - 1;
      TimestampIsLastSuccess(env, start, events[..n], w, h, at);
      StepTime(env, Run(env, start, events[..n]), events[n]);
    }
  }

  lemma StepKeepsClock(env: Settings, s: Encoder, e: Event)
    requires ClockSane(s) && ClockAdvances(s, e)
    ensures ClockSane(Step(env, s, e)) && s.lastReconfigure <= Step(env, s, e).lastReconfigure
  {
    hide End;
    hide RenderSequence;
    hide RenderRateControl;
    StepTime(env, s, e);
    hide Succeeds;
    if !e.EndPicture? {
      RenderFrame(env, s, e);
    }
  }

  lemma {:induction false} ClockStaysSane(env: Settings, start: Encoder, events: seq<Event>, w: U32, h: U32, at: U64)
    requires Created(env, start, w, h, at) && at > 0 && StrictClock(env, start, events)
    ensures ClockSane(Run(env, start, events))
  {
    if events != [] {
      hide Step;
      hide ClockAdvances;
      var n := |events| - 1;
      ClockStaysSane(env, start, events[..n], w, h, at);
      StepKeepsClock(env, Run(env, start, events[..n]), events[n]);
    }
  }

  lemma {:induction false} StrictPrefix(env: Settings, start: Encoder, events: seq<Event>, n: nat)
    requires n < |events| && StrictClock(env, start, events)
    ensures StrictClock(env, start, events[..n]) && ClockAdvances(Run(env, start, events[..n]), events[n])
  {
    var last := |events| - 1;
    if n < last {
      StrictPrefix(env, start, events[..last], n);
      assert events[..last][..n] == events[..n];
    }
  }

  /** A success is never later than the timestamp of any state behind it. */
  lemma {:induction false} SuccessIsOlder(
    env: Settings, start: Encoder, events: seq<Event>, i: nat, j: nat, w: U32, h: U32, at: U64)
    requires Created(env, start, w, h, at) && at > 0 && StrictClock(env, start, events)
    requires i < j <= |events| && Succeeds(env, Run(env, start, events[..i]), events[i])
    ensures Reading(env, Run(env, start, events[..i]), events[i].io) <= Run(env, start, events[..j]).lastReconfigure
  {
    hide Step;
    hide Succeeds;
    hide Reading;
    hide ClockAdvances;
    var n := j - 1;
    assert events[..j][..n] == events[..n] && events[..j][n] == events[n];
    var s := Run(env, start, events[..n]);
    StepTime(env, s, events[n]);
    if i < n {
      SuccessIsOlder(env, start, events, i, n, w, h, at);
      StrictPrefix(env, start, events, n);
      ClockStaysSane(env, start, events[..n], w, h, at);
      StepKeepsClock(env, s, events[n]);
    }
  }

  // ---------------------------------------------------------------- what a resolution change is

  /** The display size held is always the encode size held. */
  predicate DarFollows(s: Encoder) {
    s.held.cfg.darW == s.held.cfg.encodeW && s.held.cfg.darH == s.held.cfg.encodeH
  }

  lemma SequenceKeepsDar(env: Settings, s: Encoder, q: Sequence)
    requires DarFollows(s)
    ensures DarFollows(RenderSequence(env, s, q))
  {
    if q.HevcSeq? == s.hevc {
      SequenceEffect(env, s, q);
      hide RenderSequence;
      hide SequenceVisible;
      hide Wrap32;
      hide BitrateConfig;
    }
  }

  lemma RateControlKeepsDar(k: Held, rc: RateControl)
    ensures var c := RenderRateControl(k, rc).cfg;
            c.darW == k.cfg.darW && c.darH == k.cfg.darH && c.encodeW == k.cfg.encodeW && c.encodeH == k.cfg.encodeH
  {
    hide TargetAverage;
    RatesFlagExact(k, rc);
    hide RateControlRates;
  }

  lemma EndKeepsDar(env: Settings, s: Encoder, io: EndInputs)
    requires DarFollows(s)
    ensures DarFollows(End(env, s, io).enc)
  {
    hide ChooseCopy;
    hide Debounced;
    hide Rejected;
    hide Finish;
    EndPhases(env, s, io);
    hide End;
    assert DarFollows(Reconfigured(env, s, io));
    hide Reconfigured;
    if Submits(s, io) {
      var (s3, _, status) := Submitted(env, s, io);
      assert DarFollows(s3);
      FinishFrame(s3, status, io);
    }
  }

  lemma StepKeepsDar(env: Settings, s: Encoder, e: Event)
    requires DarFollows(s)
    ensures DarFollows(Step(env, s, e))
  {
    hide RenderSequence;
    hide RenderRateControl;
    hide End;
    match e
    case SequenceBuffer(q) => SequenceKeepsDar(env, s, q);
    case RateControlBuffer(rc) => RateControlKeepsDar(s.held, rc);
    case EndPicture(io) => EndKeepsDar(env, s, io);
    case _ =>
  }

  lemma {:induction false} DarFollowsRuns(env: Settings, start: Encoder, events: seq<Event>, w: U32, h: U32, at: U64)
    requires Created(env, start, w, h, at)
    ensures DarFollows(Run(env, start, events))
  {
    if events != [] {
      hide Step;
      var n := |events| - 1;
      DarFollowsRuns(env, start, events[..n], w, h, at);
      StepKeepsDar(env, Run(env, start, events[..n]), events[n]);
    }
  }

  /** Over every run a pending update counts as a resolution change exactly if its encode size is not the frame's. */
  lemma ResolutionChangeIsSize(env: Settings, start: Encoder, events: seq<Event>, w: U32, h: U32, at: U64)
    requires Created(env, start, w, h, at)
    ensures var s := Run(env, start, events);
            ResolutionChange(s) <==> s.held.cfg.encodeW != s.width || s.held.cfg.encodeH != s.height
  {
    DarFollowsRuns(env, start, events, w, h, at);
    hide Run;
  }

  /**
   Debounce: with a strictly increasing clock, the encoder is asked for a pending update exactly when its encode size
   is not the frame's, or the minimum number of milliseconds has passed since the last success of the run, or since
   creation.
   */
  lemma ReconfigureSpacing(env: Settings, start: Encoder, events: seq<Event>, io: EndInputs, w: U32, h: U32, at: U64)
    requires Created(env, start, w, h, at) && at > 0 && StrictClock(env, start, events)
    requires ClockAdvances(Run(env, start, events), EndPicture(io))
    ensures var s := Run(env, start, events);
            s.held.pending && env.canReconfigure ==>
              (Attempts(env, s, io.now) <==>
               || s.held.cfg.encodeW != s.width || s.held.cfg.encodeH != s.height
               || io.now - LastSuccess(env, start, events, at) >= env.minMs * 1_000_000)
  {
    ClockStaysSane(env, start, events, w, h, at);
    TimestampIsLastSuccess(env, start, events, w, h, at);
    ResolutionChangeIsSize(env, start, events, w, h, at);
    hide Run;
    hide LastSuccess;
    hide ResolutionChange;
  }

  /**
   Spacing over runs: between any success and any later accepted configuration that does not change the
   resolution lies at least the minimum interval.
   */
  lemma SuccessesSpaced(env: Settings, start: Encoder, events: seq<Event>, i: nat, j: nat, w: U32, h: U32, at: U64)
    requires Created(env, start, w, h, at) && at > 0 && StrictClock(env, start, events)
    requires i < j < |events| && Succeeds(env, Run(env, start, events[..i]), events[i])
    requires events[j].EndPicture? && Reconfigures(env, Run(env, start, events[..j]), events[j].io)
    ensures var before, s := Run(env, start, events[..i]), Run(env, start, events[..j]);
            || s.held.cfg.encodeW != s.width || s.held.cfg.encodeH != s.height
            || events[j].io.now - Reading(env, before, events[i].io) >= env.minMs * 1_000_000
  {
    hide Succeeds;
    hide Reading;
    SuccessIsOlder(env, start, events, i, j, w, h, at);
    StrictPrefix(env, start, events, j);
    ReconfigureSpacing(env, start, events[..j], events[j].io, w, h, at);
    TimestampIsLastSuccess(env, start, events[..j], w, h, at);
    hide Run;
    hide LastSuccess;
  }

  /** The test reads `now > last`, so at an equal timestamp nothing is held back. */
  lemma EqualTimestampNotDebounced(env: Settings, s: Encoder)
    requires s.held.pending && env.canReconfigure
    ensures Attempts(env, s, s.lastReconfigure)
  {
  }

  /** A timestamp of 0 stands for no attempt so far: nothing is held back, however early it is. */
  lemma ZeroTimestampNotDebounced(env: Settings, s: Encoder, now: U64)
    requires s.held.pending && env.canReconfigure && s.lastReconfigure == 0
    ensures Attempts(env, s, now)
  {
  }
}
