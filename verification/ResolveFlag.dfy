/**
 The `resolving` flag that `nvSyncSurface` waits on (src/vabackend.c:1135-1160, 2516-2519 and 3141-3147;
 src/export-buf.c:506-511 and 563-576), over the runs of the ring in ResolveQueue.dfy: what it means for a client
 that leaves surfaces in flight alone, what is left of that for one that does not, and that no waiter is left behind.
 */
module ResolveFlag {
  import opened Words
  import opened ResolveQueue

  // ---------------------------------------------------------------- what is in flight

  /** What a step does to the queue. */
  lemma QueueAfter(s: State, step: Step)
    requires RingInv(s) && Enabled(Bounded, s, step)
    ensures var t := Next(s, step);
            && |t.dequeued| <= |t.enqueued|
            && (step.WrapAndUnlock? ==> Queue(t) == Queue(s) + [s.target])
            && (step.TakeSlot? ==> Queue(s) == [t.consumer.taken] + Queue(t) && HeldBy(s.consumer) == {})
            && (!step.WrapAndUnlock? && !step.TakeSlot? ==> Queue(t) == Queue(s))
  {
    if step.TakeSlot? {
      TakeKeepsRing(s);
    }
    hide FreeRing;
  }

  lemma SetOfSnoc(q: seq<nat>, x: nat)
    ensures (set y <- q + [x]) == (set y <- q) + {x}
  {
    assert forall y :: y in q + [x] <==> y in q || y == x;
  }

  lemma SetOfCons(x: nat, q: seq<nat>)
    ensures (set y <- [x] + q) == {x} + (set y <- q)
  {
    assert forall y :: y in [x] + q <==> y == x || y in q;
  }

  lemma TakeKeepsInFlight(s: State)
    requires RingInv(s) && Possible(s, TakeSlot)
    ensures var t := Next(s, TakeSlot); |t.dequeued| <= |t.enqueued| && InFlight(t) == InFlight(s)
  {
    hide RingInv;
    QueueAfter(s, TakeSlot);
    var t := Next(s, TakeSlot);
    SetOfCons(t.consumer.taken, Queue(t));
    hide Queue;
    assert t.open == s.open && t.consumer.Taken?;
    hide Next;
    hide Possible;
  }

  lemma UnlockAddsTarget(s: State)
    requires RingInv(s) && Possible(s, WrapAndUnlock)
    ensures var t := Next(s, WrapAndUnlock);
            |t.dequeued| <= |t.enqueued| && InFlight(t) == InFlight(s) + {s.target}
  {
    hide RingInv;
    QueueAfter(s, WrapAndUnlock);
    var t := Next(s, WrapAndUnlock);
    SetOfSnoc(Queue(s), s.target);
    hide Queue;
    assert t.open == s.open - {s.target} && t.consumer == s.consumer;
    hide Next;
    hide Possible;
  }

  /** What a step does to the surfaces in flight. */
  lemma InFlightAfter(s: State, step: Step)
    requires RingInv(s) && Enabled(Bounded, s, step)
    ensures var t := Next(s, step);
            && |t.dequeued| <= |t.enqueued|
            && InFlight(t) ==
               if step.Begin? then InFlight(s) + {step.surface}
               else if step.WrapAndUnlock? then InFlight(s) + {s.target}
               else if step.Resolve? then s.open + (set x <- Queue(s))
               else InFlight(s)
  {
    hide RingInv;
    if step.TakeSlot? {
      TakeKeepsInFlight(s);
    } else if step.WrapAndUnlock? {
      UnlockAddsTarget(s);
    } else {
      QueueAfter(s, step);
      hide Queue;
    }
  }

  // ---------------------------------------------------------------- the flag for a careful client

  /** Each surface is in one place only, and the flag is set exactly for those in flight. */
  predicate FlagInv(s: State)
    requires |s.dequeued| <= |s.enqueued|
  {
    var q := Queue(s);
    && Distinct(q)
    && (forall x <- q :: x !in s.open && x !in HeldBy(s.consumer))
    && (forall x <- HeldBy(s.consumer) :: x !in s.open)
    && (!s.producer.Outside? ==> s.target in s.open)
    && s.resolving == InFlight(s) + s.stuck && s.stuck !! InFlight(s)
  }

  /** The fate of a picture is open exactly while the flag is set; a failed one is marked on the surface. */
  predicate FateInv(s: State) {
    && s.resolving <= s.fate.Keys
    && forall x <- s.fate.Keys ::
         && (s.fate[x].Pending? <==> x in s.resolving)
         && (s.fate[x].Failed? ==> x in s.failed)
         && (s.fate[x].Copied? ==> x !in s.failed)
  }

  lemma BeginKeepsFlags(s: State, x: nat)
    requires RingInv(s) && FlagInv(s) && Enabled(Careful, s, Begin(x))
    ensures FlagInv(Next(s, Begin(x)))
  {
    hide RingInv;
    InFlightAfter(s, Begin(x));
    QueueAfter(s, Begin(x));
    hide Queue;
  }

  lemma UnlockKeepsFlags(s: State)
    requires RingInv(s) && FlagInv(s) && Enabled(Careful, s, WrapAndUnlock)
    ensures FlagInv(Next(s, WrapAndUnlock))
  {
    hide RingInv;
    UnlockAddsTarget(s);
    QueueAfter(s, WrapAndUnlock);
    var q, x := Queue(s), s.target;
    assert x in InFlight(s) && x !in q;
    hide InFlight;
    hide Queue;
    assert forall y :: y in q + [x] <==> y in q || y == x;
  }

  lemma DistinctTail(x: nat, q: seq<nat>)
    requires Distinct([x] + q)
    ensures Distinct(q) && x !in q
  {
    var all := [x] + q;
    assert forall i :: 0 <= i < |q| ==> q[i] == all[i + 1];
    assert all[0] == x;
  }

  lemma TakeKeepsFlags(s: State)
    requires RingInv(s) && FlagInv(s) && Enabled(Careful, s, TakeSlot)
    ensures |Next(s, TakeSlot).dequeued| <= |s.enqueued| && FlagInv(Next(s, TakeSlot))
  {
    hide RingInv;
    TakeKeepsInFlight(s);
    QueueAfter(s, TakeSlot);
    hide InFlight;
    var q', x := Queue(Next(s, TakeSlot)), Next(s, TakeSlot).consumer.taken;
    var q := Queue(s);
    assert q == [x] + q';
    hide Queue;
    DistinctTail(x, q');
    assert forall y :: y in q <==> y == x || y in q';
  }

  lemma ResolveKeepsFlags(s: State, outcome: Outcome)
    requires RingInv(s) && FlagInv(s) && Enabled(Careful, s, Resolve(outcome))
    ensures FlagInv(Next(s, Resolve(outcome)))
  {
    hide RingInv;
    InFlightAfter(s, Resolve(outcome));
    QueueAfter(s, Resolve(outcome));
    var x, rest := s.consumer.held, s.open + (set y <- Queue(s));
    assert InFlight(s) == rest + {x} && x !in rest;
    hide InFlight;
    hide Queue;
  }

  lemma StepKeepsFlags(s: State, step: Step)
    requires RingInv(s) && FlagInv(s) && Enabled(Careful, s, step)
    ensures |Next(s, step).dequeued| <= |Next(s, step).enqueued| && FlagInv(Next(s, step))
  {
    match step
    case Begin(x) => BeginKeepsFlags(s, x);
    case WrapAndUnlock => UnlockKeepsFlags(s);
    case TakeSlot => TakeKeepsFlags(s);
    case Resolve(outcome) => ResolveKeepsFlags(s, outcome);
    case _ =>
      var t := Next(s, step);
      assert Queue(t) == Queue(s) && HeldBy(t.consumer) == HeldBy(s.consumer) && t.open == s.open;
  }

  lemma StepKeepsFate(s: State, step: Step)
    requires RingInv(s) && FlagInv(s) && FateInv(s) && Enabled(Careful, s, step)
    ensures FateInv(Next(s, step))
  {
    if step.DecodeAndLock? {
      assert s.target in InFlight(s);
    } else if step.Resolve? {
      assert s.consumer.held in InFlight(s);
    }
  }

  // ---------------------------------------------------------------- over every interleaving

  predicate Inv(s: State) {
    RingInv(s) && FlagInv(s) && FateInv(s)
  }

  /** No mapped frame comes with a null pointer. */
  predicate PointersSane(steps: seq<Step>) {
    forall x <- steps :: x.Resolve? ==> !x.outcome.NullPointer?
  }

  lemma {:induction false} ReachesKeepsInv(s: State, steps: seq<Step>, s': State)
    requires Inv(s) && Reaches(Careful, s, steps, s')
    ensures Inv(s') && (PointersSane(steps) ==> s'.stuck <= s.stuck)
    decreases |steps|
  {
    if steps != [] {
      hide Enabled;
      hide Next;
      var step := steps[0];
      StepKeepsStuck(s, step);
      EnabledBounded(Careful, s, step);
      StepKeepsRing(s, step);
      StepKeepsFlags(s, step);
      StepKeepsFate(s, step);
      ReachesKeepsInv(Next(s, step), steps[1..], s');
      assert PointersSane(steps) ==> step in steps && PointersSane(steps[1..]);
    }
  }

  lemma StepKeepsStuck(s: State, step: Step)
    requires Enabled(Careful, s, step)
    ensures (step.Resolve? ==> !step.outcome.NullPointer?) ==> Next(s, step).stuck <= s.stuck
  {
  }

  /**
   Resolve flag: the flag is set exactly for the surfaces in flight and those whose frame was mapped at a null
   pointer since they were begun; there are none of these if no map hands out a null pointer. So when
   `nvSyncSurface` returns for a surface that was begun, its frame was copied or the surface is marked failed.
   */
  lemma FlagMeansInFlight(s: State, steps: seq<Step>, s': State, x: nat)
    requires Initial(s) && Reaches(Careful, s, steps, s')
    ensures |s'.dequeued| <= |s'.enqueued|
    ensures x in s'.resolving <==> x in InFlight(s') || x in s'.stuck
    ensures PointersSane(steps) ==> s'.stuck == {}
    ensures x in s'.fate && x !in s'.resolving ==>
              s'.fate[x] == if x in s'.failed then Failed else Copied
  {
    ReachesKeepsInv(s, steps, s');
  }

  /** A frame mapped at a null pointer is exported without being copied: its flag stays set with nothing in flight. */
  lemma NullFrameKeepsFlag(s: State)
    requires Inv(s) && Enabled(Careful, s, Resolve(NullPointer)) && s.consumer.held !in s.failed
    ensures var t := Next(s, Resolve(NullPointer)); s.consumer.held in t.resolving && s.consumer.held !in InFlight(t)
  {
    var t := Next(s, Resolve(NullPointer));
    assert Queue(t) == Queue(s);
    assert s.consumer.held in InFlight(s);
  }

  // ---------------------------------------------------------------- no waiter is left behind

  /** One resolve leaves the flags exact if and only if it is not an uncopied null frame of a decoded picture. */
  lemma ResolveFlagsExactly(s: State, outcome: Outcome)
    requires Inv(s) && Enabled(Careful, s, Resolve(outcome)) && s.stuck == {}
    ensures var t := Next(s, Resolve(outcome));
            t.resolving == InFlight(t) <==> !outcome.NullPointer? || s.consumer.held in s.failed
  {
    ResolveKeepsFlags(s, outcome);
    var t := Next(s, Resolve(outcome));
    if outcome.NullPointer? && s.consumer.held !in s.failed {
      NullFrameKeepsFlag(s);
    } else {
      assert t.resolving == InFlight(t) + {};
    }
  }

  lemma StepKeepsInv(s: State, step: Step)
    requires Inv(s) && Enabled(Careful, s, step)
    ensures Inv(Next(s, step))
  {
    hide Enabled;
    hide Next;
    EnabledBounded(Careful, s, step);
    StepKeepsRing(s, step);
    StepKeepsFlags(s, step);
    StepKeepsFate(s, step);
  }

  /** The four steps that resolve the surface at the head of the queue. */
  function OneRound(outcome: Outcome): seq<Step> {
    [SeeWork, TakeSlot, WrapRead, Resolve(outcome)]
  }

  /** The consumer's work on a queue, with one outcome for each surface in it. */
  function Drain(outcomes: seq<Outcome>): seq<Step> {
    if outcomes == [] then [] else OneRound(outcomes[0]) + Drain(outcomes[1..])
  }

  /** All four steps are possible one after the other. */
  predicate CanRound(s: State, outcome: Outcome) {
    && Possible(s, SeeWork) && Possible(Next(s, SeeWork), TakeSlot)
    && Possible(Next(Next(s, SeeWork), TakeSlot), WrapRead)
    && Possible(Next(Next(Next(s, SeeWork), TakeSlot), WrapRead), Resolve(outcome))
  }

  function AfterRound(s: State, outcome: Outcome): State
    requires CanRound(s, outcome)
  {
    Next(Next(Next(Next(s, SeeWork), TakeSlot), WrapRead), Resolve(outcome))
  }

  /** The client's promises are about its own steps only. */
  lemma ConsumerFree(client: Client, s: State, step: Step)
    requires Possible(s, step) && !step.Begin? && !step.DecodeAndLock?
    ensures Enabled(client, s, step)
  {
  }

  lemma RoundReaches(client: Client, s: State, outcome: Outcome)
    requires CanRound(s, outcome)
    ensures Reaches(client, s, OneRound(outcome), AfterRound(s, outcome))
  {
    var r := OneRound(outcome);
    var s1 := Next(s, SeeWork);
    var s2 := Next(s1, TakeSlot);
    var s3 := Next(s2, WrapRead);
    var t := Next(s3, Resolve(outcome));
    ConsumerFree(client, s, SeeWork);
    ConsumerFree(client, s1, TakeSlot);
    ConsumerFree(client, s2, WrapRead);
    ConsumerFree(client, s3, Resolve(outcome));
    hide Enabled;
    hide Possible;
    hide Next;
    assert Reaches(client, t, r[4..], t);
    assert r[3..][0] == r[3] && r[3..][1..] == r[4..];
    assert Reaches(client, s3, r[3..], t);
    assert r[2..][0] == r[2] && r[2..][1..] == r[3..];
    assert Reaches(client, s2, r[2..], t);
    assert r[1..][0] == r[1] && r[1..][1..] == r[2..];
    assert Reaches(client, s1, r[1..], t);
  }

  lemma RoundPossible(s: State, outcome: Outcome)
    requires RingInv(s) && s.producer.Outside? && s.consumer.Waiting? && |s.dequeued| < |s.enqueued|
    ensures CanRound(s, outcome)
  {
    IndicesMeet(|s.dequeued|, |s.enqueued|);
  }

  lemma RoundEffect(s: State, outcome: Outcome)
    requires CanRound(s, outcome) && s.consumer.Waiting? && s.producer.Outside? && |s.dequeued| < |s.enqueued|
    ensures var t := AfterRound(s, outcome);
            && t.producer.Outside? && t.consumer.Waiting? && t.open == s.open
            && Queue(t) == Queue(s)[1..] && s.slots[s.readIdx] == t.dequeued[|s.dequeued|]
            && (!outcome.NullPointer? ==> t.stuck == s.stuck - {s.slots[s.readIdx]})
  {
  }

  /** The surface whose turn it is is not one mapped at a null pointer before. */
  lemma HeadNotStuck(s: State)
    requires Inv(s) && s.producer.Outside? && s.consumer.Waiting? && Queue(s) != []
    ensures s.slots[s.readIdx] !in s.stuck
  {
    var d := |s.dequeued|;
    assert s.slots[d % SIZE] == s.enqueued[d] == Queue(s)[0];
    assert Queue(s)[0] in InFlight(s);
  }

  lemma RoundKeepsInv(s: State, outcome: Outcome)
    requires Inv(s) && CanRound(s, outcome)
    ensures Inv(AfterRound(s, outcome))
  {
    var s1 := Next(s, SeeWork);
    var s2 := Next(s1, TakeSlot);
    var s3 := Next(s2, WrapRead);
    ConsumerFree(Careful, s, SeeWork);
    ConsumerFree(Careful, s1, TakeSlot);
    ConsumerFree(Careful, s2, WrapRead);
    ConsumerFree(Careful, s3, Resolve(outcome));
    hide Inv;
    hide Enabled;
    hide Next;
    StepKeepsInv(s, SeeWork);
    StepKeepsInv(s1, TakeSlot);
    StepKeepsInv(s2, WrapRead);
    StepKeepsInv(s3, Resolve(outcome));
  }

  /**
   Failed decodes, maps and exports leave no waiter behind: whatever the outcomes, the consumer can work off the
   queue, and then only surfaces still being assembled are flagged, besides those mapped at a null pointer.
   */
  lemma {:induction false} NoWaiterLeft(s: State, outcomes: seq<Outcome>) returns (t: State)
    requires Inv(s) && s.producer.Outside? && s.consumer.Waiting? && |outcomes| == |Queue(s)|
    ensures Reaches(Careful, s, Drain(outcomes), t) && t.resolving == s.open + t.stuck
    ensures (forall o <- outcomes :: !o.NullPointer?) ==> t.stuck == s.stuck
    decreases |outcomes|
  {
    if outcomes == [] {
      t := s;
    } else {
      var o := outcomes[0];
      RoundPossible(s, o);
      RoundEffect(s, o);
      HeadNotStuck(s);
      RoundKeepsInv(s, o);
      RoundReaches(Careful, s, o);
      hide Inv;
      hide CanRound;
      hide AfterRound;
      t := NoWaiterLeft(AfterRound(s, o), outcomes[1..]);
      ReachesAppend(Careful, s, OneRound(o), AfterRound(s, o), Drain(outcomes[1..]), t);
      assert o in outcomes;
    }
  }

  // ---------------------------------------------------------------- runs from the start

  /** One picture queued, none taken. */
  lemma FirstPicture(client: Client, s: State) returns (u: State)
    requires Initial(s)
    ensures Reaches(client, s, PutPicture(0, true), u) && RingInv(u) && u.producer.Outside? && u.consumer.Waiting?
    ensures u.enqueued == [0] && u.dequeued == [] && u.open == {}
    ensures u.resolving == {0} && u.stuck == {} && 0 !in u.failed
  {
    PutWorks(client, s, 0, true);
    u := Accessed(s, 0, true, 5);
  }

  lemma RoundOfOne(u: State, outcome: Outcome)
    requires RingInv(u) && u.producer.Outside? && u.consumer.Waiting? && u.enqueued == [0] && u.dequeued == []
    ensures CanRound(u, outcome)
    ensures var t := AfterRound(u, outcome);
            && t.enqueued == [0] && t.dequeued == [0] && t.open == u.open && t.consumer.Waiting?
            && t.resolving == (if outcome.NullPointer? && 0 !in u.failed then u.resolving else u.resolving - {0})
  {
    RoundPossible(u, outcome);
  }

  /** Nine steps from the start: a frame mapped at a null pointer leaves its surface flagged with nothing in flight. */
  lemma NullPointerBlocksWaiter(s: State) returns (t: State)
    requires Initial(s)
    ensures Reaches(Careful, s, PutPicture(0, true) + OneRound(NullPointer), t)
    ensures |t.dequeued| <= |t.enqueued| && 0 in t.resolving && InFlight(t) == {}
  {
    var u := FirstPicture(Careful, s);
    RoundOfOne(u, NullPointer);
    t := AfterRound(u, NullPointer);
    RoundReaches(Careful, u, NullPointer);
    ReachesAppend(Careful, s, PutPicture(0, true), u, OneRound(NullPointer), t);
    hide Reaches;
    hide AfterRound;
    hide CanRound;
    assert Queue(t) == [];
  }

  // ---------------------------------------------------------------- surfaces begun again in flight

  /** The flag is set exactly for surfaces in flight or mapped at a null pointer. */
  predicate FlagExact(s: State)
    requires |s.dequeued| <= |s.enqueued|
  {
    s.resolving == InFlight(s) + s.stuck
  }

  /** A step by which the consumer clears the flag of a surface that has another picture in flight. */
  predicate ClearsEarly(s: State, step: Step)
    requires |s.dequeued| <= |s.enqueued|
  {
    && step.Resolve? && s.consumer.Holding?
    && (s.consumer.held in s.failed || !step.outcome.NullPointer?)
    && (s.consumer.held in s.open || s.consumer.held in Queue(s))
  }

  predicate NeverClearsEarly(s: State, steps: seq<Step>)
    decreases |steps|
  {
    steps != [] ==>
      Possible(s, steps[0]) && !ClearsEarly(s, steps[0]) && NeverClearsEarly(Next(s, steps[0]), steps[1..])
  }

  predicate AlwaysExact(s: State, steps: seq<Step>)
    decreases |steps|
  {
    && |s.dequeued| <= |s.enqueued| && FlagExact(s)
    && (steps != [] ==> Possible(s, steps[0]) && AlwaysExact(Next(s, steps[0]), steps[1..]))
  }

  /** For any bounded client: a set flag belongs to a surface in flight, or to a null frame. */
  lemma StepKeepsInside(s: State, step: Step)
    requires RingInv(s) && Enabled(Bounded, s, step) && s.resolving <= InFlight(s) + s.stuck
    ensures var t := Next(s, step); |t.dequeued| <= |t.enqueued| && t.resolving <= InFlight(t) + t.stuck
  {
    hide RingInv;
    InFlightAfter(s, step);
    if step.Resolve? {
      assert InFlight(s) == s.open + (set x <- Queue(s)) + {s.consumer.held};
    }
    hide InFlight;
    hide Queue;
  }

  lemma {:induction false} ReachesKeepsInside(client: Client, s: State, steps: seq<Step>, s': State)
    requires RingInv(s) && s.resolving <= InFlight(s) + s.stuck
    requires Reaches(client, s, steps, s') && !client.Anything?
    ensures |s'.dequeued| <= |s'.enqueued| && s'.resolving <= InFlight(s') + s'.stuck
    decreases |steps|
  {
    if steps != [] {
      hide RingInv;
      hide Next;
      EnabledBounded(client, s, steps[0]);
      hide Enabled;
      StepKeepsRing(s, steps[0]);
      StepKeepsInside(s, steps[0]);
      ReachesKeepsInside(client, Next(s, steps[0]), steps[1..], s');
    } else {
      assert |s.dequeued| <= |s.enqueued|;
    }
  }

  /** Whatever is begun again: with at most 15 outstanding, `nvSyncSurface` only waits for pictures in flight. */
  lemma FlagOnlyInFlight(client: Client, s: State, steps: seq<Step>, s': State)
    requires Initial(s) && Reaches(client, s, steps, s') && !client.Anything?
    ensures |s'.dequeued| <= |s'.enqueued| && s'.resolving <= InFlight(s') + s'.stuck
  {
    ReachesKeepsInside(client, s, steps, s');
  }

  /** Between Begin and the hand-over, the picture of a paired client is open. */
  predicate TargetOpen(s: State) {
    !s.producer.Outside? ==> s.target in s.open
  }

  lemma StepKeepsTarget(s: State, step: Step)
    requires TargetOpen(s) && Enabled(Paired, s, step)
    ensures TargetOpen(Next(s, step))
  {
  }

  lemma ResolveExactly(s: State, outcome: Outcome)
    requires RingInv(s) && FlagExact(s) && Enabled(Paired, s, Resolve(outcome))
    ensures |Next(s, Resolve(outcome)).dequeued| <= |Next(s, Resolve(outcome)).enqueued|
    ensures FlagExact(Next(s, Resolve(outcome))) <==> !ClearsEarly(s, Resolve(outcome))
  {
    hide RingInv;
    InFlightAfter(s, Resolve(outcome));
    var x, rest := s.consumer.held, s.open + (set y <- Queue(s));
    assert InFlight(s) == rest + {x};
    assert x in rest <==> x in s.open || x in Queue(s);
    hide InFlight;
    hide Queue;
  }

  /** One step from exact flags: they stay exact if and only if it does not clear early. */
  lemma StepExactly(s: State, step: Step)
    requires RingInv(s) && TargetOpen(s) && FlagExact(s) && Enabled(Paired, s, step)
    ensures |Next(s, step).dequeued| <= |Next(s, step).enqueued|
    ensures FlagExact(Next(s, step)) <==> !ClearsEarly(s, step)
  {
    hide RingInv;
    EnabledBounded(Paired, s, step);
    InFlightAfter(s, step);
    if step.Resolve? {
      ResolveExactly(s, step.outcome);
    } else {
      assert step.WrapAndUnlock? ==> s.target in InFlight(s);
      hide InFlight;
      hide Queue;
    }
  }

  lemma {:induction false} ExactFrom(s: State, steps: seq<Step>, s': State)
    requires RingInv(s) && TargetOpen(s) && FlagExact(s) && Reaches(Paired, s, steps, s')
    ensures AlwaysExact(s, steps) <==> NeverClearsEarly(s, steps)
    decreases |steps|
  {
    if steps != [] {
      var step := steps[0];
      var t := Next(s, step);
      EnabledBounded(Paired, s, step);
      StepKeepsRing(s, step);
      StepKeepsTarget(s, step);
      StepExactly(s, step);
      hide RingInv;
      hide TargetOpen;
      hide FlagExact;
      hide ClearsEarly;
      hide Next;
      hide Allowed;
      if ClearsEarly(s, step) {
        assert !AlwaysExact(t, steps[1..]);
      } else {
        ExactFrom(t, steps[1..], s');
      }
    }
  }

  /**
   Surfaces begun again in flight: for a client that pairs its calls and has at most 15 outstanding, the flag means
   "in flight" throughout a run if and only if no resolve clears it while another picture of its surface is.
   */
  lemma FlagExactUntilReuse(s: State, steps: seq<Step>, s': State)
    requires Initial(s) && Reaches(Paired, s, steps, s')
    ensures AlwaysExact(s, steps) <==> NeverClearsEarly(s, steps)
  {
    assert FlagExact(s);
    ExactFrom(s, steps, s');
  }

  /** A surface begun again while queued: the resolve of its first picture clears the flag of the second. */
  lemma SecondPictureUnflagged(s: State) returns (t: State)
    requires Initial(s)
    ensures Reaches(Paired, s, PutPicture(0, true) + [Begin(0)] + OneRound(FrameCopied), t)
    ensures |t.dequeued| <= |t.enqueued| && 0 in t.open && 0 in InFlight(t) && 0 !in t.resolving
  {
    var u := FirstPicture(Paired, s);
    var b := Next(u, Begin(0));
    assert Enabled(Paired, u, Begin(0));
    assert Reaches(Paired, u, [Begin(0)], b) by {
      assert [Begin(0)][1..] == [];
    }
    EnabledBounded(Paired, u, Begin(0));
    StepKeepsRing(u, Begin(0));
    ReachesAppend(Paired, s, PutPicture(0, true), u, [Begin(0)], b);
    RoundOfOne(b, FrameCopied);
    t := AfterRound(b, FrameCopied);
    RoundReaches(Paired, b, FrameCopied);
    ReachesAppend(Paired, s, PutPicture(0, true) + [Begin(0)], b, OneRound(FrameCopied), t);
    hide Reaches;
    hide AfterRound;
    hide CanRound;
  }

  // ---------------------------------------------------------------- what became of a picture

  /** What the decoder said of the surface's latest picture, so far as it was asked. */
  function DecodeAfter(s: State, step: Step, x: nat, said: Option<bool>): Option<bool> {
    if step.Begin? && step.surface == x then None
    else if step.DecodeAndLock? && s.target == x then Some(step.decodeOk)
    else said
  }

  /** What its resolve reported, so far as there was one. */
  function ReportAfter(s: State, step: Step, x: nat, report: Option<Outcome>): Option<Outcome> {
    if step.Begin? && step.surface == x then None
    else if step.Resolve? && s.consumer.Holding? && s.consumer.held == x then Some(step.outcome)
    else report
  }

  function Said(s: State, steps: seq<Step>, x: nat, said: Option<bool>): Option<bool>
    decreases |steps|
  {
    if steps == [] || !Possible(s, steps[0]) then said
    else Said(Next(s, steps[0]), steps[1..], x, DecodeAfter(s, steps[0], x, said))
  }

  function Report(s: State, steps: seq<Step>, x: nat, report: Option<Outcome>): Option<Outcome>
    decreases |steps|
  {
    if steps == [] || !Possible(s, steps[0]) then report
    else Report(Next(s, steps[0]), steps[1..], x, ReportAfter(s, steps[0], x, report))
  }

  /** The decoder refused the picture, or mapping or exporting its frame failed. */
  predicate WentWrong(decoded: bool, report: Outcome) {
    !decoded || report.MapFailed? || report.ExportFailed?
  }

  /** Where a surface is, and what that says of the decoder's and the resolve's word. */
  predicate Tracked(s: State, x: nat, said: Option<bool>, report: Option<Outcome>)
    requires |s.dequeued| <= |s.enqueued|
  {
    if x !in s.fate then said.None? && report.None?
    else if x in s.open then
      report.None? && (!s.producer.Outside? && s.target == x ==> said.Some? && (x in s.failed <==> !said.value))
    else if x in InFlight(s) then report.None? && said.Some? && (x in s.failed <==> !said.value)
    else
      && said.Some? && report.Some?
      && if x in s.stuck then !WentWrong(said.value, report.value)
         else
           && (x in s.failed <==> WentWrong(said.value, report.value))
           && s.fate[x] == (if WentWrong(said.value, report.value) then Failed else Copied)
  }

  lemma BeginTracks(s: State, y: nat, x: nat, said: Option<bool>, report: Option<Outcome>)
    requires Inv(s) && Enabled(Careful, s, Begin(y)) && Tracked(s, x, said, report)
    ensures var t := Next(s, Begin(y));
            |t.dequeued| <= |t.enqueued|
            && Tracked(t, x, DecodeAfter(s, Begin(y), x, said), ReportAfter(s, Begin(y), x, report))
  {
    hide RingInv;
    InFlightAfter(s, Begin(y));
    hide InFlight;
    hide Queue;
  }

  lemma ResolveTracks(s: State, o: Outcome, x: nat, said: Option<bool>, report: Option<Outcome>)
    requires Inv(s) && Enabled(Careful, s, Resolve(o)) && Tracked(s, x, said, report)
    ensures var t := Next(s, Resolve(o));
            |t.dequeued| <= |t.enqueued|
            && Tracked(t, x, DecodeAfter(s, Resolve(o), x, said), ReportAfter(s, Resolve(o), x, report))
  {
    hide RingInv;
    InFlightAfter(s, Resolve(o));
    var h, rest := s.consumer.held, s.open + (set y <- Queue(s));
    assert InFlight(s) == rest + {h} && h !in rest;
    hide InFlight;
    hide Queue;
  }

  lemma UnlockTracks(s: State, x: nat, said: Option<bool>, report: Option<Outcome>)
    requires Inv(s) && Enabled(Careful, s, WrapAndUnlock) && Tracked(s, x, said, report)
    ensures var t := Next(s, WrapAndUnlock);
            |t.dequeued| <= |t.enqueued| && Tracked(t, x, said, report)
  {
    hide RingInv;
    UnlockAddsTarget(s);
    assert s.open <= InFlight(s);
    hide InFlight;
    hide Queue;
  }

  lemma OtherTracks(s: State, step: Step, x: nat, said: Option<bool>, report: Option<Outcome>)
    requires Inv(s) && Enabled(Careful, s, step) && Tracked(s, x, said, report)
    requires !step.Begin? && !step.Resolve? && !step.WrapAndUnlock?
    ensures var t := Next(s, step);
            |t.dequeued| <= |t.enqueued|
            && Tracked(t, x, DecodeAfter(s, step, x, said), ReportAfter(s, step, x, report))
  {
    hide RingInv;
    EnabledBounded(Careful, s, step);
    InFlightAfter(s, step);
    hide InFlight;
    hide Queue;
  }

  lemma {:induction false} ReachesTracks(
    s: State, steps: seq<Step>, s': State, x: nat, said: Option<bool>, report: Option<Outcome>)
    requires Inv(s) && Reaches(Careful, s, steps, s') && Tracked(s, x, said, report)
    ensures |s'.dequeued| <= |s'.enqueued|
    ensures Tracked(s', x, Said(s, steps, x, said), Report(s, steps, x, report))
    decreases |steps|
  {
    if steps != [] {
      var step := steps[0];
      StepKeepsInv(s, step);
      match step {
        case Begin(y) => BeginTracks(s, y, x, said, report);
        case Resolve(o) => ResolveTracks(s, o, x, said, report);
        case WrapAndUnlock => UnlockTracks(s, x, said, report);
        case _ => OtherTracks(s, step, x, said, report);
      }
      hide Inv;
      hide Next;
      hide Allowed;
      hide Tracked;
      ReachesTracks(Next(s, step), steps[1..], s', x,
                    DecodeAfter(s, step, x, said), ReportAfter(s, step, x, report));
    } else {
      hide FlagInv;
      hide FateInv;
    }
  }

  /**
   Over every run of a careful client: once the flag of a surface that was begun is clear, its latest picture was
   decoded and resolved, and it is failed, and marked so, if and only if the decoder refused it or its resolve
   reported a failed map or export; otherwise its frame was copied.
   */
  lemma FateFollowsAnswers(s: State, steps: seq<Step>, s': State, x: nat)
    requires Initial(s) && Reaches(Careful, s, steps, s')
    requires x in s'.fate && x !in s'.resolving
    ensures var said, report := Said(s, steps, x, None), Report(s, steps, x, None);
            && said.Some? && report.Some?
            && (s'.fate[x] == Failed <==> WentWrong(said.value, report.value))
            && (x in s'.failed <==> WentWrong(said.value, report.value))
            && (s'.fate[x] == Copied <==> !WentWrong(said.value, report.value))
  {
    ReachesTracks(s, steps, s', x, None, None);
    ReachesKeepsInv(s, steps, s');
    assert x !in InFlight(s') && x !in s'.stuck && x !in s'.open;
    hide Said;
    hide Report;
    hide Reaches;
  }

  /** A picture the decoder refused ends failed and marked, although its frame could have been copied. */
  lemma RefusedPictureFails(s: State) returns (t: State)
    requires Initial(s)
    ensures Reaches(Careful, s, PutPicture(0, false) + OneRound(FrameCopied), t)
    ensures 0 in t.fate && t.fate[0] == Failed && 0 in t.failed && 0 !in t.resolving
  {
    PutWorks(Careful, s, 0, false);
    var u := Accessed(s, 0, false, 5);
    assert u.enqueued == [0] && u.dequeued == [] && 0 in u.failed && u.consumer.Waiting?;
    RefusedRound(u);
    t := AfterRound(u, FrameCopied);
    RoundReaches(Careful, u, FrameCopied);
    ReachesAppend(Careful, s, PutPicture(0, false), u, OneRound(FrameCopied), t);
    hide Reaches;
    hide AfterRound;
    hide CanRound;
  }

  lemma RefusedRound(u: State)
    requires RingInv(u) && u.producer.Outside? && u.consumer.Waiting? && u.enqueued == [0] && u.dequeued == []
    requires 0 in u.failed
    ensures CanRound(u, FrameCopied)
    ensures var t := AfterRound(u, FrameCopied);
            0 in t.fate && t.fate[0] == Failed && 0 in t.failed && 0 !in t.resolving
  {
    RoundPossible(u, FrameCopied);
  }
}
