/**
 The hand-over of decoded surfaces from `nvEndPicture` to the resolve thread (src/vabackend.c:1106-1161, 2516-2519
 and 3094-3122), as a state machine of the individual memory accesses of the two threads. The consumer reads its
 slot and moves its index without the lock. Surfaces are numbers. What the `resolving` flag means over these runs
 is in ResolveFlag.dfy.
 */
module ResolveQueue {
  import opened Words

  const SIZE := 16

  /** The client thread inside `nvEndPicture`: outside the lock, or at one of the accesses made under it. */
  datatype Producer = Outside | Locked | Stored | Advanced

  /** The resolve thread: before the locked test, at the unlocked read, at the index wrap, or working on a surface. */
  datatype Consumer = Waiting | Ready | Taken(taken: nat) | Holding(held: nat)

  datatype Fate = Pending | Copied | Failed

  datatype State = State(
    slots: seq<nat>, readIdx: nat, writeIdx: nat, producer: Producer, consumer: Consumer,
    target: nat, resolving: set<nat>, failed: set<nat>,
    // history: all surfaces ever put into and taken from the queue, those begun but not ended, those whose frame
    // was mapped at a null pointer since they were begun, and what became of each
    enqueued: seq<nat>, dequeued: seq<nat>, open: set<nat>, stuck: set<nat>, fate: map<nat, Fate>)

  /** What the foreign calls of one resolve report. */
  datatype Outcome = MapFailed | ExportFailed | FrameCopied | NullPointer

  datatype Step =
    | Begin(surface: nat)
    | DecodeAndLock(decodeOk: bool)
    | StoreSlot
    | AdvanceWrite
    | WrapAndUnlock
    | SeeWork
    | TakeSlot
    | WrapRead
    | Resolve(outcome: Outcome)

  function Queue(s: State): seq<nat>
    requires |s.dequeued| <= |s.enqueued|
  {
    s.enqueued[|s.dequeued|..]
  }

  function HeldBy(c: Consumer): set<nat> {
    if c.Taken? then {c.taken} else if c.Holding? then {c.held} else {}
  }

  /** Begun and not ended, queued, or in the consumer's hands. */
  function InFlight(s: State): set<nat>
    requires |s.dequeued| <= |s.enqueued|
  {
    s.open + (set x <- Queue(s)) + HeldBy(s.consumer)
  }

  /** When a step may happen: what the threads wait for. */
  predicate Possible(s: State, step: Step) {
    && |s.dequeued| <= |s.enqueued| && |s.slots| == SIZE
    && match step
       case Begin(_) => s.producer.Outside?
       case DecodeAndLock(_) => s.producer.Outside?
       case StoreSlot => s.producer.Locked? && s.writeIdx < SIZE
       case AdvanceWrite => s.producer.Stored?
       case WrapAndUnlock => s.producer.Advanced?
       case SeeWork => s.consumer.Waiting? && s.producer.Outside? && s.readIdx != s.writeIdx
       case TakeSlot => s.consumer.Ready? && s.readIdx < SIZE
       case WrapRead => s.consumer.Taken?
       case Resolve(_) => s.consumer.Holding?
  }

  /**
   What a client may do, which the driver does not check: anything; never more than 15 surfaces outstanding
   (src/vabackend.c:3113); in addition, an End only for a picture begun since the last one; in addition, no Begin of
   a surface that is in flight.
   */
  datatype Client = Anything | Bounded | Paired | Careful

  predicate Allowed(client: Client, s: State, step: Step)
    requires |s.dequeued| <= |s.enqueued|
  {
    && (step.Begin? && client.Careful? ==> step.surface !in InFlight(s))
    && (step.DecodeAndLock? ==>
          && (!client.Anything? ==> |Queue(s)| < SIZE - 1)
          && (client.Paired? || client.Careful? ==> s.target in s.open))
  }

  predicate Enabled(client: Client, s: State, step: Step) {
    Possible(s, step) && Allowed(client, s, step)
  }

  function ResolveOne(s: State, x: nat, outcome: Outcome): State {
    if x in s.failed || outcome.MapFailed? || outcome.ExportFailed? then
      s.(consumer := Waiting, failed := s.failed + {x}, resolving := s.resolving - {x}, stuck := s.stuck - {x},
         fate := s.fate[x := Failed])
    else if outcome.FrameCopied? then
      s.(consumer := Waiting, resolving := s.resolving - {x}, stuck := s.stuck - {x}, fate := s.fate[x := Copied])
    else s.(consumer := Waiting, stuck := s.stuck + {x})
  }

  function Next(s: State, step: Step): State
    requires Possible(s, step)
  {
    match step
    case Begin(x) =>
      s.(target := x, resolving := s.resolving + {x}, open := s.open + {x}, stuck := s.stuck - {x},
         fate := s.fate[x := Pending])
    case DecodeAndLock(ok) =>
      s.(failed := if ok then s.failed - {s.target} else s.failed + {s.target}, producer := Locked)
    case StoreSlot => s.(slots := s.slots[s.writeIdx := s.target], producer := Stored)
    case AdvanceWrite => s.(writeIdx := s.writeIdx + 1, producer := Advanced)
    case WrapAndUnlock =>
      s.(writeIdx := if s.writeIdx >= SIZE then 0 else s.writeIdx, producer := Outside,
         enqueued := s.enqueued + [s.target], open := s.open - {s.target})
    case SeeWork => s.(consumer := Ready)
    case TakeSlot =>
      s.(consumer := Taken(s.slots[s.readIdx]), readIdx := s.readIdx + 1, dequeued := s.dequeued + [s.slots[s.readIdx]])
    case WrapRead =>
      s.(readIdx := if s.readIdx >= SIZE then 0 else s.readIdx, consumer := Holding(s.consumer.taken))
    case Resolve(outcome) => ResolveOne(s, s.consumer.held, outcome)
  }

  predicate Initial(s: State) {
    && |s.slots| == SIZE && s.readIdx == 0 && s.writeIdx == 0 && s.producer.Outside? && s.consumer.Waiting?
    && s.resolving == {} && s.enqueued == [] && s.dequeued == [] && s.open == {} && s.stuck == {} && s.fate == map[]
  }

  /** `s'` is reached from `s` by the interleaving `steps`, with such a client. */
  predicate Reaches(client: Client, s: State, steps: seq<Step>, s': State)
    decreases |steps|
  {
    if steps == [] then s' == s
    else Enabled(client, s, steps[0]) && Reaches(client, Next(s, steps[0]), steps[1..], s')
  }

  // ---------------------------------------------------------------- the ring

  lemma SlotsDiffer(a: nat, b: nat)
    requires a < b < a + SIZE
    ensures a % SIZE != b % SIZE
  {
  }

  lemma NextSlot(n: nat)
    ensures (n + 1) % SIZE == if n % SIZE + 1 >= SIZE then 0 else n % SIZE + 1
  {
  }

  lemma FullTurn(n: nat)
    ensures (n + SIZE) % SIZE == n % SIZE
  {
  }

  /** The producer has written its slot but not published it. */
  predicate Storing(s: State) {
    s.producer.Stored? || s.producer.Advanced?
  }

  /** Position of the oldest surface that no later store has overwritten. */
  function OldestKept(s: State): nat {
    Max(0, |s.enqueued| - SIZE + (if Storing(s) then 1 else 0))
  }

  /** The index discipline, access by access, for any number of outstanding surfaces. */
  predicate FreeRing(s: State) {
    && |s.slots| == SIZE && |s.dequeued| <= |s.enqueued|
    && s.writeIdx == |s.enqueued| % SIZE + (if s.producer.Advanced? then 1 else 0)
    && s.readIdx ==
       (if s.consumer.Taken? && |s.dequeued| > 0 then (|s.dequeued| - 1) % SIZE + 1 else |s.dequeued| % SIZE)
    && (s.consumer.Ready? ==> |s.dequeued| < |s.enqueued|)
    && (s.consumer.Taken? || s.consumer.Holding? ==>
          |s.dequeued| > 0 && HeldBy(s.consumer) == {s.dequeued[|s.dequeued| - 1]})
    && (Storing(s) ==> s.slots[|s.enqueued| % SIZE] == s.target)
    && forall k :: OldestKept(s) <= k < |s.enqueued| ==> s.slots[k % SIZE] == s.enqueued[k]
  }

  lemma StoreKeepsFree(s: State)
    requires FreeRing(s) && Possible(s, StoreSlot)
    ensures FreeRing(Next(s, StoreSlot))
  {
    var t := Next(s, StoreSlot);
    forall k | OldestKept(t) <= k < |t.enqueued| ensures t.slots[k % SIZE] == t.enqueued[k] {
      SlotsDiffer(k, |s.enqueued|);
    }
  }

  lemma UnlockKeepsFree(s: State)
    requires FreeRing(s) && Possible(s, WrapAndUnlock)
    ensures FreeRing(Next(s, WrapAndUnlock))
  {
    NextSlot(|s.enqueued|);
  }

  lemma TakeKeepsFree(s: State)
    requires FreeRing(s) && Possible(s, TakeSlot)
    ensures FreeRing(Next(s, TakeSlot))
  {
  }

  lemma ReadKeepsFree(s: State)
    requires FreeRing(s) && Possible(s, WrapRead)
    ensures FreeRing(Next(s, WrapRead))
  {
    NextSlot(|s.dequeued| - 1);
  }

  lemma StepKeepsFree(s: State, step: Step)
    requires FreeRing(s) && Possible(s, step)
    ensures FreeRing(Next(s, step))
  {
    match step
    case StoreSlot => StoreKeepsFree(s);
    case WrapAndUnlock => UnlockKeepsFree(s);
    case TakeSlot => TakeKeepsFree(s);
    case WrapRead => ReadKeepsFree(s);
    case _ =>
  }

  lemma {:induction false} ReachesKeepsFree(client: Client, s: State, steps: seq<Step>, s': State)
    requires FreeRing(s) && Reaches(client, s, steps, s')
    ensures FreeRing(s')
    ensures s.enqueued <= s'.enqueued && s.dequeued <= s'.dequeued
    decreases |steps|
  {
    if steps != [] {
      hide Possible;
      hide Allowed;
      hide Next;
      hide FreeRing;
      StepKeepsFree(s, steps[0]);
      StepAppends(s, steps[0]);
      ReachesKeepsFree(client, Next(s, steps[0]), steps[1..], s');
    }
  }

  lemma StepAppends(s: State, step: Step)
    requires Possible(s, step)
    ensures s.enqueued <= Next(s, step).enqueued && s.dequeued <= Next(s, step).dequeued
  {
  }

  // ---------------------------------------------------------------- the empty test

  lemma IndicesMeet(d: nat, e: nat)
    requires d <= e
    ensures d % SIZE == e % SIZE <==> (e - d) % SIZE == 0
  {
    var n := e - d;
    var q, r := n / SIZE, n % SIZE;
    assert e == d + SIZE * q + r;
    Shift(d + r, q);
    assert d % SIZE == (d + r) % SIZE <==> r == 0;
  }

  lemma Shift(n: nat, q: nat)
    ensures (n + SIZE * q) % SIZE == n % SIZE
  {
  }

  /** In every reachable state, the locked test tells whether something is queued, unless it is a multiple of 16. */
  lemma EmptyTestExact(client: Client, s: State, steps: seq<Step>, s': State)
    requires Initial(s) && Reaches(client, s, steps, s') && s'.producer.Outside? && s'.consumer.Waiting?
    ensures |s'.dequeued| <= |s'.enqueued|
    ensures (s'.readIdx != s'.writeIdx <==> Queue(s') != []) <==> Queue(s') == [] || |Queue(s')| % SIZE != 0
  {
    ReachesKeepsFree(client, s, steps, s');
    IndicesMeet(|s'.dequeued|, |s'.enqueued|);
  }

  // ---------------------------------------------------------------- the order

  /** Position in the history of the surface whose turn the next take is: the latest one stored in its slot. */
  function NextPosition(s: State): nat
    requires |s.dequeued| < |s.enqueued|
  {
    var n := |s.enqueued| - |s.dequeued|;
    if Storing(s) && n % SIZE == 0 then |s.enqueued| else |s.dequeued| + (n - 1) / SIZE * SIZE
  }

  /** Has a store overtaken the oldest outstanding surface? */
  predicate Overrun(s: State)
    requires |s.dequeued| <= |s.enqueued|
  {
    |Queue(s)| > SIZE || (|Queue(s)| == SIZE && Storing(s))
  }

  /** History with the surface being stored. */
  function Incoming(s: State): seq<nat> {
    if s.producer.Outside? then s.enqueued else s.enqueued + [s.target]
  }

  lemma LatestInSlot(d: nat, n: nat)
    requires n > 0
    ensures var p := d + (n - 1) / SIZE * SIZE;
            p % SIZE == d % SIZE && d + n - SIZE <= p < d + n && (n % SIZE == 0 ==> p == d + n - SIZE)
    ensures n % SIZE == 0 ==> (d + n) % SIZE == d % SIZE
    ensures (n - 1) / SIZE * SIZE == 0 <==> n <= SIZE
  {
    Shift(d, (n - 1) / SIZE);
    Shift(d, n / SIZE);
  }

  /**
   A take gets the surface at `NextPosition`, and that is the oldest outstanding one if and only if no store has
   overtaken it.
   */
  lemma TakeExactly(s: State)
    requires FreeRing(s) && Possible(s, TakeSlot)
    ensures var p := NextPosition(s);
            && p < |Incoming(s)| && Next(s, TakeSlot).consumer.taken == Incoming(s)[p]
            && (p == |s.dequeued| <==> !Overrun(s)) && p >= |s.dequeued|
  {
    var d, n := |s.dequeued|, |s.enqueued| - |s.dequeued|;
    LatestInSlot(d, n);
    if !(Storing(s) && n % SIZE == 0) {
      var p := d + (n - 1) / SIZE * SIZE;
      assert OldestKept(s) <= p < |s.enqueued|;
      assert s.slots[p % SIZE] == s.enqueued[p];
    }
  }

  /** No take of the run found the oldest surface overtaken. */
  predicate NeverOverrun(s: State, steps: seq<Step>)
    decreases |steps|
  {
    steps != [] ==>
      && Possible(s, steps[0])
      && (steps[0].TakeSlot? ==> !Overrun(s))
      && NeverOverrun(Next(s, steps[0]), steps[1..])
  }

  predicate Distinct(q: seq<nat>) {
    forall i, j :: 0 <= i < j < |q| ==> q[i] != q[j]
  }

  lemma StepIncoming(s: State, step: Step)
    requires Possible(s, step)
    ensures Incoming(s) <= Incoming(Next(s, step)) && s.enqueued <= Incoming(s)
  {
  }

  lemma {:induction false} IncomingArrives(client: Client, s: State, steps: seq<Step>, s': State)
    requires Reaches(client, s, steps, s') && s'.producer.Outside?
    ensures Incoming(s) <= s'.enqueued
    decreases |steps|
  {
    if steps != [] {
      hide Possible;
      hide Allowed;
      hide Next;
      StepIncoming(s, steps[0]);
      IncomingArrives(client, Next(s, steps[0]), steps[1..], s');
    }
  }

  lemma StepDequeues(s: State, step: Step)
    requires FreeRing(s) && Possible(s, step)
    ensures Next(s, step).dequeued == s.dequeued + (if step.TakeSlot? then [Next(s, step).consumer.taken] else [])
  {
  }

  /** One take against the final history: in order if and only if not overrun. */
  lemma TakeInOrder(s: State, final: seq<nat>)
    requires FreeRing(s) && Possible(s, TakeSlot) && Incoming(s) <= final && Distinct(final)
    ensures |s.dequeued| < |final|
    ensures Next(s, TakeSlot).consumer.taken == final[|s.dequeued|] <==> !Overrun(s)
  {
    TakeExactly(s);
    var p := NextPosition(s);
    assert Incoming(s)[p] == final[p];
    if p != |s.dequeued| {
      assert final[|s.dequeued|] != final[p];
    }
  }

  lemma {:induction false} OrderFrom(client: Client, s: State, steps: seq<Step>, s': State)
    requires FreeRing(s) && Reaches(client, s, steps, s') && s'.producer.Outside? && Distinct(s'.enqueued)
    requires s.dequeued <= s'.enqueued
    ensures s'.dequeued <= s'.enqueued <==> NeverOverrun(s, steps)
    decreases |steps|
  {
    if steps != [] {
      var step, t := steps[0], Next(s, steps[0]);
      IncomingArrives(client, s, steps, s');
      StepKeepsFree(s, step);
      StepDequeues(s, step);
      hide Allowed;
      ReachesKeepsFree(client, t, steps[1..], s');
      if step.TakeSlot? {
        TakeInOrder(s, s'.enqueued);
      }
      hide FreeRing;
      hide Possible;
      hide Next;
      hide Overrun;
      hide Distinct;
      assert t.dequeued <= s'.dequeued;
      if step.TakeSlot? && Overrun(s) {
        OutOfOrder(s.dequeued, t.dequeued, s'.dequeued, s'.enqueued);
      } else {
        assert t.dequeued <= s'.enqueued;
        OrderFrom(client, t, steps[1..], s');
      }
    }
  }

  lemma OutOfOrder(before: seq<nat>, after: seq<nat>, all: seq<nat>, queue: seq<nat>)
    requires |after| == |before| + 1 && |before| < |queue| && after[|before|] != queue[|before|] && after <= all
    ensures !(all <= queue)
  {
    assert all[|before|] == after[|before|];
  }

  /**
   Whatever the client does, as long as it queues each surface once: the surfaces taken are the first ones put in,
   in order, if and only if no take found its surface overtaken by a store.
   */
  lemma OrderSurvivesExactly(client: Client, s: State, steps: seq<Step>, s': State)
    requires Initial(s) && Reaches(client, s, steps, s') && s'.producer.Outside? && Distinct(s'.enqueued)
    ensures s'.dequeued <= s'.enqueued <==> NeverOverrun(s, steps)
  {
    OrderFrom(client, s, steps, s');
  }

  // ---------------------------------------------------------------- at most 15 outstanding

  /** The ring of a bounded client: what was taken is the beginning of what was put in. */
  predicate RingInv(s: State) {
    && FreeRing(s)
    && |s.enqueued| <= |s.dequeued| + SIZE - 1
    && (!s.producer.Outside? ==> |s.enqueued| < |s.dequeued| + SIZE - 1)
    && s.dequeued == s.enqueued[..|s.dequeued|]
  }

  lemma TakeKeepsRing(s: State)
    requires RingInv(s) && Possible(s, TakeSlot)
    ensures RingInv(Next(s, TakeSlot))
    ensures Next(s, TakeSlot).consumer.taken == s.enqueued[|s.dequeued|]
  {
    TakeKeepsFree(s);
    TakeExactly(s);
    var n := |s.dequeued|;
    assert s.enqueued[..n + 1] == s.enqueued[..n] + [s.enqueued[n]];
    hide FreeRing;
  }

  lemma StepKeepsRing(s: State, step: Step)
    requires RingInv(s) && Enabled(Bounded, s, step)
    ensures RingInv(Next(s, step))
  {
    if step.TakeSlot? {
      TakeKeepsRing(s);
    } else {
      StepKeepsFree(s, step);
      hide FreeRing;
    }
  }

  /** Every client but the first is bounded. */
  lemma EnabledBounded(client: Client, s: State, step: Step)
    requires Enabled(client, s, step) && !client.Anything?
    ensures Enabled(Bounded, s, step)
  {
  }

  lemma {:induction false} ReachesKeepsRing(client: Client, s: State, steps: seq<Step>, s': State)
    requires RingInv(s) && Reaches(client, s, steps, s') && !client.Anything?
    ensures RingInv(s')
    decreases |steps|
  {
    if steps != [] {
      hide Enabled;
      hide Next;
      hide RingInv;
      EnabledBounded(client, s, steps[0]);
      StepKeepsRing(s, steps[0]);
      ReachesKeepsRing(client, Next(s, steps[0]), steps[1..], s');
    }
  }

  /** The consumer's unlocked read never races the producer's write: the slots differ. */
  lemma NoRace(s: State)
    requires RingInv(s) && s.producer.Locked? && s.consumer.Ready?
    ensures s.readIdx != s.writeIdx
  {
    SlotsDiffer(|s.dequeued|, |s.enqueued|);
  }

  /**
   Resolve queue: with at most 15 outstanding entries, whatever else the client does and whatever the interleaving,
   the surfaces taken are a prefix of those put in, each once and in order; outside the consumer's two accesses both
   indices are in range; a slot is never read while written; and the locked test sees whether something is queued.
   */
  lemma QueueIsFifo(client: Client, s: State, steps: seq<Step>, s': State)
    requires Initial(s) && Reaches(client, s, steps, s') && !client.Anything?
    ensures s'.dequeued <= s'.enqueued
    ensures (s'.producer.Outside? ==> s'.writeIdx < SIZE) && (!s'.consumer.Taken? ==> s'.readIdx < SIZE)
    ensures s'.producer.Locked? && s'.consumer.Ready? ==> s'.readIdx != s'.writeIdx
    ensures s'.producer.Outside? && s'.consumer.Waiting? ==>
              (s'.readIdx != s'.writeIdx <==> |s'.dequeued| < |s'.enqueued|)
  {
    ReachesKeepsRing(client, s, steps, s');
    if s'.producer.Locked? && s'.consumer.Ready? {
      NoRace(s');
    }
    if s'.producer.Outside? && s'.consumer.Waiting? {
      IndicesMeet(|s'.dequeued|, |s'.enqueued|);
    }
  }

  // ---------------------------------------------------------------- runs past the bound

  lemma {:induction false} ReachesAppend(client: Client, s: State, a: seq<Step>, u: State, b: seq<Step>, v: State)
    requires Reaches(client, s, a, u) && Reaches(client, u, b, v)
    ensures Reaches(client, s, a + b, v)
    decreases |a|
  {
    if a == [] {
      assert a + b == b;
    } else {
      assert (a + b)[1..] == a[1..] + b;
      hide Enabled;
      hide Next;
      ReachesAppend(client, Next(s, a[0]), a[1..], u, b, v);
    }
  }

  /** One whole picture of the client: begun, handed to the decoder, which accepts it or not, and queued. */
  function PutPicture(x: nat, ok: bool): seq<Step> {
    [Begin(x), DecodeAndLock(ok), StoreSlot, AdvanceWrite, WrapAndUnlock]
  }

  /** Pictures 0, 1, ..., n - 1, each with a surface of its own. */
  function PutPictures(n: nat): seq<Step> {
    if n == 0 then [] else PutPictures(n - 1) + PutPicture(n - 1, true)
  }

  function Numbers(n: nat): seq<nat> {
    if n == 0 then [] else Numbers(n - 1) + [n - 1]
  }

  lemma {:induction false} NumbersAre(n: nat)
    ensures |Numbers(n)| == n && forall k :: 0 <= k < n ==> Numbers(n)[k] == k
  {
    if n > 0 {
      NumbersAre(n - 1);
    }
  }

  function Accessed(s: State, x: nat, ok: bool, k: nat): State
    requires s.producer.Outside? && FreeRing(s)
    requires k <= 5
  {
    var b := s.(target := x, resolving := s.resolving + {x}, open := s.open + {x}, stuck := s.stuck - {x},
                fate := s.fate[x := Pending]);
    var l := b.(failed := if ok then b.failed - {x} else b.failed + {x}, producer := Locked);
    var st := l.(slots := l.slots[l.writeIdx := x], producer := Stored);
    var a := st.(writeIdx := st.writeIdx + 1, producer := Advanced);
    if k == 0 then s else if k == 1 then b else if k == 2 then l else if k == 3 then st else if k == 4 then a
    else a.(writeIdx := if a.writeIdx >= SIZE then 0 else a.writeIdx, producer := Outside,
            enqueued := a.enqueued + [x], open := a.open - {x})
  }

  lemma PutStep(s: State, x: nat, ok: bool, k: nat)
    requires s.producer.Outside? && FreeRing(s) && k < 5
    ensures var u := Accessed(s, x, ok, k);
            && Possible(u, PutPicture(x, ok)[k]) && Next(u, PutPicture(x, ok)[k]) == Accessed(s, x, ok, k + 1)
            && (k == 1 ==> u.target in u.open && u.enqueued == s.enqueued)
  {
  }

  /** Queueing one picture is possible whenever the client is outside the lock. */
  lemma PutWorks(client: Client, s: State, x: nat, ok: bool)
    requires FreeRing(s) && s.producer.Outside?
    requires client.Careful? ==> x !in InFlight(s)
    requires !client.Anything? ==> |Queue(s)| < SIZE - 1
    ensures var u := Accessed(s, x, ok, 5);
            Reaches(client, s, PutPicture(x, ok), u) && FreeRing(u) && u.enqueued == s.enqueued + [x]
  {
    var p := PutPicture(x, ok);
    var u := Accessed(s, x, ok, 5);
    forall k | 0 <= k < 5
      ensures Enabled(client, Accessed(s, x, ok, k), p[k])
      ensures Next(Accessed(s, x, ok, k), p[k]) == Accessed(s, x, ok, k + 1)
    {
      PutStep(s, x, ok, k);
    }
    FiveReach(client, s, x, ok);
    assert Accessed(s, x, ok, 0) == s;
    ReachesKeepsFree(client, s, p, u);
  }

  lemma FiveReach(client: Client, s: State, x: nat, ok: bool)
    requires FreeRing(s) && s.producer.Outside?
    requires forall k :: 0 <= k < 5 ==>
               && Enabled(client, Accessed(s, x, ok, k), PutPicture(x, ok)[k])
               && Next(Accessed(s, x, ok, k), PutPicture(x, ok)[k]) == Accessed(s, x, ok, k + 1)
    ensures Reaches(client, Accessed(s, x, ok, 0), PutPicture(x, ok), Accessed(s, x, ok, 5))
  {
    hide Enabled;
    hide Next;
    hide Accessed;
    var p, u := PutPicture(x, ok), Accessed(s, x, ok, 5);
    assert Reaches(client, u, p[5..], u);
    assert p[4..][0] == p[4] && p[4..][1..] == p[5..];
    assert Reaches(client, Accessed(s, x, ok, 4), p[4..], u);
    assert p[3..][0] == p[3] && p[3..][1..] == p[4..];
    assert Reaches(client, Accessed(s, x, ok, 3), p[3..], u);
    assert p[2..][0] == p[2] && p[2..][1..] == p[3..];
    assert Reaches(client, Accessed(s, x, ok, 2), p[2..], u);
    assert p[1..][0] == p[1] && p[1..][1..] == p[2..];
    assert Reaches(client, Accessed(s, x, ok, 1), p[1..], u);
  }

  /** From the start, any number of pictures can be queued while the consumer waits. */
  lemma {:induction false} Filled(s: State, n: nat) returns (u: State)
    requires Initial(s)
    ensures Reaches(Anything, s, PutPictures(n), u) && FreeRing(u)
    ensures u.producer.Outside? && u.consumer.Waiting? && u.dequeued == [] && u.enqueued == Numbers(n)
    decreases n
  {
    if n == 0 {
      u := s;
    } else {
      var t := Filled(s, n - 1);
      PutWorks(Anything, t, n - 1, true);
      u := Accessed(t, n - 1, true, 5);
      ReachesAppend(Anything, s, PutPictures(n - 1), t, PutPicture(n - 1, true), u);
      hide FreeRing;
      hide PutPicture;
      hide Reaches;
    }
  }

  /** Sixteen pictures queued: the indices meet, so a consumer that waits goes on waiting. */
  lemma SixteenLooksEmpty(s: State) returns (u: State)
    requires Initial(s)
    ensures Reaches(Anything, s, PutPictures(16), u)
    ensures |u.dequeued| <= |u.enqueued| && |Queue(u)| == 16 && u.readIdx == u.writeIdx
    ensures !Possible(u, SeeWork)
  {
    u := Filled(s, 16);
    hide PutPictures;
    hide Reaches;
    hide Initial;
    NumbersAre(16);
    hide Numbers;
    IndicesMeet(0, 16);
  }

  lemma WakesForLast(t: State)
    requires FreeRing(t) && t.producer.Outside? && t.consumer.Waiting? && t.dequeued == [] && t.enqueued == Numbers(17)
    ensures Possible(t, SeeWork)
    ensures var r := Next(t, SeeWork);
            Possible(r, TakeSlot) && r.dequeued == [] && r.enqueued == t.enqueued && !Storing(r) && FreeRing(r)
  {
    NumbersAre(17);
    hide Numbers;
    IndicesMeet(0, 17);
    StepKeepsFree(t, SeeWork);
  }

  lemma TakesLast(r: State)
    requires FreeRing(r) && Possible(r, TakeSlot) && r.dequeued == [] && r.enqueued == Numbers(17)
    requires r.producer.Outside?
    ensures Next(r, TakeSlot).dequeued == [16] && Next(r, TakeSlot).enqueued == r.enqueued
  {
    NumbersAre(17);
    hide Numbers;
    TakeExactly(r);
    StepDequeues(r, TakeSlot);
    assert NextPosition(r) == 16;
    hide FreeRing;
  }

  /** Seventeen pictures queued: the consumer wakes up and takes the last one first. */
  lemma SeventeenthTakenFirst(s: State) returns (u: State)
    requires Initial(s)
    ensures Reaches(Anything, s, PutPictures(17) + [SeeWork, TakeSlot], u)
    ensures u.enqueued == Numbers(17) && u.enqueued[0] == 0 && u.dequeued == [16] && !(u.dequeued <= u.enqueued)
  {
    hide PutPictures;
    hide FreeRing;
    hide Initial;
    hide Numbers;
    var t := Filled(s, 17);
    NumbersAre(17);
    WakesForLast(t);
    var r := Next(t, SeeWork);
    TakesLast(r);
    u := Next(r, TakeSlot);
    TwoReach(t, SeeWork, TakeSlot);
    ReachesAppend(Anything, s, PutPictures(17), t, [SeeWork, TakeSlot], u);
    hide Reaches;
    hide Next;
    assert u.dequeued[0] != u.enqueued[0];
  }

  lemma TwoReach(s: State, a: Step, b: Step)
    requires Enabled(Anything, s, a) && Enabled(Anything, Next(s, a), b)
    ensures Reaches(Anything, s, [a, b], Next(Next(s, a), b))
  {
    assert [a, b][1..] == [b] && [b][1..] == [];
    hide Enabled;
    hide Next;
    assert Reaches(Anything, Next(s, a), [b], Next(Next(s, a), b));
  }
}
