/**
 Picture indices of decode surfaces (src/vabackend.c:2115-2120, 2497-2512 and 3105-3107). A surface gets an
 index from a context when it is first begun there; its `context` pointer follows only when the picture ends.
 Surfaces and contexts are numbers; contexts not listed as decode contexts are encode contexts.
 */
module PictureIndex {
  import opened Words

  /**
   `pictureIdx` (-1 for none) and `context`; `openIn` is the context of an unfinished picture and `issuer` the
   context that handed out the index, which the driver does not record.
   */
  datatype Surface = Surface(idx: int, context: Option<nat>, openIn: Option<nat>, issuer: Option<nat>)

  /** `currentPictureId`, `surfaceCount`, the render target of the unfinished picture, and all indices handed out. */
  datatype Context = Context(next: nat, count: nat, target: Option<nat>, issued: seq<int>)

  datatype State = State(surfaces: map<nat, Surface>, contexts: map<nat, Context>)

  datatype Event =
    | CreateSurface(newSurface: nat)
    | CreateContext(newContext: nat, renderTargets: int)
    | Begin(ctx: nat, surface: nat)
    | End(ending: nat)
    | EncodeBegin(encoder: nat, encoded: nat)

  datatype Status = Success | MaxNumExceeded

  function SurfaceCount(renderTargets: int): nat {
    Min(if renderTargets > 0 then renderTargets else 32, 32)
  }

  /** Does beginning the surface in context `c` take a new index? */
  predicate NeedsIndex(s: Surface, c: nat) {
    s.idx == -1 || (s.context.Some? && s.context.value != c)
  }

  /** The index part of `nvBeginPicture`: an index left over from another context is dropped first. */
  function Assign(s: Surface, c: nat, k: Context): (Surface, Context, Status) {
    if !NeedsIndex(s, c) then (s, k, Success)
    else if k.next == k.count then (s.(idx := -1), k, MaxNumExceeded)
    else (s.(idx := k.next, issuer := Some(c)), k.(next := k.next + 1, issued := k.issued + [k.next]), Success)
  }

  /** What a call needs in any case: its objects exist, and an End has a picture to end. */
  predicate Possible(st: State, e: Event) {
    match e
    case CreateSurface(s) => s !in st.surfaces
    case CreateContext(c, _) =>
      c !in st.contexts && forall s <- st.surfaces :: st.surfaces[s].context != Some(c)
    case Begin(c, s) => c in st.contexts && s in st.surfaces
    case End(c) => c in st.contexts && st.contexts[c].target.Some? && st.contexts[c].target.value in st.surfaces
    case EncodeBegin(c, s) => c !in st.contexts && s in st.surfaces
  }

  /** Pictures are properly paired: one unfinished picture per context, and no surface in two of them. */
  predicate Enabled(st: State, e: Event) {
    && Possible(st, e)
    && (e.Begin? ==> st.contexts[e.ctx].target.None? && st.surfaces[e.surface].openIn.None?)
    && (e.EncodeBegin? ==> st.surfaces[e.encoded].openIn.None?)
  }

  function BeginPicture(st: State, c: nat, s: nat): State
    requires Possible(st, Begin(c, s))
  {
    var (x, k, status) := Assign(st.surfaces[s], c, st.contexts[c]);
    if status.Success? then
      State(st.surfaces[s := x.(openIn := Some(c))], st.contexts[c := k.(target := Some(s))])
    else State(st.surfaces[s := x], st.contexts)
  }

  function Next(st: State, e: Event): State
    requires Possible(st, e)
  {
    match e
    case CreateSurface(s) => st.(surfaces := st.surfaces[s := Surface(-1, None, None, None)])
    case CreateContext(c, n) => st.(contexts := st.contexts[c := Context(0, SurfaceCount(n), None, [])])
    case Begin(c, s) => BeginPicture(st, c, s)
    case End(c) =>
      var s := st.contexts[c].target.value;
      State(st.surfaces[s := st.surfaces[s].(context := Some(c), openIn := None)],
            st.contexts[c := st.contexts[c].(target := None)])
    case EncodeBegin(c, s) => st.(surfaces := st.surfaces[s := st.surfaces[s].(context := Some(c))])
  }

  predicate Reaches(st: State, events: seq<Event>, st': State)
    decreases |events|
  {
    if events == [] then st' == st
    else Enabled(st, events[0]) && Reaches(Next(st, events[0]), events[1..], st')
  }

  /** The context whose decoder the surface's index belongs to. */
  function Owner(s: Surface): Option<nat> {
    if s.openIn.Some? then s.openIn else s.context
  }

  /** A context has handed out 0, 1, ..., `next` - 1, each once. */
  predicate ContextInv(k: Context) {
    && k.next <= k.count <= 32 && |k.issued| == k.next
    && forall i :: 0 <= i < |k.issued| ==> k.issued[i] == i
  }

  /** A surface's index is one that its owner has handed out. */
  predicate SurfaceInv(st: State, s: nat)
    requires s in st.surfaces
  {
    var x := st.surfaces[s];
    && x.idx >= -1
    && (x.idx != -1 ==> Owner(x).Some?)
    && (x.openIn.Some? ==>
          x.openIn.value in st.contexts && st.contexts[x.openIn.value].target == Some(s) && x.idx != -1)
    && (x.idx != -1 && Owner(x).value in st.contexts ==>
          x.idx < st.contexts[Owner(x).value].next && x.issuer == Owner(x))
  }

  /** Two surfaces of one decode context never share an index. */
  predicate Apart(st: State, s: nat, t: nat)
    requires s in st.surfaces && t in st.surfaces
  {
    s != t && st.surfaces[s].idx != -1 && Owner(st.surfaces[s]) == Owner(st.surfaces[t])
    && Owner(st.surfaces[s]).Some? && Owner(st.surfaces[s]).value in st.contexts ==>
      st.surfaces[s].idx != st.surfaces[t].idx
  }

  /** The unfinished picture of a context is known to its surface. */
  predicate TargetInv(st: State, c: nat)
    requires c in st.contexts
  {
    var t := st.contexts[c].target;
    t.Some? ==> t.value in st.surfaces && st.surfaces[t.value].openIn == Some(c)
  }

  predicate Inv(st: State) {
    && (forall c <- st.contexts :: ContextInv(st.contexts[c]) && TargetInv(st, c))
    && (forall s <- st.surfaces :: SurfaceInv(st, s))
    && (forall s, t :: s in st.surfaces && t in st.surfaces ==> Apart(st, s, t))
  }

  lemma BeginKeepsSurface(st: State, c: nat, s: nat, t: nat)
    requires Inv(st) && Enabled(st, Begin(c, s)) && t in st.surfaces
    ensures SurfaceInv(BeginPicture(st, c, s), t)
  {
    assert SurfaceInv(st, s) && SurfaceInv(st, t) && ContextInv(st.contexts[c]);
    hide ContextInv;
  }

  lemma BeginKeepsApart(st: State, c: nat, s: nat, t: nat, u: nat)
    requires Inv(st) && Enabled(st, Begin(c, s)) && t in st.surfaces && u in st.surfaces
    ensures Apart(BeginPicture(st, c, s), t, u)
  {
    assert Apart(st, t, u) && Apart(st, u, t);
    assert SurfaceInv(st, s) && SurfaceInv(st, t) && SurfaceInv(st, u);
    hide Inv;
  }

  lemma BeginKeepsContext(st: State, c: nat, s: nat, d: nat)
    requires Inv(st) && Enabled(st, Begin(c, s)) && d in st.contexts
    ensures var st' := BeginPicture(st, c, s); ContextInv(st'.contexts[d]) && TargetInv(st', d)
  {
    assert ContextInv(st.contexts[c]) && ContextInv(st.contexts[d]) && TargetInv(st, d);
    hide Inv;
  }

  lemma BeginKeepsInv(st: State, c: nat, s: nat)
    requires Inv(st) && Enabled(st, Begin(c, s))
    ensures Inv(BeginPicture(st, c, s))
  {
    var st' := BeginPicture(st, c, s);
    assert st'.surfaces.Keys == st.surfaces.Keys && st'.contexts.Keys == st.contexts.Keys;
    hide BeginPicture;
    hide SurfaceInv;
    hide Apart;
    hide ContextInv;
    hide TargetInv;
    forall d | d in st'.contexts ensures ContextInv(st'.contexts[d]) && TargetInv(st', d) {
      BeginKeepsContext(st, c, s, d);
    }
    forall t | t in st'.surfaces ensures SurfaceInv(st', t) {
      BeginKeepsSurface(st, c, s, t);
    }
    forall t, u | t in st'.surfaces && u in st'.surfaces ensures Apart(st', t, u) {
      BeginKeepsApart(st, c, s, t, u);
    }
  }

  lemma EndKeepsInv(st: State, c: nat)
    requires Inv(st) && Enabled(st, End(c))
    ensures Inv(Next(st, End(c)))
  {
    var st' := Next(st, End(c));
    forall t | t in st'.surfaces ensures SurfaceInv(st', t) {
      assert SurfaceInv(st, t);
    }
    forall t, u | t in st'.surfaces && u in st'.surfaces ensures Apart(st', t, u) {
      assert Apart(st, t, u);
    }
  }

  lemma StepKeepsInv(st: State, e: Event)
    requires Inv(st) && Enabled(st, e)
    ensures Inv(Next(st, e))
  {
    match e
    case Begin(c, s) => BeginKeepsInv(st, c, s);
    case End(c) => EndKeepsInv(st, c);
    case CreateSurface(_) => OtherKeepsInv(st, e);
    case CreateContext(_, _) => OtherKeepsInv(st, e);
    case EncodeBegin(_, _) => OtherKeepsInv(st, e);
  }

  lemma OtherKeepsInv(st: State, e: Event)
    requires Inv(st) && Enabled(st, e) && !e.Begin? && !e.End?
    ensures Inv(Next(st, e))
  {
    var st' := Next(st, e);
    forall t | t in st'.surfaces ensures SurfaceInv(st', t) {
      if t in st.surfaces {
        assert SurfaceInv(st, t);
      }
    }
    forall t, u | t in st'.surfaces && u in st'.surfaces ensures Apart(st', t, u) {
      if t in st.surfaces && u in st.surfaces {
        assert Apart(st, t, u);
      }
    }
  }

  lemma {:induction false} ReachesKeepsInv(st: State, events: seq<Event>, st': State)
    requires Inv(st) && Reaches(st, events, st')
    ensures Inv(st')
    decreases |events|
  {
    if events != [] {
      hide Next;
      hide Enabled;
      StepKeepsInv(st, events[0]);
      ReachesKeepsInv(Next(st, events[0]), events[1..], st');
    }
  }

  /**
   Over every run of properly paired pictures on any number of contexts: surfaces that belong to one decode
   context have pairwise distinct indices below its count of at most 32, and it never handed out an index twice.
   */
  lemma IndicesDistinct(events: seq<Event>, st: State, s: nat, t: nat, c: nat)
    requires Reaches(State(map[], map[]), events, st)
    requires c in st.contexts && s in st.surfaces && t in st.surfaces && s != t
    requires Owner(st.surfaces[s]) == Owner(st.surfaces[t]) == Some(c)
    requires st.surfaces[s].idx != -1 && st.surfaces[t].idx != -1
    ensures 0 <= st.surfaces[s].idx < st.contexts[c].count <= 32
    ensures st.surfaces[s].idx != st.surfaces[t].idx
    ensures forall i, j :: 0 <= i < j < |st.contexts[c].issued| ==> st.contexts[c].issued[i] != st.contexts[c].issued[j]
  {
    ReachesKeepsInv(State(map[], map[]), events, st);
    assert SurfaceInv(st, s) && Apart(st, s, t) && ContextInv(st.contexts[c]);
  }

  // ---------------------------------------------------------------- pictures that need not be paired

  /** The runs without pairing. */
  predicate Leads(st: State, events: seq<Event>, st': State)
    decreases |events|
  {
    if events == [] then st' == st
    else Possible(st, events[0]) && Leads(Next(st, events[0]), events[1..], st')
  }

  predicate ContextsInv(st: State) {
    forall c <- st.contexts :: ContextInv(st.contexts[c])
  }

  lemma StepKeepsContexts(st: State, e: Event)
    requires ContextsInv(st) && Possible(st, e)
    ensures ContextsInv(Next(st, e))
  {
    var st' := Next(st, e);
    forall c | c in st'.contexts ensures ContextInv(st'.contexts[c]) {
      if c in st.contexts {
        assert ContextInv(st.contexts[c]);
      }
    }
  }

  lemma {:induction false} LeadsKeepsContexts(st: State, events: seq<Event>, st': State)
    requires ContextsInv(st) && Leads(st, events, st')
    ensures ContextsInv(st')
    decreases |events|
  {
    if events != [] {
      hide Next;
      hide Possible;
      StepKeepsContexts(st, events[0]);
      LeadsKeepsContexts(Next(st, events[0]), events[1..], st');
    }
  }

  /** Over every run, paired or not, no context hands out an index twice, nor one at or above its count. */
  lemma NeverIssuedTwice(events: seq<Event>, st: State, c: nat)
    requires Leads(State(map[], map[]), events, st) && c in st.contexts
    ensures var k := st.contexts[c];
            && k.count <= 32
            && (forall i :: 0 <= i < |k.issued| ==> 0 <= k.issued[i] < k.count)
            && (forall i, j :: 0 <= i < j < |k.issued| ==> k.issued[i] != k.issued[j])
  {
    LeadsKeepsContexts(State(map[], map[]), events, st);
    assert ContextInv(st.contexts[c]);
  }

  /**
   Over every run, paired or not, Begin reports exhaustion exactly when it needs an index and the context has handed
   out as many as its surface count.
   */
  lemma ExhaustionExact(events: seq<Event>, st: State, s: nat, c: nat)
    requires Leads(State(map[], map[]), events, st) && Possible(st, Begin(c, s))
    ensures Assign(st.surfaces[s], c, st.contexts[c]).2.MaxNumExceeded?
       <==> NeedsIndex(st.surfaces[s], c) && |st.contexts[c].issued| == st.contexts[c].count
  {
    LeadsKeepsContexts(State(map[], map[]), events, st);
    assert ContextInv(st.contexts[c]);
  }

  lemma StepKeepsCount(st: State, e: Event, c: nat)
    requires Possible(st, e) && c in st.contexts
    ensures c in Next(st, e).contexts && Next(st, e).contexts[c].count == st.contexts[c].count
  {
  }

  lemma {:induction false} CountStays(st: State, events: seq<Event>, st': State, c: nat)
    requires Leads(st, events, st') && c in st.contexts
    ensures c in st'.contexts && st'.contexts[c].count == st.contexts[c].count
    decreases |events|
  {
    if events != [] {
      hide Next;
      hide Possible;
      StepKeepsCount(st, events[0], c);
      CountStays(Next(st, events[0]), events[1..], st', c);
    }
  }

  lemma CreationSetsCount(st: State, c: nat, n: int)
    requires Possible(st, CreateContext(c, n))
    ensures c in Next(st, CreateContext(c, n)).contexts
    ensures Next(st, CreateContext(c, n)).contexts[c].count == if 1 <= n <= 32 then n else 32
  {
  }

  lemma {:induction false} CreatedCount(st: State, events: seq<Event>, st': State, c: nat, n: int)
    requires Leads(st, events, st') && CreateContext(c, n) in events
    ensures c in st'.contexts && st'.contexts[c].count == if 1 <= n <= 32 then n else 32
    decreases |events|
  {
    var rest := events[1..];
    if events[0] == CreateContext(c, n) {
      CreationSetsCount(st, c, n);
      CountStays(Next(st, events[0]), rest, st', c);
    } else {
      assert CreateContext(c, n) in rest;
      hide Next;
      hide Possible;
      CreatedCount(Next(st, events[0]), rest, st', c, n);
    }
  }

  /**
   A context created with n render targets hands out 0, 1, 2, ... up to n of them for n from 1 to 32, and up to 32
   otherwise: over every run, a Begin that needs an index gets the next one, and is refused exactly after that many; a
   refused surface is left without an index.
   */
  lemma CreationFixesIndices(events: seq<Event>, st: State, c: nat, n: int, s: nat)
    requires Leads(State(map[], map[]), events, st) && CreateContext(c, n) in events && s in st.surfaces
    ensures c in st.contexts && Possible(st, Begin(c, s))
    ensures var limit := if 1 <= n <= 32 then n else 32;
            var x, issued := st.surfaces[s], st.contexts[c].issued;
            var needs := x.idx == -1 || (x.context.Some? && x.context != Some(c));
            var after := BeginPicture(st, c, s);
            && |issued| <= limit && (forall i :: 0 <= i < |issued| ==> issued[i] == i)
            && (Assign(x, c, st.contexts[c]).2.MaxNumExceeded? <==> needs && |issued| == limit)
            && (needs ==> after.surfaces[s].idx == if |issued| < limit then |issued| else -1)
            && (!needs ==> after.surfaces[s].idx == x.idx)
  {
    CreatedCount(State(map[], map[]), events, st, c, n);
    LeadsKeepsContexts(State(map[], map[]), events, st);
    assert ContextInv(st.contexts[c]);
    hide Leads;
    hide ContextsInv;
  }

  /** Sixteen render targets, two fresh surfaces: the second picture gets index 1. */
  lemma SecondSurfaceGetsOne() returns (st: State)
    ensures Reaches(State(map[], map[]), [CreateSurface(0), CreateSurface(1), CreateContext(20, 16),
                                          Begin(20, 0), End(20), Begin(20, 1)], st)
    ensures 0 in st.surfaces && st.surfaces[0].idx == 0 && 1 in st.surfaces && st.surfaces[1].idx == 1
  {
    var events := [CreateSurface(0), CreateSurface(1), CreateContext(20, 16), Begin(20, 0), End(20), Begin(20, 1)];
    var s0 := State(map[], map[]);
    var s3 := TwoOfSixteen();
    var s6 := TwoPictures(s3);
    st := s6;
    hide Next;
    hide Enabled;
    ReachesSix(s0, events, st);
  }

  /** Two fresh surfaces and a context of sixteen render targets. */
  lemma TwoOfSixteen() returns (st: State)
    ensures var s0 := State(map[], map[]);
            && Enabled(s0, CreateSurface(0)) && Enabled(Next(s0, CreateSurface(0)), CreateSurface(1))
            && Enabled(Next(Next(s0, CreateSurface(0)), CreateSurface(1)), CreateContext(20, 16))
            && st == Next(Next(Next(s0, CreateSurface(0)), CreateSurface(1)), CreateContext(20, 16))
    ensures var x := Surface(-1, None, None, None);
            st == State(map[0 := x, 1 := x], map[20 := Context(0, 16, None, [])])
  {
    var x := Surface(-1, None, None, None);
    st := State(map[0 := x, 1 := x], map[20 := Context(0, 16, None, [])]);
  }

  lemma TwoPictures(s: State) returns (st: State)
    requires var x := Surface(-1, None, None, None);
             s == State(map[0 := x, 1 := x], map[20 := Context(0, 16, None, [])])
    ensures Enabled(s, Begin(20, 0)) && Enabled(Next(s, Begin(20, 0)), End(20))
    ensures Enabled(Next(Next(s, Begin(20, 0)), End(20)), Begin(20, 1))
    ensures st == Next(Next(Next(s, Begin(20, 0)), End(20)), Begin(20, 1))
    ensures 0 in st.surfaces && st.surfaces[0].idx == 0 && 1 in st.surfaces && st.surfaces[1].idx == 1
  {
    st := Next(Next(Next(s, Begin(20, 0)), End(20)), Begin(20, 1));
  }

  lemma ReachesSix(s: State, e: seq<Event>, st: State)
    requires |e| == 6 && Enabled(s, e[0]) && Enabled(Next(s, e[0]), e[1]) && Enabled(Next(Next(s, e[0]), e[1]), e[2])
    requires var t := Next(Next(Next(s, e[0]), e[1]), e[2]);
             && Enabled(t, e[3]) && Enabled(Next(t, e[3]), e[4]) && Enabled(Next(Next(t, e[3]), e[4]), e[5])
             && st == Next(Next(Next(t, e[3]), e[4]), e[5])
    ensures Reaches(s, e, st)
  {
    var s1 := Next(s, e[0]);
    var s2 := Next(s1, e[1]);
    var t := Next(s2, e[2]);
    var s4 := Next(t, e[3]);
    var s5 := Next(s4, e[4]);
    hide Next;
    hide Enabled;
    assert Reaches(st, e[6..], st);
    assert e[5..][0] == e[5] && e[5..][1..] == e[6..];
    assert Reaches(s5, e[5..], st);
    assert e[4..][0] == e[4] && e[4..][1..] == e[5..];
    assert Reaches(s4, e[4..], st);
    assert e[3..][0] == e[3] && e[3..][1..] == e[4..];
    assert Reaches(t, e[3..], st);
    assert e[2..][0] == e[2] && e[2..][1..] == e[3..];
    assert Reaches(s2, e[2..], st);
    assert e[1..][0] == e[1] && e[1..][1..] == e[2..];
    assert Reaches(s1, e[1..], st);
  }

  /**
   An accepted Begin, paired or not, after any paired run: the surface goes into the context
   with an index that this context handed out, if and only if it is not in an unfinished picture of another
   context, or was last ended in another one.
   */
  lemma BeginIndexIsOwn(events: seq<Event>, st: State, c: nat, s: nat)
    requires Reaches(State(map[], map[]), events, st) && Possible(st, Begin(c, s))
    requires Assign(st.surfaces[s], c, st.contexts[c]).2.Success?
    ensures var x := st.surfaces[s];
            BeginPicture(st, c, s).surfaces[s].issuer == Some(c) <==>
            || x.openIn.None? || x.openIn == Some(c)
            || (x.context.Some? && x.context.value != c)
  {
    ReachesKeepsInv(State(map[], map[]), events, st);
    assert SurfaceInv(st, s);
  }

  /** Encoding a surface costs its index: the next Begin in any decode context hands out a new one, or refuses. */
  lemma EncodingCostsIndex(st: State, e: nat, s: nat, d: nat)
    requires Possible(st, EncodeBegin(e, s)) && d in st.contexts
    ensures var after := BeginPicture(Next(st, EncodeBegin(e, s)), d, s);
            var k := st.contexts[d];
            && after.surfaces[s].idx == (if k.next == k.count then -1 else k.next)
            && after.contexts[d].issued == k.issued + (if k.next == k.count then [] else [k.next])
  {
  }

  /** Two contexts of one surface each, and two surfaces. */
  function TwoAndTwo(): State {
    var k := Context(0, 1, None, []);
    var x := Surface(-1, None, None, None);
    State(map[10 := x, 11 := x], map[20 := k, 21 := k])
  }

  lemma TwoAndTwoReached()
    ensures Reaches(State(map[], map[]),
                    [CreateSurface(10), CreateSurface(11), CreateContext(20, 1), CreateContext(21, 1)], TwoAndTwo())
  {
    var events := [CreateSurface(10), CreateSurface(11), CreateContext(20, 1), CreateContext(21, 1)];
    var s1 := Next(State(map[], map[]), events[0]);
    var s2 := Next(s1, events[1]);
    var s3 := Next(s2, events[2]);
    assert Next(s3, events[3]) == TwoAndTwo();
    assert Reaches(s3, events[3..], TwoAndTwo());
    assert events[2..][1..] == events[3..];
    assert Reaches(s2, events[2..], TwoAndTwo());
    assert events[1..][1..] == events[2..];
    assert Reaches(s1, events[1..], TwoAndTwo());
  }

  lemma LeadsStep(st: State, e: Event, events: seq<Event>, st': State)
    requires Possible(st, e) && Leads(Next(st, e), events, st')
    ensures Leads(st, [e] + events, st')
  {
    assert ([e] + events)[1..] == events;
  }

  /**
   Surface 10 is begun in context 20, then in 21 without an End, and ended there; surface 11 follows in 21. Both
   then belong to context 21 with index 0.
   */
  lemma UnpairedBeginSharesIndex()
    ensures exists st' ::
      && Leads(TwoAndTwo(), [Begin(20, 10), Begin(21, 10), End(21), Begin(21, 11)], st')
      && Owner(st'.surfaces[10]) == Owner(st'.surfaces[11]) == Some(21)
      && st'.surfaces[10].idx == st'.surfaces[11].idx == 0
  {
    var s0 := TwoAndTwo();
    var s1 := Next(s0, Begin(20, 10));
    assert s1.surfaces[10] == Surface(0, None, Some(20), Some(20)) && s1.contexts[21] == Context(0, 1, None, []);
    var s2 := Next(s1, Begin(21, 10));
    assert s2.surfaces[10] == Surface(0, None, Some(21), Some(20));
    var s3 := Next(s2, End(21));
    var s4 := Next(s3, Begin(21, 11));
    LeadsStep(s3, Begin(21, 11), [], s4);
    LeadsStep(s2, End(21), [Begin(21, 11)], s4);
    assert [End(21)] + [Begin(21, 11)] == [End(21), Begin(21, 11)];
    LeadsStep(s1, Begin(21, 10), [End(21), Begin(21, 11)], s4);
    assert [Begin(21, 10)] + [End(21), Begin(21, 11)] == [Begin(21, 10), End(21), Begin(21, 11)];
    LeadsStep(s0, Begin(20, 10), [Begin(21, 10), End(21), Begin(21, 11)], s4);
    assert [Begin(20, 10)] + [Begin(21, 10), End(21), Begin(21, 11)]
        == [Begin(20, 10), Begin(21, 10), End(21), Begin(21, 11)];
  }
}
