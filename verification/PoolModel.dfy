/**
 * The pool of backing images (src/export-buf.c:325-383, 516-561): a surface that has to be exported
 * takes a free image of its size or a new one, and gives it back when it is detached. Images are
 * named by their place in the pool's list, which only `egl_destroyAllBackingImage` shortens.
 */
module PoolModel {

  import opened Words

  type Surface = nat

  datatype Size = Size(width: U32, height: U32)

  datatype Image = Image(size: Size, surface: Option<Surface>)

  /** `drv->images` and the `backingImage` field of every surface that has one. */
  datatype Pool = Pool(images: seq<Image>, backing: map<Surface, nat>)

  const EMPTY := Pool([], map[])

  predicate IsFree(img: Image, size: Size) {
    img.surface.None? && img.size == size
  }

  /** First free image of the size, or the length (`findFreeBackingImage`). */
  function FindFree(images: seq<Image>, size: Size): (i: nat)
    ensures i <= |images|
    ensures i < |images| ==> IsFree(images[i], size)
    ensures forall k :: 0 <= k < i ==> !IsFree(images[k], size)
  {
    if images == [] || IsFree(images[0], size) then 0 else 1 + FindFree(images[1..], size)
  }

  /** First image that names the surface, or the length (the loop of `egl_detachBackingImageFromSurface`). */
  function FindOwned(images: seq<Image>, s: Surface): (i: nat)
    ensures i <= |images|
    ensures i < |images| ==> images[i].surface == Some(s)
    ensures forall k :: 0 <= k < i ==> images[k].surface != Some(s)
  {
    if images == [] || images[0].surface == Some(s) then 0 else 1 + FindOwned(images[1..], s)
  }

  /** Whether `egl_realiseSurface` answers true; `granted` is the outcome of a new allocation. */
  predicate Realises(p: Pool, s: Surface, size: Size, granted: bool) {
    s in p.backing || FindFree(p.images, size) < |p.images| || granted
  }

  function Realise(p: Pool, s: Surface, size: Size, granted: bool): Pool {
    var i := FindFree(p.images, size);
    var img := Image(size, Some(s));
    if s in p.backing then p
    else if i < |p.images| then Pool(p.images[i := img], p.backing[s := i])
    else if granted then Pool(p.images + [img], p.backing[s := i])
    else p
  }

  function Detach(p: Pool, s: Surface): Pool {
    var i := FindOwned(p.images, s);
    if s !in p.backing then p
    else if i < |p.images| then Pool(p.images[i := p.images[i].(surface := None)], p.backing - {s})
    else p.(backing := p.backing - {s})
  }

  /** Surface-to-image and image-to-surface links undo each other. */
  ghost predicate Linked(p: Pool) {
    && (forall s :: s in p.backing ==> p.backing[s] < |p.images| && p.images[p.backing[s]].surface == Some(s))
    && (forall i :: 0 <= i < |p.images| && p.images[i].surface.Some? ==>
      p.images[i].surface.value in p.backing && p.backing[p.images[i].surface.value] == i)
  }

  // ----- runs ----------------------------------------------------------------------------

  datatype Event =
    | RealiseSurface(surface: Surface, size: Size, granted: bool)
    | DetachSurface(surface: Surface)
    | DestroyAll

  function Step(p: Pool, e: Event): Pool {
    match e
    case RealiseSurface(s, size, granted) => Realise(p, s, size, granted)
    case DetachSurface(s) => Detach(p, s)
    case DestroyAll => EMPTY
  }

  function Run(events: seq<Event>): Pool {
    if events == [] then EMPTY else Step(Run(events[..|events| - 1]), events[|events| - 1])
  }

  /** The reference: which surfaces are attached, each with its own size. */
  function Attached(events: seq<Event>): map<Surface, Size> {
    if events == [] then map[]
    else
      var front := events[..|events| - 1];
      var before := Attached(front);
      match events[|events| - 1]
      case RealiseSurface(s, size, granted) =>
        if s !in before && Realises(Run(front), s, size, granted) then before[s := size] else before
      case DetachSurface(s) => before - {s}
      case DestroyAll => map[]
  }

  function SurfacesOf(attached: map<Surface, Size>, size: Size): set<Surface> {
    set s | s in attached && attached[s] == size
  }

  /** Most surfaces of a size that were attached at one time since the pool was last emptied. */
  function Peak(events: seq<Event>, size: Size): int {
    if events == [] || events[|events| - 1].DestroyAll? then 0
    else Max(Peak(events[..|events| - 1], size), |SurfacesOf(Attached(events), size)|)
  }

  function Pooled(images: seq<Image>, size: Size): nat {
    if images == [] then 0
    else Pooled(images[..|images| - 1], size) + if images[|images| - 1].size == size then 1 else 0
  }

  function Owned(images: seq<Image>, size: Size): nat {
    if images == [] then 0
    else
      var img := images[|images| - 1];
      Owned(images[..|images| - 1], size) + if img.size == size && img.surface.Some? then 1 else 0
  }

  /** Every attached surface has an image, of its own size. */
  ghost predicate Fits(p: Pool, attached: map<Surface, Size>) {
    && attached.Keys == p.backing.Keys
    && forall s :: s in p.backing ==>
      p.backing[s] < |p.images| && s in attached && p.images[p.backing[s]].size == attached[s]
  }

  lemma RealiseKeepsLinks(p: Pool, s: Surface, size: Size, granted: bool)
    requires Linked(p)
    ensures Linked(Realise(p, s, size, granted))
  {
    var q := Realise(p, s, size, granted);
    var i := FindFree(p.images, size);
    if s !in p.backing && i < |p.images| {
      assert forall t :: t in p.backing ==> p.backing[t] != i;
    }
  }

  /** The search of a detach ends at the image the surface points to. */
  lemma OwnedIsBacking(p: Pool, s: Surface)
    requires Linked(p) && s in p.backing
    ensures FindOwned(p.images, s) == p.backing[s]
  {
    var i := FindOwned(p.images, s);
    assert p.images[p.backing[s]].surface == Some(s);
    assert p.images[i].surface.value == s;
  }

  lemma DetachKeepsLinks(p: Pool, s: Surface)
    requires Linked(p)
    ensures Linked(Detach(p, s))
  {
    if s in p.backing {
      OwnedIsBacking(p, s);
      var i := p.backing[s];
      assert forall t :: t in p.backing && t != s ==> p.backing[t] != i;
    }
  }

  /** Destroying the last image and clearing its surface's link. */
  function DropLast(p: Pool): Pool
    requires p.images != []
  {
    var n := |p.images| - 1;
    var img := p.images[n];
    Pool(p.images[..n] + p.images[n + 1..],
         if img.surface.Some? then p.backing - {img.surface.value} else p.backing)
  }

  lemma DropLastKeepsLinks(p: Pool)
    requires Linked(p) && p.images != []
    ensures Linked(DropLast(p)) && |DropLast(p).images| == |p.images| - 1
  {
    assert DropLast(p).images == p.images[..|p.images| - 1];
  }

  lemma NoImagesNoLinks(p: Pool)
    requires Linked(p) && p.images == []
    ensures p == EMPTY
  {
  }

  /** In every reachable state the links are mutual inverses. */
  lemma {:induction false} LinksAreInverses(events: seq<Event>)
    ensures Linked(Run(events))
  {
    if events != [] {
      var p := Run(events[..|events| - 1]);
      LinksAreInverses(events[..|events| - 1]);
      match events[|events| - 1]
      case RealiseSurface(s, size, granted) => RealiseKeepsLinks(p, s, size, granted);
      case DetachSurface(s) => DetachKeepsLinks(p, s);
      case DestroyAll =>
    }
  }

  lemma RealiseFits(p: Pool, m: map<Surface, Size>, s: Surface, size: Size, granted: bool)
    requires Linked(p) && Fits(p, m)
    ensures Fits(Realise(p, s, size, granted),
                 if s !in m && Realises(p, s, size, granted) then m[s := size] else m)
  {
    var i := FindFree(p.images, size);
    if s !in p.backing && i < |p.images| {
      assert forall t :: t in p.backing ==> p.backing[t] != i;
    }
  }

  lemma DetachFits(p: Pool, m: map<Surface, Size>, s: Surface)
    requires Linked(p) && Fits(p, m)
    ensures Fits(Detach(p, s), m - {s})
  {
    if s in p.backing {
      OwnedIsBacking(p, s);
    }
  }

  /** Exactly the surfaces whose last realise succeeded and that were not detached since have an image. */
  lemma {:induction false} AttachedExact(events: seq<Event>)
    ensures Fits(Run(events), Attached(events))
  {
    if events != [] {
      var front := events[..|events| - 1];
      var p, m := Run(front), Attached(front);
      LinksAreInverses(front);
      AttachedExact(front);
      match events[|events| - 1]
      case RealiseSurface(s, size, granted) => RealiseFits(p, m, s, size, granted);
      case DetachSurface(s) => DetachFits(p, m, s);
      case DestroyAll =>
    }
  }

  // ----- counting ------------------------------------------------------------------------

  function One(b: bool): nat {
    if b then 1 else 0
  }

  lemma {:induction false} CountsAfterUpdate(images: seq<Image>, i: nat, img: Image, size: Size)
    requires i < |images| && img.size == images[i].size
    ensures Pooled(images[i := img], size) == Pooled(images, size)
    ensures Owned(images[i := img], size) ==
      Owned(images, size) - One(img.size == size && images[i].surface.Some?)
        + One(img.size == size && img.surface.Some?)
  {
    var n := |images| - 1;
    var next := images[i := img];
    if i == n {
      assert next[..n] == images[..n];
    } else {
      CountsAfterUpdate(images[..n], i, img, size);
      assert next[..n] == images[..n][i := img];
    }
  }

  lemma CountsAfterAppend(images: seq<Image>, img: Image, size: Size)
    ensures Pooled(images + [img], size) == Pooled(images, size) + One(img.size == size)
    ensures Owned(images + [img], size) == Owned(images, size) + One(img.size == size && img.surface.Some?)
  {
    assert (images + [img])[..|images|] == images;
  }

  lemma {:induction false} OwnedAtMostPooled(images: seq<Image>, size: Size)
    ensures Owned(images, size) <= Pooled(images, size)
    ensures (forall i :: 0 <= i < |images| ==> !IsFree(images[i], size)) ==> Owned(images, size) == Pooled(images, size)
  {
    if images != [] {
      OwnedAtMostPooled(images[..|images| - 1], size);
    }
  }

  lemma {:induction false} FreeMeansFewer(images: seq<Image>, i: nat, size: Size)
    requires i < |images| && IsFree(images[i], size)
    ensures Owned(images, size) < Pooled(images, size)
  {
    var n := |images| - 1;
    OwnedAtMostPooled(images[..n], size);
    if i < n {
      FreeMeansFewer(images[..n], i, size);
    }
  }

  lemma AttachCounts(m: map<Surface, Size>, s: Surface, z: Size, size: Size)
    requires s !in m
    ensures |SurfacesOf(m[s := z], size)| == |SurfacesOf(m, size)| + One(z == size)
  {
    if z == size {
      assert SurfacesOf(m[s := z], size) == SurfacesOf(m, size) + {s};
    } else {
      assert SurfacesOf(m[s := z], size) == SurfacesOf(m, size);
    }
  }

  lemma DetachCounts(m: map<Surface, Size>, s: Surface, size: Size)
    requires s in m
    ensures |SurfacesOf(m - {s}, size)| == |SurfacesOf(m, size)| - One(m[s] == size)
  {
    if m[s] == size {
      assert SurfacesOf(m, size) == SurfacesOf(m - {s}, size) + {s};
    } else {
      assert SurfacesOf(m - {s}, size) == SurfacesOf(m, size);
    }
  }

  /** What a realise does to the counts of one size. */
  lemma RealiseCounts(p: Pool, m: map<Surface, Size>, s: Surface, z: Size, granted: bool, size: Size)
    requires Fits(p, m)
    ensures
      var q := Realise(p, s, z, granted);
      var n := if s !in m && Realises(p, s, z, granted) then m[s := z] else m;
      var more := s !in m && z == size && Realises(p, s, z, granted);
      && Owned(q.images, size) == Owned(p.images, size) + One(more)
      && |SurfacesOf(n, size)| == |SurfacesOf(m, size)| + One(more)
      && (Pooled(q.images, size) == Pooled(p.images, size) ||
        (&& more && Owned(p.images, size) == Pooled(p.images, size)
         && Pooled(q.images, size) == Pooled(p.images, size) + 1))
  {
    var img := Image(z, Some(s));
    var i := FindFree(p.images, z);
    hide SurfacesOf;
    if s !in m {
      AttachCounts(m, s, z, size);
      if i < |p.images| {
        CountsAfterUpdate(p.images, i, img, size);
      } else if granted {
        CountsAfterAppend(p.images, img, size);
        OwnedAtMostPooled(p.images, z);
      }
    }
  }

  lemma DetachPoolCounts(p: Pool, m: map<Surface, Size>, s: Surface, size: Size)
    requires Linked(p) && Fits(p, m)
    ensures
      var less := s in m && m[s] == size;
      && Owned(Detach(p, s).images, size) == Owned(p.images, size) - One(less)
      && |SurfacesOf(m - {s}, size)| == |SurfacesOf(m, size)| - One(less)
      && Pooled(Detach(p, s).images, size) == Pooled(p.images, size)
  {
    hide SurfacesOf;
    if s in m {
      OwnedIsBacking(p, s);
      var i := p.backing[s];
      DetachCounts(m, s, size);
      CountsAfterUpdate(p.images, i, p.images[i].(surface := None), size);
    } else {
      assert m - {s} == m;
    }
  }

  /**
   * Over every run, the pool holds of each size as many images as surfaces of that size were attached
   * at the busiest moment, and as many of them are in use as surfaces of that size are attached now.
   */
  lemma {:induction false} PoolIsPeak(events: seq<Event>, size: Size)
    ensures Pooled(Run(events).images, size) == Peak(events, size)
    ensures Owned(Run(events).images, size) == |SurfacesOf(Attached(events), size)|
  {
    if events != [] {
      var front := events[..|events| - 1];
      var p, m := Run(front), Attached(front);
      LinksAreInverses(front);
      AttachedExact(front);
      PoolIsPeak(front, size);
      hide SurfacesOf;
      OwnedAtMostPooled(Run(events).images, size);
      match events[|events| - 1]
      case RealiseSurface(s, z, granted) => RealiseCounts(p, m, s, z, granted, size);
      case DetachSurface(s) => DetachPoolCounts(p, m, s, size);
      case DestroyAll =>
    }
  }

  /** A realise fails exactly when the surface has no image, none of its size is free and none can be made. */
  lemma RealiseFailsExactly(events: seq<Event>, s: Surface, size: Size, granted: bool)
    ensures !Realises(Run(events), s, size, granted) <==>
      !granted && s !in Attached(events) && |SurfacesOf(Attached(events), size)| == Peak(events, size)
    ensures !Realises(Run(events), s, size, granted) ==> Realise(Run(events), s, size, granted) == Run(events)
    ensures Realises(Run(events), s, size, granted) <==> s in Realise(Run(events), s, size, granted).backing
  {
    var p := Run(events);
    var i := FindFree(p.images, size);
    AttachedExact(events);
    PoolIsPeak(events, size);
    OwnedAtMostPooled(p.images, size);
    if i < |p.images| {
      FreeMeansFewer(p.images, i, size);
    }
    hide SurfacesOf;
    hide Attached;
    hide Run;
  }
}
