/** The pool kept in place, as `NVDriver.images` and the surfaces' fields are. */
module ImagePool {

  import opened Words
  import opened PoolModel

  class BackingImages {
    var images: seq<Image>
    var backing: map<Surface, nat>

    ghost predicate Valid()
      reads this
    {
      Linked(View())
    }

    ghost function View(): Pool
      reads this
    {
      Pool(images, backing)
    }

    constructor ()
      ensures Valid() && View() == EMPTY
    {
      images, backing := [], map[];
    }

    /** `egl_attachBackingImageToSurface`: both links are set together. */
    method Attach(s: Surface, i: nat)
      requires i < |images|
      modifies this
      ensures images == old(images)[i := old(images)[i].(surface := Some(s))]
      ensures backing == old(backing)[s := i]
    {
      backing := backing[s := i];
      images := images[i := images[i].(surface := Some(s))];
    }

    /** `findFreeBackingImage`, up to the attachment. */
    method FindFreeImage(size: Size) returns (i: nat)
      ensures i == FindFree(images, size)
    {
      i := 0;
      while i < |images|
        invariant i <= |images| && i <= FindFree(images, size)
      {
        if IsFree(images[i], size) {
          break;
        }
        i := i + 1;
      }
    }

    /** `egl_realiseSurface` without the NV21 work-around; `granted` is the allocation's outcome. */
    method RealiseSurface(s: Surface, size: Size, granted: bool) returns (ok: bool)
      requires Valid()
      modifies this
      ensures Valid() && View() == Realise(old(View()), s, size, granted)
      ensures ok == Realises(old(View()), s, size, granted)
    {
      RealiseKeepsLinks(View(), s, size, granted);
      if s in backing {
        return true;
      }
      var i := FindFreeImage(size);
      if i < |images| {
        Attach(s, i);
        return true;
      }
      if !granted {
        return false;
      }
      images := images + [Image(size, Some(s))];
      backing := backing[s := |images| - 1];
      return true;
    }

    /** `egl_detachBackingImageFromSurface` for an image that is not NV21. */
    method DetachImage(s: Surface)
      requires Valid()
      modifies this
      ensures Valid() && View() == Detach(old(View()), s)
    {
      DetachKeepsLinks(View(), s);
      if s !in backing {
        return;
      }
      var i := FindImageOf(s);
      if i < |images| {
        images := images[i := images[i].(surface := None)];
      }
      backing := backing - {s};
    }

    method FindImageOf(s: Surface) returns (i: nat)
      ensures i == FindOwned(images, s)
    {
      i := 0;
      while i < |images|
        invariant i <= |images| && i <= FindOwned(images, s)
      {
        if images[i].surface == Some(s) {
          break;
        }
        i := i + 1;
      }
    }

    /** `egl_destroyAllBackingImage`: the unsigned reverse loop clears every link and every image. */
    method DestroyAllImages()
      requires Valid() && |images| <= U32_MAX
      modifies this
      ensures Valid() && View() == EMPTY
    {
      hide Linked;
      hide DropLast;
      var idx := Wrap32(|images| - 1);
      while idx < |images|
        invariant Valid() && |images| <= U32_MAX
        invariant idx == Wrap32(|images| - 1)
        decreases |images|
      {
        DropLastKeepsLinks(View());
        DestroyImage(idx);
        idx := Wrap32(idx - 1);
      }
      NoImagesNoLinks(View());
    }

    /** `egl_destroyBackingImage` and the removal of the last image of the list. */
    method DestroyImage(idx: nat)
      requires images != [] && idx == |images| - 1
      modifies this
      ensures View() == DropLast(old(View()))
    {
      var img := images[idx];
      if img.surface.Some? {
        backing := backing - {img.surface.value};
      }
      images := images[..idx] + images[idx + 1..];
    }
  }
}
