/** The dynamic pointer array (src/list.c) and the object table kept in it, updated in place. */
module ObjectStore {

  import opened Words
  import opened ObjectModel

  /** `Array` of src/list.h: `None` is the NULL pointer. */
  class PtrArray<T> {
    var buf: array?<Option<T>>
    var size: nat
    var capacity: nat
    ghost var contents: seq<T>

    /** The used part holds the contents, the unused part is NULL. */
    ghost predicate Valid()
      reads this, buf
    {
      && |contents| == size
      && (buf == null ==> size == 0 && capacity == 0)
      && (buf != null ==> buf.Length == capacity && size <= capacity <= U32_MAX && capacity >= 16)
      && (forall i :: 0 <= i < size ==> buf[i] == Some(contents[i]))
      && (forall i :: size <= i < capacity ==> buf[i] == None)
    }

    constructor ()
      ensures Valid() && contents == [] && buf == null
    {
      buf, size, capacity, contents := null, 0, 0, [];
    }

    /** `ensure_capacity`: room for the elements without changing them, the new part NULL. */
    method EnsureCapacity(needed: nat)
      requires Valid() && needed == size + 1 && size < 0x8000_0000
      modifies `buf, `capacity
      ensures Valid() && needed <= capacity && buf != null
      ensures buf == old(buf) || fresh(buf)
      ensures needed <= old(capacity) ==> buf == old(buf)
      ensures needed > old(capacity) ==>
        capacity == if old(capacity) == 0 then 16 else old(capacity) + old(capacity) / 2
    {
      if needed <= capacity {
        return;
      }
      var grown := 16;
      if capacity != 0 {
        grown := GrowCapacity(capacity, needed);
      }
      var bigger := new Option<T>[grown](i => None);
      forall i | 0 <= i < size {
        bigger[i] := buf[i];
      }
      buf, capacity := bigger, grown;
    }

    /** `add_element`. */
    method Add(element: T)
      requires Valid() && size < 0x8000_0000
      modifies this, buf
      ensures Valid() && contents == old(contents) + [element]
      ensures buf != null && (buf == old(buf) || fresh(buf))
    {
      EnsureCapacity(size + 1);
      buf[size] := Some(element);
      size := size + 1;
      contents := contents + [element];
    }

    /** `remove_element_at`: the tail moves down by one and the freed place becomes NULL. */
    method RemoveAt(index: nat)
      requires Valid()
      modifies `size, `contents, buf
      ensures Valid() && contents == RemovedAt(old(contents), index)
    {
      if index >= size {
        return;
      }
      var last := size - 1;
      ShiftDown(buf, index, last);
      forall k | 0 <= k < last ensures buf[k] == Some(RemovedAt(contents, index)[k]) {
        RemovedIndex(contents, index, k);
      }
      assert |RemovedAt(contents, index)| == last;
      hide RemovedAt;
      size := last;
      contents := RemovedAt(contents, index);
    }

    /** `get_element_at`. */
    method GetAt(index: nat) returns (element: Option<T>)
      requires Valid()
      ensures element == if index < |contents| then Some(contents[index]) else None
    {
      if buf == null || index >= size {
        return None;
      }
      return buf[index];
    }

    /** The reverse loop of `egl_destroyAllBackingImage`: every element is visited once and removed. */
    method DrainReverse() returns (visited: seq<T>)
      requires Valid()
      modifies `size, `contents, buf
      ensures Valid() && contents == []
      ensures visited == Reversed(old(contents))
    {
      visited := [];
      ghost var all := contents;
      var idx := Wrap32(size - 1);
      while idx < size
        invariant Valid()
        invariant idx == Wrap32(size - 1)
        invariant visited + Reversed(contents) == Reversed(all)
        decreases size
      {
        var element := GetAt(idx);
        TakeLast(visited, contents);
        RemoveAt(idx);
        visited := visited + [element.value];
        idx := Wrap32(idx - 1);
      }
    }
  }

  /** The shifting loop of `remove_element_at`. */
  method ShiftDown<T>(a: array<Option<T>>, index: nat, last: nat)
    requires index <= last < a.Length
    modifies a
    ensures forall k :: 0 <= k < index || last < k < a.Length ==> a[k] == old(a[k])
    ensures forall k :: index <= k < last ==> a[k] == old(a[..])[k + 1]
    ensures a[last] == None
  {
    var i := index;
    while i < last
      invariant index <= i <= last
      invariant forall k :: 0 <= k < index || i <= k < a.Length ==> a[k] == old(a[k])
      invariant forall k :: index <= k < i ==> a[k] == old(a[..])[k + 1]
    {
      a[i] := a[i + 1];
      i := i + 1;
    }
    a[last] := None;
  }

  lemma TakeLast<T>(visited: seq<T>, s: seq<T>)
    requires 0 < |s| <= U32_MAX
    ensures Wrap32(|s| - 1) == |s| - 1
    ensures |RemovedAt(s, |s| - 1)| == |s| - 1
    ensures visited + [s[|s| - 1]] + Reversed(RemovedAt(s, |s| - 1)) == visited + Reversed(s)
  {
    assert RemovedAt(s, |s| - 1) == s[..|s| - 1];
  }

  /** The growth loop, which turns once: one element more is asked for than there is room. */
  method GrowCapacity(capacity: nat, needed: nat) returns (grown: nat)
    requires 16 <= capacity < needed <= capacity + 1
    ensures grown == capacity + capacity / 2 && needed <= grown
  {
    grown := capacity;
    while needed > grown
      invariant grown == capacity || (grown == capacity + capacity / 2 && needed <= grown)
      decreases needed + capacity - grown
    {
      grown := grown + grown / 2;
    }
  }

  /** The object-related fields of `NVDriver`. */
  class ObjectTable {
    var nextObjId: U32
    const objects: PtrArray<Object>

    /** Ids increase along the array and none exceeds the last one issued. */
    ghost predicate Valid()
      reads this, objects, objects.buf
    {
      objects.Valid() && Ordered(View())
    }

    ghost function View(): Driver
      reads this, objects
    {
      Driver(nextObjId, objects.contents)
    }

    /** The map the table stands for. */
    ghost function Table(): map<U32, Object>
      reads this, objects
    {
      TableOf(objects.contents)
    }

    constructor ()
      ensures Valid() && View() == START && Table() == map[]
    {
      nextObjId := 0;
      objects := new PtrArray();
    }

    /** `allocateObject`. Until the ids wrap, the new id is fresh and the map gains exactly this object. */
    method AllocateObject(kind: ObjectType, obj: nat) returns (o: Object)
      requires objects.Valid() && objects.size < 0x8000_0000
      modifies this, objects, objects.buf
      ensures objects.Valid() && View() == Step(old(View()), Allocate(kind, obj))
      ensures o == Object(Wrap32(old(nextObjId) + 1), kind, obj)
      ensures old(Valid()) && old(nextObjId) < U32_MAX ==>
        Valid() && o.id !in old(Table()) && Table() == old(Table())[o.id := o]
    {
      AllocateFacts(View(), kind, obj);
      hide Ordered;
      hide TableOf;
      ghost var after := Step(View(), Allocate(kind, obj));
      var id := Wrap32(nextObjId + 1);
      o := Object(id, kind, obj);
      assert after == Driver(id, objects.contents + [o]);
      hide Step;
      hide Wrap32;
      nextObjId := id;
      objects.Add(o);
    }

    /** `getObject`: a linear search that answers as the map does. */
    method FindObject(kind: ObjectType, id: U32) returns (found: Option<Object>)
      requires Valid()
      ensures found == Lookup(Table(), kind, id)
      ensures found == GetObject(objects.contents, kind, id)
    {
      found := None;
      LookupAgrees(objects.contents, kind, id);
      if id != INVALID_ID {
        var i := 0;
        assert objects.contents[0..] == objects.contents;
        while i < objects.size
          invariant 0 <= i <= objects.size
          invariant Find(objects.contents[i..], kind, id) == Find(objects.contents, kind, id)
        {
          var element := objects.GetAt(i);
          var o := element.value;
          assert objects.contents[i..][1..] == objects.contents[i + 1..];
          if o.id == id && o.kind == kind {
            return Some(o);
          }
          i := i + 1;
        }
      }
    }

    /** `deleteObject`. */
    method RemoveObject(id: U32)
      requires Valid()
      modifies objects, objects.buf
      ensures Valid() && View() == Step(old(View()), Delete(id))
      ensures Table() == if id == INVALID_ID then old(Table()) else old(Table()) - {id}
      ensures objects.buf == old(objects.buf)
    {
      DeleteKeeps(View(), id);
      if id == INVALID_ID {
        return;
      }
      WithoutIsRemoval(objects.contents, id);
      hide TableOf;
      hide Ordered;
      var i := FindIndex(id);
      objects.RemoveAt(i);
    }

    /** `deleteAllObjects` as far as the table goes: going forward, it leaves every second object. */
    method DeleteAllObjects()
      requires Valid()
      modifies objects, objects.buf
      ensures Valid() && objects.contents == Leftover(old(objects.contents))
    {
      ForwardSweepExact(objects.contents);
      hide ForwardSweep;
      hide RemovedAt;
      hide Ordered;
      ghost var all := objects.contents;
      ghost var ignored := false;
      var i := 0;
      while i < objects.size
        invariant Valid() && objects.buf == old(objects.buf)
        invariant ignored ==> i >= objects.size && EndsIgnored(all) && objects.contents == Leftover(all)
        invariant !ignored ==> SweepState(all, objects.contents, i)
        decreases objects.size - i
      {
        if objects.contents[i].id == INVALID_ID {
          SweepIgnores(all, View(), i);
        } else {
          SweepRemoves(all, objects.contents, i);
        }
        hide SweepState;
        hide EndsIgnored;
        hide Leftover;
        ignored := DeleteTurn(i);
        i := i + 1;
      }
      if !ignored {
        SweepTurn(objects.contents, i);
      }
      hide RemovedAt;
    }

    /** One turn of that loop: the object at the index is deleted by its id, unless that is the invalid one. */
    method DeleteTurn(i: nat) returns (ghost ignored: bool)
      requires Valid() && i < objects.size
      modifies objects, objects.buf
      ensures Valid() && objects.buf == old(objects.buf)
      ensures ignored <==> old(objects.contents[i]).id == INVALID_ID
      ensures objects.contents == if ignored then old(objects.contents) else RemovedAt(old(objects.contents), i)
    {
      var element := objects.GetAt(i);
      ignored := element.value.id == INVALID_ID;
      if !ignored {
        DeleteEntry(objects.contents, i);
      }
      hide TableOf;
      hide RemovedAt;
      RemoveObject(element.value.id);
    }

    /** The search of `deleteObject`: the first entry with this id, or the size. */
    method FindIndex(id: U32) returns (i: nat)
      requires objects.Valid()
      ensures i == IndexOf(objects.contents, id)
    {
      i := 0;
      while i < objects.size
        invariant i <= objects.size && i <= IndexOf(objects.contents, id)
      {
        var element := objects.GetAt(i);
        if element.value.id == id {
          break;
        }
        i := i + 1;
      }
    }
  }

  /** The loop would come by an object that it cannot delete. */
  ghost predicate EndsIgnored(all: seq<Object>) {
    |all| % 2 == 1 && all[|all| - 1].id == INVALID_ID
  }

  /** The loop over `all` has come to index `i` of what is left. */
  ghost predicate SweepState(all: seq<Object>, s: seq<Object>, i: nat) {
    && ForwardSweep(s, i).left == Odds(all)
    && |s| + i == |all|
    && (i < |s| ==> s[|s| - 1] == all[|all| - 1])
    && (i >= |s| ==> !EndsIgnored(all))
  }

  lemma SweepRemoves(all: seq<Object>, s: seq<Object>, i: nat)
    requires i < |s| && SweepState(all, s, i) && s[i].id != INVALID_ID
    ensures |RemovedAt(s, i)| == |s| - 1
    ensures SweepState(all, RemovedAt(s, i), i + 1)
  {
    SweepTurn(s, i);
    if i < |s| - 1 {
      RemovedIndex(s, i, |s| - 2);
    }
    hide ForwardSweep;
    hide RemovedAt;
  }

  lemma SweepIgnores(all: seq<Object>, d: Driver, i: nat)
    requires i < |d.objects| && Ordered(d) && SweepState(all, d.objects, i) && d.objects[i].id == INVALID_ID
    ensures i == |d.objects| - 1 && EndsIgnored(all) && d.objects == Leftover(all)
  {
    InvalidIsLast(d.objects, i);
    hide Ordered;
    SweepAtLast(d.objects, i);
    hide ForwardSweep;
  }

  /** The facts an allocation rests on while ids have not wrapped. */
  lemma AllocateFacts(d: Driver, kind: ObjectType, obj: nat)
    ensures var e := Step(d, Allocate(kind, obj));
            Ordered(d) && d.next < U32_MAX ==>
              && Ordered(e) && e.next !in TableOf(d.objects)
              && TableOf(e.objects) == TableOf(d.objects)[e.next := Object(e.next, kind, obj)]
  {
    if Ordered(d) && d.next < U32_MAX {
      AllocateKeeps(d, kind, obj);
      FreshId(d);
    }
  }

  lemma FreshId(d: Driver)
    requires Ordered(d) && d.next < U32_MAX
    ensures d.next + 1 !in TableOf(d.objects)
  {
    if d.next + 1 in TableOf(d.objects) {
      TableOnly(d.objects, d.next + 1);
    }
  }
}
