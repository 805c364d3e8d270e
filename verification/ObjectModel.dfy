/**
 * The object table of the driver (src/vabackend.c:433-506): a linear array of objects that is to
 * behave as a map from id to object, and the two loops that remove while they iterate
 * (src/list.h:14-15, src/export-buf.c:358-367, src/vabackend.c:554-578).
 */
module ObjectModel {

  import opened Words

  const INVALID_ID: U32 := 0xFFFF_FFFF

  datatype ObjectType = CONFIG | CONTEXT | SURFACE | BUFFER | IMAGE

  /** `struct Object_t`; `obj` is the address of the payload, 0 for none. */
  datatype Object = Object(id: U32, kind: ObjectType, obj: nat)

  // ----- removal from a sequence ---------------------------------------------------------

  function RemovedAt<T>(s: seq<T>, i: nat): seq<T> {
    if i < |s| then s[..i] + s[i + 1..] else s
  }

  function Reversed<T>(s: seq<T>): seq<T> {
    if s == [] then [] else [s[|s| - 1]] + Reversed(s[..|s| - 1])
  }

  /** Elements at the even positions of `s`, and those at the odd ones. */
  function Evens<T>(s: seq<T>): seq<T> {
    if s == [] then [] else [s[0]] + Odds(s[1..])
  }

  function Odds<T>(s: seq<T>): seq<T> {
    if s == [] then [] else Evens(s[1..])
  }

  datatype Sweep<T> = Sweep(visited: seq<T>, left: seq<T>)

  /**
   * `ARRAY_FOR_EACH_REV` with a body that removes the element it is at: the index is unsigned and
   * the loop goes on while it is below the current size.
   */
  function ReverseSweep<T>(s: seq<T>, idx: U32): Sweep<T>
    decreases |s|
  {
    if idx < |s| then
      var rest := ReverseSweep(RemovedAt(s, idx), Wrap32(idx - 1));
      Sweep([s[idx]] + rest.visited, rest.left)
    else Sweep([], s)
  }

  /** Started at `size - 1` (which wraps for the empty array), it visits every element once, last first. */
  lemma {:induction false} ReverseSweepDrains<T>(s: seq<T>)
    requires |s| <= U32_MAX
    ensures ReverseSweep(s, Wrap32(|s| - 1)) == Sweep(Reversed(s), [])
  {
    if s != [] {
      var n := |s| - 1;
      assert Wrap32(n) == n;
      assert RemovedAt(s, n) == s[..n];
      ReverseSweepDrains(s[..n]);
    }
  }

  /** The wrapped index of an exhausted loop is not below any size. */
  lemma ReverseStopsByWrap(size: U32)
    ensures !(Wrap32(0 - 1) < size)
  {
    assert Wrap32(-1) == 0xFFFF_FFFF;
  }

  /** `ARRAY_FOR_EACH` with a body that removes the element it is at. */
  function ForwardSweep<T>(s: seq<T>, idx: nat): Sweep<T>
    decreases |s|
  {
    if idx < |s| then
      var rest := ForwardSweep(RemovedAt(s, idx), idx + 1);
      Sweep([s[idx]] + rest.visited, rest.left)
    else Sweep([], s)
  }

  lemma RemovedParts<T>(s: seq<T>, idx: nat)
    requires idx < |s|
    ensures |RemovedAt(s, idx)| == |s| - 1
    ensures idx + 1 == |s| ==> RemovedAt(s, idx) == s[..idx]
    ensures idx + 1 < |s| ==>
      && RemovedAt(s, idx)[..idx + 1] == s[..idx] + [s[idx + 1]]
      && RemovedAt(s, idx)[idx + 1..] == s[idx + 1..][1..]
  {
  }

  lemma {:induction false} ForwardSweepSkips<T>(s: seq<T>, idx: nat)
    requires idx <= |s|
    ensures ForwardSweep(s, idx) == Sweep(Evens(s[idx..]), s[..idx] + Odds(s[idx..]))
    decreases |s| - idx
  {
    if idx < |s| {
      var t := RemovedAt(s, idx);
      RemovedParts(s, idx);
      hide RemovedAt;
      if idx + 1 == |s| {
        assert s[idx..] == [s[idx]];
        assert s[..idx] + Odds(s[idx..]) == t;
      } else {
        ForwardSweepSkips(t, idx + 1);
        ForwardOdds(s, idx);
      }
    } else {
      assert s[idx..] == [] && s[..idx] == s;
    }
  }

  lemma ForwardOdds<T>(s: seq<T>, idx: nat)
    requires idx + 1 < |s|
    ensures Odds(s[idx..]) == [s[idx + 1]] + Odds(s[idx + 1..][1..])
    ensures Evens(s[idx..]) == [s[idx]] + Evens(s[idx + 1..][1..])
  {
    assert s[idx..][1..] == s[idx + 1..];
  }

  lemma {:induction false} OddsLength<T>(s: seq<T>)
    ensures |Odds(s)| == |s| / 2 && |Evens(s)| == (|s| + 1) / 2
  {
    if s != [] {
      OddsLength(s[1..]);
    }
  }

  /** Removing while going forward leaves every second element: nothing is left exactly below two. */
  lemma ForwardSweepExact<T>(s: seq<T>)
    ensures ForwardSweep(s, 0) == Sweep(Evens(s), Odds(s))
    ensures |ForwardSweep(s, 0).left| == |s| / 2
    ensures ForwardSweep(s, 0).left == [] <==> |s| <= 1
  {
    ForwardSweepSkips(s, 0);
    OddsLength(s);
    assert s[0..] == s && s[..0] == [];
  }

  // ----- the table as an array -----------------------------------------------------------

  ghost predicate Increasing(s: seq<Object>) {
    forall i, j :: 0 <= i < j < |s| ==> s[i].id < s[j].id
  }

  ghost predicate IdsUpTo(s: seq<Object>, next: U32) {
    forall i :: 0 <= i < |s| ==> 0 < s[i].id <= next
  }

  /** The finite map an array of objects stands for. */
  function TableOf(s: seq<Object>): map<U32, Object> {
    if s == [] then map[] else TableOf(s[..|s| - 1])[s[|s| - 1].id := s[|s| - 1]]
  }

  /** Every entry is in the map under its own id, with its own contents. */
  lemma {:induction false} TableAt(s: seq<Object>, i: nat)
    requires Increasing(s) && i < |s|
    ensures s[i].id in TableOf(s) && TableOf(s)[s[i].id] == s[i]
  {
    var n := |s| - 1;
    if i < n {
      TableAt(s[..n], i);
      assert s[i].id != s[n].id;
    }
  }

  /** Nothing else is in the map. */
  lemma {:induction false} TableOnly(s: seq<Object>, id: U32)
    requires id in TableOf(s)
    ensures exists i :: 0 <= i < |s| && s[i].id == id && s[i] == TableOf(s)[id]
  {
    var n := |s| - 1;
    if s[n].id != id {
      TableOnly(s[..n], id);
      var i :| 0 <= i < n && s[..n][i].id == id && s[..n][i] == TableOf(s[..n])[id];
      assert s[i] == s[..n][i];
    } else {
      assert s[n] == TableOf(s)[id];
    }
  }

  /** The search loop of `getObject`: first entry with this id and type. */
  function Find(s: seq<Object>, kind: ObjectType, id: U32): Option<Object> {
    if s == [] then None
    else if s[0].id == id && s[0].kind == kind then Some(s[0])
    else Find(s[1..], kind, id)
  }

  function GetObject(s: seq<Object>, kind: ObjectType, id: U32): Option<Object> {
    if id == INVALID_ID then None else Find(s, kind, id)
  }

  /** The deletion loop of `deleteObject`: the first entry with this id goes. */
  function Without(s: seq<Object>, id: U32): seq<Object> {
    if s == [] then []
    else if s[0].id == id then s[1..]
    else [s[0]] + Without(s[1..], id)
  }

  function DeleteObject(s: seq<Object>, id: U32): seq<Object> {
    if id == INVALID_ID then s else Without(s, id)
  }

  /** What a lookup in a map from id to object is. */
  function Lookup(table: map<U32, Object>, kind: ObjectType, id: U32): Option<Object> {
    if id != INVALID_ID && id in table && table[id].kind == kind then Some(table[id]) else None
  }

  lemma {:induction false} FindFirst(s: seq<Object>, kind: ObjectType, id: U32)
    ensures Find(s, kind, id).None? ==> forall i :: 0 <= i < |s| ==> !(s[i].id == id && s[i].kind == kind)
    ensures Find(s, kind, id).Some? ==>
      exists i :: 0 <= i < |s| && s[i] == Find(s, kind, id).value && s[i].id == id && s[i].kind == kind
  {
    if s != [] && !(s[0].id == id && s[0].kind == kind) {
      FindFirst(s[1..], kind, id);
      if Find(s, kind, id).Some? {
        var t := s[1..];
        var i :| 0 <= i < |t| && t[i] == Find(s, kind, id).value && t[i].id == id && t[i].kind == kind;
        assert s[i + 1] == t[i];
      } else {
        forall i | 0 <= i < |s| ensures !(s[i].id == id && s[i].kind == kind) {
          if i > 0 {
            assert s[1..][i - 1] == s[i];
          }
        }
      }
    }
  }

  /** Typed lookup in the array agrees with lookup in the map. */
  lemma LookupAgrees(s: seq<Object>, kind: ObjectType, id: U32)
    requires Increasing(s)
    ensures GetObject(s, kind, id) == Lookup(TableOf(s), kind, id)
  {
    FindFirst(s, kind, id);
    var found := Find(s, kind, id);
    if found.Some? {
      var i :| 0 <= i < |s| && s[i] == found.value && s[i].id == id && s[i].kind == kind;
      TableAt(s, i);
    } else if id in TableOf(s) {
      TableOnly(s, id);
    }
  }

  /** Position of the first entry with this id, or the length. */
  function IndexOf(s: seq<Object>, id: U32): (i: nat)
    ensures i <= |s|
    ensures i < |s| ==> s[i].id == id
    ensures forall k :: 0 <= k < i ==> s[k].id != id
  {
    if s == [] || s[0].id == id then 0 else 1 + IndexOf(s[1..], id)
  }

  lemma RemovedFirst<T>(s: seq<T>)
    ensures RemovedAt(s, 0) == if s == [] then [] else s[1..]
  {
  }

  lemma RemovedAfterFirst<T>(s: seq<T>, k: nat)
    requires s != []
    ensures RemovedAt(s, k + 1) == [s[0]] + RemovedAt(s[1..], k)
  {
  }

  /** Deletion takes out exactly one entry, if there is one with this id, and keeps the order of the rest. */
  lemma {:induction false} WithoutIsRemoval(s: seq<Object>, id: U32)
    ensures Without(s, id) == RemovedAt(s, IndexOf(s, id))
  {
    hide RemovedAt;
    if s != [] && s[0].id != id {
      WithoutIsRemoval(s[1..], id);
      RemovedAfterFirst(s, IndexOf(s[1..], id));
      assert IndexOf(s, id) == IndexOf(s[1..], id) + 1;
      hide IndexOf;
      assert Without(s, id) == [s[0]] + Without(s[1..], id);
    } else {
      RemovedFirst(s);
    }
  }

  lemma RemovalKeepsOrder(s: seq<Object>, i: nat)
    requires Increasing(s) && i < |s|
    ensures Increasing(RemovedAt(s, i))
  {
    var t := RemovedAt(s, i);
    forall a, b | 0 <= a < b < |t| ensures t[a].id < t[b].id {
      var a' := if a < i then a else a + 1;
      var b' := if b < i then b else b + 1;
      assert t[a] == s[a'] && t[b] == s[b'];
    }
  }

  lemma MapWithout(m: map<U32, Object>, n: map<U32, Object>, x: U32)
    requires forall id :: id in n ==> id != x && id in m && m[id] == n[id]
    requires forall id :: id in m && id != x ==> id in n
    ensures n == m - {x}
  {
  }

  lemma RemovedIndex<T>(s: seq<T>, i: nat, k: nat)
    requires i < |s| && k < |s| - 1
    ensures |RemovedAt(s, i)| == |s| - 1
    ensures RemovedAt(s, i)[k] == s[if k < i then k else k + 1]
  {
  }

  lemma RemovedHas(s: seq<Object>, i: nat, id: U32)
    requires Increasing(s) && i < |s| && Increasing(RemovedAt(s, i))
    requires id in TableOf(RemovedAt(s, i))
    ensures id != s[i].id && id in TableOf(s) && TableOf(s)[id] == TableOf(RemovedAt(s, i))[id]
  {
    hide TableOf;
    var t := RemovedAt(s, i);
    TableOnly(t, id);
    var k :| 0 <= k < |t| && t[k].id == id && t[k] == TableOf(t)[id];
    RemovedIndex(s, i, k);
    TableAt(s, if k < i then k else k + 1);
  }

  lemma RemovedKeeps(s: seq<Object>, i: nat, id: U32)
    requires Increasing(s) && i < |s| && Increasing(RemovedAt(s, i))
    requires id in TableOf(s) && id != s[i].id
    ensures id in TableOf(RemovedAt(s, i))
  {
    hide TableOf;
    hide Increasing;
    TableOnly(s, id);
    var k :| 0 <= k < |s| && s[k].id == id && s[k] == TableOf(s)[id];
    var t, k' := RemovedAt(s, i), if k < i then k else k - 1;
    RemovedIndex(s, i, k');
    TableAt(t, k');
  }

  /** Removing an entry of an ordered array removes its id from the map and nothing else. */
  lemma RemovalFromTable(s: seq<Object>, i: nat)
    requires Increasing(s) && i < |s|
    ensures TableOf(RemovedAt(s, i)) == TableOf(s) - {s[i].id}
  {
    hide TableOf;
    hide RemovedAt;
    hide Increasing;
    RemovalKeepsOrder(s, i);
    var m, n := TableOf(s), TableOf(RemovedAt(s, i));
    forall id | id in n ensures id != s[i].id && id in m && m[id] == n[id] {
      RemovedHas(s, i, id);
    }
    forall id | id in m && id != s[i].id ensures id in n {
      RemovedKeeps(s, i, id);
    }
    MapWithout(m, n, s[i].id);
  }

  lemma AbsentFromTable(s: seq<Object>, id: U32)
    requires IndexOf(s, id) == |s|
    ensures id !in TableOf(s)
  {
    if id in TableOf(s) {
      TableOnly(s, id);
    }
  }

  /** Deletion in the array is deletion in the map, and keeps the array ordered. */
  lemma DeleteAgrees(s: seq<Object>, id: U32)
    requires Increasing(s)
    ensures Increasing(DeleteObject(s, id))
    ensures TableOf(DeleteObject(s, id)) == if id == INVALID_ID then TableOf(s) else TableOf(s) - {id}
  {
    hide TableOf;
    hide Increasing;
    hide Without;
    var i := IndexOf(s, id);
    WithoutIsRemoval(s, id);
    if i < |s| {
      RemovalKeepsOrder(s, i);
      RemovalFromTable(s, i);
    } else {
      AbsentFromTable(s, id);
    }
  }

  /** Deleting by the id of an entry removes that entry. */
  lemma DeleteEntry(s: seq<Object>, i: nat)
    requires Increasing(s) && i < |s| && s[i].id != INVALID_ID
    ensures DeleteObject(s, s[i].id) == RemovedAt(s, i)
  {
    hide Without;
    hide RemovedAt;
    WithoutIsRemoval(s, s[i].id);
    var k := IndexOf(s, s[i].id);
    hide IndexOf;
    assert k == i;
  }

  lemma SweepTurn<T>(s: seq<T>, i: nat)
    ensures i < |s| ==> |RemovedAt(s, i)| == |s| - 1
    ensures i < |s| ==> ForwardSweep(s, i).left == ForwardSweep(RemovedAt(s, i), i + 1).left
    ensures i >= |s| ==> ForwardSweep(s, i).left == s
  {
    var t := RemovedAt(s, i);
    assert i < |s| ==> |t| == |s| - 1;
    hide RemovedAt;
  }

  /**
   * What `deleteAllObjects` leaves: every second object, and the one with the invalid id, which `deleteObject`
   * ignores, when the loop comes by it.
   */
  function Leftover(s: seq<Object>): seq<Object> {
    if |s| % 2 == 1 && s[|s| - 1].id == INVALID_ID then Odds(s) + [s[|s| - 1]] else Odds(s)
  }

  lemma LeftoverEmpty(s: seq<Object>)
    ensures Leftover(s) == [] <==> |s| == 0 || (|s| == 1 && s[0].id != INVALID_ID)
  {
    OddsLength(s);
  }

  /** The invalid id can only be the last one. */
  lemma InvalidIsLast(s: seq<Object>, i: nat)
    requires Increasing(s) && i < |s| && s[i].id == INVALID_ID
    ensures i == |s| - 1
  {
    assert i < |s| - 1 ==> s[i].id < s[|s| - 1].id;
  }

  /** Where the sweep comes by the last entry, all but that one are what it leaves. */
  lemma SweepAtLast<T>(s: seq<T>, i: nat)
    requires s != [] && i == |s| - 1
    ensures s == ForwardSweep(s, i).left + [s[i]]
  {
    SweepTurn(s, i);
    SweepTurn(RemovedAt(s, i), i + 1);
    assert RemovedAt(s, i) == s[..i];
    hide ForwardSweep;
  }

  // ----- runs ----------------------------------------------------------------------------

  datatype Op = Allocate(kind: ObjectType, obj: nat) | Delete(id: U32)

  datatype Driver = Driver(next: U32, objects: seq<Object>)

  const START := Driver(0, [])

  function Step(d: Driver, op: Op): Driver {
    match op
    case Allocate(kind, obj) =>
      var id := Wrap32(d.next + 1);
      Driver(id, d.objects + [Object(id, kind, obj)])
    case Delete(id) => d.(objects := DeleteObject(d.objects, id))
  }

  function Run(ops: seq<Op>): Driver {
    if ops == [] then START else Step(Run(ops[..|ops| - 1]), ops[|ops| - 1])
  }

  /** The reference: a counter and a map. */
  datatype Registry = Registry(next: nat, table: map<U32, Object>)

  function RegistryStep(r: Registry, op: Op): Registry {
    match op
    case Allocate(kind, obj) =>
      if r.next >= U32_MAX then r
      else Registry(r.next + 1, r.table[r.next + 1 := Object(r.next + 1, kind, obj)])
    case Delete(id) => if id == INVALID_ID then r else r.(table := r.table - {id})
  }

  function RegistryRun(ops: seq<Op>): Registry {
    if ops == [] then Registry(0, map[]) else RegistryStep(RegistryRun(ops[..|ops| - 1]), ops[|ops| - 1])
  }

  function Allocations(ops: seq<Op>): nat {
    if ops == [] then 0
    else Allocations(ops[..|ops| - 1]) + if ops[|ops| - 1].Allocate? then 1 else 0
  }

  ghost predicate Ordered(d: Driver) {
    Increasing(d.objects) && IdsUpTo(d.objects, d.next)
  }

  lemma AllocateKeeps(d: Driver, kind: ObjectType, obj: nat)
    requires Ordered(d) && d.next < U32_MAX
    ensures
      var e := Step(d, Allocate(kind, obj));
      && Ordered(e) && e.next == d.next + 1
      && TableOf(e.objects) == TableOf(d.objects)[e.next := Object(e.next, kind, obj)]
  {
    var e := Step(d, Allocate(kind, obj));
    assert Wrap32(d.next + 1) == d.next + 1;
    assert e.objects[..|d.objects|] == d.objects;
  }

  lemma DeleteKeeps(d: Driver, id: U32)
    requires Ordered(d)
    ensures
      var e := Step(d, Delete(id));
      && Ordered(e) && e.next == d.next
      && TableOf(e.objects) == if id == INVALID_ID then TableOf(d.objects) else TableOf(d.objects) - {id}
  {
    hide TableOf;
    hide Increasing;
    hide Without;
    DeleteAgrees(d.objects, id);
    WithoutIsRemoval(d.objects, id);
    hide IndexOf;
  }

  lemma StartOrdered()
    ensures Ordered(START) && TableOf([]) == map[]
  {
  }

  /**
   * Over every run with fewer than 2^32 allocations the ids increase along the array, none exceeds
   * the number issued, and the array stands for the reference map.
   */
  lemma {:induction false} RunRefines(ops: seq<Op>)
    requires Allocations(ops) <= U32_MAX
    ensures Ordered(Run(ops)) && Run(ops).next == Allocations(ops)
    ensures RegistryRun(ops) == Registry(Run(ops).next, TableOf(Run(ops).objects))
  {
    hide TableOf;
    hide DeleteObject;
    hide Ordered;
    if ops != [] {
      var front, op := ops[..|ops| - 1], ops[|ops| - 1];
      RunRefines(front);
      var d := Run(front);
      match op
      case Allocate(kind, obj) => AllocateKeeps(d, kind, obj);
      case Delete(id) => DeleteKeeps(d, id);
    } else {
      StartOrdered();
    }
  }

  /** Every typed lookup after every such run answers as the reference map does. */
  lemma RunLookups(ops: seq<Op>, kind: ObjectType, id: U32)
    requires Allocations(ops) <= U32_MAX
    ensures GetObject(Run(ops).objects, kind, id) == Lookup(RegistryRun(ops).table, kind, id)
  {
    RunRefines(ops);
    LookupAgrees(Run(ops).objects, kind, id);
  }

  /** Deletion shortens the table by one exactly when the id is live. */
  lemma RunDeletes(ops: seq<Op>, id: U32)
    requires Allocations(ops) <= U32_MAX && id != INVALID_ID
    ensures
      var s, t := Run(ops).objects, Run(ops + [Delete(id)]).objects;
      && t == RemovedAt(s, IndexOf(s, id))
      && (id in RegistryRun(ops).table <==> |t| == |s| - 1)
      && (id !in RegistryRun(ops).table <==> t == s)
  {
    RunRefines(ops);
    var s := Run(ops).objects;
    assert (ops + [Delete(id)])[..|ops|] == ops;
    WithoutIsRemoval(s, id);
    if IndexOf(s, id) < |s| {
      TableAt(s, IndexOf(s, id));
    } else {
      AbsentFromTable(s, id);
    }
  }

  /** The next allocation after the last id gets id 0 and breaks the order if anything is live. */
  lemma IdWrapBreaksOrder(d: Driver, kind: ObjectType, obj: nat)
    requires Ordered(d) && d.next == U32_MAX
    ensures Increasing(Step(d, Allocate(kind, obj)).objects) <==> d.objects == []
  {
    var e := Step(d, Allocate(kind, obj)).objects;
    assert Wrap32(U32_MAX + 1) == 0;
    if d.objects != [] {
      assert e[0] == d.objects[0];
      assert e[|e| - 1].id == 0;
    }
  }
}
