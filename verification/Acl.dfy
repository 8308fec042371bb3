/**
 Access control of an association (src/ic/association_ln.c:8-118) and the gated dispatcher
 (src/server/dispatcher.c:43-103): the first matching object entry and, in it, the first matching right decide.
 */
module Acl {
  import opened Octets

  datatype Kind = Read | Write | Invoke

  datatype Right = Right(id: int, mode: nat)
  datatype Entry = Entry(classId: u16, name: seq<byte>, attrs: seq<Right>, methods: seq<Right>)

  /** A password; lengths are octets. */
  type Secret = s: seq<byte> | |s| < 256

  /** An association object: mechanism, password, client address and object list. */
  datatype Assoc = Assoc(mech: nat, secret: Secret, sap: nat, list: seq<Entry>)

  datatype Target = Target(kind: Kind, classId: u16, name: seq<byte>, id: int)

  predicate Names(e: Entry, t: Target) { e.classId == t.classId && e.name == t.name }

  function Rights(e: Entry, k: Kind): seq<Right> { if k == Invoke then e.methods else e.attrs }

  /** Access modes 1..6 of attributes and 1..2 of methods. */
  predicate Grants(k: Kind, mode: nat, authenticated: bool) {
    match k
    case Read => mode == 1 || mode == 3 || ((mode == 4 || mode == 6) && authenticated)
    case Write => mode == 2 || mode == 3 || ((mode == 5 || mode == 6) && authenticated)
    case Invoke => mode == 1 || (mode == 2 && authenticated)
  }

  ghost predicate FirstEntry(list: seq<Entry>, t: Target, i: nat) {
    i < |list| && Names(list[i], t) && forall j :: 0 <= j < i ==> !Names(list[j], t)
  }

  ghost predicate FirstRight(rights: seq<Right>, id: int, i: nat) {
    i < |rights| && rights[i].id == id && forall j :: 0 <= j < i ==> rights[j].id != id
  }

  /** The decisive right grants the access; without an entry or a right there is none. */
  ghost predicate Allowed(a: Assoc, t: Target) {
    exists i: nat :: FirstEntry(a.list, t, i) && Granted(a, t, i)
  }

  ghost predicate Granted(a: Assoc, t: Target, i: nat)
    requires i < |a.list|
  {
    exists j: nat :: FirstRight(Rights(a.list[i], t.kind), t.id, j) &&
        Grants(t.kind, Rights(a.list[i], t.kind)[j].mode, a.mech >= 1)
  }

  /** There is at most one decisive entry and right. */
  lemma Decisive(a: Assoc, t: Target, i: nat, j: nat)
    requires FirstEntry(a.list, t, i) && FirstRight(Rights(a.list[i], t.kind), t.id, j)
    ensures Allowed(a, t) <==> Grants(t.kind, Rights(a.list[i], t.kind)[j].mode, a.mech >= 1)
  {
    if Allowed(a, t) {
      var i': nat :| FirstEntry(a.list, t, i') && Granted(a, t, i');
      assert i' == i;
      var j': nat :| FirstRight(Rights(a.list[i], t.kind), t.id, j') &&
          Grants(t.kind, Rights(a.list[i], t.kind)[j'].mode, a.mech >= 1);
      assert j' == j;
    }
  }

  /** find_index. */
  method FindIndex(list: seq<Entry>, t: Target) returns (r: int)
    ensures r >= 0 ==> FirstEntry(list, t, r)
    ensures r < 0 ==> forall j :: 0 <= j < |list| ==> !Names(list[j], t)
  {
    for i := 0 to |list|
      invariant forall j :: 0 <= j < i ==> !Names(list[j], t)
    {
      if Names(list[i], t) { return i; }
    }
    return -1;
  }

  /** osp_ic_association_ln_can_read, can_write and can_invoke. */
  method Can(a: Assoc, t: Target) returns (ok: bool)
    ensures ok <==> Allowed(a, t)
  {
    var i := FindIndex(a.list, t);
    if i < 0 { return false; }
    var rights := Rights(a.list[i], t.kind);
    for j := 0 to |rights|
      invariant forall m :: 0 <= m < j ==> rights[m].id != t.id
    {
      if rights[j].id == t.id {
        ok := Grants(t.kind, rights[j].mode, a.mech >= 1);
        Decisive(a, t, i, j);
        return;
      }
    }
    return false;
  }

  /** What the dispatcher may touch: anything while no association is bound, else what it allows. */
  ghost predicate Permitted(bound: Option<Assoc>, t: Target) { bound.None? || Allowed(bound.value, t) }

  datatype Option<+T> = None | Some(value: T)

  /** The gate of osp_dispatcher_get, set and action for an object that exists. */
  method Gate(bound: Option<Assoc>, t: Target) returns (ok: bool)
    ensures ok <==> Permitted(bound, t)
  {
    if bound.None? { return true; }
    ok := Can(bound.value, t);
  }

  // ── Registered objects ─────────────────────────────────────────────────────

  /** A registered object and the kinds of access its class implements. */
  datatype Obj = Obj(classId: u16, name: seq<byte>, handles: set<Kind>)

  predicate IsObj(o: Obj, t: Target) { o.classId == t.classId && o.name == t.name }

  /** The first registered object of that class and name implements the access. */
  ghost predicate Implemented(objects: seq<Obj>, t: Target) {
    exists i :: 0 <= i < |objects| && FirstObj(objects, t, i) && t.kind in objects[i].handles
  }

  ghost predicate FirstObj(objects: seq<Obj>, t: Target, i: nat)
    requires i < |objects|
  {
    IsObj(objects[i], t) && forall j :: 0 <= j < i ==> !IsObj(objects[j], t)
  }

  /** find_object and the test for a handler, as osp_dispatcher_get, set and action begin. */
  method Implements(objects: seq<Obj>, t: Target) returns (ok: bool)
    ensures ok <==> Implemented(objects, t)
  {
    for i := 0 to |objects|
      invariant forall j :: 0 <= j < i ==> !IsObj(objects[j], t)
    {
      if IsObj(objects[i], t) {
        assert FirstObj(objects, t, i);
        return t.kind in objects[i].handles;
      }
    }
    return false;
  }
}
