/**
 A JSON tree as it is stored: arrays are growable lists of nodes and objects are
 stores of nodes, all the way down. The memory that a tree is in is a set of objects.
 */
module JsonNode {
  import opened Bytes
  import opened HashMap
  import opened Json
  import opened JsonObject
  import GrowList

  datatype Node = Scalar(v: Json) | ArrayNode(list: GrowList.List<Node>) | ObjectNode(store: ObjectStore<Node>)

  /** A node, with what it points at in `mem`, stands for a value. */
  ghost predicate Denotes(n: Node, v: Json, mem: set<object>)
    reads mem
    decreases v, 1
  {
    match n
    case Scalar(w) => v == w && !w.Arr? && !w.Obj?
    case ArrayNode(list) =>
      && v.Arr? && list in mem && list.data in mem && list.Valid()
      && ElemsDenote(list.Contents(), v.elems, mem)
    case ObjectNode(store) =>
      && v.Obj? && store in mem && store.Repr <= mem && store.Valid()
      && MembersDenote(store.Members(), v.members, mem)
  }

  ghost predicate ElemsDenote(ns: seq<Node>, es: seq<Json>, mem: set<object>)
    reads mem
    decreases es, 0
  {
    |ns| == |es| && forall i :: 0 <= i < |es| ==> Denotes(ns[i], es[i], mem)
  }

  ghost predicate MembersDenote(ns: seq<Member<Node>>, ms: seq<Member<Json>>, mem: set<object>)
    reads mem
    decreases ms, 0
  {
    |ns| == |ms| && forall i :: 0 <= i < |ms| ==> ns[i].key == ms[i].key && Denotes(ns[i].value, ms[i].value, mem)
  }

  /** More memory changes nothing. */
  lemma {:induction false} InMore(n: Node, v: Json, mem: set<object>, more: set<object>)
    requires Denotes(n, v, mem) && mem <= more
    ensures Denotes(n, v, more)
    decreases v, 1
  {
    match n
    case Scalar(_) =>
    case ArrayNode(list) => ElemsInMore(list.Contents(), v.elems, mem, more);
    case ObjectNode(store) => MembersInMore(store.Members(), v.members, mem, more);
  }

  lemma {:induction false} ElemsInMore(ns: seq<Node>, es: seq<Json>, mem: set<object>, more: set<object>)
    requires ElemsDenote(ns, es, mem) && mem <= more
    ensures ElemsDenote(ns, es, more)
    decreases es, 0
  {
    forall i | 0 <= i < |es|
      ensures Denotes(ns[i], es[i], more)
    {
      InMore(ns[i], es[i], mem, more);
    }
  }

  lemma {:induction false} MembersInMore(ns: seq<Member<Node>>, ms: seq<Member<Json>>,
                                         mem: set<object>, more: set<object>)
    requires MembersDenote(ns, ms, mem) && mem <= more
    ensures MembersDenote(ns, ms, more)
    decreases ms, 0
  {
    forall i | 0 <= i < |ms|
      ensures Denotes(ns[i].value, ms[i].value, more)
    {
      InMore(ns[i].value, ms[i].value, mem, more);
    }
  }

  /** A node stands for one value. */
  lemma {:induction false} OneValue(n: Node, v: Json, w: Json, mem: set<object>)
    requires Denotes(n, v, mem) && Denotes(n, w, mem)
    ensures v == w
    decreases v
  {
    match n
    case Scalar(_) =>
    case ArrayNode(list) =>
      var ns := list.Contents();
      forall i | 0 <= i < |ns|
        ensures v.elems[i] == w.elems[i]
      {
        OneValue(ns[i], v.elems[i], w.elems[i], mem);
      }
    case ObjectNode(store) =>
      var ns := store.Members();
      forall i | 0 <= i < |ns|
        ensures v.members[i] == w.members[i]
      {
        OneValue(ns[i].value, v.members[i].value, w.members[i].value, mem);
      }
  }

  lemma {:induction false} FindByKeys<V, W>(ns: seq<Member<V>>, ms: seq<Member<W>>, key: bytes)
    requires |ns| == |ms| && forall i :: 0 <= i < |ms| ==> ns[i].key == ms[i].key
    ensures Find(ns, key) == Find(ms, key)
  {
    if ns == [] {
    } else {
      FindByKeys(ns[1..], ms[1..], key);
    }
  }

  /** Setting a node for a value in nodes for members gives nodes for the members with the value set. */
  lemma SetDenotes(ns: seq<Member<Node>>, ms: seq<Member<Json>>, key: bytes, n: Node, v: Json, mem: set<object>)
    requires MembersDenote(ns, ms, mem) && Denotes(n, v, mem)
    ensures MembersDenote(SetMember(ns, key, n), SetMember(ms, key, v), mem)
  {
    hide Denotes;
    FindByKeys(ns, ms, key);
  }

  // ---- building ----

  /** A list that holds nodes for these values, which are in `mem`. */
  ghost predicate ListHolds(list: GrowList.List<Node>, es: seq<Json>, mem: set<object>)
    reads list, list.data, mem
  {
    list.Valid() && list !in mem && list.data !in mem && ElemsDenote(list.Contents(), es, mem)
  }

  ghost predicate StoreHolds(store: ObjectStore<Node>, ms: seq<Member<Json>>, mem: set<object>)
    reads store, store.Repr, mem
  {
    store.Valid() && store.Repr !! mem && MembersDenote(store.Members(), ms, mem)
  }

  lemma AppendDenotes(ns: seq<Node>, es: seq<Json>, n: Node, v: Json, mem: set<object>)
    requires ElemsDenote(ns, es, mem) && Denotes(n, v, mem)
    ensures ElemsDenote(ns + [n], es + [v], mem)
  {
    hide Denotes;
  }

  method NewList() returns (list: GrowList.List<Node>)
    ensures fresh(list) && fresh(list.data) && ListHolds(list, [], {})
  {
    list := new GrowList.List<Node>();
  }

  method NewStore(hash: bytes -> nat) returns (store: ObjectStore<Node>)
    ensures fresh(store) && fresh(store.Repr) && StoreHolds(store, [], {})
  {
    hide ObjectStore.Valid, ObjectStore.Members;
    store := new ObjectStore<Node>(hash);
  }

  /** Adds a node to an array; it may fail for want of memory. */
  method AddElement(list: GrowList.List<Node>, n: Node, memory: bool, ghost es: seq<Json>, ghost v: Json,
                    ghost mem: set<object>, ghost more: set<object>)
    returns (ok: bool)
    requires ListHolds(list, es, mem) && Denotes(n, v, more) && list !in more && list.data !in more
    modifies list, list.data
    ensures (memory ==> ok) && (list.data == old(list.data) || fresh(list.data))
    ensures ListHolds(list, if ok then es + [v] else es, mem + more)
  {
    hide Denotes, ElemsDenote, GrowList.List.Valid;
    ElemsInMore(list.Contents(), es, mem, mem + more);
    InMore(n, v, more, mem + more);
    AppendDenotes(list.Contents(), es, n, v, mem + more);
    var rc := list.Add(n, memory);
    ok := rc == GrowList.OK;
  }

  /** Sets a node in an object, under a copy of the key; it may fail for want of memory. */
  method SetField(store: ObjectStore<Node>, key: bytes, n: Node, allocations: Allocations, room: bool,
                  ghost ms: seq<Member<Json>>, ghost v: Json, ghost mem: set<object>, ghost more: set<object>)
    returns (ok: bool)
    requires StoreHolds(store, ms, mem) && Denotes(n, v, more) && store.Repr !! more
    modifies store.Repr
    ensures (allocations == PLENTY && room ==> ok) && fresh(store.Repr - old(store.Repr))
    ensures StoreHolds(store, if ok then SetMember(ms, key, v) else ms, mem + more)
  {
    hide Denotes, MembersDenote, SetMember, ObjectStore.Valid, ObjectStore.Members;
    MembersInMore(store.Members(), ms, mem, mem + more);
    InMore(n, v, more, mem + more);
    SetDenotes(store.Members(), ms, key, n, v, mem + more);
    var rc := store.Set(key, n, allocations, room);
    ok := rc == OK;
  }

  /** The array and the memory that it is in. */
  lemma ArrayDenotes(list: GrowList.List<Node>, es: seq<Json>, mem: set<object>)
    requires ListHolds(list, es, mem)
    ensures Denotes(ArrayNode(list), Arr(es), mem + {list, list.data})
  {
    ElemsInMore(list.Contents(), es, mem, mem + {list, list.data});
  }

  lemma ObjectDenotes(store: ObjectStore<Node>, ms: seq<Member<Json>>, mem: set<object>)
    requires StoreHolds(store, ms, mem)
    ensures Denotes(ObjectNode(store), Obj(ms), mem + store.Repr)
  {
    hide ObjectStore.Members;
    MembersInMore(store.Members(), ms, mem, mem + store.Repr);
  }
}
