/**
 A JSON object as it is stored: a map from keys to values, and the keys in the
 order in which they were first set. The map's keys are the strings of that list.
 */
module JsonObject {
  import opened Bytes
  import opened HashMap
  import opened Json
  import opened JsonMembers

  /** A string on the heap: the map and the key list hold the same one. */
  class KeyString {
    const chars: bytes

    constructor (chars: bytes)
      ensures this.chars == chars
    {
      this.chars := chars;
    }
  }

  function CharsOf(k: KeyString): bytes {
    k.chars
  }

  /** The list has each key of the map once, and the map has the list's own strings. */
  ghost predicate InStep<V>(keyOrder: seq<KeyString>, contents: map<bytes, Slot<KeyString, V>>) {
    && (forall i, j :: 0 <= i < j < |keyOrder| ==> keyOrder[i].chars != keyOrder[j].chars)
    && (forall i :: 0 <= i < |keyOrder| ==>
          keyOrder[i].chars in contents && contents[keyOrder[i].chars].key == keyOrder[i])
    && (forall c :: c in contents ==> contents[c].key in keyOrder && contents[c].key.chars == c)
  }

  /** The members that a list and a map in step stand for. */
  ghost function MembersOf<V>(keyOrder: seq<KeyString>, contents: map<bytes, Slot<KeyString, V>>): (ms: seq<Member<V>>)
    requires InStep(keyOrder, contents)
    ensures |ms| == |keyOrder| && DistinctKeys(ms)
    ensures forall i :: 0 <= i < |ms| ==> ms[i] == Member(keyOrder[i].chars, contents[keyOrder[i].chars].value)
  {
    seq(|keyOrder|, i requires 0 <= i < |keyOrder| => Member(keyOrder[i].chars, contents[keyOrder[i].chars].value))
  }

  /** The position of a key in the list. */
  lemma KeyIndex<V>(keyOrder: seq<KeyString>, contents: map<bytes, Slot<KeyString, V>>, c: bytes) returns (i: nat)
    requires InStep(keyOrder, contents) && c in contents
    ensures i < |keyOrder| && keyOrder[i].chars == c && Find(MembersOf(keyOrder, contents), c) == i
  {
    i :| i < |keyOrder| && keyOrder[i] == contents[c].key;
    FindOnly(MembersOf(keyOrder, contents), i);
  }

  lemma ReplaceKeepsStep<V>(keyOrder: seq<KeyString>, contents: map<bytes, Slot<KeyString, V>>, c: bytes, value: V)
    requires InStep(keyOrder, contents) && c in contents
    ensures InStep(keyOrder, contents[c := Slot(contents[c].key, value)])
  {
  }

  /** A new value for a key that is there leaves the order alone. */
  lemma ReplaceInStep<V>(keyOrder: seq<KeyString>, contents: map<bytes, Slot<KeyString, V>>, c: bytes, value: V)
    requires InStep(keyOrder, contents) && c in contents
    ensures var contents' := contents[c := Slot(contents[c].key, value)];
            && InStep(keyOrder, contents')
            && MembersOf(keyOrder, contents') == SetMember(MembersOf(keyOrder, contents), c, value)
  {
    var contents' := contents[c := Slot(contents[c].key, value)];
    ReplaceKeepsStep(keyOrder, contents, c, value);
    var i := KeyIndex(keyOrder, contents, c);
    var ms, ms' := MembersOf(keyOrder, contents), MembersOf(keyOrder, contents');
    forall j | 0 <= j < |keyOrder|
      ensures ms'[j] == ms[i := Member(c, value)][j]
    {
      assert j == i || keyOrder[j].chars != c;
    }
  }

  lemma AppendKeepsStep<V>(keyOrder: seq<KeyString>, contents: map<bytes, Slot<KeyString, V>>,
                        key: KeyString, value: V)
    requires InStep(keyOrder, contents) && key.chars !in contents
    ensures InStep(keyOrder + [key], contents[key.chars := Slot(key, value)])
  {
    assert (keyOrder + [key])[|keyOrder|] == key;
  }

  /** A new key goes to the end of the list. */
  lemma AppendInStep<V>(keyOrder: seq<KeyString>, contents: map<bytes, Slot<KeyString, V>>, key: KeyString, value: V)
    requires InStep(keyOrder, contents) && key.chars !in contents
    ensures var contents' := contents[key.chars := Slot(key, value)];
            InStep(keyOrder + [key], contents')
            && MembersOf(keyOrder + [key], contents') == SetMember(MembersOf(keyOrder, contents), key.chars, value)
  {
    AppendKeepsStep(keyOrder, contents, key, value);
    var ms := MembersOf(keyOrder, contents);
    var ms' := MembersOf(keyOrder + [key], contents[key.chars := Slot(key, value)]);
    assert Find(ms, key.chars) == |ms|;
    forall j | 0 <= j < |ms'|
      ensures ms'[j] == (ms + [Member(key.chars, value)])[j]
    {
    }
  }

  /** An entry that the list has no room for leaves no trace once it is removed. */
  lemma AddThenDrop<T, U>(m: map<T, U>, c: T, u: U)
    requires c !in m
    ensures m[c := u] - {c} == m
  {
  }

  lemma FindOnly<V>(ms: seq<Member<V>>, i: nat)
    requires DistinctKeys(ms) && i < |ms|
    ensures Find(ms, ms[i].key) == i
  {
  }

  /** The last key, taken out of both. */
  lemma InitInStep<V>(keyOrder: seq<KeyString>, contents: map<bytes, Slot<KeyString, V>>)
    requires InStep(keyOrder, contents) && keyOrder != []
    ensures var last := |keyOrder| - 1;
            keyOrder[last].chars in contents && InStep(keyOrder[..last], contents - {keyOrder[last].chars})
  {
    assert keyOrder == keyOrder[..|keyOrder| - 1] + [keyOrder[|keyOrder| - 1]];
  }

  /** The list is as long as the map is large. */
  lemma {:induction false} SameSize<V>(keyOrder: seq<KeyString>, contents: map<bytes, Slot<KeyString, V>>)
    requires InStep(keyOrder, contents)
    ensures |contents| == |keyOrder|
  {
    if keyOrder == [] {
      assert contents.Keys == {};
      assert contents == map[];
    } else {
      var last := |keyOrder| - 1;
      var c := keyOrder[last].chars;
      InitInStep(keyOrder, contents);
      hide InStep;
      SizeOfDrop(contents, c);
      SameSize(keyOrder[..last], contents - {c});
    }
  }

  const PLENTY: Allocations := Allocations(true, true, true, true)

  class ObjectStore<V> {
    const entries: Map<KeyString, V, bytes>
    var keyOrder: seq<KeyString>

    /** The objects that the store is made of. */
    ghost var Repr: set<object>

    ghost predicate Valid()
      reads this, Repr
    {
      && this in Repr && entries in Repr && entries.buckets in Repr && entries.entries <= Repr && entries.blocks <= Repr
      && entries.Valid() && entries.view == CharsOf && InStep(keyOrder, entries.contents)
    }

    /** The members, in order. */
    ghost function Members(): (ms: seq<Member<V>>)
      requires Valid()
      reads this, Repr
      ensures DistinctKeys(ms)
    {
      MembersOf(keyOrder, entries.contents)
    }

    constructor (hash: bytes -> nat)
      ensures Valid() && Members() == [] && fresh(Repr)
    {
      hide Map.Valid;
      var table := new Map(CharsOf, hash);
      entries := table;
      keyOrder := [];
      Repr := {this, table, table.buckets};
    }

    /** Sets the value of a key that is there. */
    method Replace(key: KeyString, value: V, mem: Allocations) returns (rc: Code)
      requires Valid() && key.chars in entries.contents
      modifies Repr
      ensures Valid() && fresh(Repr - old(Repr)) && keyOrder == old(keyOrder) && rc == OK
      ensures Members() == SetMember(old(Members()), key.chars, value)
    {
      hide Map.Valid, Map.NeedsGrowth, InStep, MembersOf, SetMember;
      ReplaceInStep(keyOrder, entries.contents, key.chars, value);
      rc := entries.Set(key, value, mem);
      Repr := Repr + {entries.buckets} + entries.entries + entries.blocks;
    }

    /** Adds a key; an entry that the list has no room for is taken out of the map again. */
    method Append(key: KeyString, value: V, mem: Allocations, room: bool) returns (rc: Code)
      requires Valid() && key.chars !in entries.contents
      modifies Repr
      ensures Valid() && fresh(Repr - old(Repr))
      ensures rc == if mem.Suffice(old(entries.NeedsGrowth())) && room then OK else OUT_OF_MEMORY
      ensures Members() == if rc == OK then SetMember(old(Members()), key.chars, value) else old(Members())
      ensures keyOrder == if rc == OK then old(keyOrder) + [key] else old(keyOrder)
    {
      hide Map.Valid, Map.NeedsGrowth, InStep, MembersOf, SetMember;
      AppendInStep(keyOrder, entries.contents, key, value);
      AddThenDrop(entries.contents, key.chars, Slot(key, value));
      rc := entries.Set(key, value, mem);
      Repr := Repr + {entries.buckets} + entries.entries + entries.blocks;
      if rc == OK {
        rc := List(key, room);
      }
    }

    /** Puts a key that has just been entered in the map at the end of the list, or takes it out of the map again. */
    method List(key: KeyString, room: bool) returns (rc: Code)
      requires this in Repr && entries in Repr && entries.buckets in Repr
      requires entries.entries <= Repr && entries.blocks <= Repr
      requires entries.Valid() && entries.view == CharsOf && key.chars in entries.contents
      requires if room then InStep(keyOrder + [key], entries.contents)
               else InStep(keyOrder, entries.contents - {key.chars})
      modifies Repr
      ensures Valid() && Repr == old(Repr) && rc == if room then OK else OUT_OF_MEMORY
      ensures keyOrder == if room then old(keyOrder) + [key] else old(keyOrder)
      ensures entries.contents == if room then old(entries.contents) else old(entries.contents) - {key.chars}
    {
      hide Map.Valid, InStep, MembersOf;
      if room {
        keyOrder := keyOrder + [key];
        rc := OK;
      } else {
        var _ := entries.Remove(key);
        rc := OUT_OF_MEMORY;
      }
    }

    /**
     Sets the value of a key, whose string is kept only when the key is new.
     When there is no memory for it the object is as it was.
     */
    method SetOwned(key: KeyString, value: V, mem: Allocations, room: bool) returns (rc: Code)
      requires Valid()
      modifies Repr
      ensures Valid() && fresh(Repr - old(Repr))
      ensures rc == if key.chars in old(entries.contents) || (mem.Suffice(old(entries.NeedsGrowth())) && room)
                    then OK else OUT_OF_MEMORY
      ensures Members() == if rc == OK then SetMember(old(Members()), key.chars, value) else old(Members())
      ensures keyOrder == if rc == OK && key.chars !in old(entries.contents)
                          then old(keyOrder) + [key] else old(keyOrder)
    {
      hide Map.Valid, Map.NeedsGrowth, InStep, MembersOf, SetMember;
      var slot := entries.Get(key);
      if slot.Some? {
        rc := Replace(key, value, mem);
      } else {
        rc := Append(key, value, mem, room);
      }
    }

    /** Sets a copy of the caller's key. */
    method Set(key: bytes, value: V, mem: Allocations, room: bool) returns (rc: Code)
      requires Valid()
      modifies Repr
      ensures Valid() && fresh(Repr - old(Repr))
      ensures mem == PLENTY && room ==> rc == OK
      ensures Members() == if rc == OK then SetMember(old(Members()), key, value) else old(Members())
      ensures old(keyOrder) <= keyOrder
    {
      hide Map.Valid, InStep, MembersOf, SetMember;
      var copy := new KeyString(key);
      rc := SetOwned(copy, value, mem, room);
    }

    method Get(key: KeyString) returns (r: Option<V>)
      requires Valid()
      ensures var i := Find(Members(), key.chars);
              r == if i < |Members()| then Some(Members()[i].value) else None
    {
      hide Map.Valid;
      var slot := entries.Get(key);
      if slot.Some? {
        var _ := KeyIndex(keyOrder, entries.contents, key.chars);
      } else {
        assert Find(Members(), key.chars) == |Members()|;
      }
      r := slot;
    }

    method Count() returns (n: nat)
      requires Valid()
      ensures n == |Members()|
    {
      hide Map.Valid;
      SameSize(keyOrder, entries.contents);
      n := entries.Count();
    }

    method KeyAt(i: nat) returns (key: Option<KeyString>)
      requires Valid()
      ensures key.Some? <==> i < |Members()|
      ensures key.Some? ==> key.value.chars == Members()[i].key
    {
      hide Map.Valid;
      key := if i < |keyOrder| then Some(keyOrder[i]) else None;
    }

    /** The member loop of the printer: each key of the list is looked up in the map, and is there. */
    method ReadAll() returns (ms: seq<Member<V>>)
      requires Valid()
      ensures ms == Members()
    {
      hide Map.Valid, InStep;
      ghost var all := Members();
      assert |all| == |keyOrder| && forall i :: 0 <= i < |all| ==> all[i].key == keyOrder[i].chars;
      hide Valid, Members;
      ms := [];
      for i := 0 to |keyOrder|
        invariant ms == all[..i]
      {
        var key := keyOrder[i];
        var value := Get(key);
        FindOnly(all, i);
        ms := ms + [Member(key.chars, value.value)];
      }
    }

    /** Any run of sets, some of which may fail: the members are those of the sets that did not. */
    method SetAll(ps: seq<Member<V>>, memory: seq<(Allocations, bool)>) returns (kept: seq<Member<V>>)
      requires Valid() && |memory| == |ps|
      modifies Repr
      ensures Valid() && fresh(Repr - old(Repr))
      ensures Members() == SetMembers(old(Members()), kept)
      ensures (forall i :: 0 <= i < |ps| ==> memory[i] == (PLENTY, true)) ==> kept == ps
      ensures old(keyOrder) <= keyOrder
    {
      hide Map.Valid, InStep, MembersOf, SetMember;
      kept := [];
      for i := 0 to |ps|
        invariant Valid() && fresh(Repr - old(Repr))
        invariant Members() == SetMembers(old(Members()), kept)
        invariant (forall k :: 0 <= k < i ==> memory[k] == (PLENTY, true)) ==> kept == ps[..i]
        invariant old(keyOrder) <= keyOrder
      {
        var rc := Set(ps[i].key, ps[i].value, memory[i].0, memory[i].1);
        if rc == OK {
          SetMembersLast(old(Members()), kept, ps[i]);
          kept := kept + [ps[i]];
        }
      }
    }
  }
}
