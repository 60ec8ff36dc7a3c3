/** What setting a run of members amounts to: the last value of each key, at the key's first position. */
module JsonMembers {
  import opened Bytes
  import opened Json

  ghost predicate FirstAt<V>(ps: seq<Member<V>>, j: int, key: bytes) {
    0 <= j < |ps| && ps[j].key == key && forall k :: 0 <= k < j ==> ps[k].key != key
  }

  ghost predicate LastAt<V>(ps: seq<Member<V>>, j: int, key: bytes) {
    0 <= j < |ps| && ps[j].key == key && forall k :: j < k < |ps| ==> ps[k].key != key
  }

  ghost predicate HasKey<V>(ms: seq<Member<V>>, key: bytes) {
    exists i :: 0 <= i < |ms| && ms[i].key == key
  }

  /** The member is the last of `ps` with its key. */
  ghost predicate IsLast<V>(m: Member<V>, ps: seq<Member<V>>) {
    exists j :: LastAt(ps, j, m.key) && m == ps[j]
  }

  /** Each member holds the value that its key was last given. */
  ghost predicate HoldsLast<V>(r: seq<Member<V>>, ps: seq<Member<V>>) {
    forall i :: 0 <= i < |r| ==> IsLast(r[i], ps)
  }

  /** The members stand in the order in which their keys first came. */
  ghost predicate InFirstOrder<V>(r: seq<Member<V>>, ps: seq<Member<V>>) {
    forall i, i', a, b :: 0 <= i < i' < |r| && FirstAt(ps, a, r[i].key) && FirstAt(ps, b, r[i'].key) ==> a < b
  }

  lemma {:induction false} SetMembersLast<V>(acc: seq<Member<V>>, ps: seq<Member<V>>, p: Member<V>)
    ensures SetMembers(acc, ps + [p]) == SetMember(SetMembers(acc, ps), p.key, p.value)
    decreases |ps|
  {
    if ps == [] {
      assert ([] + [p])[1..] == [];
    } else {
      assert (ps + [p])[1..] == ps[1..] + [p] && (ps + [p])[0] == ps[0];
      SetMembersLast(SetMember(acc, ps[0].key, ps[0].value), ps[1..], p);
    }
  }

  lemma FirstAtPrefix<V>(ps: seq<Member<V>>, p: Member, j: int, key: bytes)
    ensures j < |ps| ==> (FirstAt(ps + [p], j, key) <==> FirstAt(ps, j, key))
    ensures HasKey(ps, key) ==> !FirstAt(ps + [p], |ps|, key)
  {
    assert forall k :: 0 <= k < |ps| ==> (ps + [p])[k] == ps[k];
  }

  lemma HoldsLastStep<V>(r: seq<Member<V>>, ps: seq<Member<V>>, p: Member<V>)
    requires DistinctKeys(r) && HoldsLast(r, ps)
    ensures HoldsLast(SetMember(r, p.key, p.value), ps + [p])
  {
    var r', qs := SetMember(r, p.key, p.value), ps + [p];
    var f := Find(r, p.key);
    forall i | 0 <= i < |r'|
      ensures IsLast(r'[i], qs)
    {
      if i == f {
        assert r'[i] == p && qs[|ps|] == p;
        assert LastAt(qs, |ps|, r'[i].key);
      } else {
        assert r'[i].key != r'[f].key;
        var j :| LastAt(ps, j, r[i].key) && r[i] == ps[j];
        assert r'[i] == r[i] && LastAt(qs, j, r'[i].key);
      }
    }
  }

  lemma KeysStep<V>(r: seq<Member<V>>, ps: seq<Member<V>>, p: Member<V>)
    requires forall k :: HasKey(r, k) <==> HasKey(ps, k)
    ensures forall k :: HasKey(SetMember(r, p.key, p.value), k) <==> HasKey(ps + [p], k)
  {
    var r', qs := SetMember(r, p.key, p.value), ps + [p];
    assert qs[|ps|] == p;
    assert r'[Find(r, p.key)].key == p.key;
    forall k
      ensures HasKey(r', k) <==> HasKey(qs, k)
    {
      if HasKey(r, k) {
        var i :| 0 <= i < |r| && r[i].key == k;
        assert r'[i].key == k;
        var j :| 0 <= j < |ps| && ps[j].key == k;
        assert qs[j].key == k;
      }
    }
  }

  lemma InFirstOrderStep<V>(r: seq<Member<V>>, ps: seq<Member<V>>, p: Member<V>)
    requires InFirstOrder(r, ps)
    requires forall k :: HasKey(r, k) <==> HasKey(ps, k)
    ensures InFirstOrder(SetMember(r, p.key, p.value), ps + [p])
  {
    var r', qs := SetMember(r, p.key, p.value), ps + [p];
    assert |r'| > |r| ==> !HasKey(r, p.key);
    assert forall b :: 0 <= b < |ps| ==> HasKey(ps, ps[b].key);
    forall i, i', a, b | 0 <= i < i' < |r'| && FirstAt(qs, a, r'[i].key) && FirstAt(qs, b, r'[i'].key)
      ensures a < b
    {
      assert r'[i].key == r[i].key && HasKey(r, r[i].key);
      FirstAtPrefix(ps, p, a, r[i].key);
      if i' < |r| {
        assert r'[i'].key == r[i'].key && HasKey(r, r[i'].key);
        FirstAtPrefix(ps, p, b, r[i'].key);
      } else {
        assert r'[i'].key == p.key;
      }
    }
  }

  /** The members set are those of the keys that came: each once, with its last value, in order of first coming. */
  lemma {:induction false} SetMembersMeaning<V>(ps: seq<Member<V>>)
    ensures var r := SetMembers([], ps);
            DistinctKeys(r) && HoldsLast(r, ps) && InFirstOrder(r, ps) &&
            forall k :: HasKey(r, k) <==> HasKey(ps, k)
    decreases |ps|
  {
    if ps == [] {
    } else {
      var init, p := ps[..|ps| - 1], ps[|ps| - 1];
      SetMembersMeaning(init);
      assert ps == init + [p];
      SetMembersLast([], init, p);
      var r := SetMembers([], init);
      HoldsLastStep(r, init, p);
      KeysStep(r, init, p);
      InFirstOrderStep(r, init, p);
    }
  }

  /** Members whose keys are all new and distinct are appended as they are. */
  lemma {:induction false} SetMembersFresh<V>(acc: seq<Member<V>>, ps: seq<Member<V>>)
    requires DistinctKeys(acc + ps)
    ensures SetMembers(acc, ps) == acc + ps
    decreases |ps|
  {
    if ps == [] {
    } else {
      assert acc + ps == (acc + [ps[0]]) + ps[1..];
      forall i | 0 <= i < |acc|
        ensures acc[i].key != ps[0].key
      {
        assert (acc + ps)[i].key != (acc + ps)[|acc|].key;
      }
      SetMembersFresh(acc + [ps[0]], ps[1..]);
    }
  }
}
