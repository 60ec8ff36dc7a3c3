/** The growable list: an array that doubles, with elements shifted in place. */
module GrowList {
  import opened Bytes

  const INITIAL_CAPACITY: nat := 4

  datatype Code = OK | OUT_OF_RANGE | OUT_OF_MEMORY

  function Max(a: nat, b: nat): nat {
    if a < b then b else a
  }

  /** What a list of values is after an insertion and after a removal. */
  function Inserted<T>(s: seq<T>, i: nat, x: T): seq<T>
    requires i <= |s|
  {
    s[..i] + [x] + s[i..]
  }

  function Removed<T>(s: seq<T>, i: nat): seq<T>
    requires i < |s|
  {
    s[..i] + s[i + 1..]
  }

  /** A removal undoes an insertion at the same place, and nothing else moves. */
  lemma RemoveOfInsert<T>(s: seq<T>, i: nat, x: T)
    requires i <= |s|
    ensures Inserted(s, i, x)[i] == x && Removed(Inserted(s, i, x), i) == s
  {
    var r := Inserted(s, i, x);
    assert r[..i] == s[..i] && r[i + 1..] == s[i..];
  }

  /** Moves the elements from `from` up to `to` one place up. */
  method ShiftUp<T>(a: array<T>, from: nat, to: nat)
    requires from <= to < a.Length
    modifies a
    ensures a[..from] == old(a[..from]) && a[from + 1..to + 1] == old(a[from..to]) && a[to + 1..] == old(a[to + 1..])
  {
    var k := to;
    while k > from
      invariant from <= k <= to
      invariant forall j :: 0 <= j < a.Length && (j <= k || j > to) ==> a[j] == old(a[j])
      invariant forall j :: k < j <= to ==> a[j] == old(a[j - 1])
    {
      a[k] := a[k - 1];
      k := k - 1;
    }
  }

  /** Moves the elements behind `from` up to `to` one place down. */
  method ShiftDown<T>(a: array<T>, from: nat, to: nat)
    requires from < to <= a.Length
    modifies a
    ensures a[..from] == old(a[..from]) && a[from..to - 1] == old(a[from + 1..to]) && a[to..] == old(a[to..])
  {
    var k := from;
    while k + 1 < to
      invariant from <= k < to
      invariant a[..from] == old(a[..from]) && a[k + 1..] == old(a[k + 1..])
      invariant a[from..k] == old(a[from + 1..k + 1])
    {
      a[k] := a[k + 1];
      k := k + 1;
    }
  }

  lemma PutTogether<T>(data: array<T>, s: seq<T>, index: nat, value: T)
    requires index <= |s| < data.Length
    requires data[..index] == s[..index] && data[index] == value && data[index + 1..|s| + 1] == s[index..]
    ensures data[..|s| + 1] == Inserted(s, index, value)
  {
    assert data[..|s| + 1] == data[..index] + [data[index]] + data[index + 1..|s| + 1];
  }

  lemma ClosedUp<T>(data: array<T>, s: seq<T>, index: nat)
    requires index < |s| <= data.Length
    requires data[..index] == s[..index] && data[index..|s| - 1] == s[index + 1..]
    ensures data[..|s| - 1] == Removed(s, index)
  {
    assert data[..|s| - 1] == data[..index] + data[index..|s| - 1];
  }

  /** A call that changes a list, and whether it would get the memory that it may need. */
  datatype Op<T> = Add(value: T, memory: bool) | Insert(index: nat, value: T, memory: bool) | RemoveAt(index: nat)

  /** What a call does that answers `rc`. */
  function Do<T>(s: seq<T>, op: Op<T>, rc: Code): seq<T> {
    if rc != OK then s
    else match op
      case Add(x, _) => s + [x]
      case Insert(i, x, _) => if i <= |s| then Inserted(s, i, x) else s
      case RemoveAt(i) => if i < |s| then Removed(s, i) else s
  }

  function DoAll<T>(s: seq<T>, ops: seq<Op<T>>, rcs: seq<Code>): seq<T>
    requires |ops| == |rcs|
  {
    if ops == [] then s
    else
      var last := |ops| - 1;
      Do(DoAll(s, ops[..last], rcs[..last]), ops[last], rcs[last])
  }

  /** A call may fail for an index out of range, and then it does, or for want of memory, and then it may. */
  predicate Answers<T>(s: seq<T>, op: Op<T>, rc: Code) {
    match op
    case Add(_, memory) => rc == OK || (!memory && rc == OUT_OF_MEMORY)
    case Insert(i, _, memory) =>
      if i > |s| then rc == OUT_OF_RANGE else rc == OK || (!memory && rc == OUT_OF_MEMORY)
    case RemoveAt(i) => rc == if i >= |s| then OUT_OF_RANGE else OK
  }

  /** The elements added. */
  function Additions<T>(ops: seq<Op<T>>, rcs: seq<Code>): nat
    requires |ops| == |rcs|
  {
    if ops == [] then 0
    else
      var last := |ops| - 1;
      Additions(ops[..last], rcs[..last]) + if rcs[last] == OK && !ops[last].RemoveAt? then 1 else 0
  }

  /** Every call of a run answers what it may. */
  ghost predicate AllAnswer<T>(s: seq<T>, ops: seq<Op<T>>, rcs: seq<Code>)
    requires |ops| == |rcs|
  {
    forall i :: 0 <= i < |ops| ==> Answers(DoAll(s, ops[..i], rcs[..i]), ops[i], rcs[i])
  }

  lemma NothingDone<T>(s: seq<T>)
    ensures DoAll(s, [], []) == s && AllAnswer(s, [], []) && Additions<T>([], []) == 0
  {
  }

  lemma OneMore<T>(s: seq<T>, ops: seq<Op<T>>, rcs: seq<Code>, op: Op<T>, rc: Code)
    requires |ops| == |rcs| && AllAnswer(s, ops, rcs) && Answers(DoAll(s, ops, rcs), op, rc)
    ensures DoAll(s, ops + [op], rcs + [rc]) == Do(DoAll(s, ops, rcs), op, rc)
    ensures Additions(ops + [op], rcs + [rc]) == Additions(ops, rcs) + if rc == OK && !op.RemoveAt? then 1 else 0
    ensures AllAnswer(s, ops + [op], rcs + [rc])
  {
    hide Answers;
    var ops', rcs' := ops + [op], rcs + [rc];
    assert ops'[..|ops|] == ops && rcs'[..|ops|] == rcs;
    forall i | 0 <= i < |ops'|
      ensures Answers(DoAll(s, ops'[..i], rcs'[..i]), ops'[i], rcs'[i])
    {
      assert i < |ops| ==> ops'[..i] == ops[..i] && rcs'[..i] == rcs[..i];
    }
  }

  class List<T(0)> {
    var data: array<T>
    var count: nat
    /** The elements that reallocation has moved, at most; the appends and insertions; the largest reservation. */
    ghost var moved: nat
    ghost var added: nat
    ghost var reserved: nat

    ghost predicate Valid()
      reads this, data
    {
      && count <= data.Length
      && count <= added
      && moved <= data.Length
      && (data.Length == 0 || data.Length >= INITIAL_CAPACITY)
      && (data.Length <= INITIAL_CAPACITY ==> moved == 0)
      && data.Length <= Max(INITIAL_CAPACITY, 2 * Max(added, reserved))
    }

    ghost function Contents(): seq<T>
      requires Valid()
      reads this, data
    {
      data[..count]
    }

    constructor ()
      ensures Valid() && Contents() == [] && moved == 0 && added == 0 && reserved == 0 && fresh(data)
    {
      data, count := new T[0], 0;
      moved, added, reserved := 0, 0, 0;
    }

    /** The doubling keeps the total that reallocation moves within twice what was asked for. */
    lemma AmortizedBound()
      requires Valid()
      ensures moved <= 2 * Max(added, reserved)
    {
    }

    /** What was asked for covers the capacity that a growth to `min` makes. */
    ghost predicate Asked(min: nat)
      reads this`added, this`reserved
    {
      min <= Max(added, reserved)
    }

    /** Makes room for `min` elements, doubling at least; the elements are moved to the new array. */
    method Grow(min: nat, memory: bool) returns (rc: Code)
      requires Valid() && Asked(min)
      modifies this`data, this`moved
      ensures Valid() && Contents() == old(Contents()) && (data == old(data) || fresh(data))
      ensures rc == if min <= old(data.Length) || memory then OK else OUT_OF_MEMORY
      ensures min <= old(data.Length) || rc != OK ==> data == old(data) && moved == old(moved)
      ensures min > old(data.Length) && rc == OK ==>
                && data.Length == Max(min, if old(data.Length) == 0 then 4 else 2 * old(data.Length))
                && moved == old(moved) + old(data.Length)
      ensures rc == OK ==> data.Length >= min
    {
      if min <= data.Length {
        return OK;
      }
      if !memory {
        return OUT_OF_MEMORY;
      }
      var capacity := if data.Length == 0 then INITIAL_CAPACITY else data.Length * 2;
      if capacity < min {
        capacity := min;
      }
      var bigger := new T[capacity];
      CopyInto(bigger);
      moved := moved + data.Length;
      data := bigger;
      rc := OK;
    }

    method CopyInto(bigger: array<T>)
      requires count <= data.Length && count <= bigger.Length && bigger != data
      modifies bigger
      ensures bigger[..count] == data[..count]
    {
      for i := 0 to count
        invariant bigger[..i] == data[..i]
      {
        bigger[i] := data[i];
      }
    }

    method Insert(index: nat, value: T, memory: bool) returns (rc: Code)
      requires Valid()
      modifies this, data
      ensures Valid() && (data == old(data) || fresh(data)) && reserved == old(reserved)
      ensures rc == if index > |old(Contents())| then OUT_OF_RANGE
                    else if |old(Contents())| == old(data.Length) && !memory then OUT_OF_MEMORY else OK
      ensures added == if rc == OK then old(added) + 1 else old(added)
      ensures rc == OK ==> Contents() == Inserted(old(Contents()), index, value)
      ensures rc != OK ==> Contents() == old(Contents()) && moved == old(moved)
    {
      if index > count {
        return OUT_OF_RANGE;
      }
      added := added + 1;
      rc := Grow(count + 1, memory);
      if rc != OK {
        added := added - 1;
        return;
      }
      Place(index, value);
    }

    /** Puts a value in its place; there is room for it. */
    method Place(index: nat, value: T)
      requires Valid() && index <= count < data.Length && count < added
      modifies this`count, data
      ensures Valid() && Contents() == Inserted(old(Contents()), index, value)
    {
      ghost var s := Contents();
      ShiftUp(data, index, count);
      data[index] := value;
      count := count + 1;
      PutTogether(data, s, index, value);
    }

    method Add(value: T, memory: bool) returns (rc: Code)
      requires Valid()
      modifies this, data
      ensures Valid() && (data == old(data) || fresh(data)) && reserved == old(reserved)
      ensures rc == if |old(Contents())| == old(data.Length) && !memory then OUT_OF_MEMORY else OK
      ensures added == if rc == OK then old(added) + 1 else old(added)
      ensures Contents() == if rc == OK then old(Contents()) + [value] else old(Contents())
    {
      ghost var s := Contents();
      rc := Insert(count, value, memory);
      assert Inserted(s, |s|, value) == s + [value];
    }

    method RemoveAt(index: nat) returns (rc: Code)
      requires Valid()
      modifies this`count, data
      ensures Valid()
      ensures rc == if index >= |old(Contents())| then OUT_OF_RANGE else OK
      ensures Contents() == if rc == OK then Removed(old(Contents()), index) else old(Contents())
    {
      if index >= count {
        return OUT_OF_RANGE;
      }
      ghost var s := Contents();
      ShiftDown(data, index, count);
      count := count - 1;
      ClosedUp(data, s, index);
      rc := OK;
    }

    method Reserve(capacity: nat, memory: bool) returns (rc: Code)
      requires Valid()
      modifies this`data, this`moved, this`reserved
      ensures Valid() && Contents() == old(Contents()) && (data == old(data) || fresh(data))
      ensures rc == if capacity <= old(data.Length) || memory then OK else OUT_OF_MEMORY
      ensures rc == OK ==> data.Length >= capacity && reserved == Max(old(reserved), capacity)
      ensures rc != OK ==> data == old(data) && reserved == old(reserved)
    {
      ghost var before := reserved;
      reserved := Max(reserved, capacity);
      rc := Grow(capacity, memory);
      if rc != OK {
        reserved := before;
      }
    }

    method Count() returns (n: nat)
      requires Valid()
      ensures n == |Contents()|
    {
      n := count;
    }

    method Get(index: nat) returns (r: Option<T>)
      requires Valid()
      ensures r == if index < |Contents()| then Some(Contents()[index]) else None
    {
      r := if index < count then Some(data[index]) else None;
    }

    method Step(op: Op<T>) returns (rc: Code)
      requires Valid()
      modifies this, data
      ensures Valid() && (data == old(data) || fresh(data)) && reserved == old(reserved)
      ensures Answers(old(Contents()), op, rc) && Contents() == Do(old(Contents()), op, rc)
      ensures added <= old(added) + if rc == OK && !op.RemoveAt? then 1 else 0
    {
      match op
      case Add(x, memory) => rc := Add(x, memory);
      case Insert(i, x, memory) => rc := Insert(i, x, memory);
      case RemoveAt(i) => rc := RemoveAt(i);
    }

    /**
     Any run of calls on a new list, with memory that may give out: it holds what a
     sequence would, and reallocation has moved at most two elements for each added.
     */
    method Run(ops: seq<Op<T>>) returns (rcs: seq<Code>)
      requires Valid() && Contents() == [] && moved == 0 && added == 0 && reserved == 0
      modifies this, data
      ensures Valid() && |rcs| == |ops| && Contents() == DoAll([], ops, rcs)
      ensures AllAnswer([], ops, rcs)
      ensures moved <= 2 * Additions(ops, rcs)
    {
      hide DoAll, AllAnswer, Additions, Do, Answers;
      rcs := [];
      NothingDone<T>([]);
      assert ops[..0] == [];
      for i := 0 to |ops|
        invariant Valid() && (data == old(data) || fresh(data)) && reserved == 0
        invariant |rcs| == i && Contents() == DoAll([], ops[..i], rcs) && added <= Additions(ops[..i], rcs)
        invariant AllAnswer([], ops[..i], rcs)
      {
        var rc := Step(ops[i]);
        OneMore([], ops[..i], rcs, ops[i], rc);
        assert ops[..i + 1] == ops[..i] + [ops[i]];
        rcs := rcs + [rc];
      }
      assert ops[..|ops|] == ops;
      AmortizedBound();
    }
  }
}
