/** The header table of a message: an array of pairs that grows as headers are set. */
module HttpHeaders {
  import opened Bytes
  import opened HttpText

  const FIRST_CAPACITY: nat := 4

  /** The difference of two characters. */
  function Difference(a: byte, b: byte): (r: int)
    ensures r == 0 <==> a == b
  {
    a as int - b as int
  }

  /** Compares two C strings but for the case of ASCII letters; 0 exactly if they are equal so. */
  method CiStrcmp(a: bytes, b: bytes) returns (r: int)
    requires NulFree(a) && NulFree(b)
    ensures r == 0 <==> CiEqual(a, b)
    ensures r == 0 <==> SameButForCase(a, b)
  {
    CiExact(a, b);
    hide Lower, Difference, SameButForCase;
    var i := 0;
    while i < |a| && i < |b|
      invariant i <= |a| && i <= |b| && forall k :: 0 <= k < i ==> Lower(a[k]) == Lower(b[k])
    {
      if Lower(a[i]) != Lower(b[i]) {
        return Difference(Lower(a[i]), Lower(b[i]));
      }
      i := i + 1;
    }
    var x: byte := if i < |a| then a[i] else 0;
    var y: byte := if i < |b| then b[i] else 0;
    r := Difference(x, y);
  }

  /** Which of the allocations that a set may need would succeed. */
  datatype Memory = Memory(table: bool, name: bool, value: bool)

  const PLENTY: Memory := Memory(true, true, true)

  class HeaderTable {
    var pairs: array<Header>
    var count: nat

    ghost predicate Valid()
      reads this, pairs
    {
      && count <= pairs.Length && (forall i :: 0 <= i < count ==> NulFree(pairs[i].name))
      && NamesDiffer(pairs[..count])
    }

    ghost function Contents(): seq<Header>
      requires Valid()
      reads this, pairs
    {
      pairs[..count]
    }

    constructor ()
      ensures Valid() && Contents() == [] && fresh(pairs)
    {
      pairs, count := new Header[0], 0;
    }

    method IndexOf(name: bytes) returns (i: nat)
      requires Valid() && NulFree(name)
      ensures i == HeaderAt(Contents(), name)
    {
      i := 0;
      while i < count
        invariant i <= count && forall j :: 0 <= j < i ==> !CiEqual(pairs[j].name, name)
      {
        var c := CiStrcmp(pairs[i].name, name);
        if c == 0 {
          FirstHeader(Contents(), name, i);
          return;
        }
        i := i + 1;
      }
      NoHeader(Contents(), name);
    }

    /** Doubles the capacity; the first time there are four places. */
    method Grow()
      requires Valid()
      modifies this`pairs
      ensures Valid() && fresh(pairs) && Contents() == old(Contents())
      ensures pairs.Length == if old(pairs.Length) == 0 then FIRST_CAPACITY else 2 * old(pairs.Length)
    {
      var capacity := if pairs.Length == 0 then FIRST_CAPACITY else pairs.Length * 2;
      var bigger := new Header[capacity](_ => Header([], []));
      var i := 0;
      while i < count
        invariant pairs == old(pairs) && i <= count && bigger[..i] == pairs[..i]
      {
        bigger[i] := pairs[i];
        i := i + 1;
      }
      pairs := bigger;
    }

    /**
     Overwrites the value of a header that is there under that name in any case, or
     adds one; without the memory for it the contents are as they were.
     */
    method Set(name: bytes, value: bytes, mem: Memory) returns (ok: bool)
      requires Valid() && NulFree(name)
      modifies this, pairs
      ensures Valid() && (pairs == old(pairs) || fresh(pairs))
      ensures ok == if HeaderAt(old(Contents()), name) < |old(Contents())| then mem.value
                    else (old(count) == old(pairs.Length) ==> mem.table) && mem.name && mem.value
      ensures Contents() == if ok then SetHeader(old(Contents()), name, value) else old(Contents())
      ensures pairs.Length == if HeaderAt(old(Contents()), name) < old(pairs.Length) || !mem.table
                              then old(pairs.Length)
                              else if old(pairs.Length) == 0 then 4 else 2 * old(pairs.Length)
    {
      hide NamesDiffer;
      var i := IndexOf(name);
      if i < count {
        if mem.value {
          Overwrite(i, name, value);
        }
        return mem.value;
      }
      if count == pairs.Length {
        if !mem.table {
          return false;
        }
        Grow();
      }
      if !(mem.name && mem.value) {
        return false;
      }
      Append(name, value);
      ok := true;
    }

    /** Overwrites the value of the header at an index. */
    method Overwrite(i: nat, name: bytes, value: bytes)
      requires Valid() && i < count && i == HeaderAt(Contents(), name)
      modifies pairs
      ensures Valid() && Contents() == SetHeader(old(Contents()), name, value)
    {
      hide NamesDiffer, HeaderAt;
      GetOfSet(Contents(), name, value, name);
      pairs[i] := Header(pairs[i].name, value);
      assert pairs[..count] == old(Contents())[i := Header(old(pairs[i].name), value)];
    }

    /** Adds a header; there is room for it. */
    method Append(name: bytes, value: bytes)
      requires Valid() && NulFree(name) && count < pairs.Length && HeaderAt(Contents(), name) == count
      modifies this`count, pairs
      ensures Valid() && Contents() == SetHeader(old(Contents()), name, value)
    {
      hide NamesDiffer, HeaderAt;
      GetOfSet(Contents(), name, value, name);
      pairs[count] := Header(name, value);
      count := count + 1;
      assert pairs[..count] == old(Contents()) + [Header(name, value)];
    }

    method Get(name: bytes) returns (r: Option<bytes>)
      requires Valid() && NulFree(name)
      ensures r == GetHeader(Contents(), name)
      ensures r.None? <==> forall i :: 0 <= i < count ==> !SameButForCase(pairs[i].name, name)
      ensures r.Some? ==> exists i :: 0 <= i < count && SameButForCase(pairs[i].name, name) && r == Some(pairs[i].value)
    {
      var i := IndexOf(name);
      forall k | 0 <= k < count
        ensures CiEqual(pairs[k].name, name) <==> SameButForCase(pairs[k].name, name)
      {
        CiExact(pairs[k].name, name);
      }
      hide SameButForCase;
      r := if i < count then Some(pairs[i].value) else None;
    }
  }
}
