/** The growable byte buffer: its capacity doubles until a write fits, and clearing keeps it. */
module GrowBuffer {
  import opened Bytes

  const INITIAL_CAPACITY: nat := 16

  /** A call that changes a buffer, and whether it would get the memory that it may need. */
  datatype Op = Write(data: bytes, memory: bool) | Clear

  /** What a buffer holds after a call that succeeds or not. */
  function Do(s: bytes, op: Op, ok: bool): bytes {
    if !ok then s
    else match op
      case Write(data, _) => s + data
      case Clear => []
  }

  function DoAll(s: bytes, ops: seq<Op>, oks: seq<bool>): bytes
    requires |ops| == |oks|
  {
    if ops == [] then s
    else
      var last := |ops| - 1;
      Do(DoAll(s, ops[..last], oks[..last]), ops[last], oks[last])
  }

  /** Whether a call can fail. */
  predicate MayFail(op: Op) {
    op.Write? && op.data != [] && !op.memory
  }

  /** The bytes written in all, cleared or not. */
  function Total(ops: seq<Op>, oks: seq<bool>): nat
    requires |ops| == |oks|
  {
    if ops == [] then 0
    else
      var last := |ops| - 1;
      Total(ops[..last], oks[..last]) + if oks[last] && ops[last].Write? then |ops[last].data| else 0
  }

  lemma NothingDone(s: bytes)
    ensures DoAll(s, [], []) == s && Total([], []) == 0
  {
  }

  lemma OneMore(s: bytes, ops: seq<Op>, oks: seq<bool>, op: Op, ok: bool)
    requires |ops| == |oks|
    ensures DoAll(s, ops + [op], oks + [ok]) == Do(DoAll(s, ops, oks), op, ok)
    ensures Total(ops + [op], oks + [ok]) == Total(ops, oks) + if ok && op.Write? then |op.data| else 0
  {
    assert (ops + [op])[..|ops|] == ops && (oks + [ok])[..|oks|] == oks;
  }

  /** The first capacity, doubled `k` times. */
  function Capacity(k: nat): (n: nat)
    ensures n >= 16
  {
    if k == 0 then 16 else 2 * Capacity(k - 1)
  }

  ghost predicate Doubled(n: nat) {
    exists k: nat :: n == Capacity(k)
  }

  lemma DoubledFacts(n: nat)
    requires Doubled(n)
    ensures n >= INITIAL_CAPACITY && Doubled(2 * n)
  {
    var k: nat :| n == Capacity(k);
    assert 2 * n == Capacity(k + 1);
  }

  /** The capacity that a write grows to: doubled until it fits, and less than twice what it has to hold. */
  method NewCapacity(capacity: nat, needed: nat) returns (n: nat)
    requires capacity == 0 || Doubled(capacity)
    requires capacity < needed
    ensures Doubled(n) && needed <= n && 2 * capacity <= n
    ensures n > INITIAL_CAPACITY ==> n < 2 * needed
  {
    if capacity == 0 {
      n := INITIAL_CAPACITY;
      assert n == Capacity(0);
    } else {
      DoubledFacts(capacity);
      n := capacity * 2;
    }
    while n < needed
      invariant Doubled(n) && 2 * capacity <= n
      invariant n > INITIAL_CAPACITY ==> n < 2 * needed
      decreases needed - n
    {
      DoubledFacts(n);
      n := n * 2;
    }
  }

  class Buffer {
    var data: array<byte>
    var size: nat
    /** The bytes that reallocation has moved, at most, and the bytes written. */
    ghost var moved: nat
    ghost var written: nat

    ghost predicate Valid()
      reads this, data
    {
      && size <= data.Length
      && size <= written
      && (data.Length == 0 || Doubled(data.Length))
      && (data.Length <= INITIAL_CAPACITY ==> moved == 0)
      && moved <= data.Length
      && (data.Length > INITIAL_CAPACITY ==> data.Length < 2 * written)
    }

    ghost function Contents(): bytes
      requires Valid()
      reads this, data
    {
      data[..size]
    }

    constructor ()
      ensures Valid() && Contents() == [] && moved == 0 && written == 0 && fresh(data)
    {
      data, size, moved, written := new byte[0], 0, 0, 0;
    }

    /** Moves the contents to an array of `capacity` bytes. */
    method Reallocate(capacity: nat)
      requires size <= data.Length && size <= capacity
      modifies this`data, this`moved
      ensures fresh(data) && data.Length == capacity && data[..size] == old(data[..size])
      ensures moved == old(moved) + old(data.Length)
    {
      var bigger := new byte[capacity];
      for i := 0 to size
        invariant data == old(data) && moved == old(moved) && bigger[..i] == data[..i]
      {
        bigger[i] := data[i];
      }
      moved := moved + data.Length;
      data := bigger;
    }

    /** Copies bytes behind the contents. */
    method CopyIn(more: bytes)
      requires size + |more| <= data.Length
      modifies data
      ensures data[..size + |more|] == old(data[..size]) + more
    {
      for i := 0 to |more|
        invariant data[..size] == old(data[..size]) && data[size..size + i] == more[..i]
      {
        data[size + i] := more[i];
      }
      assert data[..size + |more|] == data[..size] + data[size..size + |more|];
    }

    /** Appends bytes; without the memory for them the buffer is as it was. */
    method Write(more: bytes, memory: bool) returns (ok: bool)
      requires Valid()
      modifies this, data
      ensures Valid() && (data == old(data) || fresh(data))
      ensures ok == (|more| == 0 || |old(Contents())| + |more| <= old(data.Length) || memory)
      ensures Contents() == if ok then old(Contents()) + more else old(Contents())
      ensures written == if ok then old(written) + |more| else old(written)
    {
      hide Doubled;
      if |more| == 0 {
        assert Contents() + more == Contents();
        return true;
      }
      if size + |more| > data.Length {
        if !memory {
          return false;
        }
        if data.Length > 0 {
          DoubledFacts(data.Length);
        }
        var capacity := NewCapacity(data.Length, size + |more|);
        Reallocate(capacity);
      }
      Append(more);
      ok := true;
    }

    /** Appends bytes; there is room for them. */
    method Append(more: bytes)
      requires size + |more| <= data.Length && size <= written && (data.Length == 0 || Doubled(data.Length))
      requires moved <= data.Length && (data.Length <= INITIAL_CAPACITY ==> moved == 0)
      requires data.Length > INITIAL_CAPACITY ==> data.Length < 2 * (written + |more|)
      modifies this`size, this`written, data
      ensures Valid() && Contents() == old(data[..size]) + more && written == old(written) + |more|
    {
      hide Doubled;
      written := written + |more|;
      CopyIn(more);
      size := size + |more|;
    }

    method Clear()
      requires Valid()
      modifies this`size
      ensures Valid() && Contents() == []
    {
      size := 0;
    }

    /** The doubling keeps the total that reallocation moves within twice what was written. */
    lemma AmortizedBound()
      requires Valid()
      ensures moved <= 2 * written
    {
    }

    method Step(op: Op) returns (ok: bool)
      requires Valid()
      modifies this, data
      ensures Valid() && (data == old(data) || fresh(data)) && (ok || MayFail(op))
      ensures Contents() == Do(old(Contents()), op, ok)
      ensures written == old(written) + if ok && op.Write? then |op.data| else 0
    {
      ok := true;
      match op
      case Write(more, memory) => ok := Write(more, memory);
      case Clear => Clear();
    }

    /**
     Any run of writes and clears on a new buffer, with memory that may give out: it
     holds what a sequence would, and reallocation has moved at most twice the bytes
     written, cleared or not.
     */
    method Run(ops: seq<Op>) returns (oks: seq<bool>)
      requires Valid() && Contents() == [] && moved == 0 && written == 0
      modifies this, data
      ensures Valid() && |oks| == |ops| && Contents() == DoAll([], ops, oks) && moved <= 2 * Total(ops, oks)
      ensures forall i :: 0 <= i < |ops| ==> oks[i] || MayFail(ops[i])
    {
      hide DoAll, Total, Do, MayFail;
      oks := [];
      NothingDone([]);
      assert ops[..0] == [];
      for i := 0 to |ops|
        invariant Valid() && (data == old(data) || fresh(data))
        invariant |oks| == i && Contents() == DoAll([], ops[..i], oks) && written == Total(ops[..i], oks)
        invariant forall k :: 0 <= k < i ==> oks[k] || MayFail(ops[k])
      {
        var ok := Step(ops[i]);
        OneMore([], ops[..i], oks, ops[i], ok);
        assert ops[..i + 1] == ops[..i] + [ops[i]];
        oks := oks + [ok];
      }
      assert ops[..|ops|] == ops;
      AmortizedBound();
    }
  }
}
