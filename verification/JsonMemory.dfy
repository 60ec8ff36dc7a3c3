/** Memory that may give out, and the growing string that the reader and the printer append to. */
module JsonMemory {
  import opened Bytes

  /** Which of the allocations that are asked for, one after another, succeed. */
  type Supply = nat -> bool

  const ALWAYS: Supply := _ => true
  const NEVER: Supply := _ => false

  /** Whether one of the first allocations fails. */
  ghost predicate Lacks(supply: Supply, asked: nat) {
    exists k: nat :: k < asked && !supply(k)
  }

  lemma LacksSome(supply: Supply, asked: nat)
    ensures Lacks(supply, asked) ==> exists k :: !supply(k)
  {
  }

  lemma LacksMore(supply: Supply, asked: nat)
    ensures !Lacks(supply, 0) && (Lacks(supply, asked + 1) <==> Lacks(supply, asked) || !supply(asked))
  {
  }

  lemma LacksBoth(supply: Supply, from: nat, rest: Supply, asked: nat)
    requires forall n: nat :: rest(n) == supply(from + n)
    ensures Lacks(supply, from + asked) <==> Lacks(supply, from) || Lacks(rest, asked)
  {
    if k: nat :| k < from + asked && !supply(k) {
      assert k >= from ==> !rest(k - from);
    }
    if k: nat :| k < asked && !rest(k) {
      assert !supply(from + k);
    }
  }

  /** The growing string: appending takes a C string, and without memory leaves the string as it is. */
  class TenString {
    const supply: Supply
    var data: bytes
    var asked: nat

    constructor (supply: Supply)
      ensures data == [] && asked == 0 && !Short() && this.supply == supply
    {
      this.supply, data, asked := supply, [], 0;
    }

    /** Whether there was too little memory at some time. */
    ghost predicate Short()
      reads this`asked
    {
      Lacks(supply, asked)
    }

    /** Its callers do not look whether it could be done. */
    method Append(text: bytes)
      modifies this
      ensures asked == old(asked) + 1 && Short() == (old(Short()) || !supply(old(asked)))
      ensures data == old(data) + if supply(old(asked)) then UpToNul(text) else []
      ensures NulFree(old(data)) ==> NulFree(data)
    {
      LacksMore(supply, asked);
      if supply(asked) {
        data := data + UpToNul(text);
      }
      asked := asked + 1;
    }
  }
}
