/**
 The chained hash map: buckets of linked entries with cached hashes, relinked in
 place when the table grows.
 */
module HashMap {
  import opened Bytes

  const INITIAL_BUCKETS: nat := 16

  /** Return codes of the map's operations; allocation may fail at any point. */
  datatype Code = OK | NOT_FOUND | OUT_OF_MEMORY

  /** Which of the allocations that a set may need would succeed. */
  datatype Allocations = Allocations(table: bool, entry: bool, key: bool, value: bool) {
    predicate Suffice(growth: bool) {
      (growth ==> table) && entry && key && value
    }
  }

  /** A key as it is stored, and its value. */
  datatype Slot<K, V> = Slot(key: K, value: V)

  /** The memory that an entry owns for its value, overwritten in place. */
  class Block<V> {
    var data: V

    constructor (data: V)
      ensures this.data == data
    {
      this.data := data;
    }
  }

  /** An entry. Its key and the hash cached for it never change. */
  class Entry<K, V> {
    const hash: nat
    const key: K
    const value: Block<V>
    var next: Entry?<K, V>

    constructor (hash: nat, key: K, value: Block<V>, next: Entry?<K, V>)
      ensures this.hash == hash && this.key == key && this.value == value && this.next == next
    {
      this.hash, this.key, this.value, this.next := hash, key, value, next;
    }
  }

  /** Entry `i` of a chain, null past its end. */
  ghost function At<K, V>(c: seq<Entry<K, V>>, i: nat): Entry?<K, V> {
    if i < |c| then c[i] else null
  }

  /** The entries from `head` on are those of `c`, in order. */
  ghost predicate Linked<K, V>(head: Entry?<K, V>, c: seq<Entry<K, V>>)
    reads c
  {
    head == At(c, 0) && forall i :: 0 <= i < |c| ==> c[i].next == At(c, i + 1)
  }

  ghost predicate NoDuplicates<T>(c: seq<T>) {
    forall i, j :: 0 <= i < j < |c| ==> c[i] != c[j]
  }

  /** Chain `b` holds exactly the entries whose hash falls in bucket `b`, each once. */
  ghost predicate Placed<K, V>(chains: seq<seq<Entry<K, V>>>, entries: set<Entry<K, V>>) {
    && |chains| > 0
    && (forall b :: 0 <= b < |chains| ==> NoDuplicates(chains[b]))
    && (forall b, i :: 0 <= b < |chains| && 0 <= i < |chains[b]| ==>
          chains[b][i] in entries && chains[b][i].hash % |chains| == b)
    && (forall e :: e in entries ==> e in chains[e.hash % |chains|])
  }

  /** Putting an entry in front of its chain. */
  lemma PlaceOne<K, V>(chains: seq<seq<Entry<K, V>>>, entries: set<Entry<K, V>>, e: Entry<K, V>)
    requires Placed(chains, entries) && e !in entries
    ensures var b := e.hash % |chains|; Placed(chains[b := [e] + chains[b]], entries + {e})
    ensures |chains| > 0 && forall b :: 0 <= b < |chains| ==> e !in chains[b]
  {
    var b := e.hash % |chains|;
    var chains' := chains[b := [e] + chains[b]];
    forall x | x in entries + {e}
      ensures x in chains'[x.hash % |chains'|]
    {
      if x != e {
        assert x in chains[x.hash % |chains|];
      } else {
        assert chains'[b][0] == e;
      }
    }
  }

  /** Taking an entry out of its chain. */
  lemma RemoveOne<K, V>(chains: seq<seq<Entry<K, V>>>, entries: set<Entry<K, V>>, b: nat, i: nat)
    requires Placed(chains, entries) && b < |chains| && i < |chains[b]|
    ensures Placed(chains[b := chains[b][..i] + chains[b][i + 1..]], entries - {chains[b][i]})
  {
    var e, c' := chains[b][i], chains[b][..i] + chains[b][i + 1..];
    var chains' := chains[b := c'];
    forall b', k | 0 <= b' < |chains'| && 0 <= k < |chains'[b']|
      ensures chains'[b'][k] in entries - {e} && chains'[b'][k].hash % |chains'| == b'
    {
      if b' == b {
        var k' := if k < i then k else k + 1;
        assert chains'[b'][k] == chains[b][k'];
      } else {
        assert chains[b'][k] != e;
      }
    }
    forall x | x in entries - {e}
      ensures x in chains'[x.hash % |chains'|]
    {
      assert x in chains[x.hash % |chains|];
      if x.hash % |chains| == b {
        var k :| 0 <= k < |chains[b]| && chains[b][k] == x;
        assert c'[if k < i then k else k - 1] == x;
      }
    }
  }

  // ---- relinking ----

  ghost predicate AllLinked<K, V>(bs: array<Entry?<K, V>>, chains: seq<seq<Entry<K, V>>>, entries: set<Entry<K, V>>)
    requires |chains| == bs.Length && Placed(chains, entries)
    reads bs, entries
  {
    forall b :: 0 <= b < |chains| ==> Linked(bs[b], chains[b])
  }

  /** Puts one entry in front of the chain of its bucket. */
  method LinkInFront<K, V>(e: Entry<K, V>, bs: array<Entry?<K, V>>,
                           ghost chains: seq<seq<Entry<K, V>>>, ghost entries: set<Entry<K, V>>)
    returns (ghost chains': seq<seq<Entry<K, V>>>)
    requires |chains| == bs.Length && Placed(chains, entries) && AllLinked(bs, chains, entries) && e !in entries
    modifies bs, e
    ensures |chains'| == bs.Length && Placed(chains', entries + {e}) && AllLinked(bs, chains', entries + {e})
  {
    hide Placed, NoDuplicates;
    PlaceOne(chains, entries, e);
    var b := e.hash % bs.Length;
    chains' := chains[b := [e] + chains[b]];
    e.next := bs[b];
    bs[b] := e;
  }

  /** A chain in which the predecessor of entry `i`, or the head, skips that entry. */
  lemma LinkedAround<K, V>(head: Entry?<K, V>, c: seq<Entry<K, V>>, i: nat)
    requires i < |c| && head == (if i == 0 then At(c, 1) else c[0])
    requires forall k :: 0 <= k < |c| && k != i ==> c[k].next == if k + 1 == i then At(c, i + 1) else At(c, k + 1)
    ensures Linked(head, c[..i] + c[i + 1..])
  {
    var c' := c[..i] + c[i + 1..];
    forall k | 0 <= k < |c'|
      ensures c'[k].next == At(c', k + 1)
    {
      assert c'[k] == c[if k < i then k else k + 1];
    }
  }

  /** An entry is in no chain but its own, and there only once. */
  lemma Apart<K, V>(chains: seq<seq<Entry<K, V>>>, entries: set<Entry<K, V>>, b: nat, i: nat)
    requires Placed(chains, entries) && b < |chains| && i < |chains[b]|
    ensures forall d :: 0 <= d < |chains| && d != b ==> chains[b][i] !in chains[d]
    ensures forall k :: 0 <= k < |chains[b]| && k != i ==> chains[b][k] != chains[b][i]
    ensures chains[b][i] in entries
  {
    assert chains[b][i].hash % |chains| == b;
  }

  /** Takes entry `i` of chain `b` out: its predecessor, or the bucket, is made to skip it. */
  method Unlink<K, V>(prev: Entry?<K, V>, e: Entry<K, V>, b: nat, bs: array<Entry?<K, V>>, ghost i: nat,
                      ghost chains: seq<seq<Entry<K, V>>>, ghost entries: set<Entry<K, V>>)
    returns (ghost chains': seq<seq<Entry<K, V>>>)
    requires |chains| == bs.Length && Placed(chains, entries) && AllLinked(bs, chains, entries)
    requires b < bs.Length && i < |chains[b]| && e == chains[b][i]
    requires prev == if i == 0 then null else chains[b][i - 1]
    modifies bs, entries
    ensures |chains'| == bs.Length && Placed(chains', entries - {e}) && AllLinked(bs, chains', entries - {e})
  {
    hide Placed, NoDuplicates;
    RemoveOne(chains, entries, b, i);
    ghost var c := chains[b];
    chains' := chains[b := c[..i] + c[i + 1..]];
    assert Linked(bs[b], c);
    if prev == null {
      bs[b] := e.next;
    } else {
      Apart(chains, entries, b, i - 1);
      prev.next := e.next;
    }
    LinkedAround(bs[b], c, i);
  }

  ghost function Elements<T>(c: seq<T>): set<T> {
    set x | x in c
  }

  lemma LinkedTail<K, V>(head: Entry?<K, V>, c: seq<Entry<K, V>>)
    requires Linked(head, c) && c != []
    ensures head == c[0] && Linked(c[0].next, c[1..])
  {
    var t := c[1..];
    forall i | 0 <= i < |t| - 1
      ensures t[i].next == t[i + 1]
    {
      assert c[i + 1].next == c[i + 2];
    }
  }

  /** Moves the entries of one chain, one by one, into the new buckets. */
  method RelinkChain<K, V>(head: Entry?<K, V>, ghost c: seq<Entry<K, V>>, bs: array<Entry?<K, V>>,
                           ghost chains0: seq<seq<Entry<K, V>>>, ghost moved0: set<Entry<K, V>>)
    returns (ghost chains: seq<seq<Entry<K, V>>>)
    requires Linked(head, c) && NoDuplicates(c) && Elements(c) !! moved0
    requires |chains0| == bs.Length && Placed(chains0, moved0) && AllLinked(bs, chains0, moved0)
    modifies bs, Elements(c), moved0
    ensures |chains| == bs.Length && Placed(chains, moved0 + Elements(c)) && AllLinked(bs, chains, moved0 + Elements(c))
  {
    hide Placed, AllLinked;
    var entry := head;
    chains := chains0;
    ghost var moved, rest := moved0, c;
    while entry != null
      invariant Linked(entry, rest) && NoDuplicates(rest) && Elements(rest) !! moved
      invariant moved + Elements(rest) == moved0 + Elements(c)
      invariant |chains| == bs.Length && Placed(chains, moved) && AllLinked(bs, chains, moved)
      decreases |rest|
    {
      LinkedTail(entry, rest);
      UnconsElements(rest);
      var next := entry.next;
      chains := LinkInFront(entry, bs, chains, moved);
      moved, rest := moved + {entry}, rest[1..];
      entry := next;
    }
    assert moved == moved0 + Elements(c);
  }

  lemma UnconsElements<T>(c: seq<T>)
    requires c != [] && NoDuplicates(c)
    ensures NoDuplicates(c[1..]) && c[0] !in Elements(c[1..]) && Elements(c) == {c[0]} + Elements(c[1..])
  {
    assert c == [c[0]] + c[1..];
  }

  method NewTable<K, V>(n: nat) returns (bs: array<Entry?<K, V>>)
    ensures fresh(bs) && bs.Length == n && forall b :: 0 <= b < n ==> bs[b] == null
  {
    bs := new Entry?<K, V>[n](_ => null);
  }

  /** The entries of the first `n` chains. */
  ghost function EntriesBelow<K, V>(entries: set<Entry<K, V>>, size: nat, n: nat): set<Entry<K, V>>
    requires size > 0
  {
    set e | e in entries && e.hash % size < n
  }

  lemma NextChain<K, V>(chains: seq<seq<Entry<K, V>>>, entries: set<Entry<K, V>>, n: nat)
    requires Placed(chains, entries) && n < |chains|
    ensures var done := EntriesBelow(entries, |chains|, n);
            Elements(chains[n]) !! done && EntriesBelow(entries, |chains|, n + 1) == done + Elements(chains[n])
    ensures NoDuplicates(chains[n]) && EntriesBelow(entries, |chains|, n + 1) <= entries
    ensures forall b, e :: n < b < |chains| && e in chains[b] ==>
                             e !in EntriesBelow(entries, |chains|, n) && e !in Elements(chains[n])
  {
    forall e | e in entries && e.hash % |chains| == n
      ensures e in Elements(chains[n])
    {
      assert e in chains[e.hash % |chains|];
    }
  }

  lemma AllChains<K, V>(chains: seq<seq<Entry<K, V>>>, entries: set<Entry<K, V>>)
    requires Placed(chains, entries)
    ensures |chains| > 0
    ensures EntriesBelow(entries, |chains|, 0) == {} && EntriesBelow(entries, |chains|, |chains|) == entries
  {
  }

  lemma EmptyTable<K, V>(bs: array<Entry?<K, V>>) returns (chains: seq<seq<Entry<K, V>>>)
    requires bs.Length > 0 && forall b :: 0 <= b < bs.Length ==> bs[b] == null
    ensures |chains| == bs.Length && Placed(chains, {}) && AllLinked(bs, chains, {})
  {
    chains := seq(bs.Length, _ => []);
  }

  /**
   The in-place rehash: every entry of the old chains is moved, once, to the chain
   of its new bucket. No entry is created, and keys, hashes and values are not touched.
   */
  method Relink<K, V>(from: array<Entry?<K, V>>, bs: array<Entry?<K, V>>,
                      ghost oldChains: seq<seq<Entry<K, V>>>, ghost entries: set<Entry<K, V>>)
    returns (ghost chains: seq<seq<Entry<K, V>>>)
    requires from != bs && bs.Length > 0 && forall b :: 0 <= b < bs.Length ==> bs[b] == null
    requires |oldChains| == from.Length && Placed(oldChains, entries) && AllLinked(from, oldChains, entries)
    modifies bs, entries
    ensures |chains| == bs.Length && Placed(chains, entries) && AllLinked(bs, chains, entries)
  {
    hide Placed, Linked, NoDuplicates, Elements, EntriesBelow;
    AllChains(oldChains, entries);
    chains := EmptyTable(bs);
    ghost var moved: set<Entry<K, V>> := {};
    var i := 0;
    while i < from.Length
      invariant 0 <= i <= from.Length
      invariant moved == EntriesBelow(entries, from.Length, i)
      invariant |chains| == bs.Length && Placed(chains, moved) && AllLinked(bs, chains, moved)
      invariant forall b :: i <= b < from.Length ==> Linked(from[b], oldChains[b])
    {
      NextChain(oldChains, entries, i);
      chains := RelinkChain(from[i], oldChains[i], bs, chains, moved);
      moved := EntriesBelow(entries, from.Length, i + 1);
      i := i + 1;
    }
  }

  /** The initial number of buckets, doubled any number of times. */
  ghost predicate TableSize(n: nat) {
    n == INITIAL_BUCKETS || (n > INITIAL_BUCKETS && n % 2 == 0 && TableSize(n / 2))
  }

  lemma {:induction false} TableSizeFacts(n: nat)
    requires TableSize(n)
    ensures n >= 16 && n % 4 == 0 && TableSize(2 * n)
  {
    assert 2 * n / 2 == n;
    if n == INITIAL_BUCKETS {
    } else {
      TableSizeFacts(n / 2);
      assert n == 2 * (n / 2);
    }
  }

  lemma SizeOfDrop<T, U>(m: map<T, U>, c: T)
    requires c in m
    ensures |m - {c}| == |m| - 1
  {
    assert (m - {c}).Keys == m.Keys - {c};
  }

  /** A call of the map, what it answers, and what the callers of a map can tell of its state. */
  datatype Op<K, V> =
    | Set(key: K, value: V, mem: Allocations)
    | Get(key: K)
    | Contains(key: K)
    | Remove(key: K)

  datatype Answer<V> = Status(rc: Code) | Value(value: Option<V>) | Present(present: bool)

  datatype State<K, V, C> = State(contents: map<C, Slot<K, V>>, buckets: nat)

  /**
   The map. Keys are compared by their view, for strings the contents pointed at;
   `hash` is any hash of the view, so equal keys hash equally.
   */
  class Map<K, V, C(==, !new)> {
    const view: K -> C
    const hash: C -> nat
    var buckets: array<Entry?<K, V>>
    var count: nat
    /** The entries of each bucket, the entry of each key, and the entries' memory. */
    ghost var chains: seq<seq<Entry<K, V>>>
    ghost var index: map<C, Entry<K, V>>
    ghost var entries: set<Entry<K, V>>
    ghost var blocks: set<Block<V>>
    /** The mathematical map: for each view of a key, the key stored and its value. */
    ghost var contents: map<C, Slot<K, V>>

    function View(key: K): C {
      view(key)
    }

    function HashOf(c: C): nat {
      hash(c)
    }

    /** Every entry is in the chain of its bucket, and the chains are linked from the table. */
    ghost predicate Hangs()
      reads this`buckets, this`chains, this`entries, buckets, entries
    {
      |chains| == buckets.Length && Placed(chains, entries) && AllLinked(buckets, chains, entries)
    }

    /** The index takes the view of each entry's key to the entry, whose cached hash is right. */
    ghost predicate Indexes(index: map<C, Entry<K, V>>, entries: set<Entry<K, V>>) {
      && (forall c :: c in index ==> index[c] in entries && View(index[c].key) == c)
      && (forall e :: e in entries ==> View(e.key) in index && index[View(e.key)] == e && e.hash == HashOf(View(e.key)))
    }

    /** Each entry owns a block, which holds the value of its key. */
    ghost predicate Stores(index: map<C, Entry<K, V>>, blocks: set<Block<V>>, contents: map<C, Slot<K, V>>)
      reads blocks
    {
      && contents.Keys == index.Keys
      && (forall c :: c in index ==>
            index[c].value in blocks && contents[c] == Slot(index[c].key, index[c].value.data))
      && (forall c, d :: c in index && d in index && c != d ==> index[c].value != index[d].value)
    }

    ghost predicate Valid()
      reads this, buckets, entries, blocks
    {
      && Hangs()
      && Indexes(index, entries)
      && Stores(index, blocks, contents)
      && count == |contents|
      && 4 * count <= 3 * buckets.Length
      && TableSize(buckets.Length)
    }

    /** One more entry, with a block of its own. */
    lemma AddOne(index: map<C, Entry<K, V>>, entries: set<Entry<K, V>>, blocks: set<Block<V>>,
                 contents: map<C, Slot<K, V>>, e: Entry<K, V>)
      requires Indexes(index, entries) && Stores(index, blocks, contents)
      requires e.hash == HashOf(View(e.key)) && View(e.key) !in contents && e.value !in blocks
      ensures Indexes(index[View(e.key) := e], entries + {e})
      ensures Stores(index[View(e.key) := e], blocks + {e.value}, contents[View(e.key) := Slot(e.key, e.value.data)])
    {
    }

    /** One entry less. */
    lemma DropOne(index: map<C, Entry<K, V>>, entries: set<Entry<K, V>>, blocks: set<Block<V>>,
                  contents: map<C, Slot<K, V>>, c: C)
      requires Indexes(index, entries) && Stores(index, blocks, contents) && c in index
      ensures c in contents
      ensures Indexes(index - {c}, entries - {index[c]}) && Stores(index - {c}, blocks, contents - {c})
    {
    }

    constructor (view: K -> C, hash: C -> nat)
      ensures Valid() && contents == map[] && this.view == view && this.hash == hash
      ensures fresh(buckets) && entries == {} && blocks == {}
    {
      this.view, this.hash := view, hash;
      var bs := new Entry?<K, V>[INITIAL_BUCKETS](_ => null);
      buckets, count := bs, 0;
      chains, index, entries, blocks, contents := seq(INITIAL_BUCKETS, _ => []), map[], {}, {}, map[];
    }

    /** Whether an entry is the one looked for: hashes are compared first. */
    predicate Matches(e: Entry<K, V>, hash: nat, key: K) {
      e.hash == hash && View(e.key) == View(key)
    }

    /** Walks a chain to the first entry that matches, with the entry before it. */
    method Walk(head: Entry?<K, V>, ghost c: seq<Entry<K, V>>, hash: nat, key: K)
      returns (prev: Entry?<K, V>, e: Entry?<K, V>, ghost i: nat)
      requires Linked(head, c)
      ensures i <= |c| && forall k :: 0 <= k < i ==> !Matches(c[k], hash, key)
      ensures e == (if i < |c| then c[i] else null) && prev == if i == 0 then null else c[i - 1]
      ensures e != null ==> Matches(e, hash, key)
    {
      prev, e, i := null, head, 0;
      while e != null
        invariant i <= |c| && forall k :: 0 <= k < i ==> !Matches(c[k], hash, key)
        invariant e == (if i < |c| then c[i] else null) && prev == if i == 0 then null else c[i - 1]
        decreases |c| - i
      {
        if Matches(e, hash, key) {
          return;
        }
        assert e == c[i] && (i + 1 < |c| ==> c[i].next == c[i + 1]);
        prev := e;
        e := e.next;
        i := i + 1;
      }
    }

    /** What a walk of the key's chain that stops at `i` says about the index. */
    lemma WalkFinds(key: K, b: nat, i: nat)
      requires Hangs() && Indexes(index, entries)
      requires b == HashOf(View(key)) % |chains| && i <= |chains[b]|
      requires forall k :: 0 <= k < i ==> !Matches(chains[b][k], HashOf(View(key)), key)
      requires i < |chains[b]| ==> Matches(chains[b][i], HashOf(View(key)), key)
      ensures i < |chains[b]| <==> View(key) in index
      ensures i < |chains[b]| ==> index[View(key)] == chains[b][i]
    {
      if View(key) in index {
        var e := index[View(key)];
        assert e in chains[e.hash % |chains|];
        var k :| 0 <= k < |chains[b]| && chains[b][k] == e;
        assert Matches(chains[b][k], HashOf(View(key)), key) && k >= i;
      }
      if i < |chains[b]| {
        assert chains[b][i] in entries;
      }
    }

    /** Walks the chain of the key's bucket `b`. */
    method Locate(key: K) returns (b: nat, prev: Entry?<K, V>, e: Entry?<K, V>, ghost i: nat)
      requires Valid()
      ensures Hangs() && |chains| == buckets.Length
      ensures b < |chains| && i <= |chains[b]|
      ensures prev == (if i == 0 then null else chains[b][i - 1]) && e == At(chains[b], i)
      ensures e == null <==> View(key) !in contents
      ensures e != null ==> View(key) in index && e == index[View(key)]
    {
      var hash := HashOf(View(key));
      b := hash % buckets.Length;
      prev, e, i := Walk(buckets[b], chains[b], hash, key);
      WalkFinds(key, b, i);
    }

    method Find(key: K) returns (e: Entry?<K, V>)
      requires Valid()
      ensures e == null <==> View(key) !in contents
      ensures e != null ==> View(key) in index && e == index[View(key)]
    {
      hide *;
      var b, prev, x, i := Locate(key);
      e := x;
    }

    /** The rehash: the entries are moved into a new table of `n` buckets. */
    method Rehash(n: nat)
      requires Hangs() && n > 0
      modifies this`buckets, this`chains, entries
      ensures Hangs() && fresh(buckets) && buckets.Length == n
    {
      hide Placed, AllLinked;
      var bs := NewTable<K, V>(n);
      ghost var cs := Relink(buckets, bs, chains, entries);
      buckets := bs;
      chains := cs;
    }

    /** Doubles the table; nothing changes when there is no memory for it. */
    method Grow(alloc: bool) returns (rc: Code)
      requires Valid()
      modifies this`buckets, this`chains, entries
      ensures Valid()
      ensures rc == if alloc then OK else OUT_OF_MEMORY
      ensures rc == OK ==> fresh(buckets) && buckets.Length == 2 * old(buckets.Length)
      ensures rc == OK ==> 4 * (count + 1) <= 3 * buckets.Length
      ensures rc != OK ==> buckets == old(buckets)
    {
      hide Hangs, Indexes, Stores, TableSize;
      if !alloc {
        return OUT_OF_MEMORY;
      }
      TableSizeFacts(buckets.Length);
      Rehash(2 * buckets.Length);
      rc := OK;
    }

    /** Whether one more entry would exceed three quarters of the buckets. */
    predicate NeedsGrowth()
      reads this`count, this`buckets
    {
      count + 1 > buckets.Length * 3 / 4
    }

    /** The contents once a key is set: a key that was there is kept as it was stored. */
    ghost function With(key: K, value: V): map<C, Slot<K, V>>
      reads this`contents
    {
      contents[View(key) := Slot(if View(key) in contents then contents[View(key)].key else key, value)]
    }

    /** Overwrites the value of an entry in place. */
    method Overwrite(e: Entry<K, V>, key: K, value: V)
      requires Valid() && View(key) in index && e == index[View(key)]
      modifies this`contents, blocks
      ensures Valid() && contents == old(With(key, value))
    {
      hide Hangs, TableSize;
      e.value.data := value;
      contents := With(key, value);
    }

    /** Links a new entry in front of the chain of its bucket. */
    method Hang(e: Entry<K, V>)
      requires Hangs() && e !in entries
      modifies this`chains, this`entries, buckets, e
      ensures Hangs() && entries == old(entries) + {e}
    {
      hide Placed, AllLinked;
      chains := LinkInFront(e, buckets, chains, entries);
      entries := entries + {e};
    }

    /** Links a new entry into the table, which has room for it. */
    method Insert(key: K, value: V)
      requires Valid() && View(key) !in contents && 4 * (count + 1) <= 3 * buckets.Length
      modifies this`chains, this`index, this`entries, this`blocks, this`contents, this`count, buckets
      ensures Valid() && fresh(entries - old(entries)) && fresh(blocks - old(blocks))
      ensures contents == old(With(key, value))
    {
      hide Hangs, Indexes, Stores, TableSize;
      var block := new Block(value);
      var e := new Entry(HashOf(View(key)), key, block, null);
      AddOne(index, entries, blocks, contents, e);
      Hang(e);
      Record(e);
    }

    /** The bookkeeping once an entry is in its chain. */
    method Record(ghost e: Entry<K, V>)
      requires Hangs() && View(e.key) !in contents && count == |contents| && TableSize(buckets.Length)
      requires Indexes(index[View(e.key) := e], entries) && 4 * (count + 1) <= 3 * buckets.Length
      requires Stores(index[View(e.key) := e], blocks + {e.value}, contents[View(e.key) := Slot(e.key, e.value.data)])
      modifies this`index, this`blocks, this`contents, this`count
      ensures Valid() && blocks == old(blocks) + {e.value}
      ensures contents == old(contents)[View(e.key) := Slot(e.key, e.value.data)]
    {
      hide Hangs, Indexes, Stores, TableSize;
      index, blocks := index[View(e.key) := e], blocks + {e.value};
      contents := contents[View(e.key) := Slot(e.key, e.value.data)];
      count := count + 1;
    }

    /**
     Sets the value of a key: in place if the key is there, else in a new entry.
     `mem` says which of the allocations succeed; after a failure the map is as before.
     */
    method Set(key: K, value: V, mem: Allocations) returns (rc: Code)
      requires Valid()
      modifies this, buckets, entries, blocks
      ensures Valid() && (buckets == old(buckets) || fresh(buckets))
      ensures fresh(entries - old(entries)) && fresh(blocks - old(blocks))
      ensures rc == if View(key) in old(contents) || mem.Suffice(old(NeedsGrowth())) then OK else OUT_OF_MEMORY
      ensures contents == if rc == OK then old(With(key, value)) else old(contents)
      ensures buckets.Length == if View(key) !in old(contents) && old(NeedsGrowth()) && mem.table
                                then 2 * old(buckets.Length) else old(buckets.Length)
    {
      hide Hangs, Indexes, Stores, TableSize;
      var e := Find(key);
      if e != null {
        Overwrite(e, key, value);
        return OK;
      }
      if NeedsGrowth() {
        rc := Grow(mem.table);
        if rc != OK {
          return;
        }
      }
      if !(mem.entry && mem.key && mem.value) {
        return OUT_OF_MEMORY;
      }
      Insert(key, value);
      rc := OK;
    }

    /** The value stored for a key. */
    method Get(key: K) returns (r: Option<V>)
      requires Valid()
      ensures r == if View(key) in contents then Some(contents[View(key)].value) else None
    {
      hide Hangs, Indexes, TableSize;
      var e := Find(key);
      r := if e == null then None else Some(e.value.data);
    }

    method Contains(key: K) returns (r: bool)
      requires Valid()
      ensures r <==> View(key) in contents
    {
      hide Hangs, Indexes, Stores, TableSize;
      var e := Find(key);
      r := e != null;
    }

    method Count() returns (n: nat)
      requires Valid()
      ensures n == |contents|
    {
      n := count;
    }

    /** Takes the key's entry out of its chain. */
    method Remove(key: K) returns (rc: Code)
      requires Valid()
      modifies this`chains, this`index, this`entries, this`contents, this`count, buckets, entries
      ensures Valid() && entries <= old(entries)
      ensures rc == if View(key) in old(contents) then OK else NOT_FOUND
      ensures contents == old(contents) - {View(key)}
    {
      hide Hangs, Indexes, Stores, TableSize;
      var b, prev, e, i := Locate(key);
      if e == null {
        return NOT_FOUND;
      }
      DropOne(index, entries, blocks, contents, View(key));
      Unhang(prev, e, b, i);
      Unrecord(View(key));
      rc := OK;
    }

    /** The bookkeeping once an entry is out of its chain. */
    method Unrecord(ghost c: C)
      requires Hangs() && Indexes(index - {c}, entries) && Stores(index - {c}, blocks, contents - {c})
      requires c in contents && count == |contents| && 4 * count <= 3 * buckets.Length && TableSize(buckets.Length)
      modifies this`index, this`contents, this`count
      ensures Valid() && contents == old(contents) - {c}
    {
      hide Hangs, Indexes, Stores, TableSize;
      SizeOfDrop(contents, c);
      index, contents := index - {c}, contents - {c};
      count := count - 1;
    }

    /** Takes entry `i` of chain `b` out of the table. */
    method Unhang(prev: Entry?<K, V>, e: Entry<K, V>, b: nat, ghost i: nat)
      requires Hangs() && b < |chains| == buckets.Length && i < |chains[b]| && e == chains[b][i]
      requires prev == if i == 0 then null else chains[b][i - 1]
      modifies this`chains, this`entries, buckets, entries
      ensures Hangs() && entries == old(entries) - {e}
    {
      hide Placed, AllLinked;
      chains := Unlink(prev, e, b, buckets, i, chains, entries);
      entries := entries - {e};
    }

    ghost function Abstract(): State<K, V, C>
      reads this`contents, this`buckets
    {
      State(contents, buckets.Length)
    }

    /** What a call does on a mathematical map. */
    ghost function Perform(s: State<K, V, C>, op: Op<K, V>): (State<K, V, C>, Answer<V>) {
      var c := View(op.key);
      match op
      case Set(key, value, mem) =>
        var growth := c !in s.contents && |s.contents| + 1 > s.buckets * 3 / 4;
        var size := if growth && mem.table then 2 * s.buckets else s.buckets;
        if c in s.contents then (State(s.contents[c := Slot(s.contents[c].key, value)], size), Status(OK))
        else if mem.Suffice(growth) then (State(s.contents[c := Slot(key, value)], size), Status(OK))
        else (State(s.contents, size), Status(OUT_OF_MEMORY))
      case Get(_) => (s, Value(if c in s.contents then Some(s.contents[c].value) else None))
      case Contains(_) => (s, Present(c in s.contents))
      case Remove(_) => (State(s.contents - {c}, s.buckets), Status(if c in s.contents then OK else NOT_FOUND))
    }

    /** The state and the answers after a run of calls. */
    ghost function PerformAll(s: State<K, V, C>, ops: seq<Op<K, V>>): (State<K, V, C>, seq<Answer<V>>) {
      if ops == [] then (s, []) else
        var last := |ops| - 1;
        var (before, answers) := PerformAll(s, ops[..last]);
        var (after, answer) := Perform(before, ops[last]);
        (after, answers + [answer])
    }

    lemma CountOf()
      requires Valid()
      ensures count == |contents|
    {
    }

    method Call(op: Op<K, V>) returns (answer: Answer<V>)
      requires Valid()
      modifies this, buckets, entries, blocks
      ensures Valid() && (buckets == old(buckets) || fresh(buckets))
      ensures fresh(entries - old(entries)) && fresh(blocks - old(blocks))
      ensures (Abstract(), answer) == Perform(old(Abstract()), op)
    {
      hide Valid, HashOf;
      match op
      case Set(key, value, mem) =>
        assert count == |contents| by { CountOf(); }
        var rc := Set(key, value, mem);
        answer := Status(rc);
      case Get(key) =>
        var r := Get(key);
        answer := Value(r);
      case Contains(key) =>
        var r := Contains(key);
        answer := Present(r);
      case Remove(key) =>
        var rc := Remove(key);
        answer := Status(rc);
    }

    /** Any run of calls answers, and leaves behind, what it would on a mathematical map. */
    method Run(ops: seq<Op<K, V>>) returns (answers: seq<Answer<V>>)
      requires Valid()
      modifies this, buckets, entries, blocks
      ensures Valid() && (buckets == old(buckets) || fresh(buckets))
      ensures fresh(entries - old(entries)) && fresh(blocks - old(blocks))
      ensures (Abstract(), answers) == PerformAll(old(Abstract()), ops)
    {
      hide Valid, Perform;
      answers := [];
      for i := 0 to |ops|
        invariant Valid() && (buckets == old(buckets) || fresh(buckets))
        invariant fresh(entries - old(entries)) && fresh(blocks - old(blocks))
        invariant (Abstract(), answers) == PerformAll(old(Abstract()), ops[..i])
      {
        var answer := Call(ops[i]);
        answers := answers + [answer];
        assert ops[..i + 1][..i] == ops[..i];
      }
      assert ops[..|ops|] == ops;
    }

    /** The value that the last successful call about `c` left behind. */
    ghost function LastWrite(ops: seq<Op<K, V>>, answers: seq<Answer<V>>, c: C, initial: Option<V>): Option<V>
      requires |ops| == |answers|
    {
      if ops == [] then initial else
        var last := |ops| - 1;
        if answers[last] == Status(OK) && View(ops[last].key) == c then
          if ops[last].Set? then Some(ops[last].value) else None
        else LastWrite(ops[..last], answers[..last], c, initial)
    }

    ghost function ValueIn(s: State<K, V, C>, c: C): Option<V> {
      if c in s.contents then Some(s.contents[c].value) else None
    }

    /** After a run, a key has the value of the last call that set it, or none if that call removed it. */
    lemma {:induction false} ReadsLastWrite(s: State<K, V, C>, ops: seq<Op<K, V>>, c: C)
      ensures var (after, answers) := PerformAll(s, ops);
              |answers| == |ops| && ValueIn(after, c) == LastWrite(ops, answers, c, ValueIn(s, c))
    {
      if ops == [] {
      } else {
        var last := |ops| - 1;
        ReadsLastWrite(s, ops[..last], c);
        var (before, answers) := PerformAll(s, ops[..last]);
        var (after, answer) := Perform(before, ops[last]);
        assert (answers + [answer])[..last] == answers;
      }
    }
  }
}
