/** The printer and the reader one after the other. */
module JsonEngine {
  import opened Bytes
  import opened Json
  import opened JsonParse
  import opened JsonMemory
  import opened JsonNode
  import opened JsonReader
  import opened JsonPrinter
  import opened JsonRoundTrip

  /**
   What the printer writes of a tree, terminated and in whatever memory, the reader
   makes a new tree of: for the same value with the same order of elements and of keys,
   but for the sign of zeros. It refuses a text that a number in it makes unreadable.
   */
  method PrintThenRead(n: Node, ghost v: Json, ghost mem: set<object>, junk: bytes, hash: bytes -> nat)
    returns (r: Reading, ghost own: set<object>)
    requires Denotes(n, v, mem) && WellFormed(v)
    ensures r.Read? <==> Readable(v)
    ensures r.Read? ==> Denotes(r.node, AsRead(v), own) && fresh(own)
    ensures AllComeBack(v) <==> r.Read? && Denotes(r.node, v, own)
  {
    hide Print, ParseText, WellFormed, Denotes, Readable, AllComeBack, AsRead;
    var text, asked := Stringify(n, v, mem, ALWAYS);
    UpToNulTerminated(text.value, junk);
    PrintedReads(v);
    AsReadExact(v);
    ghost var w;
    r, w, own, asked := ParseBuffer(text.value + [0] + junk, hash, ALWAYS);
    if r.Read? && Denotes(r.node, v, own) {
      OneValue(r.node, v, AsRead(v), own);
    }
  }
}
