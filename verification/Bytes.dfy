/** Bytes, C strings and the option type shared by the other modules. */
module Bytes {
  type byte = bv8
  type bytes = seq<byte>

  datatype Option<+T> = None | Some(value: T)

  /** The contents of a C string: the bytes before its terminator hold no NUL. */
  ghost predicate NulFree(s: bytes) {
    0 !in s
  }

  /** What `strlen` and the other string functions see of a NUL-terminated buffer. */
  function UpToNul(s: bytes): (r: bytes)
    ensures NulFree(r)
    ensures |r| <= |s| && r == s[..|r|]
    ensures |r| < |s| ==> s[|r|] == 0
  {
    if s == [] || s[0] == 0 then [] else [s[0]] + UpToNul(s[1..])
  }

  lemma UpToNulOfNulFree(s: bytes)
    requires NulFree(s)
    ensures UpToNul(s) == s
  {
  }

  /** Appending a terminator and reading the string back gives the string. */
  lemma UpToNulTerminated(s: bytes, rest: bytes)
    requires NulFree(s)
    ensures UpToNul(s + [0] + rest) == s
  {
    if s != [] {
      assert (s + [0] + rest)[1..] == s[1..] + [0] + rest;
      UpToNulTerminated(s[1..], rest);
    }
  }

  lemma UpToNulPrefix(s: bytes)
    ensures UpToNul(s + [0]) == UpToNul(s)
  {
    if s != [] {
      assert (s + [0])[1..] == s[1..] + [0];
      UpToNulPrefix(s[1..]);
    }
  }
}
