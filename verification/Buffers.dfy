/**
 Bytes, copying into a buffer, and texts that end with a NUL.
 */
module Buffers {

  type Byte = b: int | 0 <= b < 256

  /** `d` has been written at `at` and nothing else has changed. */
  ghost predicate Wrote<T>(before: seq<T>, after: seq<T>, at: nat, d: seq<T>) {
    at + |d| <= |before| && after == before[..at] + d + before[at + |d|..]
  }

  /** `memcpy` into the buffer. */
  method CopyIn<T>(buf: array<T>, at: nat, d: seq<T>)
    requires at + |d| <= buf.Length
    modifies buf
    ensures Wrote(old(buf[..]), buf[..], at, d)
  {
    ghost var before := buf[..];
    for i := 0 to |d|
      invariant forall k :: 0 <= k < buf.Length ==> buf[k] == if at <= k < at + i then d[k - at] else before[k]
    {
      buf[at + i] := d[i];
    }
  }

  /** The characters up to the first NUL. */
  function CString(s: string): (t: string) {
    if s == "" || s[0] == '\0' then "" else [s[0]] + CString(s[1..])
  }

  lemma {:induction false} CStringEnds(s: string, rest: string)
    requires forall i :: 0 <= i < |s| ==> s[i] != '\0'
    ensures CString(s + ['\0'] + rest) == s
    decreases |s|
  {
    var t := s + ['\0'] + rest;
    if s != "" {
      assert t[1..] == s[1..] + ['\0'] + rest;
      CStringEnds(s[1..], rest);
    }
  }
}
