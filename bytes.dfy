/** Bytes and C strings as the driver sees them: kernel `char` buffers are
    sequences of 8-bit values, and a C string ends at its first NUL byte. */
module Bytes {

  newtype byte = x: int | 0 <= x < 256

  const Nul: byte := 0x00
  const Newline: byte := 0x0a

  datatype Option<+T> = None | Some(value: T)

  /** The bytes of an ASCII (or Latin-1) literal, one byte per character. */
  function Ascii(s: string): (r: seq<byte>)
    requires forall i :: 0 <= i < |s| ==> s[i] as int < 256
    ensures |r| == |s|
    ensures forall i :: 0 <= i < |s| ==> r[i] as int == s[i] as int
  {
    seq(|s|, i requires 0 <= i < |s| => s[i] as int as byte)
  }

  /** No byte of `s` is a terminator: `s` can be read whole as a C string. */
  predicate NulFree(s: seq<byte>) {
    forall i :: 0 <= i < |s| ==> s[i] != Nul
  }

  /** The C string stored in `s`: everything before the first NUL byte, or all
      of `s` when it holds no NUL. */
  function CStr(s: seq<byte>): (r: seq<byte>)
    ensures |r| <= |s| && r == s[..|r|]
    ensures NulFree(r)
    ensures |r| < |s| ==> s[|r|] == Nul
  {
    if |s| == 0 || s[0] == Nul then [] else [s[0]] + CStr(s[1..])
  }

  /** A string followed by a terminator reads back as that string, whatever
      comes after the terminator. */
  lemma {:induction false} CStrOfTerminated(t: seq<byte>, rest: seq<byte>)
    requires NulFree(t)
    ensures CStr(t + [Nul] + rest) == t
  {
    if |t| > 0 {
      assert (t + [Nul] + rest)[1..] == t[1..] + [Nul] + rest;
      CStrOfTerminated(t[1..], rest);
    }
  }

  /** Appending a terminator never changes the C string a buffer holds. */
  lemma {:induction false} CStrAppendNul(s: seq<byte>)
    ensures CStr(s + [Nul]) == CStr(s)
  {
    if |s| > 0 && s[0] != Nul {
      assert (s + [Nul])[1..] == s[1..] + [Nul];
      CStrAppendNul(s[1..]);
    }
  }
}
