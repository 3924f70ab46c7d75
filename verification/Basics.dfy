/** Bytes, C strings and options. */
module Basics {
  type Byte = x: int | 0 <= x < 256

  /** A C string: bytes without the terminating zero. */
  type Text = s: seq<Byte> | 0 !in s

  const BUFFER_LEN := 8192

  /** The longest piece of data the store of chunks takes. */
  const MAX_CHUNK_LEN := 16384 - 1

  datatype Option<+T> = None | Some(value: T) {
    function GetOr(default: T): T {
      if Some? then value else default
    }
  }

  // ----- upper case, in the C locale -----

  function UpperByte(c: Byte): Byte { if 97 <= c <= 122 then c - 32 else c }

  function Upper(s: seq<Byte>): (u: seq<Byte>)
    ensures |u| == |s| && (forall i :: 0 <= i < |s| ==> u[i] == UpperByte(s[i])) && (0 !in s ==> 0 !in u)
  {
    if s == [] then [] else [UpperByte(s[0])] + Upper(s[1..])
  }

  // ----- C strings in bytes -----

  /** A byte string up to its first zero, as a C string holds it. */
  function CutAtNul(bs: seq<Byte>): (s: Text) {
    if bs == [] || bs[0] == 0 then []
    else
      var t: seq<Byte> := [bs[0]] + CutAtNul(bs[1..]);
      t
  }

  lemma {:induction false} CutFacts(bs: seq<Byte>)
    ensures var s := CutAtNul(bs);
            |s| <= |bs| && s == bs[..|s|] && (|s| < |bs| ==> bs[|s|] == 0)
    ensures forall k :: 0 <= k < |CutAtNul(bs)| ==> bs[k] != 0
  {
    if bs != [] && bs[0] != 0 { CutFacts(bs[1..]); }
  }
}
