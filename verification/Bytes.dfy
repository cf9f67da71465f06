/** Bytes, and strings as the bytes of their UTF-8 encoding. */
module Bytes {
  newtype byte = x: int | 0 <= x < 256

  /// A string, as the bytes that encode it.
  type Text = seq<byte>

  datatype Option<+T> = None | Some(value: T)

  function Ascii(s: string): (t: Text)
    requires forall i :: 0 <= i < |s| ==> s[i] < 128 as char
    ensures |t| == |s| && forall i :: 0 <= i < |s| ==> t[i] == s[i] as byte
  {
    seq(|s|, i requires 0 <= i < |s| => s[i] as byte)
  }
}
