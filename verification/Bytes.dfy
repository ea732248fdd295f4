/** Bytes as the wire and the store see them, and the two optional/failing result shapes used throughout. */
module Bytes {

  type Byte = bv8
  type Bytes = seq<Byte>

  const CR: Byte := 0x0D
  const LF: Byte := 0x0A
  const CRLF: Bytes := [CR, LF]

  datatype Option<+T> = None | Some(value: T)

  /** The greater of two integers. */
  function Max(a: int, b: int): int {
    if a < b then b else a
  }

  /** The lesser of two integers. */
  function Min(a: int, b: int): int {
    if a < b then a else b
  }

  lemma OneMore(n: int, m: int)
    ensures (n - 1) * m + m == n * m
  {
  }

  /** The byte of a given numeric value. */
  function ByteAt(i: nat): Byte
    requires i < 256
  {
    if i == 0 then 0 else ByteAt(i - 1) + 1
  }

  lemma {:induction false} ByteAtIndex(i: nat)
    requires i < 256
    ensures ByteAt(i) as nat == i
  {
    if i > 0 {
      ByteAtIndex(i - 1);
      NextByte(ByteAt(i - 1));
    }
  }

  lemma NextByte(c: Byte)
    ensures c == 0xFF <==> c as nat == 255
    ensures c != 0xFF ==> (c + 1) as nat == c as nat + 1
  {
  }

  lemma ByteInjective(c: Byte, d: Byte)
    ensures c as nat == d as nat ==> c == d
  {
  }

  /** A text as bytes, one for each character. */
  function TextBytes(s: string): Bytes {
    seq(|s|, i requires 0 <= i < |s| => ByteAt(s[i] as int % 256))
  }
}
