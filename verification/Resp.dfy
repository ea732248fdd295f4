/**
 RESP2 values and the two pure halves of the codec: what bytes a value is written as, and what a run of the
 parser on a finite input yields and leaves unread.
 */
module Resp {
  import opened Bytes
  import opened Decimal

  const TAG_SIMPLE: Byte := 0x2B
  const TAG_ERROR: Byte := 0x2D
  const TAG_INTEGER: Byte := 0x3A
  const TAG_BULK: Byte := 0x24
  const TAG_ARRAY: Byte := 0x2A

  const MAX_BULK_SIZE: nat := 536870912
  const MAX_ARRAY_LENGTH: nat := 1048576

  datatype Value =
    | SimpleString(str: Bytes)
    | Error(msg: Bytes)
    | Integer(n: int)
    | BulkString(bulk: Bytes)
    | NullBulk
    | Array(items: seq<Value>)
    | NullArray

  /** The values the wire format can carry: one-line strings, 64-bit integers, and both size caps at every depth. */
  predicate Wire(v: Value) {
    match v
    case SimpleString(s) => LF !in s
    case Error(s) => LF !in s
    case Integer(n) => IsInt64(n)
    case BulkString(b) => |b| <= MAX_BULK_SIZE
    case Array(items) => |items| <= MAX_ARRAY_LENGTH && forall i :: 0 <= i < |items| ==> Wire(items[i])
    case _ => true
  }

  predicate WireAll(vs: seq<Value>) {
    forall i :: 0 <= i < |vs| ==> Wire(vs[i])
  }

  // ---------------------------------------------------------------- writing

  function Line(tag: Byte, text: Bytes): Bytes {
    [tag] + text + CRLF
  }

  function Encode(v: Value): (s: Bytes)
    ensures |s| >= 3
    decreases v, 0
  {
    match v
    case SimpleString(s) => Line(TAG_SIMPLE, s)
    case Error(s) => Line(TAG_ERROR, s)
    case Integer(n) => Line(TAG_INTEGER, FormatInt(n))
    case BulkString(b) => Line(TAG_BULK, FormatInt(|b|)) + b + CRLF
    case NullBulk => Line(TAG_BULK, FormatInt(-1))
    case Array(items) => Line(TAG_ARRAY, FormatInt(|items|)) + EncodeAll(items)
    case NullArray => Line(TAG_ARRAY, FormatInt(-1))
  }

  function EncodeAll(vs: seq<Value>): Bytes
    decreases vs, 1
  {
    if vs == [] then [] else Encode(vs[0]) + EncodeAll(vs[1..])
  }

  // ---------------------------------------------------------------- reading

  /** `UnexpectedEof` is the parser's own error; the `Io` ones are passed on from the reader. */
  datatype ParseError =
    | UnexpectedEof
    | IoEof
    | IoUnexpectedEof
    | InvalidFormat
    | InvalidType(tag: Byte)
    | TooLarge

  /** The errors that say only that the input ended too soon. */
  predicate IsEofClass(e: ParseError) {
    e.UnexpectedEof? || e.IoEof? || e.IoUnexpectedEof?
  }

  /** What a parsing step yields, and the input it leaves unread (also when it fails). */
  datatype Parsed<+T> =
    | Ok(value: T, rest: Bytes)
    | Err(error: ParseError, rest: Bytes)
  {
    /** The same step with more input waiting behind. */
    function More(t: Bytes): Parsed<T> {
      match this
      case Ok(v, r) => Ok(v, r + t)
      case Err(e, r) => Err(e, r + t)
    }

    /** The outcome does not depend on what follows the input. */
    predicate Settled() {
      Ok? || !IsEofClass(error)
    }
  }

  /** The position of the first line feed, or the length of the input. */
  function FindLF(s: Bytes): (i: nat)
    ensures i <= |s|
    ensures forall j :: 0 <= j < i ==> s[j] != LF
    ensures i < |s| ==> s[i] == LF
  {
    if s == [] || s[0] == LF then 0 else 1 + FindLF(s[1..])
  }

  function ReadLine(s: Bytes): (p: Parsed<Bytes>)
    ensures p.Ok? ==> |p.value| + 2 + |p.rest| == |s|
  {
    var i := FindLF(s);
    if i == |s| then Err(IoEof, [])
    else if i < 1 || s[i - 1] != CR then Err(InvalidFormat, s[i + 1..])
    else Ok(s[..i - 1], s[i + 1..])
  }

  /** A line holding a decimal integer. */
  function ReadNumber(s: Bytes): (p: Parsed<int>)
    ensures |p.rest| <= |s|
    ensures p.Ok? ==> |p.rest| + 3 <= |s| && IsInt64(p.value)
  {
    match ReadLine(s)
    case Err(e, r) => Err(e, r)
    case Ok(line, r) =>
      var n := ParseInt(line);
      if n.None? then Err(InvalidFormat, r) else Ok(n.value, r)
  }

  function ExpectCRLF(s: Bytes): (p: Parsed<()>)
    ensures p.Ok? ==> |p.rest| + 2 == |s|
  {
    if |s| == 0 then Err(IoEof, [])
    else if s[0] != CR then Err(InvalidFormat, s[1..])
    else if |s| == 1 then Err(IoEof, [])
    else if s[1] != LF then Err(InvalidFormat, s[2..])
    else Ok((), s[2..])
  }

  function ReadFull(s: Bytes, length: nat): (p: Parsed<Bytes>)
    ensures p.Ok? ==> |p.value| == length && |p.rest| + length == |s|
  {
    if length <= |s| then Ok(s[..length], s[length..])
    else Err(if s == [] then IoEof else IoUnexpectedEof, [])
  }

  function ParseBulk(s: Bytes): (p: Parsed<Value>)
    ensures p.Ok? ==> |p.rest| + 3 <= |s|
  {
    match ReadNumber(s)
    case Err(e, r) => Err(e, r)
    case Ok(length, r) =>
      if length == -1 then Ok(NullBulk, r)
      else if length < 0 then Err(InvalidFormat, r)
      else if length > MAX_BULK_SIZE then Err(TooLarge, r)
      else
        match ReadFull(r, length)
        case Err(e, r1) => Err(e, r1)
        case Ok(b, r1) =>
          match ExpectCRLF(r1)
          case Err(e, r2) => Err(e, r2)
          case Ok(_, r2) => Ok(BulkString(b), r2)
  }

  function Parse(s: Bytes): (p: Parsed<Value>)
    ensures p.Ok? ==> |p.rest| + 3 <= |s|
    decreases |s|, 0
  {
    if s == [] then Err(UnexpectedEof, [])
    else if s[0] == TAG_SIMPLE || s[0] == TAG_ERROR then
      match ReadLine(s[1..])
      case Err(e, r) => Err(e, r)
      case Ok(line, r) => Ok(if s[0] == TAG_SIMPLE then SimpleString(line) else Error(line), r)
    else if s[0] == TAG_INTEGER then
      match ReadNumber(s[1..])
      case Err(e, r) => Err(e, r)
      case Ok(n, r) => Ok(Integer(n), r)
    else if s[0] == TAG_BULK then ParseBulk(s[1..])
    else if s[0] == TAG_ARRAY then ParseArray(s[1..])
    else Err(InvalidType(s[0]), s[1..])
  }

  function ParseArray(s: Bytes): (p: Parsed<Value>)
    ensures p.Ok? ==> |p.rest| + 3 <= |s|
    decreases |s|, 0
  {
    match ReadNumber(s)
    case Err(e, r) => Err(e, r)
    case Ok(length, r) =>
      if length == -1 then Ok(NullArray, r)
      else if length < 0 then Err(InvalidFormat, r)
      else if length > MAX_ARRAY_LENGTH then Err(TooLarge, r)
      else
        match ParseItems(r, length)
        case Err(e, r1) => Err(e, r1)
        case Ok(vs, r1) => Ok(Array(vs), r1)
  }

  function ParseItems(s: Bytes, n: nat): (p: Parsed<seq<Value>>)
    ensures p.Ok? ==> |p.value| == n && |p.rest| + 3 * n <= |s|
    decreases |s|, n
  {
    if n == 0 then Ok([], s)
    else
      match Parse(s)
      case Err(e, r) => Err(e, r)
      case Ok(v, r) =>
        match ParseItems(r, n - 1)
        case Err(e, r1) => Err(e, r1)
        case Ok(vs, r1) => Ok([v] + vs, r1)
  }
}
