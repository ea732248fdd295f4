/**
 The codec as the server runs it: a parser that consumes its reader step by step, and a writer that appends to its
 buffer, each proved against the pure halves of the codec.
 */
module RespCodec {
  import opened Bytes
  import opened Decimal
  import opened Resp
  import opened RespProperties

  datatype Result<+T> = Success(value: T) | Failure(error: ParseError)

  /** A result together with the input still unread after it. */
  function Outcome<T>(r: Result<T>, rest: Bytes): Parsed<T> {
    match r
    case Success(v) => Ok(v, rest)
    case Failure(e) => Err(e, rest)
  }

  /** Items already read, put in front of what reading the others yields. */
  function Prepend(done: seq<Value>, p: Parsed<seq<Value>>): Parsed<seq<Value>> {
    match p
    case Ok(vs, r) => Ok(done + vs, r)
    case Err(e, r) => Err(e, r)
  }

  lemma PrependNothing(p: Parsed<seq<Value>>)
    ensures Prepend([], p) == p
  {
    assert p.Ok? ==> [] + p.value == p.value;
  }

  /** The length field of a null bulk string and of a null array. */
  const MINUS_ONE: Bytes := [MINUS, 0x31]

  class Parser {
    /** The bytes of the connection not read yet. */
    var reader: Bytes

    constructor (input: Bytes)
      ensures reader == input
    {
      reader := input;
    }

    method ReadLine() returns (r: Result<Bytes>)
      modifies this
      ensures Outcome(r, reader) == Resp.ReadLine(old(reader))
    {
      var i := FindLF(reader);
      if i == |reader| {
        reader := [];
        return Failure(IoEof);
      }
      var line := reader[..i + 1];
      reader := reader[i + 1..];
      if |line| < 2 || line[|line| - 2] != CR {
        return Failure(InvalidFormat);
      }
      assert line[..|line| - 2] == old(reader)[..i - 1];
      r := Success(line[..|line| - 2]);
    }

    method ReadNumber() returns (r: Result<int>)
      modifies this
      ensures Outcome(r, reader) == Resp.ReadNumber(old(reader))
    {
      var line := ReadLine();
      if line.Failure? {
        return Failure(line.error);
      }
      var n := ParseInt(line.value);
      r := if n.None? then Failure(InvalidFormat) else Success(n.value);
    }

    method ExpectCRLF() returns (r: Result<()>)
      modifies this
      ensures Outcome(r, reader) == Resp.ExpectCRLF(old(reader))
    {
      if reader == [] {
        return Failure(IoEof);
      }
      var cr := reader[0];
      reader := reader[1..];
      if cr != CR {
        return Failure(InvalidFormat);
      }
      if reader == [] {
        return Failure(IoEof);
      }
      var lf := reader[0];
      reader := reader[1..];
      r := if lf != LF then Failure(InvalidFormat) else Success(());
    }

    method ReadFull(length: nat) returns (r: Result<Bytes>)
      modifies this
      ensures Outcome(r, reader) == Resp.ReadFull(old(reader), length)
    {
      if length <= |reader| {
        r := Success(reader[..length]);
        reader := reader[length..];
      } else {
        r := Failure(if reader == [] then IoEof else IoUnexpectedEof);
        reader := [];
      }
    }

    method ParseBulkString() returns (r: Result<Value>)
      modifies this
      ensures Outcome(r, reader) == ParseBulk(old(reader))
    {
      hide Resp.ReadNumber, Resp.ReadFull, Resp.ExpectCRLF;
      var length := ReadNumber();
      if length.Failure? {
        return Failure(length.error);
      }
      if length.value == -1 {
        return Success(NullBulk);
      }
      if length.value < 0 {
        return Failure(InvalidFormat);
      }
      if length.value > MAX_BULK_SIZE {
        return Failure(TooLarge);
      }
      var bulk := ReadFull(length.value);
      if bulk.Failure? {
        return Failure(bulk.error);
      }
      var end := ExpectCRLF();
      r := if end.Failure? then Failure(end.error) else Success(BulkString(bulk.value));
    }

    /** One RESP value, or the error that ended the reading. */
    method Parse() returns (r: Result<Value>)
      modifies this
      ensures Outcome(r, reader) == Resp.Parse(old(reader))
      decreases |reader|
    {
      hide Resp.ReadNumber, Resp.ReadLine, ParseBulk, Resp.ParseArray;
      if reader == [] {
        return Failure(UnexpectedEof);
      }
      var tag := reader[0];
      reader := reader[1..];
      if tag == TAG_SIMPLE || tag == TAG_ERROR {
        var line := ReadLine();
        if line.Failure? {
          return Failure(line.error);
        }
        r := Success(if tag == TAG_SIMPLE then SimpleString(line.value) else Error(line.value));
      } else if tag == TAG_INTEGER {
        var n := ReadNumber();
        r := if n.Failure? then Failure(n.error) else Success(Integer(n.value));
      } else if tag == TAG_BULK {
        r := ParseBulkString();
      } else if tag == TAG_ARRAY {
        r := ParseArray();
      } else {
        r := Failure(InvalidType(tag));
      }
    }

    method ParseArray() returns (r: Result<Value>)
      modifies this
      ensures Outcome(r, reader) == Resp.ParseArray(old(reader))
      decreases |reader|
    {
      hide Resp.ReadNumber, Resp.Parse;
      var length := ReadNumber();
      if length.Failure? {
        return Failure(length.error);
      }
      if length.value == -1 {
        return Success(NullArray);
      }
      if length.value < 0 {
        return Failure(InvalidFormat);
      }
      if length.value > MAX_ARRAY_LENGTH {
        return Failure(TooLarge);
      }
      ghost var body := reader;
      var elements: seq<Value> := [];
      PrependNothing(ParseItems(body, length.value));
      while |elements| < length.value
        invariant |elements| <= length.value && |reader| <= |body|
        invariant ParseItems(body, length.value) == Prepend(elements, ParseItems(reader, length.value - |elements|))
      {
        ghost var others := ParseItems(reader, length.value - |elements|);
        var value := Parse();
        if value.Failure? {
          return Failure(value.error);
        }
        assert others.Ok? ==> elements + others.value == elements + [value.value] + others.value[1..];
        elements := elements + [value.value];
      }
      assert elements + [] == elements;
      r := Success(Array(elements));
    }
  }

  /** The encodings of the values up to one more. */
  lemma EncodePrefix(values: seq<Value>, i: nat)
    requires i <= |values|
    ensures EncodeAll(values[..0]) == []
    ensures i < |values| ==> EncodeAll(values[..i + 1]) == EncodeAll(values[..i]) + Encode(values[i])
  {
    if i < |values| {
      assert values[..i + 1] == values[..i] + [values[i]];
      EncodeAllOneMore(values[..i], values[i]);
    }
  }

  lemma EncodeArray(values: seq<Value>)
    ensures Encode(Array(values)) == Line(TAG_ARRAY, FormatInt(|values|)) + EncodeAll(values[..|values|])
  {
    assert values[..|values|] == values;
  }

  class Writer {
    /** The bytes written so far. */
    var buffer: Bytes

    constructor ()
      ensures buffer == []
    {
      buffer := [];
    }

    method WriteLine(tag: Byte, text: Bytes)
      modifies this
      ensures buffer == old(buffer) + Line(tag, text)
    {
      buffer := buffer + [tag];
      buffer := buffer + text;
      buffer := buffer + CRLF;
    }

    method WriteBulkString(b: Bytes)
      modifies this
      ensures buffer == old(buffer) + Encode(BulkString(b))
    {
      WriteLine(TAG_BULK, FormatInt(|b|));
      buffer := buffer + b;
      buffer := buffer + CRLF;
    }

    method WriteValue(value: Value)
      modifies this
      ensures buffer == old(buffer) + Encode(value)
      decreases value, 0
    {
      match value
      case SimpleString(s) => WriteLine(TAG_SIMPLE, s);
      case Error(s) => WriteLine(TAG_ERROR, s);
      case Integer(n) => WriteLine(TAG_INTEGER, FormatInt(n));
      case BulkString(b) => WriteBulkString(b);
      case NullBulk => WriteLine(TAG_BULK, MINUS_ONE);
      case Array(items) => WriteArray(items);
      case NullArray => WriteLine(TAG_ARRAY, MINUS_ONE);
    }

    method WriteArray(values: seq<Value>)
      modifies this
      ensures buffer == old(buffer) + Encode(Array(values))
      decreases values, 1
    {
      hide Line, FormatInt, Encode, EncodeAll;
      WriteLine(TAG_ARRAY, FormatInt(|values|));
      EncodePrefix(values, 0);
      for i := 0 to |values|
        invariant buffer == old(buffer) + Line(TAG_ARRAY, FormatInt(|values|)) + EncodeAll(values[..i])
      {
        WriteValue(values[i]);
        EncodePrefix(values, i);
      }
      EncodeArray(values);
    }
  }
}
