/**
 The commands as an interpreter over one timed map: the meaning that the sharded server is proved to have. A command
 is a parsed value; its clock gives the reading taken at each of its operations on the store.
 */
module Commands {
  import opened Bytes
  import opened Decimal
  import opened Resp
  import opened Info
  import opened TimedMap

  /** The clock reading at the j-th operation a command makes on the store. */
  type Clock = nat -> Time

  const PING: Bytes := [0x50, 0x49, 0x4E, 0x47]
  const ECHO: Bytes := [0x45, 0x43, 0x48, 0x4F]
  const GET: Bytes := [0x47, 0x45, 0x54]
  const SET: Bytes := [0x53, 0x45, 0x54]
  const DEL: Bytes := [0x44, 0x45, 0x4C]
  const EXISTS: Bytes := [0x45, 0x58, 0x49, 0x53, 0x54, 0x53]
  const TTL: Bytes := [0x54, 0x54, 0x4C]
  const EXPIRE: Bytes := [0x45, 0x58, 0x50, 0x49, 0x52, 0x45]
  const DBSIZE: Bytes := [0x44, 0x42, 0x53, 0x49, 0x5A, 0x45]
  const FLUSHALL: Bytes := [0x46, 0x4C, 0x55, 0x53, 0x48, 0x41, 0x4C, 0x4C]
  const KEYS: Bytes := [0x4B, 0x45, 0x59, 0x53]
  const INFO: Bytes := [0x49, 0x4E, 0x46, 0x4F]
  const EX: Bytes := [0x45, 0x58]
  const STAR: Bytes := [0x2A]
  const PONG: Bytes := [0x50, 0x4F, 0x4E, 0x47]
  const OK: Bytes := [0x4F, 0x4B]
  const ERR: Bytes := [0x45, 0x52, 0x52, 0x20]

  /** Every command name the dispatcher knows. */
  const KNOWN: set<Bytes> := {PING, ECHO, GET, SET, DEL, EXISTS, TTL, EXPIRE, DBSIZE, FLUSHALL, KEYS, INFO}

  // ---------------------------------------------------------------- arguments

  function UpperByte(b: Byte): Byte {
    if 0x61 <= b <= 0x7A then b - 0x20 else b
  }

  function LowerByte(b: Byte): Byte {
    if 0x41 <= b <= 0x5A then b + 0x20 else b
  }

  function ToUpper(s: Bytes): Bytes {
    seq(|s|, i requires 0 <= i < |s| => UpperByte(s[i]))
  }

  function ToLower(s: Bytes): Bytes {
    seq(|s|, i requires 0 <= i < |s| => LowerByte(s[i]))
  }

  /** The value has the bulk string type; a null bulk string does too. */
  predicate IsBulk(v: Value) {
    v.BulkString? || v.NullBulk?
  }

  predicate IsArray(v: Value) {
    v.Array? || v.NullArray?
  }

  /** The bulk content of a value, empty for a null bulk string and for the other types. */
  function Bulk(v: Value): Bytes {
    if v.BulkString? then v.bulk else []
  }

  function ElementsOf(v: Value): seq<Value> {
    if v.Array? then v.items else []
  }

  // ---------------------------------------------------------------- error replies

  /** The reasons for an error reply. */
  datatype Fault =
    | NotAnArray
    | EmptyCommand
    | NameNotBulk
    | WrongArity
    | ArgumentNotBulk
    | BadSeconds
    | BadPattern
    | UnknownCommand(name: Bytes)
    | Protocol(error: ParseError)

  /** A byte as the text of the character with that code point. */
  function CharText(b: Byte): Bytes {
    if b < 0x80 then [b] else [0xC0 | (b >> 6), 0x80 | (b & 0x3F)]
  }

  function ErrorText(e: ParseError): Bytes {
    match e
    case UnexpectedEof => [0x45]
    case IoEof => [0x46]
    case IoUnexpectedEof => [0x47]
    case InvalidFormat => [0x48]
    case TooLarge => [0x49]
    case InvalidType(tag) => [0x4A, 0x20] + CharText(tag)
  }

  function FaultText(f: Fault): Bytes {
    match f
    case NotAnArray => ERR + [0x61]
    case EmptyCommand => ERR + [0x62]
    case NameNotBulk => ERR + [0x63]
    case WrongArity => ERR + [0x64]
    case ArgumentNotBulk => ERR + [0x65]
    case BadSeconds => ERR + [0x66]
    case BadPattern => ERR + [0x67]
    case UnknownCommand(name) => ERR + [0x68, 0x20] + name
    case Protocol(e) => ERR + [0x69, 0x20] + ErrorText(e)
  }

  // ---------------------------------------------------------------- replies

  /** A reply: a given value, or the listing of a set of keys in whatever order. */
  datatype Reply = Is(value: Value) | Lists(keys: set<Key>)

  function Fails(f: Fault): Reply {
    Is(Error(FaultText(f)))
  }

  function BulksOf(keys: seq<Key>): seq<Value> {
    seq(|keys|, i requires 0 <= i < |keys| => BulkString(keys[i]))
  }

  ghost predicate Fits(reply: Reply, v: Value) {
    match reply
    case Is(w) => v == w
    case Lists(s) => exists keys :: Enumerates(keys, s) && v == Array(BulksOf(keys))
  }

  // ---------------------------------------------------------------- the interpreter

  function Interpret(m: Items, cmd: Value, clock: Clock): (Reply, Items) {
    if !IsArray(cmd) then (Fails(NotAnArray), m)
    else if ElementsOf(cmd) == [] then (Fails(EmptyCommand), m)
    else if !IsBulk(cmd.items[0]) then (Fails(NameNotBulk), m)
    else Dispatch(m, ToUpper(Bulk(cmd.items[0])), cmd.items[1..], clock)
  }

  function Dispatch(m: Items, name: Bytes, args: seq<Value>, clock: Clock): (Reply, Items) {
    if name == PING then (Ping(args), m)
    else if name == ECHO then (Echo(args), m)
    else if name == GET then DoGet(m, args, clock)
    else if name == SET then DoSet(m, args, clock)
    else if name == DEL then DoDel(m, args)
    else if name == EXISTS then DoExists(m, args, clock)
    else if name == TTL then (DoTtl(m, args, clock), m)
    else if name == EXPIRE then DoExpire(m, args, clock)
    else if name == DBSIZE then (if args != [] then Fails(WrongArity) else Is(Integer(Wrap64(|m|))), m)
    else if name == FLUSHALL then if args != [] then (Fails(WrongArity), m) else (Is(SimpleString(OK)), map[])
    else if name == KEYS then (ListKeys(m, args), m)
    else if name == INFO then (DoInfo(m, args), m)
    else (Fails(UnknownCommand(name)), m)
  }

  function Ping(args: seq<Value>): Reply {
    if args == [] then Is(SimpleString(PONG))
    else if !IsBulk(args[0]) then Fails(ArgumentNotBulk)
    else Is(BulkString(Bulk(args[0])))
  }

  function Echo(args: seq<Value>): Reply {
    if |args| != 1 then Fails(WrongArity)
    else if !IsBulk(args[0]) then Fails(ArgumentNotBulk)
    else Is(BulkString(Bulk(args[0])))
  }

  function DoGet(m: Items, args: seq<Value>, clock: Clock): (Reply, Items) {
    if |args| != 1 then (Fails(WrongArity), m)
    else if !IsBulk(args[0]) then (Fails(ArgumentNotBulk), m)
    else
      var (m', out) := Apply(m, Get(Bulk(args[0]), clock(0)));
      (Is(if out.Found? then BulkString(out.value) else NullBulk), m')
  }

  /** The time to live a SET asks for: None if it is malformed. */
  function SetSeconds(args: seq<Value>): Option<Seconds> {
    if |args| < 4 || ToUpper(Bulk(args[2])) != EX then Some(0)
    else if !IsBulk(args[3]) then None
    else ParseSeconds(Bulk(args[3]))
  }

  function ParseSeconds(s: Bytes): Option<Seconds> {
    var n := ParseInt(s);
    if n.None? || n.value < 0 then None else Some(n.value)
  }

  function DoSet(m: Items, args: seq<Value>, clock: Clock): (Reply, Items) {
    if |args| < 2 then (Fails(WrongArity), m)
    else if !IsBulk(args[0]) || !IsBulk(args[1]) then (Fails(ArgumentNotBulk), m)
    else if SetSeconds(args).None? then (Fails(BadSeconds), m)
    else
      (Is(SimpleString(OK)), Apply(m, Set(Bulk(args[0]), Bulk(args[1]), SetSeconds(args).value, clock(0))).0)
  }

  function DoDel(m: Items, args: seq<Value>): (Reply, Items) {
    if args == [] then (Fails(WrongArity), m) else DelFrom(m, args, 0)
  }

  /** DEL of the remaining arguments, `count` keys having been deleted already. */
  function DelFrom(m: Items, args: seq<Value>, count: nat): (Reply, Items)
    decreases |args|
  {
    if args == [] then (Is(Integer(count)), m)
    else if !IsBulk(args[0]) then (Fails(ArgumentNotBulk), m)
    else
      var (m', out) := Apply(m, Delete(Bulk(args[0])));
      DelFrom(m', args[1..], if out == Flag(true) then count + 1 else count)
  }

  function DoExists(m: Items, args: seq<Value>, clock: Clock): (Reply, Items) {
    if args == [] then (Fails(WrongArity), m) else ExistsFrom(m, args, 0, clock, 0)
  }

  /** EXISTS of the remaining arguments, the first of which is argument `j` of the command. */
  function ExistsFrom(m: Items, args: seq<Value>, count: nat, clock: Clock, j: nat): (Reply, Items)
    decreases |args|
  {
    if args == [] then (Is(Integer(count)), m)
    else if !IsBulk(args[0]) then (Fails(ArgumentNotBulk), m)
    else
      var (m', out) := Apply(m, Get(Bulk(args[0]), clock(j)));
      ExistsFrom(m', args[1..], if out.Found? then count + 1 else count, clock, j + 1)
  }

  function DoTtl(m: Items, args: seq<Value>, clock: Clock): Reply {
    if |args| != 1 then Fails(WrongArity)
    else if !IsBulk(args[0]) then Fails(ArgumentNotBulk)
    else Is(Integer(if Bulk(args[0]) in m then Remaining(m[Bulk(args[0])], clock(0)) else -1))
  }

  function DoExpire(m: Items, args: seq<Value>, clock: Clock): (Reply, Items) {
    if |args| != 2 then (Fails(WrongArity), m)
    else if !IsBulk(args[0]) || !IsBulk(args[1]) then (Fails(ArgumentNotBulk), m)
    else
      var seconds := ParseSeconds(Bulk(args[1]));
      if seconds.None? then (Fails(BadSeconds), m)
      else
        var (m', out) := Apply(m, Expire(Bulk(args[0]), seconds.value, clock(0)));
        (Is(Integer(if out == Flag(true) then 1 else 0)), m')
  }

  function ListKeys(m: Items, args: seq<Value>): Reply {
    if |args| != 1 then Fails(WrongArity)
    else if !IsBulk(args[0]) then Fails(ArgumentNotBulk)
    else if Bulk(args[0]) != STAR then Fails(BadPattern)
    else Lists(m.Keys)
  }

  /** The section an INFO asks about: None if it is malformed. */
  function Section(args: seq<Value>): Option<Bytes> {
    if args == [] then Some(ALL)
    else if !IsBulk(args[0]) then None
    else Some(ToLower(Bulk(args[0])))
  }

  function DoInfo(m: Items, args: seq<Value>): Reply {
    if Section(args).None? then Fails(ArgumentNotBulk)
    else Is(BulkString(InfoText(Section(args).value, Wrap64(|m|))))
  }
}
