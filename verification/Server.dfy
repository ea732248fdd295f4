/**
 A connection from its first byte to its last: parse a value, handle it, write the reply, until the parser fails.
 */
module Server {
  import opened Bytes
  import opened Resp
  import opened RespProperties
  import opened RespCuts
  import opened RespGrammar
  import opened RespCodec
  import opened TimedMap
  import opened Sharding
  import opened Commands
  import opened CommandProperties
  import opened Handler

  /** The clock readings of a connection: for its i-th command, those at the operations of that command. */
  type Clocks = nat -> Clock

  /** What happened on a connection: the commands handled, their replies, and the store around each. */
  datatype Session = Session(stores: seq<Items>, commands: seq<Value>, replies: seq<Value>)
  {
    /** Each reply and each next store are what the flat interpreter makes of the command. */
    ghost predicate Follows(clocks: Clocks) {
      && |stores| == |commands| + 1 && |replies| == |commands|
      && forall i :: 0 <= i < |commands| ==> Interprets(i, clocks)
    }

    ghost predicate Interprets(i: nat, clocks: Clocks)
      requires i < |commands| == |replies| && |stores| == |commands| + 1
    {
      var (r, m) := Interpret(stores[i], commands[i], clocks(i));
      Fits(r, replies[i]) && stores[i + 1] == m
    }

    /** The session with one more command handled. */
    ghost function Then(command: Value, reply: Value, store: Items, clocks: Clocks): (s: Session)
      requires Follows(clocks)
      requires var (r, m) := Interpret(stores[|commands|], command, clocks(|commands|));
               Fits(r, reply) && store == m
      ensures s.Follows(clocks)
      ensures s.commands == commands + [command] && s.replies == replies + [reply] && s.stores == stores + [store]
    {
      var s := Session(stores + [store], commands + [command], replies + [reply]);
      assert forall i: nat :: i < |commands| ==> Interprets(i, clocks) ==> s.Interprets(i, clocks);
      s
    }
  }

  lemma EncodeNone()
    ensures EncodeAll([]) == []
  {
  }

  /** What the server writes when reading fails: nothing at io.EOF, otherwise an error reply. */
  function Farewell(e: ParseError): seq<Value> {
    if e == IoEof then [] else [Error(FaultText(Protocol(e)))]
  }

  /** Everything the server writes on a connection. */
  function Written(session: Session, input: Bytes): seq<Value> {
    session.replies + Farewell(ParseStream(input).1)
  }

  class Server {
    const handler: CommandHandler
    var totalCommands: nat

    constructor (handler: CommandHandler)
      ensures this.handler == handler && totalCommands == 0
    {
      this.handler := handler;
      totalCommands := 0;
    }

    /** Serves one connection to its end. */
    method HandleConnection(input: Bytes, clocks: Clocks) returns (output: Bytes, ghost session: Session)
      requires handler.sm.Valid()
      modifies this, handler.sm.shards
      ensures handler.sm.Valid()
      ensures session.Follows(clocks) && session.commands == ParseStream(input).0
      ensures session.stores[0] == old(handler.sm.Contents())
      ensures session.stores[|session.commands|] == handler.sm.Contents()
      ensures output == EncodeAll(Written(session, input))
      ensures totalCommands == old(totalCommands) + |session.commands|
    {
      hide Interpret, Fits, Resp.Parse, ParseStream, Encode, EncodeAll, Flat, Farewell;
      var parser := new Parser(input);
      var writer := new Writer();
      session := Session([handler.sm.Contents()], [], []);
      var n := 0;
      EncodeNone();
      while true
        invariant handler.sm.Valid() && fresh(parser) && fresh(writer)
        invariant n == |session.commands| && session.Follows(clocks)
        invariant session.stores[0] == old(handler.sm.Contents()) && session.stores[n] == handler.sm.Contents()
        invariant ParseStream(input).0 == session.commands + ParseStream(parser.reader).0
        invariant ParseStream(input).1 == ParseStream(parser.reader).1
        invariant writer.buffer == EncodeAll(session.replies)
        invariant totalCommands == old(totalCommands) + n
        decreases |parser.reader|
      {
        StreamStep(parser.reader);
        var value := parser.Parse();
        if value.Failure? {
          WriteFarewell(writer, value.error);
          EncodeAllAppend(session.replies, Farewell(value.error));
          break;
        }
        var reply := handler.HandleCommand(value.value, clocks(n));
        writer.WriteValue(reply);
        EncodeAllOneMore(session.replies, reply);
        session := session.Then(value.value, reply, handler.sm.Contents(), clocks);
        n := n + 1;
        totalCommands := totalCommands + 1;
      }
      output := writer.buffer;
    }

    method WriteFarewell(writer: Writer, e: ParseError)
      modifies writer
      ensures writer.buffer == old(writer.buffer) + EncodeAll(Farewell(e))
    {
      EncodeNone();
      if e != IoEof {
        writer.WriteValue(Error(FaultText(Protocol(e))));
        EncodeAllOneMore([], Error(FaultText(Protocol(e))));
      }
    }
  }

  lemma StreamStep(s: Bytes)
    ensures Parse(s).Err? ==> ParseStream(s) == ([], Parse(s).error)
    ensures Parse(s).Ok? ==>
      ParseStream(s) == ([Parse(s).value] + ParseStream(Parse(s).rest).0, ParseStream(Parse(s).rest).1)
  {
  }

  // ---------------------------------------------------------------- every command list has a session

  /** Whatever the store and the command, some reply fits: the keys can always be listed in some order. */
  lemma SomeReplyFits(reply: Reply) returns (v: Value)
    ensures Fits(reply, v)
  {
    match reply
    case Is(w) => v := w;
    case Lists(s) =>
      var keys := SomeEnumeration(s);
      v := Array(BulksOf(keys));
  }

  /** From any store, with any clock readings, any list of commands runs to its end: no command blocks a session. */
  lemma {:induction false} SessionExists(m: Items, commands: seq<Value>, clocks: Clocks)
    returns (session: Session)
    ensures session.Follows(clocks) && session.stores[0] == m && session.commands == commands
    decreases |commands|
  {
    hide Interpret, Fits;
    session := Session([m], [], []);
    if commands != [] {
      var n := |commands| - 1;
      session := SessionExists(m, commands[..n], clocks);
      var (r, m') := Interpret(session.stores[n], commands[n], clocks(n));
      var reply := SomeReplyFits(r);
      session := session.Then(commands[n], reply, m', clocks);
      assert commands == commands[..n] + [commands[n]];
    }
  }

  // ---------------------------------------------------------------- what the client reads

  lemma {:induction false} StoresFit(session: Session, clocks: Clocks, i: nat)
    requires session.Follows(clocks) && WireAll(session.commands) && StoreFits(session.stores[0])
    requires i < |session.stores|
    ensures StoreFits(session.stores[i])
  {
    hide Interpret, Fits, StoreFits, Wire;
    if i > 0 {
      StoresFit(session, clocks, i - 1);
      assert session.Interprets(i - 1, clocks);
      InterpretKeepsFit(session.stores[i - 1], session.commands[i - 1], clocks(i - 1));
    }
  }

  /** No command of the session makes its reply unreadable. */
  predicate AllReadable(session: Session) {
    |session.stores| > |session.commands| &&
    forall i :: 0 <= i < |session.commands| ==> Readable(session.stores[i], session.commands[i])
  }

  lemma RepliesReadable(session: Session, clocks: Clocks)
    requires session.Follows(clocks) && WireAll(session.commands) && StoreFits(session.stores[0])
    ensures WireAll(session.replies) <==> AllReadable(session)
  {
    hide Interpret, Fits, StoreFits, Wire, Readable;
    forall i | 0 <= i < |session.commands|
      ensures Wire(session.replies[i]) <==> Readable(session.stores[i], session.commands[i])
    {
      StoresFit(session, clocks, i);
      assert session.Interprets(i, clocks);
      ReplyReadableExactly(session.stores[i], session.commands[i], clocks(i), session.replies[i]);
    }
  }

  lemma FarewellReadable(e: ParseError)
    ensures WireAll(Farewell(e)) <==> e != InvalidType(LF)
  {
    FaultReadable(Protocol(e));
    assert e != IoEof ==> Farewell(e)[0] == Error(FaultText(Protocol(e)));
  }

  /**
   On any input whatever, the bytes written are read back as exactly the replies, in order, and the farewell, if and
   only if every command was `Readable` and the reading did not end at a line feed in place of a type byte.
   */
  lemma OutputReadableExactly(session: Session, input: Bytes, clocks: Clocks)
    requires session.Follows(clocks) && StoreFits(session.stores[0])
    ensures session.commands == ParseStream(input).0 ==>
      (ParseStream(EncodeAll(Written(session, input))) == (Written(session, input), UnexpectedEof)
       <==> AllReadable(session) && ParseStream(input).1 != InvalidType(LF))
  {
    hide Interpret, StoreFits, Wire, Farewell, Parse;
    var replies, farewell := session.replies, Farewell(ParseStream(input).1);
    StreamWire(input);
    if session.commands == ParseStream(input).0 {
      RepliesReadable(session, clocks);
    }
    FarewellReadable(ParseStream(input).1);
    StreamRoundTripExactly(replies + farewell);
    WireBoth(replies, farewell);
  }

  lemma WireBoth(us: seq<Value>, vs: seq<Value>)
    ensures WireAll(us + vs) <==> WireAll(us) && WireAll(vs)
  {
    hide Wire;
    if WireAll(us + vs) {
      assert forall i :: 0 <= i < |us| ==> (us + vs)[i] == us[i];
      assert forall i :: 0 <= i < |vs| ==> (us + vs)[|us| + i] == vs[i];
    }
  }

  /**
   Pipelining: n encoded commands are handled as exactly those n, and get exactly n replies, in order, each the one
   the flat interpreter gives, readable as such once the last command is handled if and only if all of them are
   `Readable`. When the client then closes, one more value follows: an error reply for the end of input.
   */
  lemma Pipelining(session: Session, cmds: seq<Value>, clocks: Clocks)
    requires WireAll(cmds) && session.Follows(clocks) && StoreFits(session.stores[0])
    ensures session.commands == ParseStream(EncodeAll(cmds)).0 <==> session.commands == cmds
    ensures session.commands == cmds ==>
      && |session.replies| == |cmds|
      && (ParseStream(EncodeAll(session.replies)) == (session.replies, UnexpectedEof) <==> AllReadable(session))
      && (AllReadable(session) ==>
           ParseStream(EncodeAll(Written(session, EncodeAll(cmds)))).0
           == session.replies + [Error(FaultText(Protocol(UnexpectedEof)))])
  {
    hide Interpret, StoreFits, Wire, ParseStream, EncodeAll, Readable;
    StreamRoundTripExactly(cmds);
    if session.commands == cmds {
      RepliesReadable(session, clocks);
      StreamRoundTripExactly(session.replies);
      OutputReadableExactly(session, EncodeAll(cmds), clocks);
    }
  }

  /**
   What the client is sent when it closes after `k` bytes of its commands: the replies to the commands sent whole, and
   then nothing exactly if it stopped neither where a value would start nor strictly inside a bulk payload; otherwise
   one error reply.
   */
  lemma CloseReplies(cmds: seq<Value>, k: nat)
    requires WireAll(cmds) && k <= |EncodeAll(cmds)|
    ensures var (commands, e) := ParseStream(EncodeAll(cmds)[..k]);
            && commands == cmds[..Whole(cmds, k)]
            && Farewell(e) == match PlaceInAll(cmds, k)
                              case ValueStart => [Error(FaultText(Protocol(UnexpectedEof)))]
                              case Payload => [Error(FaultText(Protocol(IoUnexpectedEof)))]
                              case Elsewhere => []
  {
    hide PlaceInAll, Parse;
    CutStream(cmds, k);
  }

  /**
   Whatever comes in, the commands handled are the values the input starts with in the grammar, and after their replies
   one error reply is written for the failure that ends them, none only for io.EOF.
   */
  lemma InputDecides(session: Session, input: Bytes, vs: seq<Value>, e: ParseError)
    requires session.commands == ParseStream(input).0 && Streams(input, vs, e)
    ensures session.commands == vs
    ensures if e == IoEof then Written(session, input) == session.replies
            else |Written(session, input)| == |session.replies| + 1 && session.replies <= Written(session, input)
                 && Written(session, input)[|session.replies|].Error?
  {
    hide ParseStream, Streams, FaultText;
    StreamsExactly(input, vs, e);
    assert session.replies + [] == session.replies;
  }
}
