/**
 What the commands promise: DEL counts what it removes, EXISTS counts live positions, and a reply can be read off the
 wire exactly when the command gives it nothing the wire cannot carry.
 */
module CommandProperties {
  import opened Bytes
  import opened Decimal
  import opened Resp
  import opened Info
  import opened TimedMap
  import opened Commands

  predicate AllBulk(args: seq<Value>) {
    forall i :: 0 <= i < |args| ==> IsBulk(args[i])
  }

  /** The keys named by bulk arguments. */
  function KeysIn(args: seq<Value>): set<Key> {
    set i | 0 <= i < |args| :: Bulk(args[i])
  }

  // ---------------------------------------------------------------- DEL

  lemma KeysInCons(args: seq<Value>)
    requires args != []
    ensures KeysIn(args) == {Bulk(args[0])} + KeysIn(args[1..])
  {
  }

  /** How many of the keys are stored, counted after the first of them is gone. */
  lemma StoredSplit(m: Items, k: Key, s: set<Key>)
    ensures |({k} + s) * m.Keys| == |s * (m - {k}).Keys| + (if k in m then 1 else 0)
  {
    var rest := s * (m - {k}).Keys;
    if k in m {
      assert ({k} + s) * m.Keys == {k} + rest;
    } else {
      assert ({k} + s) * m.Keys == rest;
    }
  }

  lemma RemoveBoth(m: Items, s: set<Key>, t: set<Key>)
    ensures m - {} == m
    ensures (m - s) - t == m - (s + t)
  {
  }

  lemma DelStep(m: Items, args: seq<Value>, count: nat)
    requires args != [] && IsBulk(args[0])
    ensures var k := Bulk(args[0]);
            DelFrom(m, args, count) == DelFrom(m - {k}, args[1..], if k in m then count + 1 else count)
  {
  }

  /** The number of distinct stored keys among the arguments. */
  function Hits(m: Items, args: seq<Value>): nat {
    |KeysIn(args) * m.Keys|
  }

  function Without(m: Items, args: seq<Value>): Items {
    m - KeysIn(args)
  }

  lemma NoArgs(m: Items)
    ensures Hits(m, []) == 0 && Without(m, []) == m
  {
  }

  lemma ArgsCons(m: Items, args: seq<Value>)
    requires args != []
    ensures var k := Bulk(args[0]);
            && Hits(m, args) == Hits(m - {k}, args[1..]) + (if k in m then 1 else 0)
            && Without(m, args) == Without(m - {k}, args[1..])
  {
    KeysInCons(args);
    StoredSplit(m, Bulk(args[0]), KeysIn(args[1..]));
    RemoveBoth(m, {Bulk(args[0])}, KeysIn(args[1..]));
  }

  lemma {:induction false} DelFromCounts(m: Items, args: seq<Value>, count: nat)
    requires AllBulk(args)
    ensures DelFrom(m, args, count) == (Is(Integer(count + Hits(m, args))), Without(m, args))
    decreases |args|
  {
    hide Hits, Without, KeysIn;
    if args == [] {
      NoArgs(m);
    } else {
      hide DelFrom;
      var k := Bulk(args[0]);
      DelStep(m, args, count);
      DelFromCounts(m - {k}, args[1..], if k in m then count + 1 else count);
      ArgsCons(m, args);
    }
  }

  lemma RemovedSize(m: Items, s: set<Key>)
    ensures |m| - |m - s| == |s * m.Keys|
  {
  }

  /** DEL of bulk arguments answers the number of distinct stored keys among them, which is the drop in size. */
  lemma DelConservation(m: Items, args: seq<Value>)
    requires AllBulk(args) && args != []
    ensures DoDel(m, args) == (Is(Integer(|KeysIn(args) * m.Keys|)), m - KeysIn(args))
    ensures |m| - |DoDel(m, args).1| == |KeysIn(args) * m.Keys|
  {
    hide DelFrom, KeysIn;
    DelFromCounts(m, args, 0);
    RemovedSize(m, KeysIn(args));
  }

  lemma {:induction false} DelFromStops(m: Items, args: seq<Value>, count: nat, j: nat)
    requires j < |args| && AllBulk(args[..j]) && !IsBulk(args[j])
    ensures DelFrom(m, args, count) == (Fails(ArgumentNotBulk), Without(m, args[..j]))
    decreases |args|
  {
    hide Without, KeysIn;
    if j == 0 {
      NoArgs(m);
    } else {
      hide DelFrom;
      var k := Bulk(args[0]);
      assert args[..j][0] == args[0] && args[..j][1..] == args[1..][..j - 1];
      DelStep(m, args, count);
      DelFromStops(m - {k}, args[1..], if k in m then count + 1 else count, j - 1);
      ArgsCons(m, args[..j]);
    }
  }

  /** DEL stopped by a non-bulk argument is an error, and exactly the keys before that argument are gone. */
  lemma DelStopsAtNonBulk(m: Items, args: seq<Value>, j: nat)
    requires j < |args| && AllBulk(args[..j]) && !IsBulk(args[j])
    ensures DoDel(m, args) == (Fails(ArgumentNotBulk), m - KeysIn(args[..j]))
  {
    DelFromStops(m, args, 0, j);
  }

  // ---------------------------------------------------------------- EXISTS

  /** The number of argument positions, repeats included, whose key is live when its turn comes. */
  function LivePositions(m: Items, args: seq<Value>, clock: Clock, j: nat): nat
    decreases |args|
  {
    if args == [] then 0
    else (if Live(m, Bulk(args[0]), clock(j)) then 1 else 0) + LivePositions(m, args[1..], clock, j + 1)
  }

  /** The argument keys that are found expired when their turn comes. */
  function ExpiredArgs(m: Items, args: seq<Value>, clock: Clock, j: nat): set<Key>
    decreases |args|
  {
    if args == [] then {}
    else
      (if Bulk(args[0]) in m && Expired(m[Bulk(args[0])], clock(j)) then {Bulk(args[0])} else {})
      + ExpiredArgs(m, args[1..], clock, j + 1)
  }

  /** The readings from the j-th on do not go back. */
  ghost predicate Monotone(clock: Clock, j: nat) {
    forall i, k :: j <= i <= k ==> clock(i) <= clock(k)
  }

  lemma Later(clock: Clock, j: nat)
    requires Monotone(clock, j)
    ensures Monotone(clock, j + 1)
  {
  }

  /** Dropping a key that has expired by now changes no later count. */
  lemma {:induction false} DropExpired(m: Items, k: Key, args: seq<Value>, clock: Clock, i: nat, j: nat)
    requires k in m && Expired(m[k], clock(i)) && i <= j && Monotone(clock, i)
    ensures LivePositions(m - {k}, args, clock, j) == LivePositions(m, args, clock, j)
    ensures ExpiredArgs(m - {k}, args, clock, j) == ExpiredArgs(m, args, clock, j) - {k}
    decreases |args|
  {
    if args != [] {
      assert clock(i) <= clock(j);
      DropExpired(m, k, args[1..], clock, i, j + 1);
    }
  }

  lemma ExistsStep(m: Items, args: seq<Value>, count: nat, clock: Clock, j: nat)
    requires args != [] && IsBulk(args[0])
    ensures ExistsFrom(m, args, count, clock, j) ==
            if Live(m, Bulk(args[0]), clock(j)) then ExistsFrom(m, args[1..], count + 1, clock, j + 1)
            else ExistsFrom(m - {Bulk(args[0])}, args[1..], count, clock, j + 1)
  {
    assert Bulk(args[0]) !in m ==> m - {Bulk(args[0])} == m;
  }

  lemma RemoveRest(m: Items, k: Key, rest: set<Key>)
    ensures (m - {k}) - (rest - {k}) == m - ({k} + rest)
    ensures {} + rest == rest
    ensures k !in m ==> m - {k} == m
  {
  }

  lemma {:induction false} ExistsFromCounts(m: Items, args: seq<Value>, count: nat, clock: Clock, j: nat)
    requires AllBulk(args) && Monotone(clock, j)
    ensures ExistsFrom(m, args, count, clock, j)
         == (Is(Integer(count + LivePositions(m, args, clock, j))), m - ExpiredArgs(m, args, clock, j))
    decreases |args|
  {
    if args == [] {
      assert m - {} == m;
    } else {
      hide ExistsFrom, Monotone, Expired;
      var k := Bulk(args[0]);
      ExistsStep(m, args, count, clock, j);
      var rest := ExpiredArgs(m, args[1..], clock, j + 1);
      if k in m && Expired(m[k], clock(j)) {
        Later(clock, j);
        ExistsFromCounts(m - {k}, args[1..], count, clock, j + 1);
        DropExpired(m, k, args[1..], clock, j, j + 1);
        RemoveRest(m, k, rest);
      } else {
        Later(clock, j);
        RemoveRest(m, k, rest);
        ExistsFromCounts(m, args[1..], if k in m then count + 1 else count, clock, j + 1);
      }
    }
  }

  /**
   EXISTS of bulk arguments, on a clock that does not go back, answers the number of positions whose key is live and
   removes exactly the argument keys it finds expired.
   */
  lemma ExistsAccounting(m: Items, args: seq<Value>, clock: Clock)
    requires AllBulk(args) && args != [] && Monotone(clock, 0)
    ensures DoExists(m, args, clock)
         == (Is(Integer(LivePositions(m, args, clock, 0))), m - ExpiredArgs(m, args, clock, 0))
  {
    ExistsFromCounts(m, args, 0, clock, 0);
  }

  /** At one clock reading the removed keys are the expired ones among the arguments. */
  lemma {:induction false} ExpiredArgsAtOnce(m: Items, args: seq<Value>, clock: Clock, now: Time, j: nat)
    requires forall i :: clock(i) == now
    ensures ExpiredArgs(m, args, clock, j) == ExpiredKeys(m, now) * KeysIn(args)
    decreases |args|
  {
    if args == [] {
      assert KeysIn(args) == {};
    } else {
      ExpiredArgsAtOnce(m, args[1..], clock, now, j + 1);
      KeysInCons(args);
    }
  }

  // ---------------------------------------------------------------- SET, then GET and TTL

  /** A command as a client sends it. */
  function Command(name: Bytes, args: seq<Bytes>): Value {
    Array([BulkString(name)] + seq(|args|, i requires 0 <= i < |args| => BulkString(args[i])))
  }

  lemma KnownUpper(name: Bytes)
    requires name in KNOWN
    ensures ToUpper(name) == name
  {
  }

  lemma CommandRuns(m: Items, name: Bytes, args: seq<Bytes>, clock: Clock)
    requires name in KNOWN
    ensures Interpret(m, Command(name, args), clock)
         == Dispatch(m, name, seq(|args|, i requires 0 <= i < |args| => BulkString(args[i])), clock)
  {
    hide Dispatch, ToUpper;
    var cmd := Command(name, args);
    KnownUpper(name);
    assert cmd.items[1..] == seq(|args|, i requires 0 <= i < |args| => BulkString(args[i]));
  }

  /** SET with EX stores the value under the expiry stamp of that many seconds. */
  lemma SetStores(m: Items, k: Key, v: Bytes, seconds: Seconds, clock: Clock)
    requires seconds >= 0
    ensures Interpret(m, Command(SET, [k, v, EX, FormatInt(seconds)]), clock)
         == (Is(SimpleString(OK)), m[k := Item(v, ExpiresAt(clock(0), seconds), clock(0))])
  {
    hide FormatInt, ExpiresAt;
    var args := [k, v, EX, FormatInt(seconds)];
    var values := seq(|args|, i requires 0 <= i < |args| => BulkString(args[i]));
    CommandRuns(m, SET, args, clock);
    assert IsInt64(seconds);
    FormatThenParse(seconds);
    assert ToUpper(EX) == EX;
    assert SetSeconds(values) == Some(seconds);
  }

  /**
   After SET k v EX s at time t, GET k at t' answers v, and TTL k counts down, exactly until t + s; s = 0 means for
   ever, and so does an s that takes the stamp past 64 bits, as t' cannot get there.
   */
  lemma SetThenGet(m: Items, k: Key, v: Bytes, s: Seconds, clock: Clock, later: Clock)
    requires s >= 0 && clock(0) <= later(0)
    ensures var t, t' := clock(0), later(0);
            var m' := Interpret(m, Command(SET, [k, v, EX, FormatInt(s)]), clock).1;
            var live := s == 0 || t' < t + s;
            && Interpret(m', Command(GET, [k]), later).0 == Is(if live then BulkString(v) else NullBulk)
            && Interpret(m', Command(TTL, [k]), later).0
               == Is(Integer(if s == 0 then -2 else if live then t + s - t' else 0))
  {
    hide FormatInt;
    var m' := Interpret(m, Command(SET, [k, v, EX, FormatInt(s)]), clock).1;
    SetStores(m, k, v, s, clock);
    CommandRuns(m', GET, [k], later);
    CommandRuns(m', TTL, [k], later);
    StampCountsDown(m'[k], clock(0), s, later(0));
  }

  lemma StampCountsDown(it: Item, t: Time, s: Seconds, t': Time)
    requires s >= 0 && t <= t' && it.expiresAt == ExpiresAt(t, s)
    ensures !Expired(it, t') <==> s == 0 || t' < t + s
    ensures Remaining(it, t') == if s == 0 then -2 else Max(0, t + s - t')
  {
    assert IsInt64(s);
  }

  /**
   EXPIRE k s at time t answers 1 exactly if the key is stored, and then GET k at t' answers its value until t + s:
   also for a key that had already expired, which EXPIRE brings back.
   */
  lemma ExpireThenGet(m: Items, k: Key, s: Seconds, clock: Clock, later: Clock)
    requires s >= 0 && clock(0) <= later(0)
    ensures var t, t' := clock(0), later(0);
            var (reply, m') := Interpret(m, Command(EXPIRE, [k, FormatInt(s)]), clock);
            && reply == Is(Integer(if k in m then 1 else 0))
            && Interpret(m', Command(GET, [k]), later).0
               == Is(if k in m && (s == 0 || t' < t + s) then BulkString(m[k].value) else NullBulk)
  {
    hide FormatInt, ExpiresAt, Expired;
    var m' := Apply(m, Expire(k, s, clock(0))).0;
    assert IsInt64(s);
    FormatThenParse(s);
    CommandRuns(m, EXPIRE, [k, FormatInt(s)], clock);
    CommandRuns(m', GET, [k], later);
    if k in m {
      StampCountsDown(m'[k], clock(0), s, later(0));
    }
  }

  // ---------------------------------------------------------------- replies on the wire

  /** Every key and value is short enough for a bulk string. */
  ghost predicate StoreFits(m: Items) {
    forall k :: k in m ==> |k| <= MAX_BULK_SIZE && |m[k].value| <= MAX_BULK_SIZE
  }

  /** The command's upper-case name, if it has one. */
  function NameOf(cmd: Value): Option<Bytes> {
    if ElementsOf(cmd) != [] && IsBulk(cmd.items[0]) then Some(ToUpper(Bulk(cmd.items[0]))) else None
  }

  /**
   What the command must not do for its reply to be readable: be unknown with a line feed in its name, list more keys
   than an array holds, or ask INFO for a section that there is not, by a name too long to be quoted in a bulk string.
   */
  predicate Readable(m: Items, cmd: Value) {
    NameOf(cmd).Some? ==>
      var name, args := NameOf(cmd).value, cmd.items[1..];
      if name !in KNOWN then LF !in Bulk(cmd.items[0])
      else if name == KEYS then ListKeys(m, args).Lists? ==> |m| <= MAX_ARRAY_LENGTH
      else if name == INFO then Section(args).Some? ==> SectionFits(Section(args).value)
      else true
  }

  lemma UpperKeepsLF(s: Bytes)
    ensures LF in ToUpper(s) <==> LF in s
  {
    forall i | 0 <= i < |s|
      ensures UpperByte(s[i]) == LF <==> s[i] == LF
    {
      UpperByteLF(s[i]);
    }
    if LF in s {
      var i :| 0 <= i < |s| && s[i] == LF;
      assert ToUpper(s)[i] == LF;
    }
    if LF in ToUpper(s) {
      var i :| 0 <= i < |s| && ToUpper(s)[i] == LF;
      assert s[i] == LF;
    }
  }

  lemma UpperByteLF(b: Byte)
    ensures UpperByte(b) == LF <==> b == LF
  {
  }

  /** An error reply is one readable line unless it quotes a line feed. */
  lemma FaultReadable(f: Fault)
    ensures Wire(Error(FaultText(f))) <==>
            match f
            case UnknownCommand(name) => LF !in name
            case Protocol(e) => e != InvalidType(LF)
            case _ => true
  {
  }

  predicate ArgsFit(args: seq<Value>) {
    |args| <= MAX_ARRAY_LENGTH && forall i :: 0 <= i < |args| ==> |Bulk(args[i])| <= MAX_BULK_SIZE
  }

  lemma {:induction false} DelFromFits(m: Items, args: seq<Value>, count: nat)
    requires StoreFits(m)
    ensures StoreFits(DelFrom(m, args, count).1)
    ensures DelFrom(m, args, count).0.Is?
    ensures var v := DelFrom(m, args, count).0.value;
            v == Error(FaultText(ArgumentNotBulk)) || (v.Integer? && count <= v.n <= count + |args|)
    decreases |args|
  {
    if args != [] && IsBulk(args[0]) {
      var (m', out) := Apply(m, Delete(Bulk(args[0])));
      DelFromFits(m', args[1..], if out == Flag(true) then count + 1 else count);
    }
  }

  lemma {:induction false} ExistsFromFits(m: Items, args: seq<Value>, count: nat, clock: Clock, j: nat)
    requires StoreFits(m)
    ensures StoreFits(ExistsFrom(m, args, count, clock, j).1)
    ensures ExistsFrom(m, args, count, clock, j).0.Is?
    ensures var v := ExistsFrom(m, args, count, clock, j).0.value;
            v == Error(FaultText(ArgumentNotBulk)) || (v.Integer? && count <= v.n <= count + |args|)
    decreases |args|
  {
    if args != [] && IsBulk(args[0]) {
      var (m', out) := Apply(m, Get(Bulk(args[0]), clock(j)));
      ExistsFromFits(m', args[1..], if out.Found? then count + 1 else count, clock, j + 1);
    }
  }

  /** A reply the wire can carry, and a store that fits. */
  ghost predicate Fine(r: (Reply, Items)) {
    r.0.Is? && Wire(r.0.value) && StoreFits(r.1)
  }

  lemma FaultsFine(m: Items)
    requires StoreFits(m)
    ensures Fine((Fails(WrongArity), m)) && Fine((Fails(ArgumentNotBulk), m)) && Fine((Fails(BadSeconds), m))
    ensures Fine((Is(Integer(Wrap64(|m|))), m)) && Fine((Is(SimpleString(OK)), map[]))
  {
  }

  lemma ReadsFine(m: Items, args: seq<Value>, clock: Clock)
    requires StoreFits(m) && ArgsFit(args)
    ensures Fine((Ping(args), m)) && Fine((Echo(args), m)) && Fine((DoTtl(m, args, clock), m))
    ensures Fine(DoGet(m, args, clock))
  {
  }

  lemma WritesFine(m: Items, args: seq<Value>, clock: Clock)
    requires StoreFits(m) && ArgsFit(args)
    ensures Fine(DoSet(m, args, clock)) && Fine(DoExpire(m, args, clock))
  {
    hide FaultText, ParseSeconds, SetSeconds, ExpiresAt;
    FaultsFine(m);
  }

  lemma LoopsFine(m: Items, args: seq<Value>, clock: Clock)
    requires StoreFits(m) && ArgsFit(args)
    ensures Fine(DoDel(m, args)) && Fine(DoExists(m, args, clock))
  {
    hide FaultText, DelFrom, ExistsFrom;
    FaultsFine(m);
    DelFromFits(m, args, 0);
    ExistsFromFits(m, args, 0, clock, 0);
  }

  /** The commands other than KEYS and INFO that the dispatcher knows. */
  lemma KnownReplyFits(m: Items, name: Bytes, args: seq<Value>, clock: Clock)
    requires StoreFits(m) && ArgsFit(args) && name in KNOWN && name != KEYS && name != INFO
    ensures Fine(Dispatch(m, name, args, clock))
  {
    hide Fine, Ping, Echo, DoTtl, DoGet, DoSet, DoExpire, DoDel, DoExists, DoInfo, ListKeys, FaultText, ArgsFit;
    FaultsFine(m);
    ReadsFine(m, args, clock);
    WritesFine(m, args, clock);
    LoopsFine(m, args, clock);
  }

  lemma ListReadable(m: Items, keys: seq<Key>)
    requires StoreFits(m) && Enumerates(keys, m.Keys)
    ensures Wire(Array(BulksOf(keys))) <==> |m| <= MAX_ARRAY_LENGTH
  {
    EnumerationSize(keys, m.Keys);
    assert |m| == |m.Keys|;
    forall i | 0 <= i < |keys|
      ensures Wire(BulksOf(keys)[i])
    {
      assert keys[i] in keys;
    }
  }

  /** From a store that fits, a command off the wire leaves a store that fits. */
  lemma InterpretKeepsFit(m: Items, cmd: Value, clock: Clock)
    requires StoreFits(m) && Wire(cmd)
    ensures StoreFits(Interpret(m, cmd, clock).1)
  {
    hide ArgsFit, StoreFits, ToUpper, Dispatch, Wire;
    if NameOf(cmd).Some? {
      ArgsOffWire(cmd);
      DispatchKeepsFit(m, NameOf(cmd).value, cmd.items[1..], clock);
    }
  }

  lemma ArgsOffWire(cmd: Value)
    requires Wire(cmd) && NameOf(cmd).Some?
    ensures ArgsFit(cmd.items[1..])
  {
  }

  lemma DispatchKeepsFit(m: Items, name: Bytes, args: seq<Value>, clock: Clock)
    requires StoreFits(m) && ArgsFit(args)
    ensures StoreFits(Dispatch(m, name, args, clock).1)
  {
    hide DoGet, DoSet, DoDel, DoExists, DoExpire, ArgsFit, StoreFits, FaultText;
    if name in KNOWN && name != KEYS && name != INFO {
      KnownReplyFits(m, name, args, clock);
    }
  }

  /** The reply to a command off the wire can itself be read off the wire exactly when the command is `Readable`. */
  lemma ReplyReadableExactly(m: Items, cmd: Value, clock: Clock, v: Value)
    requires StoreFits(m) && Wire(cmd) && Fits(Interpret(m, cmd, clock).0, v)
    ensures Wire(v) <==> Readable(m, cmd)
  {
    if NameOf(cmd).Some? {
      ArgsOffWire(cmd);
      hide ArgsFit, ToUpper, Dispatch, Fits, Wire;
      DispatchReadableExactly(m, cmd, clock, v);
    } else {
      FaultReadable(NotAnArray);
      FaultReadable(EmptyCommand);
      FaultReadable(NameNotBulk);
    }
  }

  lemma DispatchReadableExactly(m: Items, cmd: Value, clock: Clock, v: Value)
    requires StoreFits(m) && NameOf(cmd).Some? && ArgsFit(cmd.items[1..])
    requires Fits(Dispatch(m, NameOf(cmd).value, cmd.items[1..], clock).0, v)
    ensures Wire(v) <==> Readable(m, cmd)
  {
    hide DoGet, DoSet, DoDel, DoExists, DoExpire, Ping, Echo, DoTtl, ArgsFit, ToUpper, FaultText, Wire, StoreFits;
    var name, args := NameOf(cmd).value, cmd.items[1..];
    if name !in KNOWN {
      FaultReadable(UnknownCommand(name));
      UpperKeepsLF(Bulk(cmd.items[0]));
    } else if name == KEYS {
      KeysReadable(m, args, v);
    } else if name == INFO {
      InfoReadable(m, args, v);
    } else {
      KnownReplyFits(m, name, args, clock);
    }
  }

  lemma InfoReadable(m: Items, args: seq<Value>, v: Value)
    requires Fits(DoInfo(m, args), v)
    ensures Wire(v) <==> (Section(args).Some? ==> SectionFits(Section(args).value))
  {
    hide InfoText;
    FaultReadable(ArgumentNotBulk);
    if Section(args).Some? {
      InfoTextFits(Section(args).value, Wrap64(|m|));
    }
  }

  lemma KeysReadable(m: Items, args: seq<Value>, v: Value)
    requires StoreFits(m) && Fits(ListKeys(m, args), v)
    ensures Wire(v) <==> (ListKeys(m, args).Lists? ==> |m| <= MAX_ARRAY_LENGTH)
  {
    FaultReadable(WrongArity);
    FaultReadable(ArgumentNotBulk);
    FaultReadable(BadPattern);
    if ListKeys(m, args).Lists? {
      var keys :| Enumerates(keys, m.Keys) && v == Array(BulksOf(keys));
      ListReadable(m, keys);
    }
  }
}
