/**
 What each command means to a client, in words, bytes and numbers of the protocol: its name in any letter case, which
 arguments it takes, what it answers, and what the store holds afterwards.
 */
module CommandMeaning {
  import opened Bytes
  import opened Decimal
  import opened Numerals
  import opened Resp
  import opened TimedMap
  import opened Commands
  import opened CommandProperties

  // ---------------------------------------------------------------- words

  /** The bytes are the word's characters. */
  predicate Spells(s: Bytes, word: string) {
    |s| == |word| && forall i :: 0 <= i < |s| ==> s[i] as int == word[i] as int
  }

  predicate Capitals(word: string) {
    forall i :: 0 <= i < |word| ==> 'A' <= word[i] <= 'Z'
  }

  /** The bytes are the word, given in capitals, in any mixture of upper and lower case. */
  predicate Word(s: Bytes, word: string) {
    |s| == |word| &&
    forall i :: 0 <= i < |s| ==> s[i] as int == word[i] as int || s[i] as int == word[i] as int + 0x20
  }

  lemma UpperIs(b: Byte, c: Byte)
    requires 0x41 <= c as int <= 0x5A
    ensures UpperByte(b) == c <==> b as int == c as int || b as int == c as int + 0x20
  {
  }

  lemma WordIsUpper(s: Bytes, name: Bytes, word: string)
    requires Spells(name, word) && Capitals(word)
    ensures Word(s, word) <==> ToUpper(s) == name
  {
    if |s| == |name| {
      forall i | 0 <= i < |s|
        ensures ToUpper(s)[i] == name[i] <==> s[i] as int == word[i] as int || s[i] as int == word[i] as int + 0x20
      {
        UpperIs(s[i], name[i]);
      }
    }
  }

  /** The names the program compares with. */
  lemma ReadNames()
    ensures Spells(PING, "PING") && Spells(ECHO, "ECHO") && Spells(GET, "GET") && Spells(TTL, "TTL")
    ensures Spells(EXISTS, "EXISTS") && Spells(KEYS, "KEYS")
  {
  }

  lemma WriteNames()
    ensures Spells(SET, "SET") && Spells(DEL, "DEL") && Spells(EXPIRE, "EXPIRE") && Spells(EX, "EX")
  {
  }

  lemma OtherNames()
    ensures Spells(DBSIZE, "DBSIZE") && Spells(FLUSHALL, "FLUSHALL") && Spells(INFO, "INFO")
  {
  }

  lemma OtherWords()
    ensures Spells(PONG, "PONG") && Spells(OK, "OK") && Spells(STAR, "*")
  {
  }

  // ---------------------------------------------------------------- commands

  /** The text of a value of the bulk string type; a null one has the empty text. */
  function Text(v: Value): Option<Bytes> {
    match v
    case BulkString(b) => Some(b)
    case NullBulk => Some([])
    case _ => None
  }

  /** The value is a command of that name. */
  predicate Calls(cmd: Value, word: string) {
    cmd.Array? && cmd.items != [] && Text(cmd.items[0]).Some? && Word(Text(cmd.items[0]).value, word)
  }

  function Args(cmd: Value): seq<Value> {
    if cmd.Array? && cmd.items != [] then cmd.items[1..] else []
  }

  lemma CallsIsName(cmd: Value, name: Bytes, word: string)
    requires Spells(name, word) && Capitals(word)
    ensures Calls(cmd, word) <==> NameOf(cmd) == Some(name)
    ensures Calls(cmd, word) ==> Args(cmd) == cmd.items[1..]
  {
    hide ToUpper, Word, Spells;
    if cmd.Array? && cmd.items != [] && Text(cmd.items[0]).Some? {
      WordIsUpper(Text(cmd.items[0]).value, name, word);
    }
  }

  /** Letter case does not matter to a command's name, nor to whether there is such a command. */
  lemma AnyCase(m: Items, n: Value, n': Value, word: string, args: seq<Value>, clock: Clock)
    requires Capitals(word) && Text(n).Some? && Text(n').Some?
    requires Word(Text(n).value, word) && Word(Text(n').value, word)
    ensures Interpret(m, Array([n] + args), clock) == Interpret(m, Array([n'] + args), clock)
  {
    hide Dispatch;
    var s, s' := Text(n).value, Text(n').value;
    forall i | 0 <= i < |s|
      ensures UpperByte(s[i]) == UpperByte(s'[i])
    {
      SameLetter(s[i], s'[i], word[i] as int);
    }
    assert ToUpper(s) == ToUpper(s');
    assert ([n] + args)[1..] == ([n'] + args)[1..];
  }

  lemma SameLetter(b: Byte, b': Byte, c: int)
    requires 0x41 <= c <= 0x5A && (b as int == c || b as int == c + 0x20) && (b' as int == c || b' as int == c + 0x20)
    ensures UpperByte(b) == UpperByte(b')
  {
  }

  // ---------------------------------------------------------------- what is answered

  predicate Refused(r: Reply) {
    r.Is? && r.value.Error?
  }

  /** The reply is this word on a line of its own. */
  predicate SaysWord(r: Reply, word: string) {
    r.Is? && r.value.SimpleString? && Spells(r.value.str, word)
  }

  predicate AllText(args: seq<Value>) {
    forall i :: 0 <= i < |args| ==> Text(args[i]).Some?
  }

  /** A single argument, which is a text. */
  predicate OneText(args: seq<Value>) {
    |args| == 1 && Text(args[0]).Some?
  }

  lemma NotACommand(m: Items, cmd: Value, clock: Clock)
    requires cmd.Array? && cmd.items != [] ==> Text(cmd.items[0]).None?
    ensures Refused(Interpret(m, cmd, clock).0) && Interpret(m, cmd, clock).1 == m
  {
  }

  /** PING without arguments answers PONG, with arguments the first of them. */
  lemma PingMeans(m: Items, cmd: Value, clock: Clock)
    requires Calls(cmd, "PING")
    ensures var (r, m') := Interpret(m, cmd, clock);
            && m' == m
            && if Args(cmd) == [] then SaysWord(r, "PONG")
               else if Text(Args(cmd)[0]).Some? then r == Is(BulkString(Text(Args(cmd)[0]).value))
               else Refused(r)
  {
    hide ToUpper, Word, Spells;
    ReadNames();
    OtherWords();
    CallsIsName(cmd, PING, "PING");
  }

  /** ECHO answers its one argument. */
  lemma EchoMeans(m: Items, cmd: Value, clock: Clock)
    requires Calls(cmd, "ECHO")
    ensures var (r, m') := Interpret(m, cmd, clock);
            && m' == m
            && if OneText(Args(cmd)) then r == Is(BulkString(Text(Args(cmd)[0]).value)) else Refused(r)
  {
    hide ToUpper, Word, Spells;
    ReadNames();
    CallsIsName(cmd, ECHO, "ECHO");
  }

  /** The item has no deadline, or it has not come. */
  predicate Lasts(it: Item, now: Time) {
    it.expiresAt <= 0 || now < it.expiresAt
  }

  /** GET answers the value of a stored key whose deadline has not come, and drops one whose deadline has. */
  lemma GetMeans(m: Items, cmd: Value, clock: Clock)
    requires Calls(cmd, "GET")
    ensures var (r, m') := Interpret(m, cmd, clock);
            if OneText(Args(cmd)) then
              var k := Text(Args(cmd)[0]).value;
              if k in m && Lasts(m[k], clock(0)) then r == Is(BulkString(m[k].value)) && m' == m
              else r == Is(NullBulk) && m' == m - {k}
            else Refused(r) && m' == m
  {
    hide ToUpper, Word, Spells;
    ReadNames();
    CallsIsName(cmd, GET, "GET");
  }

  /** TTL answers -1 for no key, -2 for no deadline, 0 for one that has come, and otherwise the seconds to it. */
  lemma TtlMeans(m: Items, cmd: Value, clock: Clock)
    requires Calls(cmd, "TTL")
    ensures var (r, m') := Interpret(m, cmd, clock);
            && m' == m
            && if OneText(Args(cmd)) then
                 var k := Text(Args(cmd)[0]).value;
                 if k !in m then r == Is(Integer(-1))
                 else
                   var e := m[k].expiresAt;
                   && (e == 0 ==> r == Is(Integer(-2)))
                   && (0 < e <= 0x7FFF_FFFF_FFFF_FFFF ==> r == Is(Integer(if e <= clock(0) then 0 else e - clock(0))))
               else Refused(r)
  {
    hide ToUpper, Word, Spells;
    ReadNames();
    CallsIsName(cmd, TTL, "TTL");
  }

  // ---------------------------------------------------------------- SET and EXPIRE

  /** The text is the numeral of a number of seconds. */
  predicate IsSeconds(v: Value, s: int) {
    Text(v).Some? && Numeral(Text(v).value, s) && s >= 0
  }

  /** The time to live a SET asks for: that of an option EX, and else none. */
  predicate Asks(args: seq<Value>, s: int) {
    if |args| >= 4 && Text(args[2]).Some? && Word(Text(args[2]).value, "EX") then IsSeconds(args[3], s) else s == 0
  }

  /** The deadline `s` seconds from `now`, zero for none; past 64 bits it comes out negative, which is none either. */
  function Deadline(now: Time, s: int): int {
    if s == 0 then 0
    else if now + s <= 0x7FFF_FFFF_FFFF_FFFF then now + s
    else now + s - 0x1_0000_0000_0000_0000
  }

  lemma DeadlineIs(now: Time, s: Seconds)
    requires s >= 0
    ensures ExpiresAt(now, s) == Deadline(now, s)
  {
    assert IsInt64(s);
  }

  lemma SecondsAre(v: Value)
    requires Text(v).Some?
    ensures forall s :: IsSeconds(v, s) <==> ParseSeconds(Text(v).value) == Some(s)
    ensures forall s :: IsSeconds(v, s) ==> IsInt64(s) && s >= 0
  {
    hide Numeral;
    ParseIntExactly(Text(v).value);
  }

  lemma AskedIs(args: seq<Value>)
    requires |args| >= 2
    ensures forall s :: Asks(args, s) <==> SetSeconds(args) == Some(s)
    ensures forall s :: Asks(args, s) ==> IsInt64(s) && s >= 0
  {
    hide ToUpper, Word, Spells, Numeral, ParseSeconds, ParseInt;
    if |args| >= 4 {
      WriteNames();
      WordIsUpper(Bulk(args[2]), EX, "EX");
      if Text(args[2]).None? {
        NoWord();
      }
      if Text(args[3]).Some? {
        SecondsAre(args[3]);
      }
    }
  }

  lemma NoWord()
    ensures !Word([], "EX")
  {
  }

  /** SET stores the value under the deadline asked for, in place of whatever the key had. */
  lemma SetMeans(m: Items, cmd: Value, clock: Clock)
    requires Calls(cmd, "SET")
    ensures var (r, m') := Interpret(m, cmd, clock);
            var args := Args(cmd);
            if |args| >= 2 && Text(args[0]).Some? && Text(args[1]).Some? && exists s :: Asks(args, s) then
              && SaysWord(r, "OK")
              && forall s :: Asks(args, s) ==>
                   m' == m[Text(args[0]).value := Item(Text(args[1]).value, Deadline(clock(0), s), clock(0))]
            else Refused(r) && m' == m
  {
    hide ToUpper, Word, Spells, Asks, SetSeconds, ExpiresAt, Deadline;
    WriteNames();
    OtherWords();
    CallsIsName(cmd, SET, "SET");
    if |Args(cmd)| >= 2 {
      AskedIs(Args(cmd));
      forall s: Seconds | s >= 0
        ensures ExpiresAt(clock(0), s) == Deadline(clock(0), s)
      {
        DeadlineIs(clock(0), s);
      }
    }
  }

  /** EXPIRE gives a stored key a new deadline, also one whose deadline has come, and says if there was such a key. */
  lemma ExpireMeans(m: Items, cmd: Value, clock: Clock)
    requires Calls(cmd, "EXPIRE")
    ensures var (r, m') := Interpret(m, cmd, clock);
            var args := Args(cmd);
            if |args| == 2 && Text(args[0]).Some? && exists s :: IsSeconds(args[1], s) then
              var k := Text(args[0]).value;
              if k !in m then r == Is(Integer(0)) && m' == m
              else
                && r == Is(Integer(1))
                && forall s :: IsSeconds(args[1], s) ==>
                     m' == m[k := Item(m[k].value, Deadline(clock(0), s), m[k].createdAt)]
            else Refused(r) && m' == m
  {
    hide ToUpper, Word, Spells, IsSeconds, ParseSeconds, ExpiresAt, Deadline;
    WriteNames();
    CallsIsName(cmd, EXPIRE, "EXPIRE");
    if |Args(cmd)| == 2 && Text(Args(cmd)[1]).Some? {
      SecondsAre(Args(cmd)[1]);
      forall s: Seconds | s >= 0
        ensures ExpiresAt(clock(0), s) == Deadline(clock(0), s)
      {
        DeadlineIs(clock(0), s);
      }
    }
    if |Args(cmd)| == 2 {
      NoSeconds(Args(cmd)[1]);
    }
  }

  lemma NoSeconds(v: Value)
    ensures Text(v).None? ==> forall s :: !IsSeconds(v, s)
  {
  }

  /**
   After any SET that is not refused, with EX or without, GET answers the value and TTL the seconds left until the
   time asked for is over, and for ever, with TTL -2, if none was; of other keys nothing changes.
   */
  lemma SetThenAsk(m: Items, put: Value, get: Value, ttl: Value, s: int, clock: Clock, later: Clock)
    requires Calls(put, "SET") && Calls(get, "GET") && Calls(ttl, "TTL")
    requires |Args(put)| >= 2 && Text(Args(put)[0]).Some? && Text(Args(put)[1]).Some? && Asks(Args(put), s)
    requires |Args(get)| == |Args(ttl)| == 1 && Text(Args(get)[0]) == Text(Args(ttl)[0]) == Text(Args(put)[0])
    requires clock(0) <= later(0)
    ensures var m' := Interpret(m, put, clock).1;
            var left := clock(0) + s - later(0);
            && Interpret(m', get, later).0 == Is(if s == 0 || left > 0 then BulkString(Text(Args(put)[1]).value) else NullBulk)
            && Interpret(m', ttl, later).0 == Is(Integer(if s == 0 then -2 else if left > 0 then left else 0))
            && forall k :: k != Text(Args(put)[0]).value ==> (k in m' <==> k in m) && (k in m ==> m'[k] == m[k])
  {
    hide Interpret, Calls, Asks;
    var k := Text(Args(put)[0]).value;
    SetMeans(m, put, clock);
    var m' := Interpret(m, put, clock).1;
    AskedIs(Args(put));
    GetMeans(m', get, later);
    DeadlineIs(clock(0), s);
    StampCountsDown(m'[k], clock(0), s, later(0));
    TtlOfStored(m', ttl, later);
  }

  lemma TtlOfStored(m: Items, cmd: Value, clock: Clock)
    requires Calls(cmd, "TTL") && OneText(Args(cmd)) && Text(Args(cmd)[0]).value in m
    ensures Interpret(m, cmd, clock).0 == Is(Integer(Remaining(m[Text(Args(cmd)[0]).value], clock(0))))
  {
    hide ToUpper, Word, Spells, Remaining;
    ReadNames();
    CallsIsName(cmd, TTL, "TTL");
  }

  // ---------------------------------------------------------------- DEL and EXISTS

  /** The keys that texts name. */
  function Named(args: seq<Value>): set<Key> {
    set i | 0 <= i < |args| && Text(args[i]).Some? :: Text(args[i]).value
  }

  lemma NamedAreKeys(args: seq<Value>)
    requires AllText(args)
    ensures Named(args) == KeysIn(args) && AllBulk(args)
  {
    assert forall i :: 0 <= i < |args| ==> Text(args[i]) == Some(Bulk(args[i]));
  }

  /** DEL removes the keys up to its first argument that is no text, and says how many there were, if there is none. */
  lemma DelMeans(m: Items, cmd: Value, clock: Clock, j: nat)
    requires Calls(cmd, "DEL") && j <= |Args(cmd)| && AllText(Args(cmd)[..j])
    requires j < |Args(cmd)| ==> Text(Args(cmd)[j]).None?
    ensures var (r, m') := Interpret(m, cmd, clock);
            && m' == m - Named(Args(cmd)[..j])
            && if 0 < j == |Args(cmd)| then r == Is(Integer(|Named(Args(cmd)) * m.Keys|)) else Refused(r)
  {
    hide ToUpper, Word, Spells, DoDel, Named, KeysIn;
    WriteNames();
    CallsIsName(cmd, DEL, "DEL");
    DoDelMeans(m, Args(cmd), j);
  }

  lemma DoDelMeans(m: Items, args: seq<Value>, j: nat)
    requires j <= |args| && AllText(args[..j]) && (j < |args| ==> Text(args[j]).None?)
    ensures var (r, m') := DoDel(m, args);
            && m' == m - Named(args[..j])
            && if 0 < j == |args| then r == Is(Integer(|Named(args) * m.Keys|)) else Refused(r)
  {
    hide DelFrom, KeysIn;
    NamedAreKeys(args[..j]);
    if args == [] {
      assert m - {} == m;
    } else {
      hide Named;
      if j == |args| {
        assert args[..j] == args;
        DelConservation(m, args);
      } else {
        DelStopsAtNonBulk(m, args, j);
      }
    }
  }

  /** The number of positions whose key is stored and lasts. */
  function Lasting(m: Items, args: seq<Value>, now: Time): nat {
    |LastingAt(m, args, now)|
  }

  function LastingAt(m: Items, args: seq<Value>, now: Time): set<int> {
    set i | 0 <= i < |args| && KeyLasts(m, args[i], now)
  }

  predicate KeyLasts(m: Items, arg: Value, now: Time) {
    Text(arg).Some? && Text(arg).value in m && Lasts(m[Text(arg).value], now)
  }

  lemma {:induction false} LivePositionsLast(m: Items, args: seq<Value>, clock: Clock, now: Time, j: nat)
    requires args != [] && AllText(args) && forall i :: clock(i) == now
    ensures var n := |args| - 1;
            LivePositions(m, args, clock, j) == LivePositions(m, args[..n], clock, j) + (if KeyLasts(m, args[n], now) then 1 else 0)
  {
    if |args| > 1 {
      LivePositionsLast(m, args[1..], clock, now, j + 1);
      assert args[1..][..|args| - 2] == args[..|args| - 1][1..];
    }
  }

  lemma {:induction false} LivePositionsAre(m: Items, args: seq<Value>, clock: Clock, now: Time)
    requires AllText(args) && forall i :: clock(i) == now
    ensures LivePositions(m, args, clock, 0) == Lasting(m, args, now)
  {
    hide KeyLasts;
    if args == [] {
      assert LastingAt(m, args, now) == {};
    } else {
      hide Lasting, LivePositions;
      LivePositionsLast(m, args, clock, now, 0);
      LivePositionsAre(m, args[..|args| - 1], clock, now);
      LastingLast(m, args, now);
    }
  }

  lemma LastingLast(m: Items, args: seq<Value>, now: Time)
    requires args != []
    ensures var n := |args| - 1;
            Lasting(m, args, now) == Lasting(m, args[..n], now) + (if KeyLasts(m, args[n], now) then 1 else 0)
  {
    hide KeyLasts;
    var n := |args| - 1;
    var before := LastingAt(m, args[..n], now);
    forall i
      ensures i in LastingAt(m, args, now) <==> i in before || (i == n && KeyLasts(m, args[n], now))
    {
      assert 0 <= i < n ==> args[..n][i] == args[i];
    }
    if KeyLasts(m, args[n], now) {
      assert LastingAt(m, args, now) == before + {n};
    } else {
      assert LastingAt(m, args, now) == before;
    }
  }

  /**
   EXISTS, at one clock reading, counts the arguments, with repeats, that name a stored key whose deadline has not
   come, and drops those whose deadline has; it is refused if an argument is no text.
   */
  lemma ExistsMeans(m: Items, cmd: Value, clock: Clock, now: Time)
    requires Calls(cmd, "EXISTS") && forall i :: clock(i) == now
    ensures var (r, m') := Interpret(m, cmd, clock);
            var args := Args(cmd);
            if args != [] && AllText(args) then
              && r == Is(Integer(Lasting(m, args, now)))
              && m' == m - set k | k in Named(args) && k in m && !Lasts(m[k], now)
            else Refused(r)
  {
    hide ToUpper, Word, Spells, ExistsFrom, Named, KeysIn, Lasting, LivePositions, ExpiredArgs;
    ReadNames();
    CallsIsName(cmd, EXISTS, "EXISTS");
    var args := Args(cmd);
    if args != [] && AllText(args) {
      NamedAreKeys(args);
      LivePositionsAre(m, args, clock, now);
      ExistsAccounting(m, args, clock);
      ExpiredArgsAtOnce(m, args, clock, now, 0);
      assert ExpiredKeys(m, now) * KeysIn(args) == set k | k in Named(args) && k in m && !Lasts(m[k], now);
    } else if args != [] {
      ExistsRefused(m, args, 0, clock, 0);
    }
  }

  lemma {:induction false} ExistsRefused(m: Items, args: seq<Value>, count: nat, clock: Clock, j: nat)
    requires !AllText(args)
    ensures Refused(ExistsFrom(m, args, count, clock, j).0)
    decreases |args|
  {
    if IsBulk(args[0]) {
      assert exists i :: 0 < i < |args| && Text(args[i]).None?;
      var i :| 0 < i < |args| && Text(args[i]).None?;
      assert args[1..][i - 1] == args[i];
      var (m', out) := Apply(m, Get(Bulk(args[0]), clock(j)));
      ExistsRefused(m', args[1..], if out.Found? then count + 1 else count, clock, j + 1);
    }
  }

  // ---------------------------------------------------------------- error texts

  /** The bytes with small letters made capitals. */
  predicate Raised(s: Bytes, upper: Bytes) {
    |upper| == |s| &&
    forall i :: 0 <= i < |s| ==> upper[i] as int == if 0x61 <= s[i] as int <= 0x7A then s[i] as int - 0x20 else s[i] as int
  }

  lemma RaisedIs(s: Bytes)
    ensures Raised(s, ToUpper(s))
  {
    forall i | 0 <= i < |s|
      ensures ToUpper(s)[i] as int == if 0x61 <= s[i] as int <= 0x7A then s[i] as int - 0x20 else s[i] as int
    {
      UpperValue(s[i]);
    }
  }

  lemma UpperValue(b: Byte)
    ensures UpperByte(b) as int == if 0x61 <= b as int <= 0x7A then b as int - 0x20 else b as int
  {
  }

  /** The text ends with this. */
  predicate Quotes(text: Bytes, quoted: Bytes) {
    |quoted| <= |text| && text[|text| - |quoted|..] == quoted
  }

  /** The UTF-8 encoding of the character with the number of the byte. */
  predicate IsUtf8(b: Byte, s: Bytes) {
    if b as int < 0x80 then s == [b]
    else |s| == 2 && s[0] as int == 0xC0 + b as int / 64 && s[1] as int == 0x80 + b as int % 64
  }

  lemma CharTextIs(b: Byte)
    ensures IsUtf8(b, CharText(b))
  {
    assert b as int < 0x80 <==> b < 0x80;
    assert b >= 0x80 ==> (0xC0 | (b >> 6)) as int == 0xC0 + b as int / 64;
    assert b >= 0x80 ==> (0x80 | (b & 0x3F)) as int == 0x80 + b as int % 64;
  }

  /** Every error text starts with ERR; those for an unknown type byte and an unknown name end with it. */
  lemma FaultTexts(f: Fault)
    ensures |FaultText(f)| > 4 && Spells(FaultText(f)[..4], "ERR ")
    ensures f.UnknownCommand? ==> Quotes(FaultText(f), f.name)
    ensures f.Protocol? && f.error.InvalidType? ==>
      exists c :: IsUtf8(f.error.tag, c) && Quotes(FaultText(f), c)
  {
    hide CharText, IsUtf8;
    assert FaultText(f)[..4] == ERR;
    if f.Protocol? && f.error.InvalidType? {
      CharTextIs(f.error.tag);
      assert Quotes(FaultText(f), CharText(f.error.tag));
    }
  }

  lemma CharTextsDiffer(b: Byte, c: Byte)
    ensures CharText(b) == CharText(c) ==> b == c
  {
    assert b >= 0x80 && c >= 0x80 && b >> 6 == c >> 6 && b & 0x3F == c & 0x3F ==> b == c;
    assert b >= 0x80 ==> (0xC0 | (b >> 6)) & 0x3F == b >> 6 && (0x80 | (b & 0x3F)) & 0x3F == b & 0x3F;
    assert c >= 0x80 ==> (0xC0 | (c >> 6)) & 0x3F == c >> 6 && (0x80 | (c & 0x3F)) & 0x3F == c & 0x3F;
  }

  /** Different reasons have different texts. */
  lemma FaultTextsDiffer(f: Fault, g: Fault)
    requires FaultText(f) == FaultText(g)
    ensures f == g
  {
    hide CharText;
    var s, t := FaultText(f), FaultText(g);
    assert s[4] == t[4] && s[4..] == t[4..];
    if f.UnknownCommand? {
      assert s[6..] == f.name && t[6..] == g.name;
    }
    if f.Protocol? {
      assert s[6..] == ErrorText(f.error) && t[6..] == ErrorText(g.error);
      if f.error.InvalidType? {
        assert s[8..] == CharText(f.error.tag) && t[8..] == CharText(g.error.tag);
        CharTextsDiffer(f.error.tag, g.error.tag);
      }
    }
  }

  // ---------------------------------------------------------------- the whole store

  /** KEYS takes the pattern * only, and lists every stored key. */
  lemma KeysMeans(m: Items, cmd: Value, clock: Clock)
    requires Calls(cmd, "KEYS")
    ensures var (r, m') := Interpret(m, cmd, clock);
            && m' == m
            && if OneText(Args(cmd)) && Spells(Text(Args(cmd)[0]).value, "*") then r == Lists(m.Keys) else Refused(r)
  {
    hide ToUpper, Word;
    ReadNames();
    CallsIsName(cmd, KEYS, "KEYS");
    if OneText(Args(cmd)) {
      OneByte(Text(Args(cmd)[0]).value);
    }
  }

  /** A listing answered is an array of bulk strings, as many as there are keys, and every key is one of them. */
  lemma ListingMeans(s: set<Key>, v: Value)
    requires Fits(Lists(s), v)
    ensures v.Array? && |v.items| == |s|
    ensures forall i :: 0 <= i < |v.items| ==> v.items[i].BulkString? && v.items[i].bulk in s
    ensures forall k :: k in s ==> BulkString(k) in v.items
  {
    var keys :| Enumerates(keys, s) && v == Array(BulksOf(keys));
    EnumerationSize(keys, s);
    forall i | 0 <= i < |keys|
      ensures v.items[i] == BulkString(keys[i]) && keys[i] in s
    {
      assert keys[i] in keys;
    }
    forall k | k in s
      ensures BulkString(k) in v.items
    {
      var i :| 0 <= i < |keys| && keys[i] == k;
      assert v.items[i] == BulkString(k);
    }
  }

  lemma OneByte(s: Bytes)
    ensures Spells(s, "*") <==> s == STAR
  {
    if |s| == 1 {
      assert s == [s[0]];
    }
  }

  /** DBSIZE answers the number of stored keys. */
  lemma DbsizeMeans(m: Items, cmd: Value, clock: Clock)
    requires Calls(cmd, "DBSIZE")
    ensures var (r, m') := Interpret(m, cmd, clock);
            && m' == m
            && if Args(cmd) != [] then Refused(r) else |m| <= 0x7FFF_FFFF_FFFF_FFFF ==> r == Is(Integer(|m|))
  {
    hide ToUpper, Word, Spells;
    OtherNames();
    CallsIsName(cmd, DBSIZE, "DBSIZE");
  }

  /** FLUSHALL leaves nothing stored. */
  lemma FlushallMeans(m: Items, cmd: Value, clock: Clock)
    requires Calls(cmd, "FLUSHALL")
    ensures var (r, m') := Interpret(m, cmd, clock);
            if Args(cmd) == [] then SaysWord(r, "OK") && m' == map[] else Refused(r) && m' == m
  {
    hide ToUpper, Word, Spells;
    OtherNames();
    OtherWords();
    CallsIsName(cmd, FLUSHALL, "FLUSHALL");
  }

  /** A command of any other name is refused with the name in capitals. */
  lemma UnknownMeans(m: Items, cmd: Value, clock: Clock)
    requires !Calls(cmd, "PING") && !Calls(cmd, "ECHO") && !Calls(cmd, "GET") && !Calls(cmd, "SET")
    requires !Calls(cmd, "DEL") && !Calls(cmd, "EXISTS") && !Calls(cmd, "TTL") && !Calls(cmd, "EXPIRE")
    requires !Calls(cmd, "DBSIZE") && !Calls(cmd, "FLUSHALL") && !Calls(cmd, "KEYS") && !Calls(cmd, "INFO")
    ensures Refused(Interpret(m, cmd, clock).0) && Interpret(m, cmd, clock).1 == m
    ensures cmd.Array? && cmd.items != [] && Text(cmd.items[0]).Some? ==>
      exists name :: Raised(Text(cmd.items[0]).value, name) && Quotes(Interpret(m, cmd, clock).0.value.msg, name)
  {
    hide ToUpper, Calls, FaultText, Raised, Quotes;
    NoneOfThese(cmd);
    if NameOf(cmd).Some? {
      RaisedIs(Text(cmd.items[0]).value);
      FaultTexts(UnknownCommand(NameOf(cmd).value));
    }
  }

  lemma NoneOfThese(cmd: Value)
    ensures NameOf(cmd) == Some(PING) ==> Calls(cmd, "PING")
    ensures NameOf(cmd) == Some(ECHO) ==> Calls(cmd, "ECHO")
    ensures NameOf(cmd) == Some(GET) ==> Calls(cmd, "GET")
    ensures NameOf(cmd) == Some(SET) ==> Calls(cmd, "SET")
    ensures NameOf(cmd) == Some(DEL) ==> Calls(cmd, "DEL")
    ensures NameOf(cmd) == Some(EXISTS) ==> Calls(cmd, "EXISTS")
    ensures NameOf(cmd) == Some(TTL) ==> Calls(cmd, "TTL")
    ensures NameOf(cmd) == Some(EXPIRE) ==> Calls(cmd, "EXPIRE")
    ensures NameOf(cmd) == Some(DBSIZE) ==> Calls(cmd, "DBSIZE")
    ensures NameOf(cmd) == Some(FLUSHALL) ==> Calls(cmd, "FLUSHALL")
    ensures NameOf(cmd) == Some(KEYS) ==> Calls(cmd, "KEYS")
    ensures NameOf(cmd) == Some(INFO) ==> Calls(cmd, "INFO")
  {
    hide NameOf, Spells, Calls;
    ReadNames();
    WriteNames();
    OtherNames();
    CallsIsName(cmd, PING, "PING");
    CallsIsName(cmd, ECHO, "ECHO");
    CallsIsName(cmd, GET, "GET");
    CallsIsName(cmd, SET, "SET");
    CallsIsName(cmd, DEL, "DEL");
    CallsIsName(cmd, EXISTS, "EXISTS");
    CallsIsName(cmd, TTL, "TTL");
    CallsIsName(cmd, EXPIRE, "EXPIRE");
    CallsIsName(cmd, DBSIZE, "DBSIZE");
    CallsIsName(cmd, FLUSHALL, "FLUSHALL");
    CallsIsName(cmd, KEYS, "KEYS");
    CallsIsName(cmd, INFO, "INFO");
  }
}
