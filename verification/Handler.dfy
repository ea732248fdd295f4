/** The command handler over the sharded store, each command proved to mean what the flat interpreter says. */
module Handler {
  import opened Decimal
  import opened Fnv
  import opened Bytes
  import opened Resp
  import opened Info
  import opened TimedMap
  import opened Sharding
  import opened ShardedMap
  import opened Commands
  import TtlManager

  class CommandHandler {
    const sm: ShardedMap

    constructor (sm: ShardedMap)
      ensures this.sm == sm
    {
      this.sm := sm;
    }

    /** Handles one command; the reply and the store agree with the interpreter on the single timed map. */
    method HandleCommand(value: Value, clock: Clock) returns (reply: Value)
      requires sm.Valid()
      modifies sm.shards
      ensures sm.Valid()
      ensures var (r, m) := Interpret(old(sm.Contents()), value, clock); Fits(r, reply) && sm.Contents() == m
    {
      hide DoGet, DoSet, DoDel, DoExists, DoExpire, DoTtl, ListKeys, DoInfo, Flat;
      if !IsArray(value) {
        return Error(FaultText(NotAnArray));
      }
      var elements := ElementsOf(value);
      if elements == [] {
        return Error(FaultText(EmptyCommand));
      }
      if !IsBulk(elements[0]) {
        return Error(FaultText(NameNotBulk));
      }
      var name, args := ToUpper(Bulk(elements[0])), elements[1..];
      if name == PING {
        reply := HandlePing(args);
      } else if name == ECHO {
        reply := HandleEcho(args);
      } else if name == GET {
        reply := HandleGet(args, clock);
      } else if name == SET {
        reply := HandleSet(args, clock);
      } else if name == DEL {
        reply := HandleDel(args);
      } else if name == EXISTS {
        reply := HandleExists(args, clock);
      } else if name == TTL {
        reply := HandleTTL(args, clock);
      } else if name == EXPIRE {
        reply := HandleExpire(args, clock);
      } else if name == DBSIZE {
        reply := HandleDBSize(args);
      } else if name == FLUSHALL {
        reply := HandleFlushAll(args);
      } else if name == KEYS {
        reply := HandleKeys(args);
      } else if name == INFO {
        reply := HandleInfo(args);
      } else {
        reply := Error(FaultText(UnknownCommand(name)));
      }
    }

    method HandlePing(args: seq<Value>) returns (reply: Value)
      ensures Fits(Ping(args), reply)
    {
      if args == [] {
        return SimpleString(PONG);
      }
      if !IsBulk(args[0]) {
        return Error(FaultText(ArgumentNotBulk));
      }
      return BulkString(Bulk(args[0]));
    }

    method HandleEcho(args: seq<Value>) returns (reply: Value)
      ensures Fits(Echo(args), reply)
    {
      if |args| != 1 {
        return Error(FaultText(WrongArity));
      }
      if !IsBulk(args[0]) {
        return Error(FaultText(ArgumentNotBulk));
      }
      return BulkString(Bulk(args[0]));
    }

    method HandleGet(args: seq<Value>, clock: Clock) returns (reply: Value)
      requires sm.Valid()
      modifies sm.shards
      ensures sm.Valid()
      ensures var (r, m) := DoGet(old(sm.Contents()), args, clock); Fits(r, reply) && sm.Contents() == m
    {
      if |args| != 1 {
        return Error(FaultText(WrongArity));
      }
      if !IsBulk(args[0]) {
        return Error(FaultText(ArgumentNotBulk));
      }
      var key := Bulk(args[0]);
      RemoveMissing(sm.Contents(), key);
      var value := sm.Get(key, clock(0));
      reply := if value.None? then NullBulk else BulkString(value.value);
    }

    method HandleSet(args: seq<Value>, clock: Clock) returns (reply: Value)
      requires sm.Valid()
      modifies sm.shards
      ensures sm.Valid()
      ensures var (r, m) := DoSet(old(sm.Contents()), args, clock); Fits(r, reply) && sm.Contents() == m
    {
      if |args| < 2 {
        return Error(FaultText(WrongArity));
      }
      if !IsBulk(args[0]) || !IsBulk(args[1]) {
        return Error(FaultText(ArgumentNotBulk));
      }
      var key, value := Bulk(args[0]), Bulk(args[1]);
      var ttl: Seconds := 0;
      if |args| >= 4 {
        var option := ToUpper(Bulk(args[2]));
        if option == EX {
          if !IsBulk(args[3]) {
            return Error(FaultText(BadSeconds));
          }
          var seconds := ParseInt(Bulk(args[3]));
          if seconds.None? || seconds.value < 0 {
            return Error(FaultText(BadSeconds));
          }
          ttl := seconds.value;
        }
      }
      sm.Set(key, value, ttl, clock(0));
      reply := SimpleString(OK);
    }

    method HandleDel(args: seq<Value>) returns (reply: Value)
      requires sm.Valid()
      modifies sm.shards
      ensures sm.Valid()
      ensures var (r, m) := DoDel(old(sm.Contents()), args); Fits(r, reply) && sm.Contents() == m
    {
      if args == [] {
        return Error(FaultText(WrongArity));
      }
      var count := 0;
      for i := 0 to |args|
        invariant sm.Valid()
        invariant DelFrom(old(sm.Contents()), args, 0) == DelFrom(sm.Contents(), args[i..], count)
      {
        assert args[i..][0] == args[i] && args[i..][1..] == args[i + 1..];
        if !IsBulk(args[i]) {
          return Error(FaultText(ArgumentNotBulk));
        }
        var deleted := sm.Delete(Bulk(args[i]));
        if deleted {
          count := count + 1;
        }
      }
      reply := Integer(count);
    }

    method HandleExists(args: seq<Value>, clock: Clock) returns (reply: Value)
      requires sm.Valid()
      modifies sm.shards
      ensures sm.Valid()
      ensures var (r, m) := DoExists(old(sm.Contents()), args, clock); Fits(r, reply) && sm.Contents() == m
    {
      if args == [] {
        return Error(FaultText(WrongArity));
      }
      var count := 0;
      for i := 0 to |args|
        invariant sm.Valid()
        invariant ExistsFrom(old(sm.Contents()), args, 0, clock, 0)
               == ExistsFrom(sm.Contents(), args[i..], count, clock, i)
      {
        assert args[i..][0] == args[i] && args[i..][1..] == args[i + 1..];
        if !IsBulk(args[i]) {
          return Error(FaultText(ArgumentNotBulk));
        }
        RemoveMissing(sm.Contents(), Bulk(args[i]));
        var found := sm.Exists(Bulk(args[i]), clock(i));
        if found {
          count := count + 1;
        }
      }
      reply := Integer(count);
    }

    method HandleTTL(args: seq<Value>, clock: Clock) returns (reply: Value)
      requires sm.Valid()
      ensures Fits(DoTtl(sm.Contents(), args, clock), reply)
    {
      if |args| != 1 {
        return Error(FaultText(WrongArity));
      }
      if !IsBulk(args[0]) {
        return Error(FaultText(ArgumentNotBulk));
      }
      var ttl := TtlManager.TTL(sm, Bulk(args[0]), clock(0));
      reply := Integer(ttl);
    }

    method HandleExpire(args: seq<Value>, clock: Clock) returns (reply: Value)
      requires sm.Valid()
      modifies sm.shards
      ensures sm.Valid()
      ensures var (r, m) := DoExpire(old(sm.Contents()), args, clock); Fits(r, reply) && sm.Contents() == m
    {
      if |args| != 2 {
        return Error(FaultText(WrongArity));
      }
      if !IsBulk(args[0]) || !IsBulk(args[1]) {
        return Error(FaultText(ArgumentNotBulk));
      }
      var seconds := ParseInt(Bulk(args[1]));
      if seconds.None? || seconds.value < 0 {
        return Error(FaultText(BadSeconds));
      }
      var updated := TtlManager.Expire(sm, Bulk(args[0]), seconds.value, clock(0));
      reply := Integer(if updated then 1 else 0);
    }

    method HandleDBSize(args: seq<Value>) returns (reply: Value)
      requires sm.Valid()
      ensures reply == if args != [] then Error(FaultText(WrongArity)) else Integer(Wrap64(|sm.Contents()|))
    {
      if args != [] {
        return Error(FaultText(WrongArity));
      }
      var size := sm.Len();
      reply := Integer(Wrap64(size));
    }

    method HandleFlushAll(args: seq<Value>) returns (reply: Value)
      requires sm.Valid()
      modifies sm.shards
      ensures sm.Valid()
      ensures args != [] ==> reply == Error(FaultText(WrongArity)) && sm.Contents() == old(sm.Contents())
      ensures args == [] ==> reply == SimpleString(OK) && sm.Contents() == map[]
    {
      if args != [] {
        return Error(FaultText(WrongArity));
      }
      sm.Clear();
      reply := SimpleString(OK);
    }

    method HandleKeys(args: seq<Value>) returns (reply: Value)
      requires sm.Valid()
      ensures Fits(ListKeys(sm.Contents(), args), reply)
    {
      if |args| != 1 {
        return Error(FaultText(WrongArity));
      }
      if !IsBulk(args[0]) {
        return Error(FaultText(ArgumentNotBulk));
      }
      if Bulk(args[0]) != STAR {
        return Error(FaultText(BadPattern));
      }
      var keys := GetAllKeys();
      reply := Array(BulksOf(keys));
    }

    /** The keys of all shards, collected one shard after another. */
    method GetAllKeys() returns (keys: seq<Key>)
      requires sm.Valid()
      ensures Enumerates(keys, sm.Contents().Keys) && |keys| == |sm.Contents()|
    {
      keys := [];
      ghost var lists: seq<seq<Key>> := [];
      for i := 0 to SHARD_COUNT
        invariant |lists| == i && keys == Concat(lists)
        invariant forall j :: 0 <= j < i ==> Enumerates(lists[j], sm.shards[j].Keys)
      {
        var shardKeys := sm.GetAllKeys(i);
        assert (lists + [shardKeys])[..i] == lists;
        lists := lists + [shardKeys];
        keys := keys + shardKeys;
      }
      ListsAddUp(sm.shards[..], lists);
    }

    method HandleInfo(args: seq<Value>) returns (reply: Value)
      requires sm.Valid()
      ensures Fits(DoInfo(sm.Contents(), args), reply)
    {
      var section := ALL;
      if args != [] {
        if !IsBulk(args[0]) {
          return Error(FaultText(ArgumentNotBulk));
        }
        section := ToLower(Bulk(args[0]));
      }
      var text := BuildInfoString(section);
      reply := BulkString(text);
    }

    /** The text for a section, part by part; the keys are counted anew for each part that tells their number. */
    method BuildInfoString(section: Bytes) returns (text: Bytes)
      requires sm.Valid()
      ensures text == InfoText(section, Wrap64(|sm.Contents()|))
    {
      hide SERVER_TEXT, MEMORY_TEXT, STATS_TEXT, KEYSPACE_TEXT, HASH, UNSUPPORTED, ALL, SERVER, MEMORY, STATS, KEYSPACE;
      hide FormatInt, CountText, Flat, Homed, KeysOf;
      text := [];
      if section == ALL || section == SERVER {
        text := text + SERVER_TEXT;
      }
      assert text == Part(SERVER, section, SERVER_TEXT);
      if section == ALL || section == MEMORY {
        text := text + MEMORY_TEXT;
      }
      assert text == Part(SERVER, section, SERVER_TEXT) + Part(MEMORY, section, MEMORY_TEXT);
      if section == ALL || section == STATS {
        var size := sm.Len();
        text := text + (STATS_TEXT + CountText(Wrap64(size)));
      }
      if section == ALL || section == KEYSPACE {
        var size := sm.Len();
        text := text + (KEYSPACE_TEXT + CountText(Wrap64(size)));
      }
      assert text == Parts(section, Wrap64(|sm.Contents()|));
      if text == [] {
        text := HASH + section + UNSUPPORTED;
      }
    }
  }

  lemma RemoveMissing(m: Items, k: Key)
    ensures k !in m ==> m - {k} == m
  {
  }
}
