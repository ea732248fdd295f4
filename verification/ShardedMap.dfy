/** The store itself: 256 maps updated in place, each operation holding the lock of one shard. */
module ShardedMap {
  import opened Bytes
  import opened Decimal
  import opened Fnv
  import opened TimedMap
  import opened Sharding

  class ShardedMap {
    const shards: array<Items>

    ghost predicate Valid()
      reads this, shards
    {
      Sharding.Valid(shards[..])
    }

    /** The single timed map that the shards amount to. */
    ghost function Contents(): Items
      requires Valid()
      reads this, shards
    {
      Flat(shards[..])
    }

    constructor ()
      ensures Valid() && fresh(shards)
      ensures Contents() == map[]
    {
      shards := new Items[SHARD_COUNT](_ => map[]);
    }

    method Set(key: Key, value: Bytes, ttl: Seconds, now: Time)
      requires Valid()
      modifies shards
      ensures Valid() && Step(old(shards[..]), Op.Set(key, value, ttl, now), Done, shards[..])
      ensures Contents() == old(Contents())[key := Item(value, ExpiresAt(now, ttl), now)]
    {
      var i := Shard(key);
      var expiresAt := 0;
      if ttl > 0 {
        expiresAt := Wrap64(now + ttl);
      }
      shards[i] := shards[i][key := Item(value, expiresAt, now)];
      StepRefinesFlat(old(shards[..]), Op.Set(key, value, ttl, now), Done, shards[..]);
    }

    /** The value of a live key; an expired one is deleted on the way and not found. */
    method Get(key: Key, now: Time) returns (value: Option<Bytes>)
      requires Valid()
      modifies shards
      ensures Valid()
      ensures Step(old(shards[..]), Op.Get(key, now), if value.Some? then Found(value.value) else Missing, shards[..])
      ensures value.Some? <==> Live(old(Contents()), key, now)
      ensures value.Some? ==> value.value == old(Contents())[key].value && Contents() == old(Contents())
      ensures value.None? ==> Contents() == old(Contents()) - {key}
    {
      var i := Shard(key);
      FlatLookup(shards[..], key);
      if key !in shards[i] {
        value := None;
      } else if shards[i][key].expiresAt > 0 && now >= shards[i][key].expiresAt {
        shards[i] := shards[i] - {key};
        value := None;
      } else {
        value := Some(shards[i][key].value);
      }
      StepRefinesFlat(old(shards[..]), Op.Get(key, now), if value.Some? then Found(value.value) else Missing, shards[..]);
    }

    method Delete(key: Key) returns (deleted: bool)
      requires Valid()
      modifies shards
      ensures Valid() && Step(old(shards[..]), Op.Delete(key), Flag(deleted), shards[..])
      ensures deleted <==> key in old(Contents())
      ensures Contents() == old(Contents()) - {key}
    {
      var i := Shard(key);
      if key !in shards[i] {
        deleted := false;
        assert shards[i] - {key} == shards[i];
      } else {
        shards[i] := shards[i] - {key};
        deleted := true;
      }
      StepRefinesFlat(old(shards[..]), Op.Delete(key), Flag(deleted), shards[..]);
    }

    method Exists(key: Key, now: Time) returns (found: bool)
      requires Valid()
      modifies shards
      ensures Valid()
      ensures found <==> Live(old(Contents()), key, now)
      ensures Contents() == if found then old(Contents()) else old(Contents()) - {key}
    {
      var value := Get(key, now);
      found := value.Some?;
    }

    /** The locked region of Len at one shard. */
    method ShardSize(i: nat) returns (size: nat)
      requires Valid() && i < SHARD_COUNT
      ensures size == |shards[i]| && Step(shards[..], ReadSize(i), Number(size), shards[..])
    {
      size := |shards[i]|;
    }

    /** The number of stored keys, expired ones included. */
    method Len() returns (count: nat)
      requires Valid()
      ensures count == |Contents()|
    {
      count := 0;
      for i := 0 to SHARD_COUNT
        invariant count == TotalSize(shards[..i])
      {
        var size := ShardSize(i);
        count := count + size;
        assert shards[..i + 1][..i] == shards[..i];
      }
      assert shards[..SHARD_COUNT] == shards[..];
      SizesAddUp(shards[..]);
    }

    /** The locked region of Clear at one shard. */
    method EmptyShard(i: nat)
      requires Valid() && i < SHARD_COUNT
      modifies shards
      ensures Valid() && Step(old(shards[..]), ClearShard(i), Done, shards[..])
    {
      shards[i] := map[];
      StepKeepsValid(old(shards[..]), ClearShard(i), Done, shards[..]);
    }

    method Clear()
      requires Valid()
      modifies shards
      ensures Valid() && Contents() == map[]
    {
      for i := 0 to SHARD_COUNT
        invariant Valid()
        invariant forall j :: 0 <= j < i ==> shards[..][j] == map[]
      {
        EmptyShard(i);
      }
      assert KeysOf(shards[..]) == {};
    }

    /** The keys of one shard, in the arbitrary order in which a map is iterated. */
    method GetAllKeys(i: nat) returns (keys: seq<Key>)
      requires Valid() && i < SHARD_COUNT
      ensures Enumerates(keys, shards[i].Keys)
      ensures Step(shards[..], ReadKeys(i), Keys(keys), shards[..])
    {
      keys := [];
      var unvisited := shards[i].Keys;
      while unvisited != {}
        invariant unvisited <= shards[i].Keys
        invariant Enumerates(keys, shards[i].Keys - unvisited)
      {
        var key :| key in unvisited;
        unvisited := unvisited - {key};
        keys := keys + [key];
      }
      assert shards[i].Keys - unvisited == shards[i].Keys;
    }
  }
}
