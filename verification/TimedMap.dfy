/**
 One timed map: items with an expiry stamp, and the atomic operations on it. A shard of the store is such a map,
 and so is, seen from outside, the whole store.
 */
module TimedMap {
  import opened Bytes
  import opened Decimal
  import opened Fnv

  type Key = Bytes

  /** A reading of the clock, in Unix seconds. */
  type Time = t: int | 0 < t <= MAX_INT64 witness 1

  /** A time to live, in seconds; zero and below mean for ever. */
  type Seconds = n: int | IsInt64(n)

  datatype Item = Item(value: Bytes, expiresAt: int, createdAt: Time)

  type Items = map<Key, Item>

  /** The expiry stamp of an item written at `now`: zero for ever, and a 64-bit sum that may wrap around. */
  function ExpiresAt(now: Time, ttl: Seconds): (stamp: int)
    ensures stamp == 0 <==> ttl <= 0
  {
    assert IsInt64(ttl);
    if ttl > 0 then Wrap64(now + ttl) else 0
  }

  predicate Expired(it: Item, now: Time) {
    it.expiresAt > 0 && now >= it.expiresAt
  }

  predicate Live(m: Items, k: Key, now: Time) {
    k in m && !Expired(m[k], now)
  }

  function ExpiredKeys(m: Items, now: Time): set<Key> {
    set k | k in m && Expired(m[k], now)
  }

  /** The remaining seconds of an item: -2 for ever, 0 once expired. */
  function Remaining(it: Item, now: Time): int {
    if it.expiresAt == 0 then -2
    else
      var remaining := Wrap64(it.expiresAt - now);
      if remaining <= 0 then 0 else remaining
  }

  // ---------------------------------------------------------------- atomic operations

  /** One lock-held region of the store, with the clock reading taken in it (by a sweep: before it). */
  datatype Op =
    | Set(key: Key, value: Bytes, ttl: Seconds, now: Time)
    | Get(key: Key, now: Time)
    | Delete(key: Key)
    | Ttl(key: Key, now: Time)
    | Expire(key: Key, ttl: Seconds, now: Time)
    | ClearShard(shard: nat)
    | SweepShard(shard: nat, maxKeys: nat, now: Time)
    | ReadKeys(shard: nat)
    | ReadSize(shard: nat)
  {
    /** The operation concerns one key. */
    predicate OnKey() {
      Set? || Get? || Delete? || Ttl? || Expire?
    }

    /** The shard the operation locks. */
    function Home(): nat {
      if OnKey() then Shard(key) else shard
    }
  }

  datatype Out =
    | Done
    | Found(value: Bytes)
    | Missing
    | Flag(b: bool)
    | Number(n: int)
    | Keys(keys: seq<Key>)

  /** What an operation on one key does to a map holding it, and what it answers. */
  function Apply(m: Items, op: Op): (Items, Out)
    requires op.OnKey()
  {
    match op
    case Set(k, v, ttl, now) => (m[k := Item(v, ExpiresAt(now, ttl), now)], Done)
    case Get(k, now) =>
      if k !in m then (m, Missing)
      else if Expired(m[k], now) then (m - {k}, Missing)
      else (m, Found(m[k].value))
    case Delete(k) => (m - {k}, Flag(k in m))
    case Ttl(k, now) => (m, Number(if k in m then Remaining(m[k], now) else -1))
    case Expire(k, ttl, now) =>
      (if k in m then m[k := m[k].(expiresAt := ExpiresAt(now, ttl))] else m, Flag(k in m))
  }

  /** `keys` lists the elements of `s`, each once, in some order. */
  ghost predicate Enumerates(keys: seq<Key>, s: set<Key>) {
    (forall k :: k in keys <==> k in s) && (forall i, j :: 0 <= i < j < |keys| ==> keys[i] != keys[j])
  }

  lemma {:induction false} EnumerationSize(keys: seq<Key>, s: set<Key>)
    requires Enumerates(keys, s)
    ensures |keys| == |s|
  {
    if keys == [] {
      assert s == {};
    } else {
      var last := keys[|keys| - 1];
      assert last in keys;
      var others := keys[..|keys| - 1];
      assert forall k :: k in keys <==> k in others || k == last;
      EnumerationSize(others, s - {last});
    }
  }

  /** Any set of keys can be listed. */
  lemma {:induction false} SomeEnumeration(s: set<Key>) returns (keys: seq<Key>)
    ensures Enumerates(keys, s)
    decreases |s|
  {
    keys := [];
    if s != {} {
      var k :| k in s;
      var rest := SomeEnumeration(s - {k});
      keys := [k] + rest;
    }
  }

  /** A sweep of one map: some `maxKeys` of its expired keys go, or all of them if there are fewer; nothing else. */
  ghost predicate Swept(before: Items, after: Items, maxKeys: nat, now: Time) {
    var removed := before.Keys - after.Keys;
    && after == before - removed
    && removed <= ExpiredKeys(before, now)
    && |removed| <= Max(1, maxKeys)
    && (maxKeys > 0 ==> |removed| == Min(maxKeys, |ExpiredKeys(before, now)|))
  }

  /** What an operation does to the map of the shard it locks. */
  ghost predicate OnShard(before: Items, op: Op, out: Out, after: Items) {
    match op
    case ClearShard(_) => after == map[] && out == Done
    case SweepShard(_, maxKeys, now) => Swept(before, after, maxKeys, now) && out == Done
    case ReadKeys(_) => after == before && out.Keys? && Enumerates(out.keys, before.Keys)
    case ReadSize(_) => after == before && out == Number(|before|)
    case _ => (after, out) == Apply(before, op)
  }

  // ---------------------------------------------------------------- sweeps

  /** A sweep leaves every live item as it is. */
  lemma SweptKeepsLive(before: Items, after: Items, maxKeys: nat, now: Time)
    requires Swept(before, after, maxKeys, now)
    ensures ExpiredKeys(after, now) == ExpiredKeys(before, now) - (before.Keys - after.Keys)
    ensures KeepsLive(before, after, now)
  {
  }

  /** One sweep lowers the number of expired keys by exactly its allowance, down to none. */
  lemma SweptCount(before: Items, after: Items, maxKeys: nat, now: Time)
    requires Swept(before, after, maxKeys, now) && maxKeys > 0
    ensures |ExpiredKeys(after, now)| == Max(0, |ExpiredKeys(before, now)| - maxKeys)
    ensures |after| == |before| - Min(maxKeys, |ExpiredKeys(before, now)|)
  {
    SweptKeepsLive(before, after, maxKeys, now);
    var removed := before.Keys - after.Keys;
    SubtractSize(ExpiredKeys(before, now), removed);
    SubtractSize(before.Keys, removed);
    assert after.Keys == before.Keys - removed;
  }

  lemma SweptBound(before: Items, after: Items, maxKeys: nat, now: Time)
    requires Swept(before, after, maxKeys, now)
    ensures 0 <= |before| - |after| <= Max(1, maxKeys)
  {
  }

  lemma SubtractSize<T>(s: set<T>, removed: set<T>)
    requires removed <= s
    ensures |s - removed| == |s| - |removed|
  {
  }

  // ---------------------------------------------------------------- sweeps one after another

  /** Readings of a clock that does not go back. */
  predicate Ascending(nows: seq<Time>) {
    forall i, j :: 0 <= i <= j < |nows| ==> nows[i] <= nows[j]
  }

  /** The number of keys of `m` that expire after the reading before the i-th and up to it. */
  function NewlyExpired(m: Items, nows: seq<Time>, i: nat): int
    requires i < |nows|
  {
    |ExpiredKeys(m, nows[i])| - if i == 0 then 0 else |ExpiredKeys(m, nows[i - 1])|
  }

  /** The expired keys a queue of work would hold if each sweep served `k` of those waiting. */
  function Backlog(m: Items, nows: seq<Time>, k: nat): int {
    if nows == [] then 0
    else
      var n := |nows| - 1;
      Max(0, Backlog(m, nows[..n], k) + NewlyExpired(m, nows, n) - k)
  }

  /** The second map lacks only keys of the first that have expired. */
  ghost predicate Covers(m: Items, m': Items, now: Time) {
    && (forall k :: k in m' ==> k in m && m[k] == m'[k])
    && (forall k :: k in m && k !in m' ==> Expired(m[k], now))
  }

  lemma CoversUntil(m: Items, m': Items, now: Time, later: Time)
    requires Covers(m, m', now) && now <= later
    ensures Covers(m, m', later) && KeepsLive(m, m', later)
    ensures ExpiredKeys(m', later) == ExpiredKeys(m, later) - (m.Keys - m'.Keys)
    ensures m.Keys - m'.Keys <= ExpiredKeys(m, later)
  {
  }

  /** What expires later is found expired in both maps alike. */
  lemma CoveredCount(m: Items, m': Items, now: Time, later: Time)
    requires Covers(m, m', now) && now <= later
    ensures |ExpiredKeys(m', later)| - |ExpiredKeys(m, later)| == |ExpiredKeys(m', now)| - |ExpiredKeys(m, now)|
  {
    CoversUntil(m, m', now, now);
    CoversUntil(m, m', now, later);
    SubtractSize(ExpiredKeys(m, now), m.Keys - m'.Keys);
    SubtractSize(ExpiredKeys(m, later), m.Keys - m'.Keys);
  }

  lemma SweptCovered(m0: Items, m: Items, m': Items, k: nat, now: Time)
    requires Covers(m0, m, now) && Swept(m, m', k, now)
    ensures Covers(m0, m', now)
  {
    var removed := m.Keys - m'.Keys;
    assert forall key :: key in m' <==> key in m && key !in removed;
    assert forall key :: key in removed ==> key in ExpiredKeys(m, now);
  }

  /**
   Sweeps converge: left alone, a shard swept at any ascending readings, whichever keys the sweeps picked, still holds
   exactly the `Backlog` of the map it started from, and all its items that have not expired.
   */
  lemma {:induction false} SweepsConverge(maps: seq<Items>, nows: seq<Time>, k: nat)
    requires |maps| == |nows| + 1 > 1 && k > 0 && Ascending(nows)
    requires forall j :: 0 <= j < |nows| ==> Swept(maps[j], maps[j + 1], k, nows[j])
    ensures var now := nows[|nows| - 1];
            && |ExpiredKeys(maps[|nows|], now)| == Backlog(maps[0], nows, k)
            && Covers(maps[0], maps[|nows|], now) && KeepsLive(maps[0], maps[|nows|], now)
  {
    hide Swept, ExpiredKeys, KeepsLive, Covers;
    var n := |nows| - 1;
    var before, after, now := maps[n], maps[n + 1], nows[n];
    assert Swept(before, after, k, now);
    if n == 0 {
      CoversItself(before, now);
    } else {
      SweepsConverge(maps[..n + 1], nows[..n], k);
      CoversUntil(maps[0], before, nows[n - 1], now);
      CoveredCount(maps[0], before, nows[n - 1], now);
    }
    SweptCount(before, after, k, now);
    SweptCovered(maps[0], before, after, k, now);
    CoversUntil(maps[0], after, now, now);
  }

  lemma CoversItself(m: Items, now: Time)
    ensures Covers(m, m, now)
  {
  }

  /** The backlog is worked off at `k` a sweep from the a-th reading on if nothing expires after it. */
  lemma {:induction false} BacklogDrains(m: Items, nows: seq<Time>, k: nat, a: nat, e: nat)
    requires 0 < a <= |nows|
    requires forall j :: a - 1 <= j < |nows| ==> |ExpiredKeys(m, nows[j])| == e
    ensures Backlog(m, nows, k) == Max(0, Backlog(m, nows[..a], k) - (|nows| - a) * k)
  {
    hide ExpiredKeys, Max;
    if a == |nows| {
      assert nows[..a] == nows;
      NeverNegative(m, nows, k);
    } else {
      var n := |nows| - 1;
      assert nows[..n][..a] == nows[..a];
      BacklogDrains(m, nows[..n], k, a, e);
      assert NewlyExpired(m, nows, n) == 0;
      ServeOnce(Backlog(m, nows[..a], k), |nows| - a, k);
    }
  }

  lemma NeverNegative(m: Items, nows: seq<Time>, k: nat)
    ensures Max(0, Backlog(m, nows, k) - 0 * k) == Backlog(m, nows, k)
  {
  }

  lemma ServeOnce(backlog: int, n: int, k: nat)
    ensures Max(0, Max(0, backlog - (n - 1) * k) - k) == Max(0, backlog - n * k)
  {
    OneMore(n, k);
  }

  /** On a clock that stands still, n sweeps leave exactly max(0, e - n * k) of e expired keys. */
  lemma {:induction false} BacklogAtOnce(m: Items, nows: seq<Time>, k: nat, now: Time)
    requires nows != [] && forall j :: 0 <= j < |nows| ==> nows[j] == now
    ensures Backlog(m, nows, k) == Max(0, |ExpiredKeys(m, now)| - |nows| * k)
  {
    hide ExpiredKeys;
    BacklogDrains(m, nows, k, 1, |ExpiredKeys(m, now)|);
    assert nows[..1][..0] == [];
    assert Backlog(m, nows[..1], k) == Max(0, |ExpiredKeys(m, now)| - k);
    assert k + (|nows| - 1) * k == |nows| * k;
  }

  ghost predicate KeepsLive(before: Items, after: Items, now: Time) {
    forall k :: Live(before, k, now) ==> k in after && after[k] == before[k]
  }
}
