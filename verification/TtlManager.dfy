/** The expiry side of the store: TTL and Expire, the bounded cleanup of expired keys, and its manager. */
module TtlManager {
  import opened Bytes
  import opened Decimal
  import opened Fnv
  import opened TimedMap
  import opened Sharding
  import opened ShardedMap
  import opened Runs
  import opened Lifecycle

  /** The remaining seconds of a key: -1 if it is not stored, -2 for ever, 0 once expired. */
  method TTL(sm: ShardedMap, key: Key, now: Time) returns (ttl: int)
    requires sm.Valid()
    ensures Step(sm.shards[..], Op.Ttl(key, now), Number(ttl), sm.shards[..])
    ensures ttl == if key in sm.Contents() then Remaining(sm.Contents()[key], now) else -1
  {
    FlatLookup(sm.shards[..], key);
    var items := sm.shards[Shard(key)];
    if key !in items {
      return -1;
    }
    if items[key].expiresAt == 0 {
      return -2;
    }
    var remaining := Wrap64(items[key].expiresAt - now);
    if remaining <= 0 {
      return 0;
    }
    return remaining;
  }

  /** Restamps a stored key, even an expired one, and says whether there was one. */
  method Expire(sm: ShardedMap, key: Key, ttl: Seconds, now: Time) returns (updated: bool)
    requires sm.Valid()
    modifies sm.shards
    ensures sm.Valid() && Step(old(sm.shards[..]), Op.Expire(key, ttl, now), Flag(updated), sm.shards[..])
    ensures updated <==> key in old(sm.Contents())
    ensures sm.Contents() == Apply(old(sm.Contents()), Op.Expire(key, ttl, now)).0
  {
    var i := Shard(key);
    if key !in sm.shards[i] {
      updated := false;
    } else {
      var expiresAt := if ttl > 0 then Wrap64(now + ttl) else 0;
      sm.shards[i] := sm.shards[i][key := sm.shards[i][key].(expiresAt := expiresAt)];
      updated := true;
    }
    StepRefinesFlat(old(sm.shards[..]), Op.Expire(key, ttl, now), Flag(updated), sm.shards[..]);
  }

  /**
   The keys one cleanup pass may remove from each shard: as many as `keysPerScan` allows 256 shards, and at least one.
   A negative quotient, however rounded, gives one too.
   */
  function Allowance(keysPerScan: int): (k: nat)
    ensures k >= 1 && SHARD_COUNT * k <= Max(SHARD_COUNT, keysPerScan)
    ensures (k == 1 || 256 * k <= keysPerScan) && keysPerScan < 256 * (k + 1)
  {
    if keysPerScan / SHARD_COUNT < 1 then 1 else keysPerScan / SHARD_COUNT
  }

  /** Every shard swept once with the same allowance and clock reading. */
  ghost predicate CleanedUp(ss: Shards, ss': Shards, k: nat, now: Time) {
    |ss| == |ss'| == SHARD_COUNT && forall i :: 0 <= i < SHARD_COUNT ==> Swept(ss[i], ss'[i], k, now)
  }

  function Elements(keys: seq<Key>): set<Key> {
    set k | k in keys
  }

  /** Removes the keys gathered by a sweep, one by one. */
  method DeleteAll(sm: ShardedMap, i: nat, keys: seq<Key>)
    requires sm.Valid() && i < SHARD_COUNT
    modifies sm.shards
    ensures sm.shards[..] == old(sm.shards[..])[i := old(sm.shards[i]) - Elements(keys)]
  {
    ghost var items := sm.shards[i];
    assert items - Elements(keys[..0]) == items;
    for j := 0 to |keys|
      invariant sm.shards[..] == old(sm.shards[..])[i := items - Elements(keys[..j])]
    {
      sm.shards[i] := sm.shards[i] - {keys[j]};
      assert items - Elements(keys[..j]) - {keys[j]} == items - Elements(keys[..j + 1]) by {
        assert Elements(keys[..j + 1]) == Elements(keys[..j]) + {keys[j]};
      }
    }
    assert keys[..|keys|] == keys;
  }

  /** Gathers up to `maxKeys` expired keys of a shard, in whatever order the map is iterated. */
  method GatherExpired(items: Items, maxKeys: nat, now: Time) returns (expiredKeys: seq<Key>)
    ensures Elements(expiredKeys) <= ExpiredKeys(items, now)
    ensures |Elements(expiredKeys)| <= Max(1, maxKeys)
    ensures maxKeys > 0 ==> |Elements(expiredKeys)| == Min(maxKeys, |ExpiredKeys(items, now)|)
  {
    expiredKeys := [];
    var count := 0;
    var unvisited := items.Keys;
    while unvisited != {}
      invariant unvisited <= items.Keys && count == |expiredKeys|
      invariant count == 0 || count < maxKeys
      invariant Enumerates(expiredKeys, ExpiredKeys(items, now) - unvisited)
      decreases unvisited
    {
      var key :| key in unvisited;
      unvisited := unvisited - {key};
      if Expired(items[key], now) {
        expiredKeys := expiredKeys + [key];
        count := count + 1;
        if count >= maxKeys {
          break;
        }
      }
      if count >= maxKeys * 2 {
        break;
      }
    }
    GatheredCount(expiredKeys, ExpiredKeys(items, now), unvisited, maxKeys);
  }

  /** A gathering that stopped because the shard was through or the allowance was reached. */
  lemma GatheredCount(keys: seq<Key>, all: set<Key>, unvisited: set<Key>, maxKeys: nat)
    requires Enumerates(keys, all - unvisited)
    requires |keys| <= Max(1, maxKeys) && (unvisited == {} || |keys| >= maxKeys)
    ensures Elements(keys) <= all && |Elements(keys)| <= Max(1, maxKeys)
    ensures maxKeys > 0 ==> |Elements(keys)| == Min(maxKeys, |all|)
  {
    EnumerationSize(keys, all - unvisited);
    assert Elements(keys) == all - unvisited;
    SubsetSize(all - unvisited, all);
    if unvisited == {} {
      assert all - unvisited == all;
    }
  }

  /** Sweeps one shard: exactly min(maxKeys, expired) keys go, whatever the iteration order, and no live one. */
  method CleanupShard(sm: ShardedMap, i: nat, maxKeys: nat, now: Time)
    requires sm.Valid() && i < SHARD_COUNT
    modifies sm.shards
    ensures sm.Valid() && Step(old(sm.shards[..]), SweepShard(i, maxKeys, now), Done, sm.shards[..])
    ensures Swept(old(sm.shards[i]), sm.shards[i], maxKeys, now)
    ensures forall j :: 0 <= j < SHARD_COUNT && j != i ==> sm.shards[j] == old(sm.shards[j])
  {
    var items := sm.shards[i];
    var expiredKeys := GatherExpired(items, maxKeys, now);
    DeleteAll(sm, i, expiredKeys);
    assert items.Keys - sm.shards[i].Keys == Elements(expiredKeys);
    StepKeepsValid(old(sm.shards[..]), SweepShard(i, maxKeys, now), Done, sm.shards[..]);
  }

  /** The sizes before and after a cleanup pass. */
  lemma {:induction false} CleanupBound(ss: Shards, ss': Shards, k: nat, now: Time)
    requires |ss| == |ss'| && forall i :: 0 <= i < |ss| ==> Swept(ss[i], ss'[i], k, now)
    ensures 0 <= TotalSize(ss) - TotalSize(ss') <= |ss| * Max(1, k)
  {
    hide Swept, Max;
    if ss != [] {
      var n := |ss| - 1;
      CleanupBound(ss[..n], ss'[..n], k, now);
      SweptBound(ss[n], ss'[n], k, now);
      OneMore(|ss|, Max(1, k));
    }
  }

  /**
   Cleanup passes converge: with no other steps, passes at any ascending clock readings leave in every shard exactly
   the `Backlog` of its expired keys, and every item that has not expired.
   */
  lemma CleanupsConverge(stores: seq<Shards>, nows: seq<Time>, k: nat, i: nat)
    requires |stores| == |nows| + 1 > 1 && k > 0 && i < SHARD_COUNT && Ascending(nows)
    requires forall j :: 0 <= j < |stores| ==> |stores[j]| == SHARD_COUNT
    requires forall j :: 0 <= j < |nows| ==> CleanedUp(stores[j], stores[j + 1], k, nows[j])
    ensures var now := nows[|nows| - 1];
            && |ExpiredKeys(stores[|nows|][i], now)| == Backlog(stores[0][i], nows, k)
            && KeepsLive(stores[0][i], stores[|nows|][i], now)
  {
    hide Swept, KeepsLive, Backlog;
    var maps := seq(|stores|, j requires 0 <= j < |stores| => stores[j][i]);
    forall j | 0 <= j < |nows|
      ensures Swept(maps[j], maps[j + 1], k, nows[j])
    {
      assert CleanedUp(stores[j], stores[j + 1], k, nows[j]);
    }
    SweepsConverge(maps, nows, k);
  }

  /** Whatever happens between its steps, one cleanup pass removes at most max(256, KeysPerScan) keys. */
  lemma CleanupPassBound(run: Run, p: seq<nat>, keysPerScan: int, now: Time)
    requires Walks(run, SweepWalk(Allowance(keysPerScan), now), p)
    ensures forall i :: 0 <= i < |p| ==> p[i] + 1 < |run.states|
    ensures forall i :: 0 <= i < |run.states| ==> |run.states[i]| == SHARD_COUNT
    ensures Removed(run, p, SHARD_COUNT) <= Max(SHARD_COUNT, keysPerScan)
  {
    SweepWalkBound(run, p, Allowance(keysPerScan), now, SHARD_COUNT);
  }

  /** The manager of the cleanup; its fields are the state of the lifecycle machine that its history has led to. */
  class TTLManager {
    const sm: ShardedMap
    const keysPerScan: int
    var running: bool
    var stopCh: nat
    var closes: seq<nat>
    var wg: int
    var loops: map<nat, Loop>
    var signalled: nat
    var asleep: nat
    var woken: nat
    var panicked: bool
    ghost var history: History

    ghost function View(): State
      reads this
    {
      State(running, stopCh, closes, wg, loops, signalled, asleep, woken, panicked)
    }

    /** In every valid state no channel has been closed twice and the wait group counts the live loops. */
    ghost predicate Valid()
      reads this
    {
      history.Valid() && history.Last() == View() && Sound(View())
    }

    constructor (sm: ShardedMap, keysPerScan: int)
      ensures Valid() && history.actions == [] && !running && !panicked
      ensures this.sm == sm && this.keysPerScan == keysPerScan
    {
      this.sm := sm;
      this.keysPerScan := keysPerScan;
      running, stopCh, closes, wg, loops := false, 0, [0], 0, map[];
      signalled, asleep, woken, panicked := 0, 0, 0, false;
      history := History([INITIAL], []);
    }

    /** Afterwards a loop is live and its channel open, whatever happened before. */
    method Start()
      requires Valid() && !panicked
      modifies this
      ensures Valid() && old(history).GoesOn(history, Action.Start)
      ensures running && stopCh in loops && closes[stopCh] == 0
      ensures Apart(CallsOf(history.actions)) ==> loops.Keys == {stopCh}
    {
      hide History.Valid, Apart, CallsOf;
      history := history.Then(Action.Start);
      if !running {
        running := true;
        stopCh := |closes|;
        closes := closes + [0];
        wg := wg + 1;
        loops := loops[stopCh := Top];
      }
      HistoryFacts(history);
    }

    /** The locked region of Stop, which closes no channel twice; a caller it says true to then waits. */
    method StopSignal() returns (waits: bool)
      requires Valid() && !panicked
      modifies this
      ensures Valid() && old(history).GoesOn(history, Action.StopSignal)
      ensures !running && (waits <==> old(running))
      ensures waits ==> closes[stopCh] == 1 && stopCh in loops
      ensures !waits ==> closes == old(closes)
    {
      hide History.Valid, Apart, CallsOf;
      history := history.Then(Action.StopSignal);
      waits := running;
      if running {
        closes := closes[stopCh := closes[stopCh] + 1];
        running := false;
        signalled := signalled + 1;
      }
      HistoryFacts(history);
    }

    /** A Stop looks at the wait group: it returns, with no loop live, or falls asleep. */
    method StopWait() returns (returned: bool)
      requires Valid() && !panicked && signalled > 0
      modifies this
      ensures Valid() && old(history).GoesOn(history, if returned then StopReturn(false) else StopSleep)
      ensures returned <==> loops == map[]
      ensures returned ==> !running
    {
      hide History.Valid, Apart, CallsOf;
      returned := wg == 0;
      history := history.Then(if returned then StopReturn(false) else StopSleep);
      signalled := signalled - 1;
      if !returned {
        asleep := asleep + 1;
      }
      HistoryFacts(history);
    }

    /** A Stop wakes up: it returns, with no loop live, or panics, which it cannot as long as no Start overtook a Stop. */
    method StopWake() returns (panics: bool)
      requires Valid() && !panicked && woken > 0
      modifies this
      ensures Valid() && old(history).GoesOn(history, if panics then StopPanic else StopReturn(true))
      ensures panicked <==> panics
      ensures !panics ==> loops == map[] && !running
      ensures Apart(CallsOf(history.actions)) ==> !panics
    {
      hide History.Valid, Apart, CallsOf;
      panics := wg != 0;
      history := history.Then(if panics then StopPanic else StopReturn(true));
      if panics {
        panicked := true;
      } else {
        woken := woken - 1;
      }
      HistoryFacts(history);
    }

    /** A loop that saw its channel closed leaves; the last one wakes the Stops the wait group holds. */
    method LeaveLoop(id: nat)
      requires Valid() && Enabled(View(), LoopExit(id))
      modifies this
      ensures Valid() && old(history).GoesOn(history, LoopExit(id))
      ensures running ==> stopCh in loops && closes[stopCh] == 0
      ensures loops == map[] ==> asleep == 0
    {
      hide History.Valid, Sound, Enabled;
      LoopExitFacts(View(), id);
      ghost var after := Next(View(), LoopExit(id));
      history := history.Then(LoopExit(id));
      loops := loops - {id};
      wg := wg - 1;
      if wg == 0 {
        asleep, woken := 0, woken + asleep;
      }
      assert View() == after;
    }

    /** One step of a cleanup loop in the lifecycle. The loop of a running manager never leaves. */
    method LoopMove(id: nat, tick: bool) returns (step: Option<Action>)
      requires Valid() && !panicked && id in loops
      modifies this
      ensures Valid()
      ensures step.Some? ==> old(history).GoesOn(history, step.value) && CallOf(step.value) == []
      ensures step.None? ==> history == old(history)
      ensures step.None? <==> !tick && old(loops[id]).Selecting? && old(closes[loops[id].channel]) == 0
      ensures old(loops[id]).Selecting? && tick ==> step == Some(LoopTick(id)) && id in loops && loops[id].Cleaning?
      ensures old(loops[id]).Cleaning? ==> step == Some(LoopCleaned(id)) && id in loops && loops[id].Top?
      ensures panicked == old(panicked)
      ensures running ==> stopCh in loops && closes[stopCh] == 0
    {
      hide History.Valid, Apart, CallsOf;
      match loops[id] {
      case Top =>
        step := Some(LoopSelect(id));
        loops := loops[id := Selecting(stopCh)];
      case Selecting(channel) =>
        if tick {
          step := Some(LoopTick(id));
          loops := loops[id := Cleaning];
        } else if closes[channel] > 0 {
          LeaveLoop(id);
          return Some(LoopExit(id));
        } else {
          return None;
        }
      case Cleaning =>
        step := Some(LoopCleaned(id));
        loops := loops[id := Top];
      }
      history := history.Then(step.value);
      HistoryFacts(history);
    }

    /**
     One step of a cleanup loop, if it can take one: it reads the stop channel, or a tick or the closed channel wins
     its select, or it makes a cleanup pass.
     */
    method LoopStep(id: nat, tick: bool, now: Time) returns (step: Option<Action>)
      requires Valid() && !panicked && id in loops && sm.Valid()
      modifies this, sm.shards
      ensures Valid() && sm.Valid()
      ensures step.Some? ==> old(history).GoesOn(history, step.value) && CallOf(step.value) == []
      ensures step.None? ==> history == old(history)
      ensures old(loops[id]).Selecting? && tick ==> step == Some(LoopTick(id)) && id in loops && loops[id].Cleaning?
      ensures old(loops[id]).Cleaning? ==> step == Some(LoopCleaned(id)) && id in loops && loops[id].Top?
      ensures panicked == old(panicked)
      ensures if old(loops[id]).Cleaning?
              then CleanedUp(old(sm.shards[..]), sm.shards[..], Allowance(keysPerScan), now)
              else sm.shards[..] == old(sm.shards[..])
    {
      hide CleanedUp, Sound, History.Valid, History.GoesOn;
      if loops[id].Cleaning? {
        Cleanup(now);
      }
      step := LoopMove(id, tick);
    }

    /** The branch of the select that a tick wins: a cleanup pass, and back to the top. */
    method TickBranch(id: nat, now: Time)
      requires Valid() && !panicked && id in loops && loops[id].Selecting? && sm.Valid()
      modifies this, sm.shards
      ensures Valid() && sm.Valid() && id in loops && loops[id].Top?
      ensures history.actions == old(history.actions) + [LoopTick(id), LoopCleaned(id)]
      ensures CleanedUp(old(sm.shards[..]), sm.shards[..], Allowance(keysPerScan), now)
    {
      hide CleanedUp, Sound, History.Valid;
      var step := LoopStep(id, true, now);
      step := LoopStep(id, false, now);
      assert old(history.actions) + [LoopTick(id)] + [LoopCleaned(id)]
          == old(history.actions) + [LoopTick(id), LoopCleaned(id)];
    }

    /** One cleanup pass over all shards, with a single clock reading. */
    method Cleanup(now: Time)
      requires sm.Valid()
      modifies sm.shards
      ensures sm.Valid() && CleanedUp(old(sm.shards[..]), sm.shards[..], Allowance(keysPerScan), now)
      ensures |old(sm.Contents())| - |sm.Contents()| <= Max(SHARD_COUNT, keysPerScan)
      ensures KeepsLive(old(sm.Contents()), sm.Contents(), now)
      ensures SweptEach(old(sm.shards[..]), sm.shards[..], if keysPerScan < 256 then 1 else keysPerScan / 256, now)
    {
      var keysPerShard := keysPerScan / SHARD_COUNT;
      if keysPerShard < 1 {
        keysPerShard := 1;
      }
      hide Flat, KeepsLive, CleanedUp, SweptEach, Homed;
      ghost var before := sm.shards[..];
      SweepAll(keysPerShard, now);
      CleanupEffect(before, sm.shards[..], keysPerShard, now);
    }

    /** The loop of a cleanup pass. */
    method SweepAll(keysPerShard: nat, now: Time)
      requires sm.Valid()
      modifies sm.shards
      ensures sm.Valid() && CleanedUp(old(sm.shards[..]), sm.shards[..], keysPerShard, now)
    {
      hide Swept, Flat, Step;
      ghost var before := sm.shards[..];
      for i := 0 to SHARD_COUNT
        invariant sm.Valid()
        invariant forall j :: 0 <= j < i ==> Swept(before[j], sm.shards[j], keysPerShard, now)
        invariant forall j :: i <= j < SHARD_COUNT ==> sm.shards[j] == before[j]
      {
        CleanupShard(sm, i, keysPerShard, now);
      }
    }
  }

  /** Each of the 256 shards lost exactly `k` of its expired keys, or all of them if there were fewer, and no other. */
  ghost predicate SweptEach(ss: Shards, ss': Shards, k: int, now: Time) {
    && |ss| == |ss'| == 256
    && forall i :: 0 <= i < 256 ==>
         && (forall key :: key in ss'[i] ==> key in ss[i] && ss'[i][key] == ss[i][key])
         && (forall key :: key in ss[i] && key !in ss'[i] ==> ss[i][key].expiresAt > 0 && ss[i][key].expiresAt <= now)
         && |ss[i]| - |ss'[i]| == if |ExpiredKeys(ss[i], now)| < k then |ExpiredKeys(ss[i], now)| else k
  }

  lemma LoopExitFacts(s: State, id: nat)
    requires Sound(s) && Enabled(s, LoopExit(id))
    ensures var t := Next(s, LoopExit(id));
            && Sound(t) && (t.loops == map[] ==> t.wg == 0)
            && (t.running ==> t.stopCh < |t.closes| && t.stopCh in t.loops && t.closes[t.stopCh] == 0)
  {
    NextSound(s, LoopExit(id));
  }

  lemma HistoryFacts(h: History)
    requires h.Valid()
    ensures Sound(h.Last())
    ensures Apart(CallsOf(h.actions)) ==> !h.Last().panicked
    ensures Apart(CallsOf(h.actions)) && h.Last().loops != map[] ==> h.Last().loops.Keys == {h.Last().stopCh}
  {
    hide Sound, Apart, CallsOf;
    AlwaysSound(h, |h.actions|);
    if Apart(CallsOf(h.actions)) {
      PrefixOrderly(h, CallsOf(h.actions));
      OrderlyLoops(h.Last());
    }
  }

  /** What a cleanup pass without other steps does to the single timed map. */
  lemma CleanupEffect(ss: Shards, ss': Shards, k: nat, now: Time)
    requires Valid(ss) && Valid(ss') && CleanedUp(ss, ss', k, now)
    ensures |Flat(ss)| - |Flat(ss')| <= SHARD_COUNT * Max(1, k)
    ensures KeepsLive(Flat(ss), Flat(ss'), now)
    ensures k > 0 ==> SweptEach(ss, ss', k, now)
  {
    hide KeepsLive, ExpiredKeys;
    if k > 0 {
      CleanedEach(ss, ss', k, now);
    }
    hide Swept;
    CleanupBound(ss, ss', k, now);
    SizesAddUp(ss);
    SizesAddUp(ss');
    CleanupKeepsLive(ss, ss', k, now);
  }

  lemma CleanedEach(ss: Shards, ss': Shards, k: nat, now: Time)
    requires CleanedUp(ss, ss', k, now) && k > 0
    ensures SweptEach(ss, ss', k, now)
  {
    hide Max, Min;
    forall i | 0 <= i < SHARD_COUNT
      ensures forall key :: key in ss'[i] ==> key in ss[i] && ss'[i][key] == ss[i][key]
      ensures forall key :: key in ss[i] && key !in ss'[i] ==> ss[i][key].expiresAt > 0 && ss[i][key].expiresAt <= now
      ensures |ss[i]| - |ss'[i]| == if |ExpiredKeys(ss[i], now)| < k then |ExpiredKeys(ss[i], now)| else k
    {
      SweptEachKey(ss[i], ss'[i], k, now);
    }
  }

  lemma SweptEachKey(before: Items, after: Items, k: nat, now: Time)
    requires Swept(before, after, k, now) && k > 0
    ensures forall key :: key in after ==> key in before && after[key] == before[key]
    ensures forall key :: key in before && key !in after ==> before[key].expiresAt > 0 && before[key].expiresAt <= now
    ensures |before| - |after| == if |ExpiredKeys(before, now)| < k then |ExpiredKeys(before, now)| else k
  {
    SweptCount(before, after, k, now);
    assert forall key :: key in before && key !in after ==> key in before.Keys - after.Keys;
  }

  lemma CleanupKeepsLive(ss: Shards, ss': Shards, k: nat, now: Time)
    requires Valid(ss) && Valid(ss') && CleanedUp(ss, ss', k, now)
    ensures KeepsLive(Flat(ss), Flat(ss'), now)
  {
  }
}
