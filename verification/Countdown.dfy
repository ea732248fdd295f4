/**
 Expiry over time: a positive TTL counts down to the very second at which Get stops finding the key, whatever sweeps
 happen in between, and TTL and Get never contradict each other. The clock sum `now + ttl` is taken in 64 bits; a
 stamp that wrapped around is negative and means for ever.
 */
module Countdown {
  import opened Bytes
  import opened Decimal
  import opened Fnv
  import opened TimedMap
  import opened Sharding
  import opened Runs

  /** A stamp that can stand in the store at time `now`: a negative one wrapped around no later than now. */
  predicate Stamp(e: int, now: Time) {
    IsInt64(e) && (e < 0 ==> e - MIN_INT64 < now)
  }

  ghost predicate Stamped(ss: Shards, now: Time) {
    forall i, k :: 0 <= i < |ss| && k in ss[i] ==> Stamp(ss[i][k].expiresAt, now)
  }

  lemma ExpiresAtIsStamp(now: Time, ttl: Seconds)
    ensures Stamp(ExpiresAt(now, ttl), now)
  {
    assert IsInt64(ttl);
  }

  lemma StepKeepsStamped(ss: Shards, op: Op, out: Out, ss': Shards, before: Time, now: Time)
    requires Step(ss, op, out, ss') && Stamped(ss, before) && ReadsClock(op, now) && before <= now
    ensures Stamped(ss', now)
  {
    if op.Set? || op.Expire? {
      ExpiresAtIsStamp(now, op.ttl);
    }
    var h := op.Home();
    forall i, k | 0 <= i < |ss'| && k in ss'[i]
      ensures Stamp(ss'[i][k].expiresAt, now)
    {
      if i != h {
        assert ss'[i] == ss[i];
      } else if k in ss[h] {
        assert Stamp(ss[h][k].expiresAt, before);
      }
    }
  }

  /** Stamps stay sound along every run; the empty store's are. */
  lemma {:induction false} RunStamped(run: Run, i: nat)
    requires run.Valid() && i < |run.ops| && Stamped(run.states[0], run.times[0])
    ensures Stamped(run.states[i], run.times[i])
  {
    if i > 0 {
      RunStamped(run, i - 1);
      assert ReadsClock(run.ops[i - 1], run.times[i - 1]);
      assert Step(run.states[i - 1], run.ops[i - 1], run.outs[i - 1], run.states[i - 1 + 1]);
      StepKeepsStamped(run.states[i - 1], run.ops[i - 1], run.outs[i - 1], run.states[i], run.times[i - 1], run.times[i - 1]);
      Later(run.states[i], run.times[i - 1], run.times[i]);
    }
  }

  lemma Later(ss: Shards, t: Time, t': Time)
    requires Stamped(ss, t) && t <= t'
    ensures Stamped(ss, t')
  {
  }

  /** An item is live exactly when its remaining time is -2 or positive, and then counts down by the clock. */
  lemma RemainingIsCountdown(it: Item, now: Time)
    requires Stamp(it.expiresAt, now)
    ensures !Expired(it, now) <==> Remaining(it, now) == -2 || Remaining(it, now) > 0
    ensures Remaining(it, now) >= -2 && Remaining(it, now) != -1
  {
  }

  lemma RemainingCountsDown(it: Item, t: Time, t': Time)
    requires Stamp(it.expiresAt, t) && t <= t' && Remaining(it, t) > 0
    ensures Remaining(it, t') == Max(0, Remaining(it, t) - (t' - t))
    ensures !Expired(it, t') <==> t' < t + Remaining(it, t)
  {
  }

  /** At any instant of any run, Get finds a key exactly when TTL is -2 or positive. */
  lemma TtlAgreesWithGet(run: Run, i: nat, k: Key)
    requires run.Valid() && i < |run.ops| && Stamped(run.states[0], run.times[0])
    ensures Valid(run.states[i])
    ensures var (_, got) := Apply(Flat(run.states[i]), Get(k, run.times[i]));
            var (_, ttl) := Apply(Flat(run.states[i]), Ttl(k, run.times[i]));
            ttl.Number? && (got.Found? <==> ttl.n == -2 || ttl.n > 0)
  {
    StatesValid(run, i);
    RunStamped(run, i);
    FlatLookup(run.states[i], k);
    if k in Flat(run.states[i]) {
      RemainingIsCountdown(Flat(run.states[i])[k], run.times[i]);
    }
  }

  /** The operation leaves the key alone, except that it may drop it once expired. */
  predicate LeavesAlone(op: Op, k: Key) {
    match op
    case Set(key, _, _, _) => key != k
    case Expire(key, _, _) => key != k
    case Delete(key) => key != k
    case ClearShard(i) => i != Shard(k)
    case _ => true
  }

  /** The key still has this item, or it is gone and the item has expired. */
  ghost predicate HasOrOutlived(ss: Shards, k: Key, it: Item, now: Time) {
    if Stored(ss, k) then ss[Shard(k)][k] == it else Expired(it, now)
  }

  lemma ShardStepOutlives(before: Items, op: Op, out: Out, after: Items, k: Key, it: Item, now: Time)
    requires OnShard(before, op, out, after) && ReadsClock(op, now) && LeavesAlone(op, k)
    requires op.Home() == Shard(k)
    requires if k in before then before[k] == it else Expired(it, now)
    ensures if k in after then after[k] == it else Expired(it, now)
  {
  }

  lemma StepOutlives(ss: Shards, op: Op, out: Out, ss': Shards, k: Key, it: Item, now: Time)
    requires Valid(ss) && Step(ss, op, out, ss') && ReadsClock(op, now)
    requires LeavesAlone(op, k) && HasOrOutlived(ss, k, it, now)
    ensures HasOrOutlived(ss', k, it, now)
  {
    hide OnShard, Expired, ReadsClock, LeavesAlone;
    if op.Home() == Shard(k) {
      ShardStepOutlives(ss[Shard(k)], op, out, ss'[Shard(k)], k, it, now);
    }
  }

  lemma {:induction false} ItemOutlived(run: Run, i: nat, j: nat, k: Key)
    requires run.Valid() && i <= j < |run.ops| && Stored(run.states[i], k)
    requires forall s :: i <= s < j ==> LeavesAlone(run.ops[s], k)
    ensures HasOrOutlived(run.states[j], k, run.states[i][Shard(k)][k], run.times[j])
  {
    if i < j {
      var s := j - 1;
      var it := run.states[i][Shard(k)][k];
      ItemOutlived(run, i, s, k);
      StatesValid(run, s);
      assert Step(run.states[s], run.ops[s], run.outs[s], run.states[s + 1]);
      assert ReadsClock(run.ops[s], run.times[s]);
      StepOutlives(run.states[s], run.ops[s], run.outs[s], run.states[j], k, it, run.times[s]);
    }
  }

  /**
   Countdown agreement: once TTL answered r > 0 at time t, and as long as nothing writes the key, a later Get at t'
   succeeds exactly when t' < t + r, and a TTL before that moment answers r - (t' - t), after it 0 or -1.
   */
  lemma CountdownAgrees(run: Run, i: nat, j: nat, k: Key)
    requires run.Valid() && i <= j < |run.ops| && Stamped(run.states[0], run.times[0])
    requires run.ops[i].Ttl? && run.ops[i].key == k && run.outs[i].Number? && run.outs[i].n > 0
    requires forall s :: i <= s < j ==> LeavesAlone(run.ops[s], k)
    ensures var t, t', r := run.times[i], run.times[j], run.outs[i].n;
            && (run.ops[j].Get? && run.ops[j].key == k ==> (run.outs[j].Found? <==> t' < t + r))
            && (run.ops[j].Ttl? && run.ops[j].key == k ==>
                  if t' < t + r then run.outs[j] == Number(r - (t' - t))
                  else run.outs[j] == Number(0) || run.outs[j] == Number(-1))
  {
    RunStamped(run, i);
    StatesValid(run, i);
    assert ReadsClock(run.ops[i], run.times[i]) && ReadsClock(run.ops[j], run.times[j]);
    assert Step(run.states[i], run.ops[i], run.outs[i], run.states[i + 1]);
    assert Step(run.states[j], run.ops[j], run.outs[j], run.states[j + 1]);
    var it := run.states[i][Shard(k)][k];
    ItemOutlived(run, i, j, k);
    RemainingCountsDown(it, run.times[i], run.times[j]);
  }
}
