/**
 Concurrency: a run is any interleaving of atomic steps of any number of goroutines over the shared store. An
 operation that walks the 256 shards, locking one at a time, is an increasing sequence of positions in the run.
 */
module Runs {
  import opened Bytes
  import opened Fnv
  import opened TimedMap
  import opened Sharding

  /** The clock reading inside a lock is the time of the step; a sweep uses one taken earlier. */
  predicate ReadsClock(op: Op, time: Time) {
    match op
    case Set(_, _, _, now) => now == time
    case Get(_, now) => now == time
    case Ttl(_, now) => now == time
    case Expire(_, _, now) => now == time
    case SweepShard(_, _, now) => now <= time
    case _ => true
  }

  datatype Run = Run(states: seq<Shards>, ops: seq<Op>, outs: seq<Out>, times: seq<Time>)
  {
    ghost predicate Valid() {
      && |ops| == |outs| == |times| && |states| == |ops| + 1
      && Sharding.Valid(states[0])
      && (forall i :: 0 <= i < |ops| ==> Step(states[i], ops[i], outs[i], states[i + 1]))
      && (forall i :: 0 <= i < |ops| ==> ReadsClock(ops[i], times[i]))
      && (forall i, j :: 0 <= i <= j < |ops| ==> times[i] <= times[j])
    }
  }

  /** Every state of a run keeps each key in its own shard. */
  lemma {:induction false} StatesValid(run: Run, i: nat)
    requires run.Valid() && i < |run.states|
    ensures Valid(run.states[i])
  {
    if i > 0 {
      StatesValid(run, i - 1);
      assert Step(run.states[i - 1], run.ops[i - 1], run.outs[i - 1], run.states[i - 1 + 1]);
      StepKeepsValid(run.states[i - 1], run.ops[i - 1], run.outs[i - 1], run.states[i]);
    }
  }

  /** The key is stored, expired or not. */
  ghost predicate Stored(ss: Shards, k: Key) {
    Shard(k) < |ss| && k in ss[Shard(k)]
  }

  lemma StoredIsFlat(ss: Shards, k: Key)
    requires Valid(ss)
    ensures Stored(ss, k) <==> k in KeysOf(ss)
  {
  }

  predicate Sets(op: Op, k: Key) {
    op.Set? && op.key == k
  }

  /** Only a Set brings a key into the store. */
  lemma StepStores(ss: Shards, op: Op, out: Out, ss': Shards, k: Key)
    requires Valid(ss) && Step(ss, op, out, ss') && Stored(ss', k) && !Stored(ss, k)
    ensures Sets(op, k)
  {
  }

  /** A key absent at one moment and present later was Set in between. */
  lemma {:induction false} FindSet(run: Run, a: nat, b: nat, k: Key) returns (t: nat)
    requires run.Valid() && a <= b < |run.states|
    requires !Stored(run.states[a], k) && Stored(run.states[b], k)
    ensures a <= t < b && Sets(run.ops[t], k)
  {
    hide OnShard, Homed, ReadsClock, Stored;
    if Stored(run.states[b - 1], k) {
      t := FindSet(run, a, b - 1, k);
    } else {
      t := b - 1;
      StatesValid(run, t);
      assert Step(run.states[t], run.ops[t], run.outs[t], run.states[t + 1]);
      StepStores(run.states[t], run.ops[t], run.outs[t], run.states[b], k);
    }
  }

  // ---------------------------------------------------------------- every interleaving is a run

  /** Every operation can be carried out, whatever its shard holds. */
  lemma SomeOutcome(ss: Shards, op: Op) returns (out: Out, ss': Shards)
    requires op.Home() < |ss|
    ensures Step(ss, op, out, ss')
  {
    var h := op.Home();
    if op.OnKey() {
      out, ss' := Apply(ss[h], op).1, ss[h := Apply(ss[h], op).0];
    } else if op.ClearShard? {
      out, ss' := Done, ss[h := map[]];
    } else if op.ReadSize? {
      out, ss' := Number(|ss[h]|), ss;
    } else if op.SweepShard? {
      out := Done;
      var after := SomeSweep(ss[h], op.maxKeys, op.now);
      ss' := ss[h := after];
    } else {
      var keys := SomeEnumeration(ss[h].Keys);
      out, ss' := Keys(keys), ss;
    }
  }

  lemma {:induction false} SomeSubset(s: set<Key>, n: nat) returns (t: set<Key>)
    requires n <= |s|
    ensures t <= s && |t| == n
  {
    t := {};
    if n > 0 {
      var k :| k in s;
      t := SomeSubset(s - {k}, n - 1);
      t := t + {k};
    }
  }

  lemma SomeSweep(m: Items, maxKeys: nat, now: Time) returns (after: Items)
    ensures Swept(m, after, maxKeys, now)
  {
    var n := if maxKeys < |ExpiredKeys(m, now)| then maxKeys else |ExpiredKeys(m, now)|;
    var removed := SomeSubset(ExpiredKeys(m, now), n);
    after := m - removed;
    assert m.Keys - after.Keys == removed;
  }

  /** The second run starts as the first. */
  predicate Extends(run: Run, longer: Run) {
    run.ops <= longer.ops && run.outs <= longer.outs && run.times <= longer.times && run.states <= longer.states
  }

  lemma OneStepValid(run: Run, longer: Run)
    requires run.Valid() && Extends(run, longer) && |longer.ops| == |longer.outs| == |longer.times| == |run.ops| + 1
    requires |longer.states| == |longer.ops| + 1
    requires var n := |run.ops|;
             Step(run.states[n], longer.ops[n], longer.outs[n], longer.states[n + 1]) && ReadsClock(longer.ops[n], longer.times[n])
    requires forall i :: 0 <= i < |run.times| ==> run.times[i] <= longer.times[|run.ops|]
    ensures longer.Valid()
  {
    hide Step, ReadsClock, Homed;
    forall i | 0 <= i < |longer.ops|
      ensures Step(longer.states[i], longer.ops[i], longer.outs[i], longer.states[i + 1])
      ensures ReadsClock(longer.ops[i], longer.times[i])
    {
      if i < |run.ops| {
        assert Step(run.states[i], run.ops[i], run.outs[i], run.states[i + 1]);
      }
    }
  }

  /** The readings are those of a clock that does not go back, and each operation has its own; a sweep may have an older one. */
  predicate Timed(ops: seq<Op>, times: seq<Time>) {
    && |ops| == |times| && (forall i, j :: 0 <= i <= j < |times| ==> times[i] <= times[j])
    && forall i :: 0 <= i < |ops| ==>
         && (ops[i].Set? || ops[i].Get? || ops[i].Ttl? || ops[i].Expire? ==> ops[i].now == times[i])
         && (ops[i].SweepShard? ==> ops[i].now <= times[i])
  }

  /** Any operations on the 256 shards, in any order, at any readings of the clock, are those of a run from any store. */
  lemma {:induction false} AnyInterleaving(ss: Shards, ops: seq<Op>, times: seq<Time>) returns (run: Run)
    requires Valid(ss) && Timed(ops, times) && forall i :: 0 <= i < |ops| ==> ops[i].Home() < 256
    ensures run.Valid() && run.states[0] == ss && run.ops == ops && run.times == times
  {
    hide Homed, OnShard;
    if ops == [] {
      run := Run([ss], [], [], []);
    } else {
      var n := |ops| - 1;
      var before := AnyInterleaving(ss, ops[..n], times[..n]);
      StatesValid(before, n);
      var out, ss' := SomeOutcome(before.states[n], ops[n]);
      run := Run(before.states + [ss'], before.ops + [ops[n]], before.outs + [out], before.times + [times[n]]);
      OneStepValid(before, run);
    }
  }

  // ---------------------------------------------------------------- a miss is final

  /** What every operation that asks about a key answers when the key is not stored. */
  predicate AnswersAbsent(op: Op, out: Out) {
    match op
    case Get(_, _) => out == Missing
    case Ttl(_, _) => out == Number(-1)
    case Expire(_, _, _) => out == Flag(false)
    case Delete(_) => out == Flag(false)
    case _ => true
  }

  /** After a Get that found nothing, every operation reports the key absent until some goroutine Sets it. */
  lemma MissIsFinal(run: Run, i: nat, j: nat, k: Key)
    requires run.Valid() && i < j < |run.ops|
    requires run.ops[i].Get? && run.ops[i].key == k && run.outs[i] == Missing
    requires forall t :: i < t < j ==> !Sets(run.ops[t], k)
    ensures !Stored(run.states[j], k)
    ensures run.ops[j].OnKey() && run.ops[j].key == k ==> AnswersAbsent(run.ops[j], run.outs[j])
  {
    assert Step(run.states[i], run.ops[i], run.outs[i], run.states[i + 1]);
    assert !Stored(run.states[i + 1], k);
    if Stored(run.states[j], k) {
      var t := FindSet(run, i + 1, j, k);
    }
    assert Step(run.states[j], run.ops[j], run.outs[j], run.states[j + 1]);
  }

  // ---------------------------------------------------------------- walks over the shards

  datatype Walk = ClearWalk | KeysWalk | SizeWalk | SweepWalk(maxKeys: nat, now: Time)
  {
    /** The step a walk takes at shard `i`. */
    function At(i: nat): Op {
      match this
      case ClearWalk => ClearShard(i)
      case KeysWalk => ReadKeys(i)
      case SizeWalk => ReadSize(i)
      case SweepWalk(maxKeys, now) => SweepShard(i, maxKeys, now)
    }
  }

  /** The steps at positions `p`, anything else happening in between, walk the shards in order. */
  ghost predicate Walks(run: Run, walk: Walk, p: seq<nat>) {
    && run.Valid() && |p| == SHARD_COUNT
    && (forall i :: 0 <= i < |p| ==> p[i] < |run.ops| && run.ops[p[i]] == walk.At(i))
    && (forall i, j :: 0 <= i < j < |p| ==> p[i] < p[j])
  }

  lemma WalkStep(run: Run, walk: Walk, p: seq<nat>, i: nat)
    requires Walks(run, walk, p) && i < SHARD_COUNT
    ensures p[0] <= p[i] <= p[SHARD_COUNT - 1] < |run.ops|
    ensures Valid(run.states[p[i]]) && Valid(run.states[p[i] + 1])
    ensures OnShard(run.states[p[i]][i], walk.At(i), run.outs[p[i]], run.states[p[i] + 1][i])
  {
    StatesValid(run, p[i]);
    StatesValid(run, p[i] + 1);
    assert Step(run.states[p[i]], run.ops[p[i]], run.outs[p[i]], run.states[p[i] + 1]);
  }

  /**
   Clear is not atomic, but a key stored when it ends was Set meanwhile, after Clear had emptied the key's shard.
   */
  lemma ClearLeavesOnlyNew(run: Run, p: seq<nat>, k: Key)
    requires Walks(run, ClearWalk, p)
    requires Stored(run.states[p[SHARD_COUNT - 1] + 1], k)
    ensures exists t :: p[Shard(k)] < t < p[SHARD_COUNT - 1] && Sets(run.ops[t], k)
  {
    WalkStep(run, ClearWalk, p, Shard(k));
    var t := FindSet(run, p[Shard(k)] + 1, p[SHARD_COUNT - 1] + 1, k);
  }

  /** What a walk finds: each shard as it is when the walk reaches it. */
  ghost function Snapshot(run: Run, walk: Walk, p: seq<nat>): (ss: Shards)
    requires Walks(run, walk, p)
    ensures |ss| == SHARD_COUNT
  {
    seq(SHARD_COUNT, i requires 0 <= i < SHARD_COUNT => WalkStep(run, walk, p, i); run.states[p[i]][i])
  }

  lemma SnapshotValid(run: Run, walk: Walk, p: seq<nat>)
    requires Walks(run, walk, p)
    ensures Valid(Snapshot(run, walk, p))
    ensures forall k :: k in KeysOf(Snapshot(run, walk, p)) <==> Stored(run.states[p[Shard(k)]], k)
  {
    var ss := Snapshot(run, walk, p);
    forall i, k | 0 <= i < |ss| && k in ss[i]
      ensures Shard(k) == i
    {
      WalkStep(run, walk, p, i);
    }
    forall k
      ensures k in KeysOf(ss) <==> Stored(run.states[p[Shard(k)]], k)
    {
      WalkStep(run, walk, p, Shard(k));
      StoredIsFlat(ss, k);
    }
  }

  /** The keys stored in every state from `a` to `b`. */
  ghost function Always(run: Run, a: nat, b: nat): set<Key>
    requires a <= b < |run.states|
  {
    set k | k in KeysOf(run.states[a]) && forall t :: a <= t <= b ==> k in KeysOf(run.states[t])
  }

  /** The keys stored in some state from `a` to `b`. */
  ghost function Sometimes(run: Run, a: nat, b: nat): set<Key>
    requires a <= b < |run.states|
  {
    set t, k | a <= t <= b && k in KeysOf(run.states[t]) :: k
  }

  lemma SnapshotBounds(run: Run, walk: Walk, p: seq<nat>)
    requires Walks(run, walk, p)
    ensures p[0] <= p[SHARD_COUNT - 1] < |run.ops| < |run.states|
    ensures Always(run, p[0], p[SHARD_COUNT - 1]) <= KeysOf(Snapshot(run, walk, p))
    ensures KeysOf(Snapshot(run, walk, p)) <= Sometimes(run, p[0], p[SHARD_COUNT - 1])
  {
    SnapshotValid(run, walk, p);
    WalkStep(run, walk, p, 0);
    forall k
      ensures k in Always(run, p[0], p[SHARD_COUNT - 1]) ==> Stored(run.states[p[Shard(k)]], k)
      ensures Stored(run.states[p[Shard(k)]], k) ==> k in Sometimes(run, p[0], p[SHARD_COUNT - 1])
    {
      WalkStep(run, walk, p, Shard(k));
      StoredIsFlat(run.states[p[Shard(k)]], k);
    }
  }

  /** The key lists a KEYS scan collects. */
  function Lists(run: Run, p: seq<nat>): seq<seq<Key>>
    requires forall i :: 0 <= i < |p| ==> p[i] < |run.outs| && run.outs[p[i]].Keys?
  {
    seq(|p|, i requires 0 <= i < |p| => run.outs[p[i]].keys)
  }

  lemma KeysWalkAnswers(run: Run, p: seq<nat>)
    requires Walks(run, KeysWalk, p)
    ensures forall i :: 0 <= i < |p| ==> p[i] < |run.outs| && run.outs[p[i]].Keys?
  {
    forall i | 0 <= i < |p|
      ensures p[i] < |run.outs| && run.outs[p[i]].Keys?
    {
      WalkStep(run, KeysWalk, p, i);
    }
  }

  /**
   The KEYS scan under concurrency: no key twice, every key stored throughout the scan, and only keys stored at some
   moment of it.
   */
  lemma KeysScan(run: Run, p: seq<nat>)
    requires Walks(run, KeysWalk, p)
    ensures forall i :: 0 <= i < |p| ==> p[i] < |run.outs| && run.outs[p[i]].Keys?
    ensures p[0] <= p[SHARD_COUNT - 1] < |run.ops| < |run.states|
    ensures var keys := Concat(Lists(run, p));
            && (forall i, j :: 0 <= i < j < |keys| ==> keys[i] != keys[j])
            && (forall k :: k in Always(run, p[0], p[SHARD_COUNT - 1]) ==> k in keys)
            && (forall k :: k in keys ==> k in Sometimes(run, p[0], p[SHARD_COUNT - 1]))
  {
    KeysWalkAnswers(run, p);
    SnapshotValid(run, KeysWalk, p);
    SnapshotBounds(run, KeysWalk, p);
    var ss, lists := Snapshot(run, KeysWalk, p), Lists(run, p);
    forall i | 0 <= i < |ss|
      ensures Enumerates(lists[i], ss[i].Keys)
    {
      WalkStep(run, KeysWalk, p, i);
    }
    ListsAddUp(ss, lists);
  }

  /** The sum a Len scan accumulates over its first `n` shards. */
  function Sum(run: Run, p: seq<nat>, n: nat): int
    requires n <= |p| && forall i :: 0 <= i < |p| ==> p[i] < |run.outs| && run.outs[p[i]].Number?
  {
    if n == 0 then 0 else Sum(run, p, n - 1) + run.outs[p[n - 1]].n
  }

  lemma {:induction false} SumIsSize(run: Run, p: seq<nat>, n: nat)
    requires Walks(run, SizeWalk, p) && n <= |p|
    ensures forall i :: 0 <= i < |p| ==> p[i] < |run.outs| && run.outs[p[i]].Number?
    ensures Sum(run, p, n) == TotalSize(Snapshot(run, SizeWalk, p)[..n])
  {
    forall i | 0 <= i < |p|
      ensures p[i] < |run.outs| && run.outs[p[i]].Number?
    {
      WalkStep(run, SizeWalk, p, i);
    }
    if n > 0 {
      SumIsSize(run, p, n - 1);
      WalkStep(run, SizeWalk, p, n - 1);
      var ss := Snapshot(run, SizeWalk, p);
      assert ss[..n][..n - 1] == ss[..n - 1];
    }
  }

  /** A Len scan counts at least the keys stored throughout it and at most the keys stored at some moment of it. */
  lemma LenScan(run: Run, p: seq<nat>)
    requires Walks(run, SizeWalk, p)
    ensures forall i :: 0 <= i < |p| ==> p[i] < |run.outs| && run.outs[p[i]].Number?
    ensures p[0] <= p[SHARD_COUNT - 1] < |run.ops| < |run.states|
    ensures |Always(run, p[0], p[SHARD_COUNT - 1])| <= Sum(run, p, |p|) <= |Sometimes(run, p[0], p[SHARD_COUNT - 1])|
  {
    SumIsSize(run, p, |p|);
    SnapshotValid(run, SizeWalk, p);
    SnapshotBounds(run, SizeWalk, p);
    var ss := Snapshot(run, SizeWalk, p);
    assert ss[..|p|] == ss;
    SizesAddUp(ss);
    SubsetSize(Always(run, p[0], p[SHARD_COUNT - 1]), KeysOf(ss));
    SubsetSize(KeysOf(ss), Sometimes(run, p[0], p[SHARD_COUNT - 1]));
  }

  lemma SubsetSize<T>(s: set<T>, t: set<T>)
    requires s <= t
    ensures |s| <= |t|
  {
    SubtractSize(t, s);
  }

  // ---------------------------------------------------------------- one cleanup pass among other steps

  /** The keys the first `n` sweeps of a cleanup pass removed. */
  function Removed(run: Run, p: seq<nat>, n: nat): int
    requires n <= |p| <= SHARD_COUNT && forall i :: 0 <= i < |p| ==> p[i] + 1 < |run.states|
    requires forall i :: 0 <= i < |run.states| ==> |run.states[i]| == SHARD_COUNT
  {
    if n == 0 then 0
    else Removed(run, p, n - 1) + |run.states[p[n - 1]][n - 1]| - |run.states[p[n - 1] + 1][n - 1]|
  }

  lemma {:induction false} SweepWalkBound(run: Run, p: seq<nat>, k: nat, now: Time, n: nat)
    requires Walks(run, SweepWalk(k, now), p) && n <= |p|
    ensures forall i :: 0 <= i < |p| ==> p[i] + 1 < |run.states|
    ensures forall i :: 0 <= i < |run.states| ==> |run.states[i]| == SHARD_COUNT
    ensures Removed(run, p, n) <= n * Max(1, k)
  {
    hide Swept, Max;
    forall i | 0 <= i < |run.states|
      ensures |run.states[i]| == SHARD_COUNT
    {
      StatesValid(run, i);
    }
    if n > 0 {
      SweepWalkBound(run, p, k, now, n - 1);
      WalkStep(run, SweepWalk(k, now), p, n - 1);
      SweptBound(run.states[p[n - 1]][n - 1], run.states[p[n - 1] + 1][n - 1], k, now);
      OneMore(n, Max(1, k));
    }
  }
}
