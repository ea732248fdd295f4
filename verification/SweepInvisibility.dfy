/**
 Sweeps against reads: adding any sweeps to a run, with any choice of expired keys and any stale clock reading,
 changes no answer of Get, Set or Expire, of TTL only 0 to -1, and of the other operations only what they tell about
 expired keys. The one exception is an Expire of a key that has expired but is still stored, which brings the key back
 to life: such a run always has a sweep that shows.
 */
module SweepInvisibility {
  import opened Fnv
  import opened TimedMap
  import opened Sharding
  import opened Runs

  /** The number of steps of `ops` that are not sweeps. */
  function Kept(ops: seq<Op>): nat {
    if ops == [] then 0 else Kept(ops[..|ops| - 1]) + if ops[|ops| - 1].SweepShard? then 0 else 1
  }

  /** `swept` is the first `n` steps of `base` with sweeps inserted: the same others, in the same order, at the same times. */
  ghost predicate AddsSweepsUpTo(base: Run, n: nat, swept: Run) {
    && base.Valid() && swept.Valid() && base.states[0] == swept.states[0]
    && Kept(swept.ops) == n <= |base.ops|
    && forall i :: 0 <= i < |swept.ops| && !swept.ops[i].SweepShard? ==> SameStep(base, swept, i)
  }

  /** `swept` is `base` with sweeps inserted. */
  ghost predicate AddsSweeps(base: Run, swept: Run) {
    AddsSweepsUpTo(base, |base.ops|, swept)
  }

  ghost predicate SameStep(base: Run, swept: Run, i: nat)
    requires base.Valid() && swept.Valid() && i < |swept.ops|
  {
    var j := Kept(swept.ops[..i]);
    j < |base.ops| && base.ops[j] == swept.ops[i] && base.times[j] == swept.times[i]
  }

  /** The key is stored in the shard, but has expired. */
  predicate StoredExpired(m: Items, k: Key, now: Time) {
    k in m && Expired(m[k], now)
  }

  /**
   The answers of an operation on the shard `m` and on what sweeps left of it: whoever reads, writes or restamps a key
   sees no difference, TTL apart, and who deletes, lists or counts keys sees expired ones gone.
   */
  predicate Agree(m: Items, op: Op, o: Out, o': Out, now: Time) {
    match op
    case Ttl(_, _) => o == o' || (o == Number(0) && o' == Number(-1))
    case Delete(k) => o == o' || (o == Flag(true) && o' == Flag(false) && StoredExpired(m, k, now))
    case ReadKeys(_) =>
      && o.Keys? && o'.Keys? && (forall k :: k in o'.keys ==> k in o.keys)
      && (forall k :: k in o.keys && k !in o'.keys ==> StoredExpired(m, k, now))
    case ReadSize(_) => o.Number? && o'.Number? && 0 <= o.n - o'.n <= |ExpiredKeys(m, now)|
    case SweepShard(_, _, _) => true
    case _ => o == o'
  }

  ghost predicate AgreeAll(base: Run, swept: Run)
    requires AddsSweeps(base, swept)
  {
    forall i :: 0 <= i < |swept.ops| && !swept.ops[i].SweepShard? ==> SameStep(base, swept, i) && AgreeAt(base, swept, i)
  }

  ghost predicate AgreeAt(base: Run, swept: Run, i: nat)
    requires base.Valid() && swept.Valid() && i < |swept.ops| && SameStep(base, swept, i)
  {
    var j, h := Kept(swept.ops[..i]), swept.ops[i].Home();
    h < |base.states[j]| && Agree(base.states[j][h], swept.ops[i], base.outs[j], swept.outs[i], swept.times[i])
  }

  /** The operation is an Expire of a key that has expired and is still stored. */
  ghost predicate Revives(ss: Shards, op: Op) {
    op.Expire? && Stored(ss, op.key) && Expired(ss[Shard(op.key)][op.key], op.now)
  }

  ghost predicate NoRevival(run: Run)
    requires run.Valid()
  {
    forall j :: 0 <= j < |run.ops| ==> !Revives(run.states[j], run.ops[j])
  }

  // ---------------------------------------------------------------- invisible

  ghost predicate CoversAll(ss: Shards, ss': Shards, now: Time) {
    |ss| == |ss'| && forall i :: 0 <= i < |ss| ==> Covers(ss[i], ss'[i], now)
  }

  lemma ShardStepCovers(m: Items, m': Items, op: Op, o: Out, o': Out, n: Items, n': Items, now: Time)
    requires Covers(m, m', now) && OnShard(m, op, o, n) && OnShard(m', op, o', n')
    requires ReadsClock(op, now) && !op.SweepShard?
    requires op.Expire? && op.key in m ==> !Expired(m[op.key], now)
    ensures Covers(n, n', now) && Agree(m, op, o, o', now)
  {
    hide Apply, Swept, Agree, Enumerates;
    if op.OnKey() {
      KeyStepCovers(m, m', op, now);
    } else {
      ReadCovers(m, m', op, o, o', now);
    }
  }

  lemma KeyStepCovers(m: Items, m': Items, op: Op, now: Time)
    requires Covers(m, m', now) && ReadsClock(op, now) && op.OnKey()
    requires op.Expire? && op.key in m ==> !Expired(m[op.key], now)
    ensures Covers(Apply(m, op).0, Apply(m', op).0, now) && Agree(m, op, Apply(m, op).1, Apply(m', op).1, now)
  {
  }

  lemma ReadCovers(m: Items, m': Items, op: Op, o: Out, o': Out, now: Time)
    requires Covers(m, m', now) && OnShard(m, op, o, if op.ClearShard? then map[] else m)
    requires OnShard(m', op, o', if op.ClearShard? then map[] else m')
    requires !op.OnKey() && !op.SweepShard?
    ensures Agree(m, op, o, o', now)
  {
    hide Apply, Swept;
    if op.ReadSize? {
      CoversUntil(m, m', now, now);
      SubtractSize(m.Keys, m.Keys - m'.Keys);
      assert m.Keys - (m.Keys - m'.Keys) == m'.Keys;
      SubsetSize(m.Keys - m'.Keys, ExpiredKeys(m, now));
    }
  }

  lemma StepCovers(ss: Shards, ss': Shards, op: Op, o: Out, o': Out, tt: Shards, tt': Shards, now: Time)
    requires CoversAll(ss, ss', now) && Step(ss, op, o, tt) && Step(ss', op, o', tt')
    requires ReadsClock(op, now) && !op.SweepShard? && !Revives(ss, op)
    ensures CoversAll(tt, tt', now) && Agree(ss[op.Home()], op, o, o', now)
  {
    var h := op.Home();
    ShardStepCovers(ss[h], ss'[h], op, o, o', tt[h], tt'[h], now);
    forall i | 0 <= i < |tt|
      ensures Covers(tt[i], tt'[i], now)
    {
      assert Covers(ss[i], ss'[i], now);
    }
  }

  lemma SweepStepCovers(ss: Shards, ss': Shards, op: Op, o: Out, tt': Shards, now: Time)
    requires CoversAll(ss, ss', now) && Step(ss', op, o, tt') && ReadsClock(op, now) && op.SweepShard?
    ensures CoversAll(ss, tt', now)
  {
  }

  lemma CoversLater(ss: Shards, ss': Shards, t: Time, t': Time)
    requires CoversAll(ss, ss', t) && t <= t'
    ensures CoversAll(ss, ss', t')
  {
  }

  /** One step of the simulation: the run with sweeps lags behind the run without by expired keys only. */
  lemma AdvanceCovers(base: Run, swept: Run, i: nat)
    requires AddsSweeps(base, swept) && NoRevival(base) && i < |swept.ops|
    requires Kept(swept.ops[..i]) <= |base.ops|
    requires CoversAll(base.states[Kept(swept.ops[..i])], swept.states[i], swept.times[i])
    ensures Kept(swept.ops[..i + 1]) <= |base.ops|
    ensures CoversAll(base.states[Kept(swept.ops[..i + 1])], swept.states[i + 1], swept.times[i])
    ensures !swept.ops[i].SweepShard? ==> SameStep(base, swept, i) && AgreeAt(base, swept, i)
  {
    hide OnShard, CoversAll, Agree, Revives, Homed;
    var op, j := swept.ops[i], Kept(swept.ops[..i]);
    assert swept.ops[..i + 1][..i] == swept.ops[..i];
    assert Step(swept.states[i], op, swept.outs[i], swept.states[i + 1]);
    assert ReadsClock(op, swept.times[i]);
    if op.SweepShard? {
      SweepStepCovers(base.states[j], swept.states[i], op, swept.outs[i], swept.states[i + 1], swept.times[i]);
    } else {
      assert SameStep(base, swept, i);
      assert Step(base.states[j], base.ops[j], base.outs[j], base.states[j + 1]);
      assert !Revives(base.states[j], op);
      StepCovers(base.states[j], swept.states[i], op, base.outs[j], swept.outs[i],
                 base.states[j + 1], swept.states[i + 1], swept.times[i]);
    }
  }

  lemma {:induction false} SweptRunCovered(base: Run, swept: Run, i: nat)
    requires AddsSweeps(base, swept) && NoRevival(base) && i < |swept.ops|
    ensures Kept(swept.ops[..i]) <= |base.ops|
    ensures CoversAll(base.states[Kept(swept.ops[..i])], swept.states[i], swept.times[i])
  {
    if i > 0 {
      SweptRunCovered(base, swept, i - 1);
      AdvanceCovers(base, swept, i - 1);
      CoversLater(base.states[Kept(swept.ops[..i])], swept.states[i], swept.times[i - 1], swept.times[i]);
    }
  }

  /** Without a revival, no sweeps show. */
  lemma SweepsInvisible(base: Run, swept: Run)
    requires AddsSweeps(base, swept) && NoRevival(base)
    ensures AgreeAll(base, swept)
  {
    forall i | 0 <= i < |swept.ops| && !swept.ops[i].SweepShard?
      ensures SameStep(base, swept, i) && AgreeAt(base, swept, i)
    {
      SweptRunCovered(base, swept, i);
      AdvanceCovers(base, swept, i);
    }
  }

  // ---------------------------------------------------------------- visible

  ghost predicate Sweepless(run: Run) {
    forall i :: 0 <= i < |run.ops| ==> !run.ops[i].SweepShard?
  }

  lemma {:induction false} SweeplessKept(ops: seq<Op>)
    requires forall i :: 0 <= i < |ops| ==> !ops[i].SweepShard?
    ensures Kept(ops) == |ops|
  {
    if ops != [] {
      SweeplessKept(ops[..|ops| - 1]);
    }
  }

  /** The shard with all its expired keys gone. */
  ghost function WithoutExpired(ss: Shards, h: nat, now: Time): Shards
    requires h < |ss|
  {
    ss[h := ss[h] - ExpiredKeys(ss[h], now)]
  }

  lemma FullSweep(ss: Shards, h: nat, now: Time)
    requires h < |ss|
    ensures Step(ss, SweepShard(h, |ss[h]| + 1, now), Done, WithoutExpired(ss, h, now))
  {
  }

  /** The run up to the revival at `j`, with one sweep slipped in just before it. */
  ghost function SweptBefore(base: Run, j: nat): Run
    requires base.Valid() && j < |base.ops| && Revives(base.states[j], base.ops[j])
  {
    var op := base.ops[j];
    var h := op.Home();
    var swept := WithoutExpired(base.states[j], h, op.now);
    Run(base.states[..j + 1] + [swept, swept],
        base.ops[..j] + [SweepShard(h, |base.states[j][h]| + 1, op.now), op],
        base.outs[..j] + [Done, Flag(false)],
        base.times[..j] + [base.times[j], base.times[j]])
  }

  lemma ExpireAfterSweep(ss: Shards, op: Op)
    requires Revives(ss, op)
    ensures var swept := WithoutExpired(ss, op.Home(), op.now); Step(swept, op, Flag(false), swept)
  {
  }

  lemma SweptBeforeValid(base: Run, j: nat)
    requires base.Valid() && j < |base.ops| && Revives(base.states[j], base.ops[j])
    ensures SweptBefore(base, j).Valid()
  {
    hide OnShard, Kept, ExpiredKeys;
    var run, op := SweptBefore(base, j), base.ops[j];
    assert ReadsClock(op, base.times[j]);
    FullSweep(base.states[j], op.Home(), op.now);
    ExpireAfterSweep(base.states[j], op);
    forall i | 0 <= i < |run.ops|
      ensures Step(run.states[i], run.ops[i], run.outs[i], run.states[i + 1])
      ensures ReadsClock(run.ops[i], run.times[i])
    {
      if i < j {
        assert Step(base.states[i], base.ops[i], base.outs[i], base.states[i + 1]);
      }
    }
  }

  lemma SweptBeforeKept(base: Run, j: nat, i: nat)
    requires base.Valid() && j < |base.ops| && Revives(base.states[j], base.ops[j]) && Sweepless(base) && i <= j + 2
    ensures Kept(SweptBefore(base, j).ops[..i]) == if i <= j then i else i - 1
  {
    hide WithoutExpired, Revives;
    var run := SweptBefore(base, j);
    if i <= j {
      assert run.ops[..i] == base.ops[..i];
      SweeplessKept(base.ops[..i]);
    } else {
      SweptBeforeKept(base, j, i - 1);
      assert run.ops[..i][..i - 1] == run.ops[..i - 1];
    }
  }

  lemma RevivalAnswer(ss: Shards, op: Op, out: Out, ss': Shards)
    requires Revives(ss, op) && Step(ss, op, out, ss')
    ensures op.Expire? && out == Flag(true)
  {
  }

  lemma SweptBeforeAddsSweeps(base: Run, j: nat)
    requires base.Valid() && j < |base.ops| && Revives(base.states[j], base.ops[j]) && Sweepless(base)
    ensures AddsSweepsUpTo(base, j + 1, SweptBefore(base, j))
  {
    hide WithoutExpired, Revives, Kept, Step, ReadsClock;
    var run := SweptBefore(base, j);
    SweptBeforeValid(base, j);
    SweptBeforeKept(base, j, j + 2);
    assert run.ops[..j + 2] == run.ops;
    forall i | 0 <= i < |run.ops| && !run.ops[i].SweepShard?
      ensures SameStep(base, run, i)
    {
      SweptBeforeKept(base, j, i);
    }
  }

  /** The run with one more step, the next one of `base`. */
  lemma OneStepOn(base: Run, n: nat, swept: Run) returns (longer: Run)
    requires AddsSweepsUpTo(base, n, swept) && n < |base.ops| && Sweepless(base)
    requires forall i :: 0 <= i < |swept.times| ==> swept.times[i] <= base.times[n]
    ensures AddsSweepsUpTo(base, n + 1, longer) && Extends(swept, longer)
    ensures forall i :: 0 <= i < |longer.times| ==> longer.times[i] <= base.times[n]
  {
    hide OnShard, Homed;
    var op, last := base.ops[n], |swept.ops|;
    StatesValid(base, n);
    StatesValid(swept, last);
    assert Step(base.states[n], op, base.outs[n], base.states[n + 1]) && ReadsClock(op, base.times[n]);
    var out, ss := SomeOutcome(swept.states[last], op);
    longer := Run(swept.states + [ss], swept.ops + [op], swept.outs + [out], swept.times + [base.times[n]]);
    OneStepValid(swept, longer);
    OneStepSame(base, n, swept, longer);
  }

  lemma OneStepSame(base: Run, n: nat, swept: Run, longer: Run)
    requires AddsSweepsUpTo(base, n, swept) && longer.Valid() && Extends(swept, longer) && n < |base.ops|
    requires longer.ops == swept.ops + [base.ops[n]] && longer.times == swept.times + [base.times[n]]
    requires !base.ops[n].SweepShard?
    ensures AddsSweepsUpTo(base, n + 1, longer)
  {
    hide Step, ReadsClock, Homed, Sharding.Valid;
    var last := |swept.ops|;
    assert longer.ops[..last] == swept.ops;
    forall i | 0 <= i < |longer.ops| && !longer.ops[i].SweepShard?
      ensures SameStep(base, longer, i)
    {
      assert longer.ops[..i] == swept.ops[..i];
      if i < last {
        assert SameStep(base, swept, i);
      } else {
        assert swept.ops[..i] == swept.ops;
      }
    }
  }

  /** A run with sweeps of the first `n` steps goes on to one of all of them. */
  lemma {:induction false} ToTheEnd(base: Run, n: nat, swept: Run) returns (full: Run)
    requires AddsSweepsUpTo(base, n, swept) && Sweepless(base)
    requires n < |base.ops| ==> forall i :: 0 <= i < |swept.times| ==> swept.times[i] <= base.times[n]
    ensures AddsSweeps(base, full) && Extends(swept, full)
    decreases |base.ops| - n
  {
    hide Kept, Step, ReadsClock, Homed;
    full := swept;
    if n < |base.ops| {
      full := OneStepOn(base, n, full);
      full := ToTheEnd(base, n + 1, full);
    }
  }

  /** A revival shows: with a sweep just before it, its Expire reports the key absent instead of present. */
  lemma RevivalShows(base: Run, j: nat) returns (swept: Run)
    requires base.Valid() && j < |base.ops| && Revives(base.states[j], base.ops[j]) && Sweepless(base)
    ensures AddsSweeps(base, swept) && !AgreeAll(base, swept)
    ensures |swept.ops| == |swept.outs| > j + 1 && swept.ops[j + 1] == base.ops[j]
    ensures base.outs[j] == Flag(true) && swept.outs[j + 1] == Flag(false)
  {
    hide WithoutExpired, Revives, Kept, OnShard, Stored, ReadsClock;
    var run := SweptBefore(base, j);
    SweptBeforeAddsSweeps(base, j);
    SweptBeforeKept(base, j, j + 1);
    RevivalAnswer(base.states[j], base.ops[j], base.outs[j], base.states[j + 1]);
    swept := ToTheEnd(base, j + 1, run);
    assert swept.ops[j + 1] == run.ops[j + 1] && swept.ops[..j + 1] == run.ops[..j + 1];
    assert SameStep(base, swept, j + 1);
    assert !AgreeAt(base, swept, j + 1);
  }

  /**
   Sweeps are invisible in a run, however many are added and wherever, if and only if no Expire is applied to a key
   that has expired and is still stored.
   */
  lemma SweepsInvisibleExactly(base: Run)
    requires base.Valid() && Sweepless(base)
    ensures NoRevival(base) <==> forall swept :: AddsSweeps(base, swept) ==> AgreeAll(base, swept)
  {
    if NoRevival(base) {
      forall swept | AddsSweeps(base, swept)
        ensures AgreeAll(base, swept)
      {
        SweepsInvisible(base, swept);
      }
    } else {
      var j :| 0 <= j < |base.ops| && Revives(base.states[j], base.ops[j]);
      var swept := RevivalShows(base, j);
    }
  }
}
