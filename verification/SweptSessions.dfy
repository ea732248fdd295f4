/**
 The server as it runs, with the cleanup sweeping shards whenever it likes, also in the middle of a command: what a
 client is told then, compared with the interpreter that knows no sweeps.
 */
module SweptSessions {
  import opened Bytes
  import opened Decimal
  import opened Fnv
  import opened Resp
  import opened TimedMap
  import opened Sharding
  import opened Runs
  import opened SweepInvisibility
  import opened Commands
  import opened CommandProperties
  import opened Programs
  import opened Server

  // ---------------------------------------------------------------- steps that are not sweeps

  /** The position of the `j`-th step that is not a sweep. */
  function Locate(ops: seq<Op>, j: nat): (i: nat)
    requires j < Kept(ops)
    ensures i < |ops| && !ops[i].SweepShard? && Kept(ops[..i]) == j
  {
    var n := |ops| - 1;
    if !ops[n].SweepShard? && Kept(ops[..n]) == j then n
    else
      var i := Locate(ops[..n], j);
      assert ops[..n][..i] == ops[..i];
      i
  }

  lemma {:induction false} KeptGrows(ops: seq<Op>, i: nat, k: nat)
    requires i <= k <= |ops|
    ensures Kept(ops[..i]) <= Kept(ops[..k])
    ensures i < k && !ops[i].SweepShard? ==> Kept(ops[..i]) < Kept(ops[..k])
    decreases k
  {
    if i < k {
      assert ops[..k][..k - 1] == ops[..k - 1];
      KeptGrows(ops, i, k - 1);
    }
  }

  lemma LocateGrows(ops: seq<Op>, j: nat, k: nat)
    requires j < k < Kept(ops)
    ensures Locate(ops, j) < Locate(ops, k)
  {
    if Locate(ops, k) <= Locate(ops, j) {
      KeptGrows(ops, Locate(ops, k), Locate(ops, j));
    }
  }

  /** The positions of `n` such steps from the `a`-th on. */
  function Located(ops: seq<Op>, a: nat, n: nat): (p: seq<nat>)
    requires a + n <= Kept(ops)
    ensures |p| == n && forall i :: 0 <= i < n ==> p[i] < |ops|
  {
    var p := seq<nat>(n, i requires 0 <= i < n => Locate(ops, a + i));
    assert forall i :: 0 <= i < n ==> p[i] == Locate(ops, a + i);
    p
  }

  // ---------------------------------------------------------------- the same run without its sweeps

  /** `base` is the first `n` steps of `swept` without the sweeps among them, with whatever answers it gets. */
  ghost predicate LeavesOutSweeps(base: Run, swept: Run, n: nat) {
    && base.Valid() && swept.Valid() && n <= |swept.ops| && base.states[0] == swept.states[0]
    && |base.ops| == Kept(swept.ops[..n])
    && (forall i :: 0 <= i < n && !swept.ops[i].SweepShard? ==> SameStep(base, swept, i))
    && (forall j, i :: 0 <= j < |base.ops| && n <= i < |swept.ops| ==> base.times[j] <= swept.times[i])
  }

  lemma {:induction false} WithoutSweepsUpTo(swept: Run, n: nat) returns (base: Run)
    requires swept.Valid() && n <= |swept.ops|
    ensures LeavesOutSweeps(base, swept, n)
  {
    hide Step, ReadsClock, Homed, Kept;
    if n == 0 {
      base := Run([swept.states[0]], [], [], []);
      NoneKept(swept.ops);
    } else {
      base := WithoutSweepsUpTo(swept, n - 1);
      base := LeaveOutOne(base, swept, n - 1);
    }
  }

  lemma NoneKept(ops: seq<Op>)
    ensures Kept(ops[..0]) == 0
  {
  }

  lemma KeptOneMore(ops: seq<Op>, n: nat)
    requires n < |ops|
    ensures Kept(ops[..n + 1]) == Kept(ops[..n]) + if ops[n].SweepShard? then 0 else 1
  {
    assert ops[..n + 1][..n] == ops[..n];
  }

  lemma LeaveOutOne(base: Run, swept: Run, n: nat) returns (longer: Run)
    requires LeavesOutSweeps(base, swept, n) && n < |swept.ops|
    ensures LeavesOutSweeps(longer, swept, n + 1)
  {
    hide OnShard, Homed, Kept;
    KeptOneMore(swept.ops, n);
    longer := base;
    var op, last := swept.ops[n], |base.ops|;
    if !op.SweepShard? {
      StatesValid(swept, n);
      StatesValid(base, last);
      assert Step(swept.states[n], op, swept.outs[n], swept.states[n + 1]) && ReadsClock(op, swept.times[n]);
      var out, ss := SomeOutcome(base.states[last], op);
      longer := Run(base.states + [ss], base.ops + [op], base.outs + [out], base.times + [swept.times[n]]);
      OneStepValid(base, longer);
      KeepsSameSteps(base, longer, swept, n);
    }
  }

  lemma KeepsSameSteps(base: Run, longer: Run, swept: Run, n: nat)
    requires LeavesOutSweeps(base, swept, n) && n < |swept.ops| && longer.Valid() && Extends(base, longer)
    requires longer.ops == base.ops + [swept.ops[n]] && longer.times == base.times + [swept.times[n]]
    ensures forall i :: 0 <= i < n + 1 && !swept.ops[i].SweepShard? ==> SameStep(longer, swept, i)
  {
    hide Step, ReadsClock, Homed, Kept, Sharding.Valid;
    forall i | 0 <= i < n + 1 && !swept.ops[i].SweepShard?
      ensures SameStep(longer, swept, i)
    {
      assert i < n ==> SameStep(base, swept, i);
    }
  }

  /** Every run is a run without sweeps that has had sweeps added. */
  lemma WithoutSweeps(swept: Run) returns (base: Run)
    requires swept.Valid()
    ensures AddsSweeps(base, swept)
  {
    hide Kept, Step, ReadsClock, Homed;
    base := WithoutSweepsUpTo(swept, |swept.ops|);
    assert swept.ops[..|swept.ops|] == swept.ops;
  }

  // ---------------------------------------------------------------- answers

  /** The answers to `n` operations from the `a`-th on, sweeps not counted. */
  function Answers(run: Run, a: nat, n: nat): seq<Out>
    requires |run.ops| == |run.outs| && a + n <= Kept(run.ops)
  {
    OutsAt(run, Located(run.ops, a, n))
  }

  /** The run has sweeps added to one in which no Expire revives a key. */
  ghost predicate Harmless(base: Run, swept: Run) {
    AddsSweeps(base, swept) && NoRevival(base)
  }

  lemma Lengths(base: Run, swept: Run)
    requires Harmless(base, swept)
    ensures base.Valid() && swept.Valid() && |base.ops| == Kept(swept.ops)
    ensures |base.states| == |base.ops| + 1 && |base.times| == |base.outs| == |base.ops|
    ensures |swept.outs| == |swept.ops|
  {
  }

  lemma MakesFits(run: Run, a: nat, ops: seq<Op>)
    requires Makes(run, a, ops)
    ensures a + |ops| <= |run.ops|
    ensures ops != [] ==> run.times[a] <= run.times[a + |ops| - 1]
  {
  }

  lemma BaseStep(base: Run, swept: Run, j: nat)
    requires AddsSweeps(base, swept) && j < |base.ops|
    ensures var i := Locate(swept.ops, j);
            SameStep(base, swept, i) && swept.ops[i] == base.ops[j] && swept.times[i] == base.times[j]
  {
  }

  lemma SweptAgree(base: Run, swept: Run, j: nat)
    requires Harmless(base, swept) && j < |base.ops|
    ensures var i, op := Locate(swept.ops, j), base.ops[j];
            && swept.ops[i] == op && swept.times[i] == base.times[j]
            && op.Home() < |base.states[j]|
            && Agree(base.states[j][op.Home()], op, base.outs[j], swept.outs[i], base.times[j])
  {
    hide Agree, Step, Homed, ReadsClock;
    SweepsInvisible(base, swept);
    var i := Locate(swept.ops, j);
    assert SameStep(base, swept, i) && AgreeAt(base, swept, i);
  }

  /** The operations whose answers no sweep can touch. */
  predicate Untouched(op: Op) {
    op.Get? || op.Set? || op.Expire? || op.ClearShard?
  }

  lemma SameAnswers(base: Run, swept: Run, a: nat, ops: seq<Op>)
    requires Harmless(base, swept) && Makes(base, a, ops) && forall j :: 0 <= j < |ops| ==> Untouched(ops[j])
    ensures Answers(swept, a, |ops|) == base.outs[a..a + |ops|]
  {
    hide Harmless, Run.Valid, Step;
    Lengths(base, swept);
    forall j | 0 <= j < |ops|
      ensures Answers(swept, a, |ops|)[j] == base.outs[a + j]
    {
      SweptAgree(base, swept, a + j);
      assert base.ops[a + j] == ops[j];
    }
  }

  /** The argument keys that are stored but expired at a reading. */
  function StaleArgs(m: Items, args: seq<Value>, now: Time): set<Key> {
    CommandProperties.KeysIn(args) * ExpiredKeys(m, now)
  }

  lemma StaleArgsCons(m: Items, args: seq<Value>, now: Time)
    requires args != []
    ensures var k := Bulk(args[0]);
            |StaleArgs(m - {k}, args[1..], now)| + (if StoredExpired(m, k, now) then 1 else 0) <= |StaleArgs(m, args, now)|
  {
    KeysInCons(args);
    var k := Bulk(args[0]);
    var now', all := StaleArgs(m - {k}, args[1..], now), StaleArgs(m, args, now);
    assert now' <= all - {k};
    SubsetSize(now', all - {k});
  }

  /** DEL counts short by no more than the argument keys that had expired. */
  lemma {:induction false} DeletesSwept(base: Run, swept: Run, a: nat, args: seq<Value>, now: Time)
    requires Harmless(base, swept) && Makes(base, a, Deletes(args))
    requires Deletes(args) != [] ==> base.times[a + |Deletes(args)| - 1] <= now
    ensures var n := |Deletes(args)|;
            0 <= Successes(base.outs[a..a + n]) - Successes(Answers(swept, a, n)) <= |StaleArgs(FlatAt(base, a), args, now)|
    decreases |args|
  {
    hide StaleArgs, FlatAt, Harmless, Makes, Run.Valid, StoredExpired, Kept, Answers, Successes;
    Lengths(base, swept);
    MakesFits(base, a, Deletes(args));
    if args == [] || !IsBulk(args[0]) {
      NoAnswers(base, swept, a);
    } else {
      var k, rest := Bulk(args[0]), Deletes(args[1..]);
      MakesCons(base, a, Delete(k), rest);
      DeleteSwept(base, swept, a, k, now);
      DeletesSwept(base, swept, a + 1, args[1..], now);
      StaleArgsCons(FlatAt(base, a), args, now);
      AnswersCons(swept, a, |rest|);
    }
  }

  lemma NoAnswers(base: Run, swept: Run, a: nat)
    requires a <= |base.outs| && |swept.ops| == |swept.outs| && a <= Kept(swept.ops)
    ensures Successes(base.outs[a..a]) == Successes(Answers(swept, a, 0)) == 0
  {
  }

  lemma AnswersCons(run: Run, a: nat, n: nat)
    requires |run.ops| == |run.outs| && a + 1 + n <= Kept(run.ops)
    ensures var out := run.outs[Locate(run.ops, a)];
            Successes(Answers(run, a, 1 + n))
            == (if out.Found? || out == Flag(true) then 1 else 0) + Successes(Answers(run, a + 1, n))
  {
    assert Answers(run, a, 1 + n)[1..] == Answers(run, a + 1, n);
  }

  lemma DeleteSwept(base: Run, swept: Run, a: nat, k: Key, now: Time)
    requires Harmless(base, swept) && a < |base.ops| && base.ops[a] == Delete(k) && base.times[a] <= now
    ensures var o, o' := base.outs[a], swept.outs[Locate(swept.ops, a)];
            && o.Flag? && o'.Flag? && FlatAt(base, a + 1) == FlatAt(base, a) - {k}
            && (o == o' || (o == Flag(true) && o' == Flag(false) && StoredExpired(FlatAt(base, a), k, now)))
  {
    SweptAgree(base, swept, a);
    KeyStep(base, a);
    StatesValid(base, a);
    FlatLookup(base.states[a], k);
  }

  // ---------------------------------------------------------------- scans

  lemma ScanStep(base: Run, swept: Run, a: nat, walk: Walk, i: nat)
    requires Harmless(base, swept) && Makes(base, a, Scan(walk)) && i < SHARD_COUNT
    ensures a + i < Kept(swept.ops) && swept.ops[Locate(swept.ops, a + i)] == walk.At(i)
  {
    hide Walk.At;
    BaseStep(base, swept, a + i);
    assert base.ops[a + i] == Scan(walk)[i];
  }

  lemma ScanLocated(base: Run, swept: Run, a: nat, walk: Walk)
    requires Harmless(base, swept) && Makes(base, a, Scan(walk))
    ensures a + SHARD_COUNT <= Kept(swept.ops) && Walks(swept, walk, Located(swept.ops, a, SHARD_COUNT))
  {
    hide Harmless, Run.Valid, Kept, Walk.At;
    Lengths(base, swept);
    MakesFits(base, a, Scan(walk));
    var p := Located(swept.ops, a, SHARD_COUNT);
    forall i | 0 <= i < |p|
      ensures swept.ops[p[i]] == walk.At(i)
    {
      ScanStep(base, swept, a, walk, i);
    }
    forall i, j | 0 <= i < j < |p|
      ensures p[i] < p[j]
    {
      LocateGrows(swept.ops, a + i, a + j);
    }
  }

  /** While the keys are read, what the sweeps leave lacks only keys that have expired by the end. */
  lemma CoveredDuring(base: Run, swept: Run, a: nat, walk: Walk, t: nat)
    requires Harmless(base, swept) && Makes(base, a, Scan(walk)) && (walk.KeysWalk? || walk.SizeWalk?)
    requires a + SHARD_COUNT <= Kept(swept.ops)
    requires Locate(swept.ops, a) <= t <= Locate(swept.ops, a + SHARD_COUNT - 1)
    ensures CoversAll(base.states[a], swept.states[t], base.times[a + SHARD_COUNT - 1])
  {
    hide CoversAll, Run.Valid, Harmless, Makes, Kept;
    var j, last := Kept(swept.ops[..t]), a + SHARD_COUNT - 1;
    var l := Locate(swept.ops, last);
    Lengths(base, swept);
    CoveredAt(base, swept, t);
    KeptGrows(swept.ops, Locate(swept.ops, a), t);
    KeptGrows(swept.ops, t, l);
    ScanStays(base, a, walk, j);
    SameTime(base, swept, last);
    TimesGrow(swept, t, l);
    CoversLater(base.states[a], swept.states[t], swept.times[t], base.times[last]);
  }

  lemma CoveredAt(base: Run, swept: Run, t: nat)
    requires Harmless(base, swept) && t < |swept.ops|
    ensures Kept(swept.ops[..t]) < |base.states| && t < |swept.times| && t < |swept.states|
    ensures CoversAll(base.states[Kept(swept.ops[..t])], swept.states[t], swept.times[t])
  {
    hide CoversAll, NoRevival, Step, ReadsClock, Homed;
    SweptRunCovered(base, swept, t);
  }

  lemma ScanStays(base: Run, a: nat, walk: Walk, j: nat)
    requires Makes(base, a, Scan(walk)) && (walk.KeysWalk? || walk.SizeWalk?) && a <= j < a + SHARD_COUNT
    ensures base.states[j] == base.states[a]
  {
    ScanReads(base, a, walk);
    ReadsKeep(base, a, j - a);
  }

  lemma SameTime(base: Run, swept: Run, j: nat)
    requires Harmless(base, swept) && j < |base.ops|
    ensures j < |base.times| && |swept.times| == |swept.ops| && swept.times[Locate(swept.ops, j)] == base.times[j]
  {
    hide NoRevival, Step, ReadsClock, Homed;
    BaseStep(base, swept, j);
  }

  lemma TimesGrow(run: Run, i: nat, j: nat)
    requires run.Valid() && i <= j < |run.ops|
    ensures run.times[i] <= run.times[j]
  {
  }

  lemma CoversAllStored(ss: Shards, ss': Shards, k: Key, now: Time)
    requires Valid(ss) && Valid(ss') && CoversAll(ss, ss', now)
    ensures k in KeysOf(ss') ==> k in KeysOf(ss)
    ensures k in KeysOf(ss) && k !in KeysOf(ss') ==> k in Flat(ss) && Expired(Flat(ss)[k], now)
  {
    FlatLookup(ss, k);
    FlatLookup(ss', k);
    assert Covers(ss[Shard(k)], ss'[Shard(k)], now);
  }

  lemma ScanBounds(base: Run, swept: Run, a: nat, walk: Walk)
    requires Harmless(base, swept) && Makes(base, a, Scan(walk)) && (walk.KeysWalk? || walk.SizeWalk?)
    ensures a + SHARD_COUNT <= Kept(swept.ops) && base.Valid() && swept.Valid()
    ensures var m, first, last := FlatAt(base, a), Locate(swept.ops, a), Locate(swept.ops, a + SHARD_COUNT - 1);
            && first <= last < |swept.ops|
            && Sometimes(swept, first, last) <= m.Keys
            && m.Keys - ExpiredKeys(m, base.times[a + SHARD_COUNT - 1]) <= Always(swept, first, last)
  {
    hide Harmless, CoversAll, Run.Valid;
    Lengths(base, swept);
    MakesFits(base, a, Scan(walk));
    LocateGrows(swept.ops, a, a + SHARD_COUNT - 1);
    var m, first, last := FlatAt(base, a), Locate(swept.ops, a), Locate(swept.ops, a + SHARD_COUNT - 1);
    var now := base.times[a + SHARD_COUNT - 1];
    StatesValid(base, a);
    forall t, k | first <= t <= last
      ensures k in KeysOf(swept.states[t]) ==> k in m
      ensures k in m && k !in ExpiredKeys(m, now) ==> k in KeysOf(swept.states[t])
    {
      StatesValid(swept, t);
      CoveredDuring(base, swept, a, walk, t);
      CoversAllStored(base.states[a], swept.states[t], k, now);
    }
  }

  /** KEYS with sweeps lists no key twice, only stored keys, and every stored key that has not expired. */
  lemma KeysSwept(base: Run, swept: Run, a: nat)
    requires Harmless(base, swept) && Makes(base, a, Scan(KeysWalk))
    ensures a + SHARD_COUNT <= Kept(swept.ops) && |swept.ops| == |swept.outs| && base.Valid()
    ensures var keys, m := Concat(ListsIn(Answers(swept, a, SHARD_COUNT))), FlatAt(base, a);
            Listing(keys, m, base.times[a + SHARD_COUNT - 1])
  {
    hide Harmless, Run.Valid, Always, Sometimes, FlatAt, Concat, Kept;
    Lengths(base, swept);
    MakesFits(base, a, Scan(KeysWalk));
    ScanLocated(base, swept, a, KeysWalk);
    ScanBounds(base, swept, a, KeysWalk);
    KeysReply(swept, Located(swept.ops, a, SHARD_COUNT));
    KeysScan(swept, Located(swept.ops, a, SHARD_COUNT));
  }

  /** The keys of `m`, each once, but for some that have expired. */
  ghost predicate Listing(keys: seq<Key>, m: Items, now: Time) {
    && (forall i, j :: 0 <= i < j < |keys| ==> keys[i] != keys[j])
    && (forall k :: k in keys ==> k in m)
    && (forall k :: k in m && k !in keys ==> Expired(m[k], now))
  }

  /** DBSIZE with sweeps counts at most the stored keys and at least those that have not expired. */
  lemma SizesSwept(base: Run, swept: Run, a: nat)
    requires Harmless(base, swept) && Makes(base, a, Scan(SizeWalk))
    ensures a + SHARD_COUNT <= Kept(swept.ops) && |swept.ops| == |swept.outs| && base.Valid()
    ensures var m, size := FlatAt(base, a), SumOf(Answers(swept, a, SHARD_COUNT));
            |m| - |ExpiredKeys(m, base.times[a + SHARD_COUNT - 1])| <= size <= |m|
  {
    hide Harmless, Run.Valid, Always, Sometimes, FlatAt, SumOf, Kept, ExpiredKeys;
    Lengths(base, swept);
    MakesFits(base, a, Scan(SizeWalk));
    ScanLocated(base, swept, a, SizeWalk);
    ScanBounds(base, swept, a, SizeWalk);
    var p, m := Located(swept.ops, a, SHARD_COUNT), FlatAt(base, a);
    var now := base.times[a + SHARD_COUNT - 1];
    LenScan(swept, p);
    SumReply(swept, p, SHARD_COUNT);
    assert OutsAt(swept, p)[..SHARD_COUNT] == OutsAt(swept, p);
    SubsetSize(Sometimes(swept, p[0], p[SHARD_COUNT - 1]), m.Keys);
    SubsetSize(m.Keys - ExpiredKeys(m, now), Always(swept, p[0], p[SHARD_COUNT - 1]));
    ExpiredAreStored(m, now);
    SubtractSize(m.Keys, ExpiredKeys(m, now));
    assert |m| == |m.Keys|;
  }

  lemma ExpiredAreStored(m: Items, now: Time)
    ensures ExpiredKeys(m, now) <= m.Keys
  {
  }

  // ---------------------------------------------------------------- one command

  /**
   What a client may be told when sweeps go on, the store being `m` for the interpreter: what the interpreter says, but
   that TTL may miss a key that has expired, and that DEL, DBSIZE and KEYS may miss some that have.
   */
  ghost predicate MaySee(m: Items, cmd: Value, clock: Clock, v: Value) {
    var r, n := Interpret(m, cmd, clock).0, |Program(cmd, clock)|;
    if n == 0 then Fits(r, v)
    else if NameOf(cmd) == Some(TTL) then Fits(r, v) || (r == Is(Integer(0)) && v == Integer(-1))
    else if NameOf(cmd) == Some(DEL) && AllBulk(cmd.items[1..]) then
      && r.Is? && r.value.Integer? && v.Integer?
      && 0 <= r.value.n - v.n <= |StaleArgs(m, cmd.items[1..], clock(n - 1))|
    else if NameOf(cmd) == Some(DBSIZE) then
      exists size :: v == Integer(Wrap64(size)) && |m| - |ExpiredKeys(m, clock(n - 1))| <= size <= |m|
    else if NameOf(cmd) == Some(KEYS) then
      exists keys :: v == Array(BulksOf(keys)) && Listing(keys, m, clock(n - 1))
    else Fits(r, v)
  }

  lemma {:induction false} LookupsGet(args: seq<Value>, clock: Clock, j: nat)
    ensures forall i :: 0 <= i < |Lookups(args, clock, j)| ==> Lookups(args, clock, j)[i].Get?
    decreases |args|
  {
    if args != [] && IsBulk(args[0]) {
      LookupsGet(args[1..], clock, j + 1);
    }
  }

  lemma {:induction false} DeletesDelete(args: seq<Value>)
    ensures forall i :: 0 <= i < |Deletes(args)| ==> Deletes(args)[i].Delete?
  {
    if args != [] && IsBulk(args[0]) {
      DeletesDelete(args[1..]);
    }
  }

  lemma ProgramKinds(cmd: Value, clock: Clock)
    requires Program(cmd, clock) != []
    ensures NameOf(cmd) == Some(TTL) ==> |Program(cmd, clock)| == 1 && Program(cmd, clock)[0].Ttl?
    ensures NameOf(cmd) !in {Some(TTL), Some(DEL), Some(DBSIZE), Some(KEYS)} ==>
      forall j :: 0 <= j < |Program(cmd, clock)| ==> Untouched(Program(cmd, clock)[j])
    ensures forall j :: 0 <= j < |Program(cmd, clock)| && Program(cmd, clock)[j].Expire? ==> |Program(cmd, clock)| == 1
  {
    hide Lookups, Deletes, ToUpper, ParseSeconds, SetSeconds;
    LookupsGet(cmd.items[1..], clock, 0);
    DeletesDelete(cmd.items[1..]);
  }

  lemma TtlSwept(base: Run, swept: Run, a: nat, cmd: Value, clock: Clock)
    requires Harmless(base, swept) && Makes(base, a, Program(cmd, clock)) && Program(cmd, clock) != []
    requires NameOf(cmd) == Some(TTL)
    ensures a + 1 <= Kept(swept.ops) && |swept.ops| == |swept.outs| && |Program(cmd, clock)| == 1
    ensures MaySee(FlatAt(base, a), cmd, clock, ReplyOf(cmd, clock, Answers(swept, a, 1)))
  {
    hide Harmless, Run.Valid, FlatAt, Interpret, Program, Kept;
    Lengths(base, swept);
    MakesFits(base, a, Program(cmd, clock));
    ProgramKinds(cmd, clock);
    assert base.ops[a + 0] == Program(cmd, clock)[0];
    SweptAgree(base, swept, a);
    KeyStep(base, a);
    OneOperation(FlatAt(base, a), cmd, clock);
  }

  lemma DelSwept(base: Run, swept: Run, a: nat, cmd: Value, clock: Clock)
    requires Harmless(base, swept) && Makes(base, a, Program(cmd, clock)) && Program(cmd, clock) != []
    requires NameOf(cmd) == Some(DEL) && base.times[a + |Program(cmd, clock)| - 1] == clock(|Program(cmd, clock)| - 1)
    ensures var n := |Program(cmd, clock)|;
            && a + n <= Kept(swept.ops) && |swept.ops| == |swept.outs|
            && MaySee(FlatAt(base, a), cmd, clock, ReplyOf(cmd, clock, Answers(swept, a, n)))
  {
    hide Harmless, Run.Valid, FlatAt, Interpret, Program, ReplyOf, StaleArgs, Successes, FaultText, Kept;
    Lengths(base, swept);
    MakesFits(base, a, Program(cmd, clock));
    var n, m := |Program(cmd, clock)|, FlatAt(base, a);
    LoopCommand(m, cmd, clock, base.outs[a..a + n]);
    LoopCommand(m, cmd, clock, Answers(swept, a, n));
    DeletesRun(base, a, cmd.items[1..], 0);
    DeletesSwept(base, swept, a, cmd.items[1..], clock(n - 1));
  }

  lemma ScanSwept(base: Run, swept: Run, a: nat, cmd: Value, clock: Clock)
    requires Harmless(base, swept) && Makes(base, a, Program(cmd, clock)) && Program(cmd, clock) != []
    requires NameOf(cmd) in {Some(KEYS), Some(DBSIZE)}
    requires base.times[a + |Program(cmd, clock)| - 1] == clock(|Program(cmd, clock)| - 1)
    ensures var n := |Program(cmd, clock)|;
            && a + n <= Kept(swept.ops) && |swept.ops| == |swept.outs|
            && MaySee(FlatAt(base, a), cmd, clock, ReplyOf(cmd, clock, Answers(swept, a, n)))
  {
    hide Harmless, Run.Valid, FlatAt, Interpret, Program, ReplyOf, Listing, SumOf, Concat, Kept, ExpiredKeys, Scan;
    Lengths(base, swept);
    MakesFits(base, a, Program(cmd, clock));
    var n, m := |Program(cmd, clock)|, FlatAt(base, a);
    ScanCommand(m, cmd, clock, Answers(swept, a, n));
    if NameOf(cmd) == Some(KEYS) {
      KeysSwept(base, swept, a);
    } else {
      SizesSwept(base, swept, a);
    }
  }

  /** The reply to a command in a run with sweeps, by what the interpreter makes of it without. */
  lemma CommandSwept(base: Run, swept: Run, a: nat, cmd: Value, clock: Clock)
    requires Harmless(base, swept) && Makes(base, a, Program(cmd, clock)) && NameOf(cmd) != Some(INFO)
    requires var n := |Program(cmd, clock)|; n > 0 ==> base.times[a + n - 1] == clock(n - 1)
    ensures var n := |Program(cmd, clock)|;
            && a + n <= Kept(swept.ops) && |swept.ops| == |swept.outs|
            && MaySee(FlatAt(base, a), cmd, clock, ReplyOf(cmd, clock, Answers(swept, a, n)))
  {
    hide Harmless, Run.Valid, FlatAt, Interpret, Program, ReplyOf, Kept, NameOf, Fits, Untouched;
    var n := |Program(cmd, clock)|;
    Lengths(base, swept);
    MakesFits(base, a, Program(cmd, clock));
    ProgramIsCommand(base, a, cmd, clock);
    if n == 0 {
      assert Answers(swept, a, n) == base.outs[a..a + n];
    } else if NameOf(cmd) == Some(TTL) {
      TtlSwept(base, swept, a, cmd, clock);
    } else if NameOf(cmd) == Some(DEL) {
      DelSwept(base, swept, a, cmd, clock);
    } else if NameOf(cmd) in {Some(KEYS), Some(DBSIZE)} {
      ScanSwept(base, swept, a, cmd, clock);
    } else {
      ProgramKinds(cmd, clock);
      SameAnswers(base, swept, a, Program(cmd, clock));
    }
  }

  // ---------------------------------------------------------------- whole sessions

  /** The steps from the `a`-th on, sweeps not counted, are the command's operations, at its clock readings. */
  ghost predicate Carries(run: Run, a: nat, cmd: Value, clock: Clock) {
    var prog := Program(cmd, clock);
    && |run.times| == |run.ops| == |run.outs| && a + |prog| <= Kept(run.ops)
    && forall j :: 0 <= j < |prog| ==>
         var i := Locate(run.ops, a + j); run.ops[i] == prog[j] && run.times[i] == clock(j)
  }

  /** The run is the commands' operations one after another, `starts[i]` before the i-th command's, and any sweeps. */
  ghost predicate Serves(run: Run, commands: seq<Value>, clocks: Clocks, starts: seq<nat>) {
    && run.Valid() && |starts| == |commands| + 1 && starts[0] == 0 && starts[|commands|] == Kept(run.ops)
    && forall i :: 0 <= i < |commands| ==>
         Carries(run, starts[i], commands[i], clocks(i)) && starts[i + 1] == starts[i] + |Program(commands[i], clocks(i))|
  }

  /** The command restamps a key that has expired and is still stored. */
  predicate Restamps(m: Items, cmd: Value, clock: Clock) {
    Program(cmd, clock) != [] &&
    var op := Program(cmd, clock)[0];
    op.Expire? && StoredExpired(m, op.key, op.now)
  }

  lemma BaseMakes(base: Run, swept: Run, a: nat, cmd: Value, clock: Clock)
    requires AddsSweeps(base, swept) && Carries(swept, a, cmd, clock)
    ensures Makes(base, a, Program(cmd, clock)) && |base.times| == |base.ops|
    ensures var n := |Program(cmd, clock)|; n > 0 ==> base.times[a + n - 1] == clock(n - 1)
  {
    hide Program, Step, ReadsClock, Homed, SameStep;
    var prog := Program(cmd, clock);
    forall j | 0 <= j < |prog|
      ensures base.ops[a + j] == prog[j] && base.times[a + j] == clock(j)
    {
      BaseStep(base, swept, a + j);
    }
    assert |prog| > 0 ==> a + |prog| - 1 == a + (|prog| - 1);
  }

  lemma ServesAt(run: Run, commands: seq<Value>, clocks: Clocks, starts: seq<nat>, i: nat)
    requires Serves(run, commands, clocks, starts) && i < |commands|
    ensures Carries(run, starts[i], commands[i], clocks(i))
    ensures starts[i + 1] == starts[i] + |Program(commands[i], clocks(i))| <= Kept(run.ops)
  {
  }

  /** Without the sweeps, the store between two commands is the interpreter's. */
  lemma {:induction false} StoresAre(base: Run, swept: Run, session: Session, clocks: Clocks, starts: seq<nat>, i: nat)
    requires AddsSweeps(base, swept) && session.Follows(clocks) && Serves(swept, session.commands, clocks, starts)
    requires session.stores[0] == FlatAt(base, 0)
    requires forall t :: 0 <= t < |session.commands| ==> NameOf(session.commands[t]) != Some(INFO)
    requires i <= |session.commands|
    ensures starts[i] < |base.states| && base.Valid() && FlatAt(base, starts[i]) == session.stores[i]
  {
    hide Program, Carries, Makes, FlatAt, Interpret, Run.Valid, AddsSweeps, ReplyOf;
    AddsLengths(base, swept);
    if i > 0 {
      var cmd, clock := session.commands[i - 1], clocks(i - 1);
      StoresAre(base, swept, session, clocks, starts, i - 1);
      ServesAt(swept, session.commands, clocks, starts, i - 1);
      BaseMakes(base, swept, starts[i - 1], cmd, clock);
      ProgramIsCommand(base, starts[i - 1], cmd, clock);
      assert session.Interprets(i - 1, clocks);
    }
  }

  lemma AddsLengths(base: Run, swept: Run)
    requires AddsSweeps(base, swept)
    ensures base.Valid() && swept.Valid() && |base.ops| == Kept(swept.ops) && base.states[0] == swept.states[0]
    ensures |base.states| == |base.ops| + 1 && |base.times| == |base.outs| == |base.ops|
    ensures |swept.outs| == |swept.ops| == |swept.times|
  {
  }

  /** The command that a step of the run belongs to. */
  lemma {:induction false} CommandAt(run: Run, commands: seq<Value>, clocks: Clocks, starts: seq<nat>, n: nat, j: nat)
    returns (i: nat)
    requires Serves(run, commands, clocks, starts) && n <= |commands| && j < starts[n]
    ensures i < n && starts[i] <= j < starts[i] + |Program(commands[i], clocks(i))|
    decreases n
  {
    hide Carries, Program, Run.Valid;
    assert n > 0;
    ServesAt(run, commands, clocks, starts, n - 1);
    if starts[n - 1] <= j {
      i := n - 1;
    } else {
      i := CommandAt(run, commands, clocks, starts, n - 1, j);
    }
  }

  /** If no EXPIRE of the session hits an expired stored key of the interpreter's, none does in the run. */
  lemma SessionIsHarmless(base: Run, swept: Run, session: Session, clocks: Clocks, starts: seq<nat>)
    requires AddsSweeps(base, swept) && session.Follows(clocks) && Serves(swept, session.commands, clocks, starts)
    requires session.stores[0] == FlatAt(base, 0)
    requires forall i :: 0 <= i < |session.commands| ==>
               NameOf(session.commands[i]) != Some(INFO) && !Restamps(session.stores[i], session.commands[i], clocks(i))
    ensures Harmless(base, swept)
  {
    hide Carries, Program, FlatAt, Run.Valid, AddsSweeps, Step, Serves, Session.Follows;
    AddsLengths(base, swept);
    forall j | 0 <= j < |base.ops|
      ensures !Revives(base.states[j], base.ops[j])
    {
      NoneRevives(base, swept, session, clocks, starts, j);
    }
  }

  lemma NoneRevives(base: Run, swept: Run, session: Session, clocks: Clocks, starts: seq<nat>, j: nat)
    requires AddsSweeps(base, swept) && session.Follows(clocks) && Serves(swept, session.commands, clocks, starts)
    requires session.stores[0] == FlatAt(base, 0)
    requires forall i :: 0 <= i < |session.commands| ==>
               NameOf(session.commands[i]) != Some(INFO) && !Restamps(session.stores[i], session.commands[i], clocks(i))
    requires j < |base.ops|
    ensures !Revives(base.states[j], base.ops[j])
  {
    hide Carries, Program, FlatAt, Run.Valid, AddsSweeps, Makes;
    AddsLengths(base, swept);
    var i := CommandAt(swept, session.commands, clocks, starts, |session.commands|, j);
    var cmd, clock := session.commands[i], clocks(i);
    StoresAre(base, swept, session, clocks, starts, i);
    ServesAt(swept, session.commands, clocks, starts, i);
    BaseMakes(base, swept, starts[i], cmd, clock);
    ProgramKinds(cmd, clock);
    MadeAt(base, starts[i], Program(cmd, clock), j);
    if Revives(base.states[j], base.ops[j]) {
      RevivesFlat(base, j);
    }
  }

  lemma MadeAt(run: Run, a: nat, ops: seq<Op>, j: nat)
    requires Makes(run, a, ops) && a <= j < a + |ops|
    ensures run.ops[j] == ops[j - a]
  {
    assert run.ops[a + (j - a)] == ops[j - a];
  }

  lemma RevivesFlat(run: Run, j: nat)
    requires run.Valid() && j < |run.ops| && Revives(run.states[j], run.ops[j])
    ensures StoredExpired(FlatAt(run, j), run.ops[j].key, run.ops[j].now)
  {
    StatesValid(run, j);
    FlatLookup(run.states[j], run.ops[j].key);
  }

  /**
   Serving while sweeping: in any run of the commands' operations with any sweeps anywhere, also inside a command, the
   replies are those of the interpreter, which knows no sweeps, as far as `MaySee` says, provided that no EXPIRE hits
   a key that has expired and is still stored.
   */
  lemma SweptSession(swept: Run, session: Session, clocks: Clocks, starts: seq<nat>, i: nat)
    requires session.Follows(clocks) && Serves(swept, session.commands, clocks, starts)
    requires session.stores[0] == FlatAt(swept, 0)
    requires forall t :: 0 <= t < |session.commands| ==>
               NameOf(session.commands[t]) != Some(INFO) && !Restamps(session.stores[t], session.commands[t], clocks(t))
    requires i < |session.commands|
    ensures starts[i] <= starts[i + 1] <= Kept(swept.ops) && |swept.outs| == |swept.ops|
    ensures var answers := Answers(swept, starts[i], starts[i + 1] - starts[i]);
            MaySee(session.stores[i], session.commands[i], clocks(i), ReplyOf(session.commands[i], clocks(i), answers))
  {
    hide Carries, Program, Run.Valid, AddsSweeps, MaySee, Makes, Harmless, ReplyOf;
    var base := WithoutSweeps(swept);
    AddsLengths(base, swept);
    SameStart(base, swept);
    SessionIsHarmless(base, swept, session, clocks, starts);
    StoresAre(base, swept, session, clocks, starts, i);
    ServesAt(swept, session.commands, clocks, starts, i);
    BaseMakes(base, swept, starts[i], session.commands[i], clocks(i));
    CommandSwept(base, swept, starts[i], session.commands[i], clocks(i));
  }

  lemma SameStart(base: Run, swept: Run)
    requires base.Valid() && swept.Valid() && base.states[0] == swept.states[0]
    ensures FlatAt(base, 0) == FlatAt(swept, 0)
  {
  }
}
