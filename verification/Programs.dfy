/**
 Each command as the atomic operations it makes on the shared store and the reply it draws from their answers. Carried
 out with nothing in between, they are the command as the interpreter has it.
 */
module Programs {
  import opened Bytes
  import opened Decimal
  import opened Fnv
  import opened Resp
  import opened TimedMap
  import opened Sharding
  import opened Runs
  import opened Commands
  import opened CommandProperties

  /** One operation at each shard. */
  function Scan(walk: Walk): (ops: seq<Op>)
    ensures |ops| == SHARD_COUNT
  {
    seq(SHARD_COUNT, i requires 0 <= i < SHARD_COUNT => walk.At(i))
  }

  /** The operations of DEL, up to its first non-bulk argument. */
  function Deletes(args: seq<Value>): seq<Op> {
    if args == [] || !IsBulk(args[0]) then [] else [Delete(Bulk(args[0]))] + Deletes(args[1..])
  }

  /** The operations of EXISTS from argument `j` on, up to its first non-bulk argument. */
  function Lookups(args: seq<Value>, clock: Clock, j: nat): seq<Op>
    decreases |args|
  {
    if args == [] || !IsBulk(args[0]) then [] else [Get(Bulk(args[0]), clock(j))] + Lookups(args[1..], clock, j + 1)
  }

  /** The operations of a known command other than INFO; a malformed one makes none. */
  function Operations(name: Bytes, args: seq<Value>, clock: Clock): seq<Op> {
    if name == GET then if |args| == 1 && IsBulk(args[0]) then [Get(Bulk(args[0]), clock(0))] else []
    else if name == SET then
      if |args| >= 2 && IsBulk(args[0]) && IsBulk(args[1]) && SetSeconds(args).Some?
      then [Set(Bulk(args[0]), Bulk(args[1]), SetSeconds(args).value, clock(0))]
      else []
    else if name == TTL then if |args| == 1 && IsBulk(args[0]) then [Ttl(Bulk(args[0]), clock(0))] else []
    else if name == EXPIRE then
      if |args| == 2 && IsBulk(args[0]) && IsBulk(args[1]) && ParseSeconds(Bulk(args[1])).Some?
      then [Expire(Bulk(args[0]), ParseSeconds(Bulk(args[1])).value, clock(0))]
      else []
    else if name == DEL then Deletes(args)
    else if name == EXISTS then Lookups(args, clock, 0)
    else if name == DBSIZE then if args == [] then Scan(SizeWalk) else []
    else if name == FLUSHALL then if args == [] then Scan(ClearWalk) else []
    else if name == KEYS then if ListKeys(map[], args).Lists? then Scan(KeysWalk) else []
    else []
  }

  function Program(cmd: Value, clock: Clock): seq<Op> {
    if NameOf(cmd).None? then [] else Operations(NameOf(cmd).value, cmd.items[1..], clock)
  }

  // ---------------------------------------------------------------- replies

  /** How many operations found or did what they were asked to. */
  function Successes(outs: seq<Out>): nat {
    if outs == [] then 0 else (if outs[0].Found? || outs[0] == Flag(true) then 1 else 0) + Successes(outs[1..])
  }

  function SumOf(outs: seq<Out>): int {
    if outs == [] then 0 else SumOf(outs[..|outs| - 1]) + NumberIn(outs[|outs| - 1])
  }

  function NumberIn(out: Out): int {
    if out.Number? then out.n else 0
  }

  function ListIn(out: Out): seq<Key> {
    if out.Keys? then out.keys else []
  }

  function ListsIn(outs: seq<Out>): seq<seq<Key>> {
    seq(|outs|, i requires 0 <= i < |outs| => ListIn(outs[i]))
  }

  /** The reply to a command that has got these answers; one that asks nothing replies alike on every store. */
  function ReplyOf(cmd: Value, clock: Clock, outs: seq<Out>): Value {
    if outs == [] || NameOf(cmd).None? then
      var reply := Interpret(map[], cmd, clock).0;
      if reply.Is? then reply.value else NullArray
    else
      var name, args := NameOf(cmd).value, cmd.items[1..];
      if name == GET then if outs[0].Found? then BulkString(outs[0].value) else NullBulk
      else if name == TTL then Integer(NumberIn(outs[0]))
      else if name == EXPIRE then Integer(Successes(outs))
      else if name == DEL || name == EXISTS then
        if AllBulk(args) then Integer(Successes(outs)) else Error(FaultText(ArgumentNotBulk))
      else if name == DBSIZE then Integer(Wrap64(SumOf(outs)))
      else if name == KEYS then Array(BulksOf(Concat(ListsIn(outs))))
      else SimpleString(OK)
  }

  // ---------------------------------------------------------------- carried out on their own

  /** The single timed map at a moment of a run. */
  ghost function FlatAt(run: Run, t: nat): Items
    requires run.Valid() && t < |run.states|
  {
    StatesValid(run, t);
    Flat(run.states[t])
  }

  /** The run makes these operations from step `a` on, one after another. */
  ghost predicate Makes(run: Run, a: nat, ops: seq<Op>) {
    run.Valid() && a + |ops| <= |run.ops| && forall j :: 0 <= j < |ops| ==> run.ops[a + j] == ops[j]
  }

  lemma KeyStep(run: Run, t: nat)
    requires run.Valid() && t < |run.ops| && run.ops[t].OnKey()
    ensures (FlatAt(run, t + 1), run.outs[t]) == Apply(FlatAt(run, t), run.ops[t])
  {
    StatesValid(run, t);
    assert Step(run.states[t], run.ops[t], run.outs[t], run.states[t + 1]);
    StepRefinesFlat(run.states[t], run.ops[t], run.outs[t], run.states[t + 1]);
  }

  /** A command that makes no operation replies the same on every store, and leaves it. */
  lemma NoOperation(m: Items, cmd: Value, clock: Clock)
    requires Program(cmd, clock) == [] && NameOf(cmd) != Some(INFO)
    ensures Interpret(m, cmd, clock) == (Is(ReplyOf(cmd, clock, [])), m)
  {
    hide FaultText, ToUpper, ParseSeconds, SetSeconds;
  }

  predicate OneKey(name: Bytes) {
    name == GET || name == SET || name == TTL || name == EXPIRE
  }

  lemma OneOperation(m: Items, cmd: Value, clock: Clock)
    requires NameOf(cmd).Some? && OneKey(NameOf(cmd).value) && Program(cmd, clock) != []
    ensures |Program(cmd, clock)| == 1 && Program(cmd, clock)[0].OnKey()
    ensures var (m', out) := Apply(m, Program(cmd, clock)[0]);
            Interpret(m, cmd, clock) == (Is(ReplyOf(cmd, clock, [out])), m')
  {
    hide FaultText, ToUpper, ParseSeconds, SetSeconds;
    OneSuccess(Apply(m, Program(cmd, clock)[0]).1);
  }

  lemma OneSuccess(out: Out)
    ensures Successes([out]) == if out.Found? || out == Flag(true) then 1 else 0
  {
    assert [out][1..] == [];
  }

  // ---------------------------------------------------------------- DEL and EXISTS

  /** The first operation and the others. */
  lemma MakesCons(run: Run, a: nat, op: Op, rest: seq<Op>)
    requires Makes(run, a, [op] + rest)
    ensures run.ops[a] == op && Makes(run, a + 1, rest)
    ensures Successes(run.outs[a..a + 1 + |rest|])
         == (if run.outs[a].Found? || run.outs[a] == Flag(true) then 1 else 0)
          + Successes(run.outs[a + 1..a + 1 + |rest|])
  {
    hide Step, ReadsClock, Homed;
    var ops := [op] + rest;
    assert run.ops[a + 0] == ops[0];
    forall j | 0 <= j < |rest|
      ensures run.ops[a + 1 + j] == rest[j]
    {
      assert run.ops[a + (1 + j)] == ops[1 + j];
    }
    assert run.outs[a..a + |ops|][1..] == run.outs[a + 1..a + |ops|];
  }

  /** DEL of the remaining arguments. */
  lemma {:induction false} DeletesRun(run: Run, a: nat, args: seq<Value>, count: nat)
    requires Makes(run, a, Deletes(args))
    ensures var n := |Deletes(args)|;
            DelFrom(FlatAt(run, a), args, count)
            == (if AllBulk(args) then Is(Integer(count + Successes(run.outs[a..a + n]))) else Fails(ArgumentNotBulk),
                FlatAt(run, a + n))
    decreases |args|
  {
    hide FlatAt, FaultText;
    if args == [] || !IsBulk(args[0]) {
      assert run.outs[a..a] == [];
    } else {
      hide Makes;
      MakesCons(run, a, Delete(Bulk(args[0])), Deletes(args[1..]));
      KeyStep(run, a);
      DeletesRun(run, a + 1, args[1..], if run.outs[a] == Flag(true) then count + 1 else count);
      AllBulkCons(args);
    }
  }

  lemma AllBulkCons(args: seq<Value>)
    requires args != []
    ensures AllBulk(args) <==> IsBulk(args[0]) && AllBulk(args[1..])
  {
    assert forall i :: 0 < i < |args| ==> args[i] == args[1..][i - 1];
  }

  /** EXISTS of the remaining arguments. */
  lemma {:induction false} LookupsRun(run: Run, a: nat, args: seq<Value>, count: nat, clock: Clock, j: nat)
    requires Makes(run, a, Lookups(args, clock, j))
    ensures var n := |Lookups(args, clock, j)|;
            ExistsFrom(FlatAt(run, a), args, count, clock, j)
            == (if AllBulk(args) then Is(Integer(count + Successes(run.outs[a..a + n]))) else Fails(ArgumentNotBulk),
                FlatAt(run, a + n))
    decreases |args|
  {
    hide FlatAt, FaultText;
    if args == [] || !IsBulk(args[0]) {
      assert run.outs[a..a] == [];
    } else {
      hide Makes;
      MakesCons(run, a, Get(Bulk(args[0]), clock(j)), Lookups(args[1..], clock, j + 1));
      KeyStep(run, a);
      LookupsRun(run, a + 1, args[1..], if run.outs[a].Found? then count + 1 else count, clock, j + 1);
      AllBulkCons(args);
    }
  }

  // ---------------------------------------------------------------- KEYS, DBSIZE and FLUSHALL

  /** The answers of the steps at positions `p`. */
  function OutsAt(run: Run, p: seq<nat>): seq<Out>
    requires forall i :: 0 <= i < |p| ==> p[i] < |run.outs|
  {
    seq(|p|, i requires 0 <= i < |p| => run.outs[p[i]])
  }

  /** The positions from `a` on. */
  function From(a: nat, n: nat): seq<nat> {
    seq(n, i requires 0 <= i < n => a + i)
  }

  lemma MakesWalk(run: Run, a: nat, walk: Walk)
    requires Makes(run, a, Scan(walk))
    ensures Walks(run, walk, From(a, SHARD_COUNT))
    ensures OutsAt(run, From(a, SHARD_COUNT)) == run.outs[a..a + SHARD_COUNT]
  {
    forall i | 0 <= i < SHARD_COUNT
      ensures run.ops[a + i] == walk.At(i)
    {
      assert run.ops[a + i] == Scan(walk)[i];
    }
  }

  lemma KeysReply(run: Run, p: seq<nat>)
    requires Walks(run, KeysWalk, p)
    ensures forall i :: 0 <= i < |p| ==> p[i] < |run.outs| && run.outs[p[i]].Keys?
    ensures ListsIn(OutsAt(run, p)) == Runs.Lists(run, p)
  {
    KeysWalkAnswers(run, p);
  }

  lemma {:induction false} SumReply(run: Run, p: seq<nat>, n: nat)
    requires n <= |p| && forall i :: 0 <= i < |p| ==> p[i] < |run.outs| && run.outs[p[i]].Number?
    ensures SumOf(OutsAt(run, p)[..n]) == Sum(run, p, n)
  {
    if n > 0 {
      SumReply(run, p, n - 1);
      assert OutsAt(run, p)[..n][..n - 1] == OutsAt(run, p)[..n - 1];
    }
  }

  predicate Reads(op: Op) {
    op.ReadKeys? || op.ReadSize?
  }

  lemma {:induction false} ReadsKeep(run: Run, a: nat, n: nat)
    requires run.Valid() && a + n <= |run.ops| && forall t :: a <= t < a + n ==> Reads(run.ops[t])
    ensures run.states[a + n] == run.states[a]
  {
    if n > 0 {
      ReadsKeep(run, a, n - 1);
      var t := a + n - 1;
      assert Step(run.states[t], run.ops[t], run.outs[t], run.states[t + 1]);
    }
  }

  /** Between reads only, what is stored at some moment is stored throughout. */
  lemma ReadsSee(run: Run, a: nat, n: nat)
    requires run.Valid() && 0 < n && a + n <= |run.ops| && forall t :: a <= t < a + n ==> Reads(run.ops[t])
    ensures Always(run, a, a + n - 1) == Sometimes(run, a, a + n - 1) == FlatAt(run, a).Keys
    ensures FlatAt(run, a + n) == FlatAt(run, a)
  {
    ReadsKeep(run, a, n);
    forall t | a <= t < a + n
      ensures run.states[t] == run.states[a]
    {
      ReadsKeep(run, a, t - a);
    }
  }

  lemma ScanReads(run: Run, a: nat, walk: Walk)
    requires Makes(run, a, Scan(walk)) && (walk.KeysWalk? || walk.SizeWalk?)
    ensures forall t :: a <= t < a + SHARD_COUNT ==> Reads(run.ops[t])
  {
    forall t | a <= t < a + SHARD_COUNT
      ensures Reads(run.ops[t])
    {
      assert run.ops[a + (t - a)] == Scan(walk)[t - a];
    }
  }

  lemma KeysRun(run: Run, a: nat)
    requires Makes(run, a, Scan(KeysWalk))
    ensures Enumerates(Concat(ListsIn(run.outs[a..a + SHARD_COUNT])), FlatAt(run, a).Keys)
    ensures FlatAt(run, a + SHARD_COUNT) == FlatAt(run, a)
  {
    hide Step, FlatAt, Concat, Always, Sometimes;
    MakesWalk(run, a, KeysWalk);
    KeysReply(run, From(a, SHARD_COUNT));
    KeysScan(run, From(a, SHARD_COUNT));
    ScanReads(run, a, KeysWalk);
    ReadsSee(run, a, SHARD_COUNT);
  }

  lemma SizesRun(run: Run, a: nat)
    requires Makes(run, a, Scan(SizeWalk))
    ensures SumOf(run.outs[a..a + SHARD_COUNT]) == |FlatAt(run, a)|
    ensures FlatAt(run, a + SHARD_COUNT) == FlatAt(run, a)
  {
    hide Step, FlatAt, Always, Sometimes, SumOf, Sum;
    MakesWalk(run, a, SizeWalk);
    var p := From(a, SHARD_COUNT);
    LenScan(run, p);
    SumReply(run, p, SHARD_COUNT);
    assert OutsAt(run, p)[..SHARD_COUNT] == OutsAt(run, p);
    ScanReads(run, a, SizeWalk);
    ReadsSee(run, a, SHARD_COUNT);
    assert |FlatAt(run, a)| == |FlatAt(run, a).Keys|;
  }

  lemma ClearRun(run: Run, a: nat)
    requires Makes(run, a, Scan(ClearWalk))
    ensures FlatAt(run, a + SHARD_COUNT) == map[]
  {
    hide Step;
    MakesWalk(run, a, ClearWalk);
    var end := a + SHARD_COUNT;
    StatesValid(run, end);
    ScanClears(run, a);
    if k: Key :| k in FlatAt(run, end) {
      StoredIsFlat(run.states[end], k);
      ClearLeavesOnlyNew(run, From(a, SHARD_COUNT), k);
      assert false;
    }
  }

  lemma ScanClears(run: Run, a: nat)
    requires Makes(run, a, Scan(ClearWalk))
    ensures forall t :: a <= t < a + SHARD_COUNT ==> run.ops[t].ClearShard?
  {
    forall t | a <= t < a + SHARD_COUNT
      ensures run.ops[t].ClearShard?
    {
      assert run.ops[a + (t - a)] == Scan(ClearWalk)[t - a];
    }
  }

  // ---------------------------------------------------------------- every command

  /** What the interpreter and the reply come to for a command that goes over its arguments. */
  lemma LoopCommand(m: Items, cmd: Value, clock: Clock, outs: seq<Out>)
    requires Program(cmd, clock) != [] && outs != []
    ensures NameOf(cmd) == Some(DEL) ==>
      Program(cmd, clock) == Deletes(cmd.items[1..]) && Interpret(m, cmd, clock) == DelFrom(m, cmd.items[1..], 0)
    ensures NameOf(cmd) == Some(EXISTS) ==>
      && Program(cmd, clock) == Lookups(cmd.items[1..], clock, 0)
      && Interpret(m, cmd, clock) == ExistsFrom(m, cmd.items[1..], 0, clock, 0)
    ensures NameOf(cmd) in {Some(DEL), Some(EXISTS)} ==>
      Is(ReplyOf(cmd, clock, outs)) == if AllBulk(cmd.items[1..]) then Is(Integer(Successes(outs))) else Fails(ArgumentNotBulk)
  {
    hide ToUpper, FaultText, DelFrom, ExistsFrom;
  }

  /** What they come to for a command that goes over the shards. */
  lemma ScanCommand(m: Items, cmd: Value, clock: Clock, outs: seq<Out>)
    requires Program(cmd, clock) != [] && outs != []
    ensures NameOf(cmd) == Some(KEYS) ==>
      && Program(cmd, clock) == Scan(KeysWalk) && Interpret(m, cmd, clock) == (Reply.Lists(m.Keys), m)
      && ReplyOf(cmd, clock, outs) == Array(BulksOf(Concat(ListsIn(outs))))
    ensures NameOf(cmd) == Some(DBSIZE) ==>
      && Program(cmd, clock) == Scan(SizeWalk) && Interpret(m, cmd, clock) == (Is(Integer(Wrap64(|m|))), m)
      && ReplyOf(cmd, clock, outs) == Integer(Wrap64(SumOf(outs)))
    ensures NameOf(cmd) == Some(FLUSHALL) ==>
      && Program(cmd, clock) == Scan(ClearWalk) && Interpret(m, cmd, clock) == (Is(ReplyOf(cmd, clock, outs)), map[])
  {
    hide ToUpper, FaultText, Scan, Concat, BulksOf, SumOf;
  }

  /** The commands that make an operation. */
  lemma KnownPrograms(cmd: Value, clock: Clock)
    requires Program(cmd, clock) != []
    ensures NameOf(cmd).Some?
    ensures OneKey(NameOf(cmd).value) || NameOf(cmd).value in {DEL, EXISTS, KEYS, DBSIZE, FLUSHALL}
  {
  }

  /** The reply and the store after the command's operations are those of the interpreter. */
  ghost predicate IsCommand(run: Run, a: nat, cmd: Value, clock: Clock)
    requires Makes(run, a, Program(cmd, clock))
  {
    var n := |Program(cmd, clock)|;
    var (r, m) := Interpret(FlatAt(run, a), cmd, clock);
    Fits(r, ReplyOf(cmd, clock, run.outs[a..a + n])) && FlatAt(run, a + n) == m
  }

  lemma KeyCommandRuns(run: Run, a: nat, cmd: Value, clock: Clock)
    requires Makes(run, a, Program(cmd, clock)) && Program(cmd, clock) != []
    requires NameOf(cmd).Some? && OneKey(NameOf(cmd).value)
    ensures IsCommand(run, a, cmd, clock)
  {
    hide FlatAt, Step, Interpret, Program, ReplyOf;
    OneOperation(FlatAt(run, a), cmd, clock);
    assert run.ops[a + 0] == Program(cmd, clock)[0];
    KeyStep(run, a);
    assert run.outs[a..a + 1] == [run.outs[a]];
  }

  lemma LoopCommandRuns(run: Run, a: nat, cmd: Value, clock: Clock)
    requires Makes(run, a, Program(cmd, clock)) && Program(cmd, clock) != []
    requires NameOf(cmd) in {Some(DEL), Some(EXISTS)}
    ensures IsCommand(run, a, cmd, clock)
  {
    hide FlatAt, Step, Interpret, Program, ReplyOf, Deletes, Lookups, ToUpper, FaultText;
    LoopCommand(FlatAt(run, a), cmd, clock, run.outs[a..a + |Program(cmd, clock)|]);
    if NameOf(cmd) == Some(DEL) {
      DeletesRun(run, a, cmd.items[1..], 0);
    } else {
      LookupsRun(run, a, cmd.items[1..], 0, clock, 0);
    }
  }

  lemma ScanCommandRuns(run: Run, a: nat, cmd: Value, clock: Clock)
    requires Makes(run, a, Program(cmd, clock)) && Program(cmd, clock) != []
    requires NameOf(cmd) in {Some(KEYS), Some(DBSIZE), Some(FLUSHALL)}
    ensures IsCommand(run, a, cmd, clock)
  {
    hide FlatAt, Step, Interpret, Program, ReplyOf, Scan, ToUpper, FaultText;
    ScanCommand(FlatAt(run, a), cmd, clock, run.outs[a..a + |Program(cmd, clock)|]);
    if NameOf(cmd) == Some(KEYS) {
      KeysRun(run, a);
    } else if NameOf(cmd) == Some(DBSIZE) {
      SizesRun(run, a);
    } else {
      ClearRun(run, a);
    }
  }

  /**
   A command's operations, with nothing in between, are the command: reply and store are those of the interpreter on
   the single timed map.
   */
  lemma ProgramIsCommand(run: Run, a: nat, cmd: Value, clock: Clock)
    requires Makes(run, a, Program(cmd, clock)) && NameOf(cmd) != Some(INFO)
    ensures IsCommand(run, a, cmd, clock)
  {
    if Program(cmd, clock) == [] {
      hide Interpret, Program, ReplyOf;
      NoOperation(FlatAt(run, a), cmd, clock);
      assert run.outs[a..a] == [];
    } else {
      hide IsCommand, Makes, Program, NameOf;
      KnownPrograms(cmd, clock);
      if OneKey(NameOf(cmd).value) {
        KeyCommandRuns(run, a, cmd, clock);
      } else if NameOf(cmd) in {Some(DEL), Some(EXISTS)} {
        LoopCommandRuns(run, a, cmd, clock);
      } else {
        ScanCommandRuns(run, a, cmd, clock);
      }
    }
  }
}
