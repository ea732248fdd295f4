/**
 The store as 256 maps: each key lives in the one shard its hash selects, every atomic operation touches one shard,
 and together the shards behave as a single timed map.
 */
module Sharding {
  import opened Fnv
  import opened TimedMap

  type Shards = seq<Items>

  /** Each key is stored in the shard its hash selects. */
  ghost predicate Homed(ss: Shards) {
    forall i, k :: 0 <= i < |ss| && k in ss[i] ==> Shard(k) == i
  }

  ghost predicate Valid(ss: Shards) {
    |ss| == SHARD_COUNT && Homed(ss)
  }

  function KeysOf(ss: Shards): set<Key> {
    set i, k | 0 <= i < |ss| && k in ss[i] :: k
  }

  /** The single map that the shards together amount to. */
  ghost function Flat(ss: Shards): (m: Items)
    requires Homed(ss)
    ensures m.Keys == KeysOf(ss)
  {
    map k | k in KeysOf(ss) :: ss[Shard(k)][k]
  }

  lemma FlatLookup(ss: Shards, k: Key)
    requires Valid(ss)
    ensures k in Flat(ss) <==> k in ss[Shard(k)]
    ensures k in Flat(ss) ==> Flat(ss)[k] == ss[Shard(k)][k]
  {
  }

  /** The part of a map that shard `i` holds. */
  ghost function Slice(m: Items, i: nat): Items {
    map k | k in m && Shard(k) == i :: m[k]
  }

  // ---------------------------------------------------------------- atomic steps

  /** One atomic step of the store: the locked shard changes as the operation says, the others not at all. */
  ghost predicate Step(ss: Shards, op: Op, out: Out, ss': Shards) {
    && op.Home() < |ss| == |ss'|
    && OnShard(ss[op.Home()], op, out, ss'[op.Home()])
    && ss' == ss[op.Home() := ss'[op.Home()]]
  }

  /** The same operation on a single timed map. */
  ghost predicate FlatStep(m: Items, op: Op, out: Out, m': Items) {
    if op.OnKey() then
      (m', out) == Apply(m, op)
    else
      && OnShard(Slice(m, op.shard), op, out, Slice(m', op.shard))
      && (forall i: nat :: i != op.shard ==> Slice(m', i) == Slice(m, i))
  }

  lemma StepKeepsValid(ss: Shards, op: Op, out: Out, ss': Shards)
    requires Valid(ss) && Step(ss, op, out, ss')
    ensures Valid(ss')
  {
  }

  /** An operation on a key answers and acts alike on any two maps that agree on that key. */
  lemma ApplyIsLocal(m1: Items, m2: Items, op: Op, k: Key)
    requires op.OnKey()
    requires op.key in m1 <==> op.key in m2
    requires op.key in m1 ==> m1[op.key] == m2[op.key]
    ensures Apply(m1, op).1 == Apply(m2, op).1
    ensures op.key in Apply(m1, op).0 <==> op.key in Apply(m2, op).0
    ensures op.key in Apply(m1, op).0 ==> Apply(m1, op).0[op.key] == Apply(m2, op).0[op.key]
    ensures k != op.key ==> (k in Apply(m1, op).0 <==> k in m1) && (k in m1 ==> Apply(m1, op).0[k] == m1[k])
  {
  }

  lemma KeyStepRefinesFlat(ss: Shards, op: Op, out: Out, ss': Shards)
    requires Valid(ss) && Valid(ss') && Step(ss, op, out, ss') && op.OnKey()
    ensures (Flat(ss'), out) == Apply(Flat(ss), op)
  {
    hide Apply, Shard;
    var m, local := Flat(ss), ss[op.Home()];
    var m' := Apply(m, op).0;
    FlatLookup(ss, op.key);
    forall k
      ensures k in Flat(ss') <==> k in m'
      ensures k in m' ==> Flat(ss')[k] == m'[k]
    {
      FlatLookup(ss, k);
      FlatLookup(ss', k);
      ApplyIsLocal(m, local, op, k);
      ApplyIsLocal(local, m, op, k);
    }
    assert Flat(ss') == m';
    ApplyIsLocal(m, local, op, op.key);
  }

  lemma ShardStepRefinesFlat(ss: Shards, op: Op, out: Out, ss': Shards)
    requires Valid(ss) && Valid(ss') && Step(ss, op, out, ss') && !op.OnKey()
    ensures FlatStep(Flat(ss), op, out, Flat(ss'))
  {
    hide Slice, Flat, OnShard, Apply, Homed;
    forall i: nat
      ensures Slice(Flat(ss'), i) == if i < SHARD_COUNT then ss'[i] else map[]
      ensures Slice(Flat(ss), i) == if i < SHARD_COUNT then ss[i] else map[]
    {
      SliceOfFlat(ss, i);
      SliceOfFlat(ss', i);
    }
  }

  /** Sharding is invisible: every atomic step of the 256 shards is the same operation on one timed map. */
  lemma StepRefinesFlat(ss: Shards, op: Op, out: Out, ss': Shards)
    requires Valid(ss) && Step(ss, op, out, ss')
    ensures Valid(ss') && FlatStep(Flat(ss), op, out, Flat(ss'))
  {
    hide Apply, OnShard, Flat;
    StepKeepsValid(ss, op, out, ss');
    if op.OnKey() {
      KeyStepRefinesFlat(ss, op, out, ss');
    } else {
      ShardStepRefinesFlat(ss, op, out, ss');
    }
  }

  lemma SliceOfFlat(ss: Shards, i: nat)
    requires Valid(ss)
    ensures Slice(Flat(ss), i) == if i < SHARD_COUNT then ss[i] else map[]
  {
  }

  // ---------------------------------------------------------------- sizes and key lists

  function TotalSize(ss: Shards): nat {
    if ss == [] then 0 else TotalSize(ss[..|ss| - 1]) + |ss[|ss| - 1]|
  }

  function Concat(lists: seq<seq<Key>>): seq<Key> {
    if lists == [] then [] else Concat(lists[..|lists| - 1]) + lists[|lists| - 1]
  }

  lemma KeysOfSplit(ss: Shards)
    requires Homed(ss) && ss != []
    ensures Homed(ss[..|ss| - 1])
    ensures KeysOf(ss) == KeysOf(ss[..|ss| - 1]) + ss[|ss| - 1].Keys
    ensures KeysOf(ss[..|ss| - 1]) !! ss[|ss| - 1].Keys
  {
    var n := |ss| - 1;
    forall k
      ensures k in KeysOf(ss) <==> k in KeysOf(ss[..n]) || k in ss[n]
    {
      if k in KeysOf(ss) {
        var i :| 0 <= i < |ss| && k in ss[i];
        assert i < n ==> k in ss[..n][i];
      }
      if k in KeysOf(ss[..n]) {
        var i :| 0 <= i < n && k in ss[..n][i];
        assert k in ss[i];
      }
    }
    forall k | k in KeysOf(ss[..n])
      ensures k !in ss[n]
    {
      var i :| 0 <= i < n && k in ss[..n][i];
      assert Shard(k) == i;
      assert k in ss[n] ==> Shard(k) == n;
    }
  }

  /** The shard sizes add up to the size of the single map. */
  lemma {:induction false} SizesAddUp(ss: Shards)
    requires Homed(ss)
    ensures TotalSize(ss) == |KeysOf(ss)| == |Flat(ss)|
  {
    if ss == [] {
      assert KeysOf(ss) == {};
    } else {
      KeysOfSplit(ss);
      SizesAddUp(ss[..|ss| - 1]);
    }
    assert |Flat(ss)| == |Flat(ss).Keys|;
  }

  /** The shards' key lists, one after another, list the keys of the single map, each once. */
  lemma {:induction false} ListsAddUp(ss: Shards, lists: seq<seq<Key>>)
    requires Homed(ss) && |lists| == |ss|
    requires forall i :: 0 <= i < |ss| ==> Enumerates(lists[i], ss[i].Keys)
    ensures Enumerates(Concat(lists), KeysOf(ss))
    ensures |Concat(lists)| == |Flat(ss)|
  {
    if ss == [] {
      assert KeysOf(ss) == {};
    } else {
      var n := |ss| - 1;
      KeysOfSplit(ss);
      ListsAddUp(ss[..n], lists[..n]);
      ConcatTwo(Concat(lists[..n]), KeysOf(ss[..n]), lists[n], ss[n].Keys);
    }
    EnumerationSize(Concat(lists), KeysOf(ss));
    assert |Flat(ss)| == |Flat(ss).Keys|;
  }

  lemma ConcatTwo(a: seq<Key>, s: set<Key>, b: seq<Key>, t: set<Key>)
    requires Enumerates(a, s) && Enumerates(b, t) && s !! t
    ensures Enumerates(a + b, s + t)
  {
    forall i, j | 0 <= i < j < |a + b|
      ensures (a + b)[i] != (a + b)[j]
    {
      if i < |a| <= j {
        assert a[i] in a && b[j - |a|] in b;
      }
    }
  }
}
