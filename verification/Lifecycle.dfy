/**
 Starting and stopping the background cleanup, as a state machine whose steps are the regions between lock and unlock
 of Start and Stop, the steps of a Stop at the wait group, and the steps of every live cleanup loop.
 */
module Lifecycle {

  /** Where a cleanup loop is: about to select, selecting on the stop channel it read, or cleaning up. */
  datatype Loop = Top | Selecting(channel: nat) | Cleaning

  /**
   The manager: `closes[c]` counts the closings of stop channel `c`, and `wg` is the wait group's counter. A loop is
   named by the channel created with it. A Stop that has closed the channel is counted in `signalled` until it looks
   at the wait group, in `asleep` while the wait group holds it, and in `woken` between the counter reaching zero and
   its own next step.
   */
  datatype State = State(running: bool, stopCh: nat, closes: seq<nat>, wg: int, loops: map<nat, Loop>,
                         signalled: nat, asleep: nat, woken: nat, panicked: bool)
  {
    /** The Stops that have closed the channel and not returned. */
    function Waiting(): nat {
      signalled + asleep + woken
    }
  }

  datatype Action =
    | Start
    | StopSignal
    | StopSleep
    | StopReturn(slept: bool)
    | StopPanic
    | LoopSelect(id: nat)
    | LoopTick(id: nat)
    | LoopCleaned(id: nat)
    | LoopExit(id: nat)

  /** A new manager has a stop channel but no loop. */
  const INITIAL: State := State(false, 0, [0], 0, map[], 0, 0, 0, false)

  /** A wait group that has let its waiters go panics if it counts again before one of them is awake. */
  predicate Enabled(s: State, a: Action) {
    && !s.panicked
    && match a
       case Start => true
       case StopSignal => s.stopCh < |s.closes|
       case StopSleep => s.signalled > 0 && s.wg != 0
       case StopReturn(slept) => (if slept then s.woken else s.signalled) > 0 && s.wg == 0
       case StopPanic => s.woken > 0 && s.wg != 0
       case LoopSelect(id) => id in s.loops && s.loops[id].Top?
       case LoopTick(id) => id in s.loops && s.loops[id].Selecting?
       case LoopCleaned(id) => id in s.loops && s.loops[id].Cleaning?
       case LoopExit(id) =>
         && id in s.loops && s.loops[id].Selecting?
         && s.loops[id].channel < |s.closes| && s.closes[s.loops[id].channel] > 0
  }

  function Next(s: State, a: Action): State
    requires Enabled(s, a)
  {
    match a
    case Start =>
      if s.running then s
      else s.(running := true, stopCh := |s.closes|, closes := s.closes + [0], wg := s.wg + 1,
              loops := s.loops[|s.closes| := Top])
    case StopSignal =>
      if !s.running then s
      else s.(running := false, closes := s.closes[s.stopCh := s.closes[s.stopCh] + 1], signalled := s.signalled + 1)
    case StopSleep => s.(signalled := s.signalled - 1, asleep := s.asleep + 1)
    case StopReturn(slept) => if slept then s.(woken := s.woken - 1) else s.(signalled := s.signalled - 1)
    case StopPanic => s.(panicked := true)
    case LoopSelect(id) => s.(loops := s.loops[id := Selecting(s.stopCh)])
    case LoopTick(id) => s.(loops := s.loops[id := Cleaning])
    case LoopCleaned(id) => s.(loops := s.loops[id := Top])
    case LoopExit(id) =>
      s.(loops := s.loops - {id}, wg := s.wg - 1, asleep := if s.wg == 1 then 0 else s.asleep,
         woken := if s.wg == 1 then s.woken + s.asleep else s.woken)
  }

  /** Any interleaving of any number of callers and loops, from a new manager. */
  datatype History = History(states: seq<State>, actions: seq<Action>)
  {
    predicate Valid() {
      && |states| == |actions| + 1 && states[0] == INITIAL
      && forall i :: 0 <= i < |actions| ==> Enabled(states[i], actions[i]) && states[i + 1] == Next(states[i], actions[i])
    }

    function Last(): State
      requires states != []
    {
      states[|states| - 1]
    }

    /** The history with one more step taken. */
    function Then(a: Action): (h: History)
      requires Valid() && Enabled(Last(), a)
      ensures h.Valid() && h.Last() == Next(Last(), a) && h.actions == actions + [a]
    {
      History(states + [Next(Last(), a)], actions + [a])
    }

    /** The second history is the first with one more step taken. */
    predicate GoesOn(h: History, a: Action) {
      Valid() && Enabled(Last(), a) && h == Then(a)
    }

    function Prefix(n: nat): (h: History)
      requires Valid() && n <= |actions|
      ensures h.Valid() && h.Last() == states[n]
    {
      History(states[..n + 1], actions[..n])
    }
  }

  // ---------------------------------------------------------------- every interleaving

  predicate Sound(s: State) {
    && |s.closes| == s.stopCh + 1
    && (forall c :: 0 <= c < |s.closes| ==> s.closes[c] <= 1)
    && s.wg == |s.loops|
    && (forall id :: id in s.loops ==> id <= s.stopCh)
    && (forall id :: id in s.loops && s.loops[id].Selecting? ==> id <= s.loops[id].channel <= s.stopCh)
    && (s.running ==> s.closes[s.stopCh] == 0 && s.stopCh in s.loops)
  }

  lemma NextSound(s: State, a: Action)
    requires Sound(s) && Enabled(s, a)
    ensures Sound(Next(s, a))
  {
  }

  /**
   In every interleaving no stop channel is closed twice, the wait group counts the live loops, and while the manager
   is running its channel is open and the loop started with it is live.
   */
  lemma {:induction false} AlwaysSound(h: History, i: nat)
    requires h.Valid() && i < |h.states|
    ensures Sound(h.states[i])
  {
    if i > 0 {
      AlwaysSound(h, i - 1);
      assert h.states[i - 1 + 1] == Next(h.states[i - 1], h.actions[i - 1]);
      NextSound(h.states[i - 1], h.actions[i - 1]);
    }
  }

  /**
   A Stop overtaken by a Start does not return before somebody calls Stop again: in any history, from a moment when
   the manager runs while Stops wait, none of them returns until the next StopSignal.
   */
  lemma {:induction false} OvertakenStopWaits(h: History, i: nat, j: nat)
    requires h.Valid() && i <= j < |h.states| && h.states[i].running
    requires forall t :: i <= t < j ==> !h.actions[t].StopSignal?
    ensures h.states[j].running && h.states[j].Waiting() == h.states[i].Waiting()
    ensures forall t :: i <= t < j ==> !h.actions[t].StopReturn?
  {
    hide Sound, Enabled, Next, History.Valid;
    if i < j {
      StepAt(h, j - 1);
      OvertakenStopWaits(h, i, j - 1);
      AlwaysSound(h, j - 1);
      RunningStep(h.states[j - 1], h.actions[j - 1]);
    }
  }

  lemma StepAt(h: History, i: nat)
    requires h.Valid() && i < |h.states|
    ensures |h.states| == |h.actions| + 1 && h.states[0] == INITIAL
    ensures i < |h.actions| ==>
      Enabled(h.states[i], h.actions[i]) && h.states[i + 1] == Next(h.states[i], h.actions[i])
  {
  }

  lemma RunningStep(s: State, a: Action)
    requires Sound(s) && Enabled(s, a) && s.running && !a.StopSignal?
    ensures Next(s, a).running && Next(s, a).Waiting() == s.Waiting() && !a.StopReturn?
  {
    assert s.stopCh in s.loops && s.wg != 0;
  }

  // ---------------------------------------------------------------- the rounds of a loop

  /** The step is one of this loop. */
  predicate Moves(a: Action, id: nat) {
    (a.LoopSelect? || a.LoopTick? || a.LoopCleaned? || a.LoopExit?) && a.id == id
  }

  /** The step is the Start that made the loop. */
  predicate Makes(h: History, t: nat, id: nat)
    requires h.Valid()
  {
    t < |h.actions| && h.actions[t].Start? && !h.states[t].running && h.states[t + 1].stopCh == id
  }

  /** What a step does to a loop that is live after it. */
  lemma StepMoves(s: State, a: Action, id: nat)
    requires Sound(s) && Enabled(s, a) && id in Next(s, a).loops
    ensures !Moves(a, id) && id in s.loops ==> Next(s, a).loops[id] == s.loops[id]
    ensures id !in s.loops ==> a.Start? && !s.running && Next(s, a).stopCh == id && Next(s, a).loops[id] == Top
    ensures a == LoopSelect(id) ==> Next(s, a).loops[id] == Selecting(s.stopCh)
    ensures a == LoopTick(id) ==> Next(s, a).loops[id] == Cleaning
    ensures a == LoopCleaned(id) ==> Next(s, a).loops[id] == Top
    ensures a != LoopExit(id)
  {
  }

  /**
   Where a live loop is tells its last step, at `t`: it selects on the channel that was the manager's when it last came
   to its select, it cleans up only if a tick has won that select, and it is at the top if it is new or has just made
   a cleanup pass.
   */
  lemma {:induction false} LastMove(h: History, i: nat, id: nat) returns (t: nat)
    requires h.Valid() && i < |h.states| && id in h.states[i].loops
    ensures t < i && forall u :: t < u < i ==> !Moves(h.actions[u], id)
    ensures match h.states[i].loops[id]
            case Top => h.actions[t] == LoopCleaned(id) || Makes(h, t, id)
            case Selecting(c) => h.actions[t] == LoopSelect(id) && c == h.states[t].stopCh
            case Cleaning => h.actions[t] == LoopTick(id)
  {
    hide Sound, Enabled, Next;
    assert i > 0;
    var s, a := h.states[i - 1], h.actions[i - 1];
    assert h.states[i - 1 + 1] == Next(s, a) && Enabled(s, a);
    AlwaysSound(h, i - 1);
    StepMoves(s, a, id);
    if id in s.loops && !Moves(a, id) {
      t := LastMove(h, i - 1, id);
    } else {
      t := i - 1;
    }
  }

  lemma MoveNeeds(s: State, a: Action, id: nat)
    requires Enabled(s, a) && Moves(a, id)
    ensures id in s.loops
    ensures a == LoopSelect(id) ==> s.loops[id].Top?
    ensures a == LoopTick(id) || a == LoopExit(id) ==> s.loops[id].Selecting?
    ensures a == LoopCleaned(id) ==> s.loops[id].Cleaning?
  {
  }

  /** The last step of a loop before its step at `j`, which tells what that one can be. */
  lemma MoveBefore(h: History, j: nat, id: nat) returns (t: nat)
    requires h.Valid() && j < |h.actions| && Moves(h.actions[j], id)
    ensures t < j && forall u :: t < u < j ==> !Moves(h.actions[u], id)
    ensures match h.actions[j]
            case LoopSelect(_) => h.actions[t] == LoopCleaned(id) || Makes(h, t, id)
            case LoopCleaned(_) => h.actions[t] == LoopTick(id)
            case _ => h.actions[t] == LoopSelect(id)
  {
    hide Sound, Enabled, Next;
    MoveNeeds(h.states[j], h.actions[j], id);
    t := LastMove(h, j, id);
  }

  /** A loop is made before it takes a step. */
  lemma MadeBefore(h: History, i: nat, t: nat, id: nat)
    requires h.Valid() && i < |h.actions| && t < |h.actions| && Moves(h.actions[i], id) && Makes(h, t, id)
    ensures t < i
  {
    hide Enabled, Next;
    StepAt(h, i);
    StepAt(h, t);
    MoveNeeds(h.states[i], h.actions[i], id);
    AlwaysSound(h, i);
    AlwaysSound(h, t);
    if i <= t {
      ChannelsGrow(h, i, t);
      StartsNew(h.states[t]);
    }
  }

  lemma StartsNew(s: State)
    requires Sound(s) && !s.running && !s.panicked
    ensures Next(s, Start).stopCh > s.stopCh
  {
  }

  lemma {:induction false} ChannelsGrow(h: History, i: nat, j: nat)
    requires h.Valid() && i <= j < |h.states|
    ensures h.states[i].stopCh <= h.states[j].stopCh
  {
    hide History.Valid, Enabled, Sound, Next;
    if i < j {
      ChannelsGrow(h, i, j - 1);
      AlwaysSound(h, j - 1);
      StepAt(h, j - 1);
      ChannelGrows(h.states[j - 1], h.actions[j - 1]);
    }
  }

  lemma ChannelGrows(s: State, a: Action)
    requires Sound(s) && Enabled(s, a)
    ensures s.stopCh <= Next(s, a).stopCh
  {
  }

  /** After a tick a loop comes to its select again only through exactly one cleanup pass, and cannot leave before. */
  lemma TickCleans(h: History, i: nat, j: nat, id: nat) returns (t: nat)
    requires h.Valid() && i < j < |h.actions| && h.actions[i] == LoopTick(id)
    requires h.actions[j] in {LoopSelect(id), LoopExit(id)}
    requires forall u :: i < u < j ==> h.actions[u] !in {LoopSelect(id), LoopExit(id)}
    ensures h.actions[j] == LoopSelect(id) && i < t < j && h.actions[t] == LoopCleaned(id)
    ensures forall u :: i < u < j && h.actions[u] == LoopCleaned(id) ==> u == t
  {
    hide History.Valid;
    t := MoveBefore(h, j, id);
    if Makes(h, t, id) {
      MadeBefore(h, i, t, id);
    }
    forall u | i < u < j && h.actions[u] == LoopCleaned(id)
      ensures u == t
    {
      if u < t {
        var v := MoveBefore(h, t, id);
        var w := MoveBefore(h, v, id);
      }
    }
  }

  // ---------------------------------------------------------------- what callers see

  /** What the callers of Start and Stop do and see; whether a Stop slept before it returned they do not. */
  datatype Call = Starts | Stops | Returns

  function CallOf(a: Action): seq<Call> {
    match a
    case Start => [Starts]
    case StopSignal => [Stops]
    case StopReturn(_) => [Returns]
    case _ => []
  }

  function CallsOf(actions: seq<Action>): seq<Call> {
    if actions == [] then [] else CallsOf(actions[..|actions| - 1]) + CallOf(actions[|actions| - 1])
  }

  /** Whether the manager runs after the calls, and how many Stops with something to stop have not returned. */
  function Tally(calls: seq<Call>): (bool, int) {
    if calls == [] then (false, 0)
    else
      var (running, waiting) := Tally(calls[..|calls| - 1]);
      match calls[|calls| - 1]
      case Starts => (true, waiting)
      case Stops => (false, if running then waiting + 1 else waiting)
      case Returns => (running, waiting - 1)
  }

  /** No Start takes effect while a Stop waits. */
  predicate Apart(calls: seq<Call>) {
    calls == [] ||
    var n := |calls| - 1;
    Apart(calls[..n]) && (calls[n] == Starts && !Tally(calls[..n]).0 ==> Tally(calls[..n]).1 == 0)
  }

  /** Start and Stop are called one after another: no call begins while a Stop waits. */
  predicate Serialised(calls: seq<Call>) {
    calls == [] ||
    var n := |calls| - 1;
    Serialised(calls[..n]) && (calls[n] != Returns ==> Tally(calls[..n]).1 == 0)
  }

  lemma {:induction false} SerialisedIsApart(calls: seq<Call>)
    requires Serialised(calls)
    ensures Apart(calls)
  {
    if calls != [] {
      SerialisedIsApart(calls[..|calls| - 1]);
    }
  }

  lemma {:induction false} ApartPrefix(calls: seq<Call>, n: nat)
    requires Apart(calls) && n <= |calls|
    ensures Apart(calls[..n])
  {
    if n == |calls| {
      assert calls[..n] == calls;
    } else {
      ApartPrefix(calls[..|calls| - 1], n);
      assert calls[..|calls| - 1][..n] == calls[..n];
    }
  }

  lemma CallsOneMore(actions: seq<Action>, a: Action)
    ensures CallsOf(actions + [a]) == CallsOf(actions) + CallOf(a)
    ensures CallOf(a) == [] ==> CallsOf(actions + [a]) == CallsOf(actions)
  {
    assert (actions + [a])[..|actions|] == actions;
  }

  lemma CallOneMore(calls: seq<Call>, c: Call)
    ensures Apart(calls + [c]) <==> Apart(calls) && (c == Starts && !Tally(calls).0 ==> Tally(calls).1 == 0)
    ensures Tally(calls + [c]) == match c
                                  case Starts => (true, Tally(calls).1)
                                  case Stops => (false, if Tally(calls).0 then Tally(calls).1 + 1 else Tally(calls).1)
                                  case Returns => (Tally(calls).0, Tally(calls).1 - 1)
  {
    assert (calls + [c])[..|calls|] == calls;
  }

  /** The Start takes effect although a Stop still waits. */
  predicate Overtakes(s: State, a: Action) {
    a.Start? && !s.running && s.Waiting() > 0
  }

  /** The calls of a history's first `i` steps. */
  function Calls(h: History, i: nat): seq<Call>
    requires i <= |h.actions|
  {
    CallsOf(h.actions[..i])
  }

  lemma CallsStep(h: History, i: nat)
    requires i < |h.actions|
    ensures Calls(h, 0) == []
    ensures Calls(h, i + 1) == Calls(h, i) + CallOf(h.actions[i])
    ensures CallOf(h.actions[i]) == [] ==> Calls(h, i + 1) == Calls(h, i)
  {
    assert h.actions[..i + 1] == h.actions[..i] + [h.actions[i]];
    CallsOneMore(h.actions[..i], h.actions[i]);
  }

  lemma {:induction false} CallsPrefix(h: History, i: nat, n: nat)
    requires i <= n <= |h.actions|
    ensures Calls(h, i) <= Calls(h, n)
    decreases n
  {
    if i < n {
      CallsPrefix(h, i, n - 1);
      CallsStep(h, n - 1);
    }
  }

  /** The calls alone tell whether the manager runs, how many Stops wait, and whether a Start overtook one. */
  lemma {:induction false} CallsTell(h: History, i: nat)
    requires h.Valid() && i < |h.states|
    ensures Tally(Calls(h, i)) == (h.states[i].running, h.states[i].Waiting())
    ensures Apart(Calls(h, i)) <==> forall j :: 0 <= j < i ==> !Overtakes(h.states[j], h.actions[j])
  {
    hide CallsOf, CallOf, Enabled, Next, Apart, Tally, Calls, Overtakes, History.Valid;
    if i == 0 {
      NoCalls(h);
    } else {
      StepAt(h, i - 1);
      CallsTell(h, i - 1);
      CallsStep(h, i - 1);
      StepTells(Calls(h, i - 1), h.states[i - 1], h.actions[i - 1]);
    }
  }

  lemma NoCalls(h: History)
    requires h.Valid()
    ensures Apart(Calls(h, 0)) && Tally(Calls(h, 0)) == (h.states[0].running, h.states[0].Waiting())
  {
    assert h.actions[..0] == [];
  }

  lemma StepTells(calls: seq<Call>, s: State, a: Action)
    requires Enabled(s, a) && Tally(calls) == (s.running, s.Waiting())
    ensures Tally(calls + CallOf(a)) == (Next(s, a).running, Next(s, a).Waiting())
    ensures Apart(calls + CallOf(a)) <==> Apart(calls) && !Overtakes(s, a)
  {
    hide Apart, Tally;
    if CallOf(a) == [] {
      assert calls + [] == calls;
    } else {
      CallOneMore(calls, CallOf(a)[0]);
      assert CallOf(a) == [CallOf(a)[0]];
    }
  }

  // ---------------------------------------------------------------- calls kept apart

  predicate Orderly(s: State) {
    && Sound(s) && !s.panicked && s.Waiting() <= 1
    && (forall id :: id in s.loops ==> id == s.stopCh)
    && (s.running ==> s.Waiting() == 0)
    && (!s.running && s.Waiting() == 0 ==> s.loops == map[])
    && (s.Waiting() > 0 ==> s.closes[s.stopCh] == 1)
    && (s.woken > 0 ==> s.loops == map[])
    && (s.asleep > 0 ==> s.loops != map[])
  }

  lemma NextOrderly(s: State, a: Action)
    requires Orderly(s) && Enabled(s, a) && !Overtakes(s, a)
    ensures Orderly(Next(s, a))
  {
    NextSound(s, a);
    if a.Start? || a.StopSignal? {
      CallOrderly(s, a);
    } else {
      StepOrderly(s, a);
    }
  }

  lemma CallOrderly(s: State, a: Action)
    requires Orderly(s) && Enabled(s, a) && !Overtakes(s, a) && (a.Start? || a.StopSignal?)
    ensures Sound(Next(s, a)) ==> Orderly(Next(s, a))
  {
  }

  lemma StepOrderly(s: State, a: Action)
    requires Orderly(s) && Enabled(s, a) && !a.Start? && !a.StopSignal?
    ensures Sound(Next(s, a)) ==> Orderly(Next(s, a))
  {
    OrderlyLoops(s);
  }

  lemma OrderlyLoops(s: State)
    requires Orderly(s)
    ensures |s.loops| <= 1
    ensures s.loops != map[] ==> s.loops.Keys == {s.stopCh} && s.wg == 1
  {
    if s.loops != map[] {
      assert s.loops.Keys == {s.stopCh};
      assert |s.loops| == |s.loops.Keys|;
    }
  }

  lemma {:induction false} OrderlyStates(h: History, i: nat)
    requires h.Valid() && i < |h.states|
    requires forall j :: 0 <= j < i ==> !Overtakes(h.states[j], h.actions[j])
    ensures Orderly(h.states[i])
  {
    hide Orderly, Overtakes;
    if i == 0 {
      InitialOrderly();
    } else {
      OrderlyStates(h, i - 1);
      assert h.states[i - 1 + 1] == Next(h.states[i - 1], h.actions[i - 1]);
      NextOrderly(h.states[i - 1], h.actions[i - 1]);
    }
  }

  lemma InitialOrderly()
    ensures Orderly(INITIAL)
  {
  }

  /** As long as no Start overtook a Stop, at most one loop is live and nothing has panicked. */
  lemma ApartOrderly(h: History, i: nat)
    requires h.Valid() && i < |h.states| && Apart(Calls(h, i))
    ensures Orderly(h.states[i]) && |h.states[i].loops| <= 1
  {
    CallsTell(h, i);
    OrderlyStates(h, i);
    OrderlyLoops(h.states[i]);
  }

  /** With calls kept apart no loop is live once Stop has returned, or has found nothing to stop or to wait for. */
  lemma StopLeavesNoLoop(h: History, i: nat)
    requires h.Valid() && i < |h.actions| && Apart(Calls(h, i))
    requires h.actions[i].StopReturn? || (h.actions[i].StopSignal? && !h.states[i].running && h.states[i].Waiting() == 0)
    ensures h.states[i + 1].loops == map[] && !h.states[i + 1].running
  {
    ApartOrderly(h, i);
    assert h.states[i + 1] == Next(h.states[i], h.actions[i]);
  }

  /** The steps a loop still takes before it leaves, once its channel is closed and no tick wins the select again. */
  function StepsToExit(l: Loop): nat {
    match l
    case Selecting(_) => 1
    case Top => 2
    case Cleaning => 3
  }

  /** The loop has a step that makes it leave or brings it closer to leaving. */
  predicate NearsExit(s: State, id: nat)
    requires id in s.loops
  {
    match s.loops[id]
    case Selecting(_) => Enabled(s, LoopExit(id))
    case Top => Enabled(s, LoopSelect(id)) && StepsToExit(Next(s, LoopSelect(id)).loops[id]) < StepsToExit(s.loops[id])
    case Cleaning => Enabled(s, LoopCleaned(id)) && StepsToExit(Next(s, LoopCleaned(id)).loops[id]) < StepsToExit(s.loops[id])
  }

  /** A waiting Stop is never stuck: it can return, or each live loop has a step that brings it closer to leaving. */
  lemma StopIsNotStuck(h: History, i: nat)
    requires h.Valid() && i < |h.states| && Apart(Calls(h, i)) && h.states[i].Waiting() > 0
    ensures var s := h.states[i];
            if s.loops == map[] then Enabled(s, StopReturn(false)) || Enabled(s, StopReturn(true))
            else forall id :: id in s.loops ==> NearsExit(s, id)
  {
    hide NearsExit, Orderly, Apart, Calls, Enabled;
    ApartOrderly(h, i);
    if h.states[i].loops == map[] {
      WaitingIsNotStuck(h.states[i]);
    }
    forall id | id in h.states[i].loops
      ensures NearsExit(h.states[i], id)
    {
      LoopNearsExit(h.states[i], id);
    }
  }

  lemma WaitingIsNotStuck(s: State)
    requires Orderly(s) && s.Waiting() > 0 && s.loops == map[]
    ensures Enabled(s, StopReturn(false)) || Enabled(s, StopReturn(true))
  {
  }

  lemma LoopNearsExit(s: State, id: nat)
    requires Orderly(s) && s.Waiting() > 0 && id in s.loops
    ensures NearsExit(s, id)
  {
  }

  // ---------------------------------------------------------------- a Start that overtakes a Stop

  /** The first step at which a Start overtakes a Stop. */
  lemma {:induction false} FirstOvertaking(h: History, i: nat) returns (p: nat)
    requires h.Valid() && i < |h.states| && !Apart(Calls(h, i))
    ensures p < i && Apart(Calls(h, p)) && Overtakes(h.states[p], h.actions[p])
  {
    hide Calls, Apart, Overtakes, Tally;
    CallsTell(h, i);
    if i > 0 && Apart(Calls(h, i - 1)) {
      CallsTell(h, i - 1);
      p := i - 1;
    } else {
      assert i > 0;
      p := FirstOvertaking(h, i - 1);
    }
  }

  /** With the same calls, up to a moment when a Stop waits, the loop may well be live still. */
  lemma {:induction false} LoopMayLinger(h: History, n: nat) returns (h': History)
    requires h.Valid() && n < |h.states| && Apart(Calls(h, n)) && !h.states[n].running && h.states[n].Waiting() > 0
    ensures h'.Valid() && CallsOf(h'.actions) == Calls(h, n)
    ensures Orderly(h'.Last()) && !h'.Last().running && h'.Last().Waiting() > 0 && h'.Last().loops != map[]
  {
    hide Calls, CallsOf, Apart, Orderly, Enabled, Next;
    ApartOrderly(h, n);
    assert n > 0;
    var s, a := h.states[n - 1], h.actions[n - 1];
    ApartBefore(h, n - 1);
    assert h.states[n - 1 + 1] == Next(s, a);
    CallsStep(h, n - 1);
    BeforeWaiting(s, a);
    if a.StopSignal? && s.running {
      h' := h.Prefix(n);
      CallsAre(h, n);
    } else {
      h' := LoopMayLinger(h, n - 1);
      if a.StopSignal? {
        IdleStop(h'.Last());
        CallsOneMore(h'.actions, StopSignal);
        h' := h'.Then(StopSignal);
      }
    }
  }

  lemma ApartBefore(h: History, i: nat)
    requires h.Valid() && i < |h.actions| && Apart(Calls(h, i + 1))
    ensures Apart(Calls(h, i)) && Orderly(h.states[i])
  {
    hide Calls, Apart, Orderly;
    CallsPrefix(h, i, i + 1);
    ApartPrefix(Calls(h, i + 1), |Calls(h, i)|);
    assert Calls(h, i + 1)[..|Calls(h, i)|] == Calls(h, i);
    ApartOrderly(h, i);
  }

  /** How a state in which a Stop waits can come about. */
  lemma BeforeWaiting(s: State, a: Action)
    requires Orderly(s) && Enabled(s, a) && Orderly(Next(s, a)) && !Next(s, a).running && Next(s, a).Waiting() > 0
    ensures a.StopSignal? && s.running ==> Next(s, a).loops != map[]
    ensures !(a.StopSignal? && s.running) ==> !s.running && s.Waiting() > 0 && (a.StopSignal? || CallOf(a) == [])
  {
  }

  lemma IdleStop(s: State)
    requires Orderly(s) && !s.running
    ensures Enabled(s, StopSignal) && Next(s, StopSignal) == s
  {
  }

  lemma CallsAre(h: History, n: nat)
    requires h.Valid() && n <= |h.actions|
    ensures Calls(h, n) == CallsOf(h.Prefix(n).actions)
    ensures n == |h.actions| ==> Calls(h, n) == CallsOf(h.actions)
  {
    assert n == |h.actions| ==> h.actions[..n] == h.actions;
  }

  /** If a Start overtakes a Stop, a history with the same calls up to it gets there with a loop still live. */
  lemma Overtaken(h: History) returns (h': History)
    requires h.Valid() && !Apart(CallsOf(h.actions))
    ensures h'.Valid() && CallsOf(h'.actions) + [Starts] <= CallsOf(h.actions)
    ensures Orderly(h'.Last()) && !h'.Last().running && h'.Last().Waiting() > 0 && h'.Last().loops != map[]
  {
    hide Calls, Apart, Orderly;
    CallsAre(h, |h.actions|);
    var p := FirstOvertaking(h, |h.actions|);
    h' := LoopMayLinger(h, p);
    CallsStep(h, p);
    CallsPrefix(h, p + 1, |h.actions|);
  }

  /** The overtaking Start leaves two loops live. */
  lemma SecondLoop(h: History) returns (h': History)
    requires h.Valid() && Orderly(h.Last()) && !h.Last().running && h.Last().loops != map[]
    ensures h'.Valid() && CallsOf(h'.actions) == CallsOf(h.actions) + [Starts] && |h'.Last().loops| > 1
  {
    OrderlyLoops(h.Last());
    h' := h.Then(Start);
    CallsOneMore(h.actions, Start);
  }

  lemma OrderlyStep(h: History, a: Action) returns (h': History)
    requires h.Valid() && Orderly(h.Last()) && Enabled(h.Last(), a) && !Overtakes(h.Last(), a)
    ensures h'.Valid() && h'.Last() == Next(h.Last(), a) && Orderly(h'.Last())
    ensures CallsOf(h'.actions) == CallsOf(h.actions) + CallOf(a)
    ensures CallOf(a) == [] ==> CallsOf(h'.actions) == CallsOf(h.actions)
  {
    hide Enabled, Next, Orderly, Overtakes;
    NextOrderly(h.Last(), a);
    CallsOneMore(h.actions, a);
    h' := h.Then(a);
  }

  /** Only the loop takes steps until it selects. */
  lemma LoopSelects(h: History) returns (h': History)
    requires h.Valid() && Orderly(h.Last()) && !h.Last().running && h.Last().Waiting() > 0 && h.Last().loops != map[]
    ensures h'.Valid() && CallsOf(h'.actions) == CallsOf(h.actions)
    ensures var s := h'.Last();
            Orderly(s) && !s.running && s.Waiting() > 0 && s.stopCh in s.loops && s.loops[s.stopCh] == Selecting(s.stopCh)
  {
    OrderlyLoops(h.Last());
    h' := h;
    var id := h.Last().stopCh;
    if h'.Last().loops[id].Cleaning? {
      h' := OrderlyStep(h', LoopCleaned(id));
    }
    if h'.Last().loops[id].Top? {
      h' := OrderlyStep(h', LoopSelect(id));
    }
  }

  /** The Stop falls asleep, and its loop leaves and wakes it. */
  lemma LoopLeaves(h: History) returns (h': History)
    requires h.Valid() && Orderly(h.Last()) && !h.Last().running && h.Last().Waiting() > 0
    requires var s := h.Last(); s.stopCh in s.loops && s.loops[s.stopCh] == Selecting(s.stopCh)
    ensures h'.Valid() && CallsOf(h'.actions) == CallsOf(h.actions)
    ensures var s := h'.Last(); !s.panicked && !s.running && s.woken > 0 && s.wg == 0
  {
    hide CallsOf;
    OrderlyLoops(h.Last());
    h' := h;
    if h'.Last().signalled > 0 {
      h' := OrderlyStep(h', StopSleep);
    }
    h' := OrderlyStep(h', LoopExit(h.Last().stopCh));
  }

  /** A Start comes before the Stop is awake: the wait group panics. */
  lemma WakesTooLate(h: History) returns (h': History)
    requires h.Valid() && var s := h.Last(); !s.panicked && !s.running && s.woken > 0 && s.wg == 0
    ensures h'.Valid() && CallsOf(h'.actions) == CallsOf(h.actions) + [Starts] && h'.Last().panicked
  {
    CallsOneMore(h.actions, Start);
    h' := h.Then(Start);
    CallsOneMore(h'.actions, StopPanic);
    h' := h'.Then(StopPanic);
  }

  /** It takes no more than that: a Stop and at once a Start of a running manager leave two loops live. */
  lemma OverlapRunsTwoLoops(h: History) returns (h': History)
    requires h.Valid() && Apart(CallsOf(h.actions)) && h.Last().running
    ensures h'.Valid() && CallsOf(h'.actions) == CallsOf(h.actions) + [Stops, Starts] && |h'.Last().loops| > 1
  {
    hide Apart, CallsOf;
    PrefixOrderly(h, CallsOf(h.actions));
    h' := OrderlyStep(h, StopSignal);
    h' := SecondLoop(h');
    assert CallsOf(h.actions) + [Stops] + [Starts] == CallsOf(h.actions) + [Stops, Starts];
  }

  /** Some interleaving of these calls, or of the first of them, has two live loops. */
  ghost predicate MayRunTwoLoops(calls: seq<Call>) {
    exists h: History :: h.Valid() && CallsOf(h.actions) <= calls && |h.Last().loops| > 1
  }

  /** Some interleaving of these calls, or of the first of them, makes the wait group panic. */
  ghost predicate MayPanic(calls: seq<Call>) {
    exists h: History :: h.Valid() && CallsOf(h.actions) <= calls && h.Last().panicked
  }

  /**
   Callers can tell when they are safe: whatever the interleaving, a history with these calls, however cut short, has
   at most one live loop if and only if no Start takes effect while a Stop waits.
   */
  lemma OneLoopExactly(h: History)
    requires h.Valid()
    ensures Apart(CallsOf(h.actions)) <==> !MayRunTwoLoops(CallsOf(h.actions))
  {
    hide Apart, CallsOf, Orderly;
    if Apart(CallsOf(h.actions)) {
      forall h': History | h'.Valid() && CallsOf(h'.actions) <= CallsOf(h.actions)
        ensures |h'.Last().loops| <= 1
      {
        PrefixOrderly(h', CallsOf(h.actions));
      }
    } else {
      var h' := Overtaken(h);
      h' := SecondLoop(h');
    }
  }

  /** The same condition tells exactly when the wait group may panic. */
  lemma NoPanicExactly(h: History)
    requires h.Valid()
    ensures Apart(CallsOf(h.actions)) <==> !MayPanic(CallsOf(h.actions))
  {
    hide Apart, CallsOf, Sound;
    if Apart(CallsOf(h.actions)) {
      forall h': History | h'.Valid() && CallsOf(h'.actions) <= CallsOf(h.actions)
        ensures !h'.Last().panicked
      {
        PrefixOrderly(h', CallsOf(h.actions));
      }
    } else {
      var h' := Overtaken(h);
      h' := LoopSelects(h');
      h' := LoopLeaves(h');
      h' := WakesTooLate(h');
    }
  }

  lemma PrefixOrderly(h: History, calls: seq<Call>)
    requires h.Valid() && Apart(calls) && CallsOf(h.actions) <= calls
    ensures Orderly(h.Last()) && |h.Last().loops| <= 1
  {
    hide Apart, CallsOf, Orderly;
    ApartPrefix(calls, |CallsOf(h.actions)|);
    assert calls[..|CallsOf(h.actions)|] == CallsOf(h.actions);
    CallsAre(h, |h.actions|);
    ApartOrderly(h, |h.actions|);
  }
}
