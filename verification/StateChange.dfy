/**
 aws_iot_mqtt_set_client_state called by any number of threads at once, while disconnect
 paths assign the state without the mutex. A step is one action on shared data: obtaining or
 missing the mutex, comparing the state, assigning it, releasing the mutex, or such an
 assignment. The actions interleave in every order.

 `turns`, `nextCall`, `returned` and the places `at` are history: no step decides by them. A
 call that is refused has its turn where it compared the state; one that is applied has it
 where it assigned, or, if another assignment has already made the state what it assigns,
 where it compared.
 */
module StateChange {
  import opened ClientStates
  import opened Network

  datatype Pc =
    | Outside
    | AtLock(call: nat, expected: ClientState, newState: ClientState)
    | Locked(call: nat, expected: ClientState, newState: ClientState)
    | Matched(call: nat, expected: ClientState, newState: ClientState, at: nat)
    | AtUnlock(call: nat, rc: Rc, at: nat)
  {
    predicate InSection() {
      Locked? || Matched? || AtUnlock?
    }
  }

  datatype Holder = Free | Held(thread: nat)

  datatype Turn = Turn(call: nat, expected: ClientState, newState: ClientState) | Forced(value: ClientState)

  /** How a call ended: without the mutex, or having held it, with its place among the turns. */
  datatype Return = Refused(rc: Rc) | Served(at: nat, rc: Rc)

  datatype System = System(
    state: ClientState, holder: Holder, threads: seq<Pc>,
    turns: seq<Turn>, nextCall: nat, returned: map<nat, Return>)

  /** `Force` is the assignment without the mutex that the disconnect paths make. */
  datatype Action =
    | Begin(t: nat, expected: ClientState, newState: ClientState)
    | Acquire(t: nat)
    | Miss(t: nat)
    | Compare(t: nat)
    | Assign(t: nat)
    | Release(t: nat, ok: bool)
    | Force(value: ClientState)

  function Init(start: ClientState, threads: nat): System {
    System(start, Free, seq(threads, _ => Outside), [], 0, map[])
  }

  /** The mutex excludes: it is obtained only when it is free. It may be missed at any time. */
  predicate Enabled(s: System, a: Action) {
    a.Force? ||
    (a.t < |s.threads| &&
     var pc := s.threads[a.t];
     match a
     case Begin(_, _, _) => pc.Outside?
     case Acquire(_) => pc.AtLock? && s.holder.Free?
     case Miss(_) => pc.AtLock?
     case Compare(_) => pc.Locked?
     case Assign(_) => pc.Matched?
     case Release(_, _) => pc.AtUnlock?)
  }

  function Inserted(turns: seq<Turn>, at: nat, turn: Turn): seq<Turn> {
    if at <= |turns| then turns[..at] + [turn] + turns[at..] else turns + [turn]
  }

  function Step(s: System, a: Action): System
    requires Enabled(s, a)
  {
    if a.Force? then s.(state := a.value, turns := s.turns + [Forced(a.value)]) else
    var pc := s.threads[a.t];
    match a
    case Begin(t, e, n) =>
      s.(threads := s.threads[t := AtLock(s.nextCall, e, n)], nextCall := s.nextCall + 1)
    case Acquire(t) =>
      s.(threads := s.threads[t := Locked(pc.call, pc.expected, pc.newState)], holder := Held(t))
    case Miss(t) =>
      s.(threads := s.threads[t := Outside], returned := s.returned[pc.call := Refused(MutexLockError)])
    case Compare(t) =>
      if pc.expected == s.state then
        s.(threads := s.threads[t := Matched(pc.call, pc.expected, pc.newState, |s.turns|)])
      else
        s.(threads := s.threads[t := AtUnlock(pc.call, UnexpectedClientState, |s.turns|)],
           turns := s.turns + [Turn(pc.call, pc.expected, pc.newState)])
    case Assign(t) =>
      var at := if s.state == pc.expected then |s.turns| else pc.at;
      s.(threads := s.threads[t := AtUnlock(pc.call, Success, at)], state := pc.newState,
         turns := Inserted(s.turns, at, Turn(pc.call, pc.expected, pc.newState)))
    case Release(t, ok) =>
      var rc := if pc.rc == Success && !ok then MutexLockError else pc.rc;
      s.(threads := s.threads[t := Outside], holder := if ok then Free else s.holder,
         returned := s.returned[pc.call := Served(pc.at, rc)])
  }

  predicate AllEnabled(s: System, actions: seq<Action>)
    decreases |actions|
  {
    actions == [] || (Enabled(s, actions[0]) && AllEnabled(Step(s, actions[0]), actions[1..]))
  }

  function Run(s: System, actions: seq<Action>): System
    requires AllEnabled(s, actions)
    decreases |actions|
  {
    if actions == [] then s else Run(Step(s, actions[0]), actions[1..])
  }

  /** The step that loses an assignment made without the mutex: the pending assignment of a call
      finds the state neither as the call compared it nor as it is about to set it. */
  predicate Loses(s: System, a: Action)
    requires Enabled(s, a)
  {
    a.Assign? && s.state != s.threads[a.t].expected && s.state != s.threads[a.t].newState
  }

  predicate NeverLoses(s: System, actions: seq<Action>)
    requires AllEnabled(s, actions)
    decreases |actions|
  {
    actions == [] || (!Loses(s, actions[0]) && NeverLoses(Step(s, actions[0]), actions[1..]))
  }

  // ---- The calls and assignments made one at a time

  /** Compare and set, at once. */
  function Cas(state: ClientState, expected: ClientState, newState: ClientState): ClientState {
    if state == expected then newState else state
  }

  function Replay(start: ClientState, turns: seq<Turn>): ClientState {
    if turns == [] then start
    else
      match turns[|turns| - 1]
      case Turn(_, expected, newState) => Cas(Replay(start, turns[..|turns| - 1]), expected, newState)
      case Forced(value) => value
  }

  /** Turn `i` is a call that finds the state it expects. */
  predicate Applied(start: ClientState, turns: seq<Turn>, i: nat)
    requires i < |turns|
  {
    turns[i].Turn? && Replay(start, turns[..i]) == turns[i].expected
  }

  predicate HasCall(turns: seq<Turn>, call: nat) {
    exists i :: 0 <= i < |turns| && turns[i].Turn? && turns[i].call == call
  }

  predicate IsCall(turns: seq<Turn>, at: nat, call: nat) {
    at < |turns| && turns[at].Turn? && turns[at].call == call
  }

  /** What a call that had its turn is told. */
  function Told(start: ClientState, turns: seq<Turn>, at: nat): Rc
    requires at < |turns|
  {
    if Applied(start, turns, at) then Success else UnexpectedClientState
  }

  predicate ForcedFrom(turns: seq<Turn>, at: nat) {
    forall i :: at <= i < |turns| ==> turns[i].Forced?
  }

  // ---- What every run keeps

  /** Thread `t` is where the turns say. */
  ghost predicate ThreadOk(start: ClientState, s: System, t: nat)
    requires t < |s.threads|
  {
    var pc := s.threads[t];
    && (pc.InSection() ==> s.holder == Held(t))
    && (!pc.Outside? ==> pc.call < s.nextCall && pc.call !in s.returned)
    && (!pc.Outside? && !pc.AtUnlock? ==> !HasCall(s.turns, pc.call))
    && (pc.Matched? ==>
          pc.at <= |s.turns| && Replay(start, s.turns[..pc.at]) == pc.expected && ForcedFrom(s.turns, pc.at))
    && (pc.AtUnlock? ==> IsCall(s.turns, pc.at, pc.call) && pc.rc == Told(start, s.turns, pc.at))
  }

  ghost predicate ThreadsOk(start: ClientState, s: System) {
    && (forall t :: 0 <= t < |s.threads| ==> ThreadOk(start, s, t))
    && (forall t, u :: 0 <= t < u < |s.threads| && !s.threads[t].Outside? && !s.threads[u].Outside? ==>
          s.threads[t].call != s.threads[u].call)
  }

  ghost predicate TurnsOk(s: System) {
    && (forall i :: 0 <= i < |s.turns| && s.turns[i].Turn? ==> s.turns[i].call < s.nextCall)
    && (forall i, j :: 0 <= i < j < |s.turns| && s.turns[i].Turn? && s.turns[j].Turn? ==>
          s.turns[i].call != s.turns[j].call)
  }

  /** The call returned what it was told in its turn; only a mutex that fails to be released turns a
      success into an error. */
  ghost predicate ReturnOk(start: ClientState, s: System, call: nat)
    requires call in s.returned
  {
    match s.returned[call]
    case Refused(rc) => rc == MutexLockError && !HasCall(s.turns, call)
    case Served(at, rc) =>
      && IsCall(s.turns, at, call)
      && (rc == Told(start, s.turns, at) || (Applied(start, s.turns, at) && rc == MutexLockError))
  }

  ghost predicate ReturnsOk(start: ClientState, s: System) {
    forall call <- s.returned :: call < s.nextCall && ReturnOk(start, s, call)
  }

  /** The system is as if its calls and assignments had been made one at a time, as the turns say. */
  ghost predicate Linear(start: ClientState, s: System) {
    ThreadsOk(start, s) && TurnsOk(s) && ReturnsOk(start, s) && s.state == Replay(start, s.turns)
  }

  lemma InitLinear(start: ClientState, threads: nat)
    ensures Linear(start, Init(start, threads))
  {
  }

  /** The calls of two threads, when both are in one, differ. */
  lemma Distinct(s: System, t: nat, u: nat)
    requires t < |s.threads| && u < |s.threads|
    ensures (forall i, j :: 0 <= i < j < |s.threads| && !s.threads[i].Outside? && !s.threads[j].Outside? ==>
               s.threads[i].call != s.threads[j].call) ==>
            t == u || s.threads[t].Outside? || s.threads[u].Outside? || s.threads[t].call != s.threads[u].call
  {
  }

  /** `more` is `turns` with one turn put in at `at`, where only assignments follow: the calls before
      it are where they were, and were told what they were told. */
  ghost predicate Extends(start: ClientState, turns: seq<Turn>, more: seq<Turn>, at: nat, turn: Turn) {
    && at <= |turns| && |more| == |turns| + 1 && more[at] == turn
    && (forall i :: 0 <= i < |turns| && turns[i].Turn? ==> i < at && Same(start, turns, more, i))
    && (forall i :: 0 <= i < |more| && more[i].Turn? ==> i == at || (i < at && more[i] == turns[i]))
  }

  ghost predicate Same(start: ClientState, turns: seq<Turn>, more: seq<Turn>, i: nat) {
    i < |turns| && i < |more| && more[i] == turns[i] && Applied(start, more, i) == Applied(start, turns, i)
  }

  lemma InsertedExtends(start: ClientState, turns: seq<Turn>, at: nat, turn: Turn)
    requires at <= |turns| && ForcedFrom(turns, at)
    ensures Extends(start, turns, Inserted(turns, at, turn), at, turn)
    ensures Replay(start, Inserted(turns, at, turn)[..at]) == Replay(start, turns[..at])
  {
    var more := Inserted(turns, at, turn);
    assert more[..at] == turns[..at];
    forall i | 0 <= i < |turns| && turns[i].Turn? ensures i < at && Same(start, turns, more, i) {
      assert more[..i] == turns[..i];
    }
    assert forall i :: at < i < |more| ==> more[i] == turns[i - 1];
  }

  lemma AppendedExtends(start: ClientState, turns: seq<Turn>, turn: Turn)
    ensures Extends(start, turns, turns + [turn], |turns|, turn)
    ensures (turns + [turn])[..|turns|] == turns
    ensures turn.Forced? ==> Replay(start, turns + [turn]) == turn.value
    ensures turn.Turn? ==> Replay(start, turns + [turn]) == Cas(Replay(start, turns), turn.expected, turn.newState)
  {
    assert turns[..|turns|] == turns && Inserted(turns, |turns|, turn) == turns + [turn];
    InsertedExtends(start, turns, |turns|, turn);
  }

  /** What the extension means for the calls that have returned, and for what the turns must keep. */
  lemma ExtendedOk(start: ClientState, s: System, more: seq<Turn>, at: nat, turn: Turn)
    requires TurnsOk(s) && ReturnsOk(start, s) && Extends(start, s.turns, more, at, turn)
    requires turn.Turn? ==> turn.call < s.nextCall && turn.call !in s.returned && !HasCall(s.turns, turn.call)
    ensures TurnsOk(s.(turns := more)) && ReturnsOk(start, s.(turns := more))
    ensures forall call :: HasCall(more, call) ==> HasCall(s.turns, call) || (turn.Turn? && turn.call == call)
    ensures forall i, call :: IsCall(s.turns, i, call) ==>
              IsCall(more, i, call) && Told(start, more, i) == Told(start, s.turns, i)
  {
    hide Applied;
    forall call | HasCall(more, call) ensures HasCall(s.turns, call) || (turn.Turn? && turn.call == call) {
      var i :| 0 <= i < |more| && more[i].Turn? && more[i].call == call;
      assert i != at ==> s.turns[i] == more[i];
    }
    forall i, call | IsCall(s.turns, i, call)
      ensures IsCall(more, i, call) && Told(start, more, i) == Told(start, s.turns, i)
    {
      assert Same(start, s.turns, more, i);
    }
    forall call | call in s.returned ensures ReturnOk(start, s.(turns := more), call) {
      assert ReturnOk(start, s, call);
      if s.returned[call].Served? {
        assert Same(start, s.turns, more, s.returned[call].at);
      }
    }
  }

  lemma BeginLinear(start: ClientState, s: System, t: nat, e: ClientState, n: ClientState)
    requires Linear(start, s) && Enabled(s, Begin(t, e, n))
    ensures Linear(start, Step(s, Begin(t, e, n)))
  {
    hide Replay, Applied;
    var s' := Step(s, Begin(t, e, n));
    assert ThreadOk(start, s, t);
    forall u | 0 <= u < |s'.threads| ensures ThreadOk(start, s', u) {
      assert ThreadOk(start, s, u);
      Distinct(s, t, u);
    }
    forall u | 0 <= u < |s.threads| && !s.threads[u].Outside? ensures s.threads[u].call < s.nextCall {
      assert ThreadOk(start, s, u);
    }
    forall call | call in s'.returned ensures call < s'.nextCall && ReturnOk(start, s', call) {
      assert call in s.returned ==> ReturnOk(start, s, call);
    }
  }

  lemma MissLinear(start: ClientState, s: System, t: nat)
    requires Linear(start, s) && Enabled(s, Miss(t))
    ensures Linear(start, Step(s, Miss(t)))
  {
    hide Replay, Applied;
    var s' := Step(s, Miss(t));
    assert ThreadOk(start, s, t);
    forall u | 0 <= u < |s'.threads| ensures ThreadOk(start, s', u) {
      assert ThreadOk(start, s, u);
      Distinct(s, t, u);
    }
    forall call | call in s'.returned ensures call < s'.nextCall && ReturnOk(start, s', call) {
      assert call in s.returned ==> ReturnOk(start, s, call);
    }
  }

  lemma AcquireLinear(start: ClientState, s: System, t: nat)
    requires Linear(start, s) && Enabled(s, Acquire(t))
    ensures Linear(start, Step(s, Acquire(t)))
  {
    hide Replay, Applied;
    var s' := Step(s, Acquire(t));
    assert ThreadOk(start, s, t);
    forall u | 0 <= u < |s'.threads| ensures ThreadOk(start, s', u) {
      assert ThreadOk(start, s, u);
      Distinct(s, t, u);
    }
    forall call | call in s'.returned ensures call < s'.nextCall && ReturnOk(start, s', call) {
      assert call in s.returned ==> ReturnOk(start, s, call);
    }
  }

  lemma ReleaseLinear(start: ClientState, s: System, t: nat, ok: bool)
    requires Linear(start, s) && Enabled(s, Release(t, ok))
    ensures Linear(start, Step(s, Release(t, ok)))
  {
    hide Replay, Applied;
    var s' := Step(s, Release(t, ok));
    assert ThreadOk(start, s, t);
    forall u | 0 <= u < |s'.threads| ensures ThreadOk(start, s', u) {
      assert ThreadOk(start, s, u);
      Distinct(s, t, u);
    }
    forall call | call in s'.returned ensures call < s'.nextCall && ReturnOk(start, s', call) {
      assert call in s.returned ==> ReturnOk(start, s, call);
    }
  }

  /** A call in the section has its turn noted at `at`. */
  lemma NotedLinear(start: ClientState, s: System, t: nat, at: nat, more: seq<Turn>, state: ClientState, rc: Rc)
    requires Linear(start, s) && t < |s.threads| && (s.threads[t].Locked? || s.threads[t].Matched?)
    requires var pc := s.threads[t];
             Extends(start, s.turns, more, at, Turn(pc.call, pc.expected, pc.newState))
    requires state == Replay(start, more) && at < |more| && rc == Told(start, more, at)
    ensures Linear(start, s.(threads := s.threads[t := AtUnlock(s.threads[t].call, rc, at)], state := state, turns := more))
  {
    var pc := s.threads[t];
    assert ThreadOk(start, s, t);
    ExtendedOk(start, s, more, at, Turn(pc.call, pc.expected, pc.newState));
    hide Replay, Applied, Told, ReturnOk, TurnsOk, HasCall, ForcedFrom;
    var s' := s.(threads := s.threads[t := AtUnlock(pc.call, rc, at)], state := state, turns := more);
    forall u | 0 <= u < |s'.threads| ensures ThreadOk(start, s', u) {
      assert ThreadOk(start, s, u);
      Distinct(s, t, u);
    }
    assert ReturnsOk(start, s') by {
      forall call | call in s'.returned ensures call < s'.nextCall && ReturnOk(start, s', call) {
        ReturnUnmoved(start, s.(turns := more), s', call);
      }
    }
    assert TurnsOk(s') by {
      TurnsUnmoved(s.(turns := more), s');
    }
  }

  lemma ReturnUnmoved(start: ClientState, s: System, s': System, call: nat)
    requires s'.turns == s.turns && s'.returned == s.returned && call in s.returned && ReturnOk(start, s, call)
    ensures ReturnOk(start, s', call)
  {
  }

  lemma TurnsUnmoved(s: System, s': System)
    requires s'.turns == s.turns && s'.nextCall == s.nextCall && TurnsOk(s)
    ensures TurnsOk(s')
  {
  }

  lemma CompareLinear(start: ClientState, s: System, t: nat)
    requires Linear(start, s) && Enabled(s, Compare(t))
    ensures Linear(start, Step(s, Compare(t)))
  {
    hide Linear, Replay, Extends;
    var pc := s.threads[t];
    if pc.expected != s.state {
      RefusedTurn(start, s, t);
      NotedLinear(start, s, t, |s.turns|, s.turns + [Turn(pc.call, pc.expected, pc.newState)], s.state,
                  UnexpectedClientState);
    } else {
      MatchLinear(start, s, t);
    }
  }

  lemma RefusedTurn(start: ClientState, s: System, t: nat)
    requires Linear(start, s) && Enabled(s, Compare(t)) && s.threads[t].expected != s.state
    ensures var pc := s.threads[t];
            var turn := Turn(pc.call, pc.expected, pc.newState);
            && Extends(start, s.turns, s.turns + [turn], |s.turns|, turn)
            && Replay(start, s.turns + [turn]) == s.state
            && Told(start, s.turns + [turn], |s.turns|) == UnexpectedClientState
  {
    var pc := s.threads[t];
    AppendedExtends(start, s.turns, Turn(pc.call, pc.expected, pc.newState));
    hide Replay, Extends, ThreadsOk, TurnsOk, ReturnsOk;
  }

  lemma MatchLinear(start: ClientState, s: System, t: nat)
    requires Linear(start, s) && Enabled(s, Compare(t)) && s.threads[t].expected == s.state
    ensures Linear(start, Step(s, Compare(t)))
  {
    assert s.turns[..|s.turns|] == s.turns;
    hide Replay, Applied, Told, ReturnOk, TurnsOk, HasCall;
    var s' := Step(s, Compare(t));
    assert ThreadOk(start, s, t);
    forall u | 0 <= u < |s'.threads| ensures ThreadOk(start, s', u) {
      assert ThreadOk(start, s, u);
      Distinct(s, t, u);
    }
    assert ReturnsOk(start, s') by {
      forall call | call in s'.returned ensures call < s'.nextCall && ReturnOk(start, s', call) {
        ReturnUnmoved(start, s, s', call);
      }
    }
    assert TurnsOk(s') by {
      TurnsUnmoved(s, s');
    }
  }

  lemma ForceLinear(start: ClientState, s: System, v: ClientState)
    requires Linear(start, s)
    ensures Linear(start, Step(s, Force(v)))
  {
    var s' := Step(s, Force(v));
    AppendedExtends(start, s.turns, Forced(v));
    ExtendedOk(start, s, s'.turns, |s.turns|, Forced(v));
    hide Replay, TurnsOk, ReturnOk, Applied;
    forall u | 0 <= u < |s'.threads| ensures ThreadOk(start, s', u) {
      assert ThreadOk(start, s, u);
      if s.threads[u].Matched? {
        assert s'.turns[..s.threads[u].at] == s.turns[..s.threads[u].at];
      }
    }
  }

  /** The pending assignment of a call keeps the order exactly when it loses nothing. */
  lemma AssignLinear(start: ClientState, s: System, t: nat)
    requires Linear(start, s) && Enabled(s, Assign(t))
    ensures Linear(start, Step(s, Assign(t))) <==> !Loses(s, Assign(t))
  {
    var pc := s.threads[t];
    var turn := Turn(pc.call, pc.expected, pc.newState);
    var at := if s.state == pc.expected then |s.turns| else pc.at;
    assert ThreadOk(start, s, t);
    assert s.turns[..|s.turns|] == s.turns;
    InsertedExtends(start, s.turns, at, turn);
    InsertedReplay(start, s.turns, at, turn);
    hide Replay, Extends, ThreadsOk, TurnsOk, ReturnsOk;
    if !Loses(s, Assign(t)) {
      NotedLinear(start, s, t, at, Inserted(s.turns, at, turn), pc.newState, Success);
    }
  }

  /** Where a call is applied, its state is what follows, until something is assigned behind it. */
  lemma InsertedReplay(start: ClientState, turns: seq<Turn>, at: nat, turn: Turn)
    requires at <= |turns| && ForcedFrom(turns, at) && turn.Turn? && Replay(start, turns[..at]) == turn.expected
    ensures Replay(start, Inserted(turns, at, turn)) == if at == |turns| then turn.newState else Replay(start, turns)
  {
    var more := Inserted(turns, at, turn);
    if at == |turns| {
      assert more[..|turns|] == turns[..at];
    } else {
      assert more[|turns|] == turns[|turns| - 1];
    }
  }

  /** A step keeps the order exactly when it loses nothing. */
  lemma StepExact(start: ClientState, s: System, a: Action)
    requires Linear(start, s) && Enabled(s, a)
    ensures Linear(start, Step(s, a)) <==> !Loses(s, a)
  {
    hide Linear;
    match a
    case Begin(t, e, n) => BeginLinear(start, s, t, e, n);
    case Acquire(t) => AcquireLinear(start, s, t);
    case Miss(t) => MissLinear(start, s, t);
    case Compare(t) => CompareLinear(start, s, t);
    case Assign(t) => AssignLinear(start, s, t);
    case Release(t, ok) => ReleaseLinear(start, s, t, ok);
    case Force(v) => ForceLinear(start, s, v);
  }

  /** The pending assignment of a call fits nowhere among the turns if it loses something: wherever
      the call is put in, it is not applied there or another state follows. */
  lemma AssignFits(start: ClientState, s: System, t: nat)
    requires Linear(start, s) && Enabled(s, Assign(t))
    ensures var pc := s.threads[t];
            var turn := Turn(pc.call, pc.expected, pc.newState);
            !Loses(s, Assign(t)) <==>
              exists k :: 0 <= k <= |s.turns| && Replay(start, s.turns[..k]) == pc.expected
                          && Replay(start, Inserted(s.turns, k, turn)) == pc.newState
  {
    var pc := s.threads[t];
    var turn := Turn(pc.call, pc.expected, pc.newState);
    assert ThreadOk(start, s, t);
    assert s.turns[..|s.turns|] == s.turns;
    if !Loses(s, Assign(t)) {
      var at := if s.state == pc.expected then |s.turns| else pc.at;
      InsertedReplay(start, s.turns, at, turn);
    } else {
      forall k | 0 <= k < |s.turns| ensures Replay(start, Inserted(s.turns, k, turn)) == s.state {
        LastForced(start, s.turns, k, turn);
      }
    }
  }

  lemma LastForced(start: ClientState, turns: seq<Turn>, k: nat, turn: Turn)
    requires k < |turns| && turns[|turns| - 1].Forced?
    ensures Replay(start, Inserted(turns, k, turn)) == Replay(start, turns)
  {
  }

  // ---- Whole runs

  ghost predicate AlwaysLinear(start: ClientState, s: System, actions: seq<Action>)
    requires AllEnabled(s, actions)
    decreases |actions|
  {
    Linear(start, s) && (actions == [] || AlwaysLinear(start, Step(s, actions[0]), actions[1..]))
  }

  lemma {:induction false} RunExact(start: ClientState, s: System, actions: seq<Action>)
    requires Linear(start, s) && AllEnabled(s, actions)
    ensures AlwaysLinear(start, s, actions) <==> NeverLoses(s, actions)
    ensures NeverLoses(s, actions) ==> Linear(start, Run(s, actions))
    decreases |actions|
  {
    hide Linear, Step, Enabled, Loses;
    if actions != [] {
      StepExact(start, s, actions[0]);
      if !Loses(s, actions[0]) {
        RunExact(start, Step(s, actions[0]), actions[1..]);
      } else {
        assert !AlwaysLinear(start, Step(s, actions[0]), actions[1..]);
      }
    }
  }

  /** Every interleaving of any number of calls and of assignments without the mutex acts at every
      moment as the same calls and assignments made one at a time, exactly when no pending assignment
      of a call loses one. Then each call has at most one turn; a finished call returned what it is
      told in its turn; no two threads are between obtaining and releasing the mutex; and the state
      is the one the turns lead to. */
  lemma RunLinear(start: ClientState, threads: nat, actions: seq<Action>)
    requires AllEnabled(Init(start, threads), actions)
    ensures AlwaysLinear(start, Init(start, threads), actions) <==> NeverLoses(Init(start, threads), actions)
    ensures NeverLoses(Init(start, threads), actions) ==>
              var s := Run(Init(start, threads), actions);
              && TurnsOk(s)
              && ReturnsOk(start, s)
              && (forall t, u :: 0 <= t < u < |s.threads| ==>
                    !(s.threads[t].InSection() && s.threads[u].InSection()))
              && s.state == Replay(start, s.turns)
  {
    InitLinear(start, threads);
    RunExact(start, Init(start, threads), actions);
    var s := Run(Init(start, threads), actions);
    hide ReturnsOk, TurnsOk, Replay, Applied, Run, Init, AllEnabled, NeverLoses, AlwaysLinear;
    if NeverLoses(Init(start, threads), actions) {
      forall t | 0 <= t < |s.threads| && s.threads[t].InSection() ensures s.holder == Held(t) {
        assert ThreadOk(start, s, t);
      }
    }
  }

  // ---- What calls return

  /** The calls of a run that did not get their mutex released. */
  function ReleaseFailures(s: System, actions: seq<Action>): set<nat>
    requires AllEnabled(s, actions)
    decreases |actions|
  {
    if actions == [] then {}
    else FailedBy(s, actions[0]) + ReleaseFailures(Step(s, actions[0]), actions[1..])
  }

  function FailedBy(s: System, a: Action): set<nat>
    requires Enabled(s, a)
  {
    if a.Release? && !a.ok then {s.threads[a.t].call} else {}
  }

  /** Every served call returned what it was told in its turn, except that an applied one returned a
      mutex error if it is among `failed`. */
  ghost predicate ReturnsExactly(start: ClientState, s: System, failed: set<nat>) {
    && (forall call <- failed :: call in s.returned)
    && (forall call <- s.returned :: CodeExact(start, s.turns, s.returned[call], call in failed))
  }

  ghost predicate CodeExact(start: ClientState, turns: seq<Turn>, r: Return, failed: bool) {
    match r
    case Refused(rc) => rc == MutexLockError
    case Served(at, rc) =>
      && at < |turns| && turns[at].Turn?
      && rc == if failed && Applied(start, turns, at) then MutexLockError else Told(start, turns, at)
  }

  lemma CodesStay(start: ClientState, s: System, more: seq<Turn>, at: nat, turn: Turn, failed: set<nat>)
    requires ReturnsExactly(start, s, failed) && Extends(start, s.turns, more, at, turn)
    ensures forall call <- s.returned :: CodeExact(start, more, s.returned[call], call in failed)
  {
    forall call | call in s.returned ensures CodeExact(start, more, s.returned[call], call in failed) {
      assert CodeExact(start, s.turns, s.returned[call], call in failed);
      if s.returned[call].Served? {
        assert Same(start, s.turns, more, s.returned[call].at);
      }
    }
  }

  lemma StepReturns(start: ClientState, s: System, a: Action, failed: set<nat>)
    requires Linear(start, s) && Enabled(s, a) && ReturnsExactly(start, s, failed)
    ensures ReturnsExactly(start, Step(s, a), failed + FailedBy(s, a))
  {
    if a.Release? {
      ReleaseReturns(start, s, a.t, a.ok, failed);
    } else if a.Miss? {
      MissReturns(start, s, a.t, failed);
    } else {
      TurnsGrow(start, s, a, failed);
      hide Linear, Enabled, Step, CodeExact;
      assert failed + {} == failed;
    }
  }

  lemma MissReturns(start: ClientState, s: System, t: nat, failed: set<nat>)
    requires Linear(start, s) && Enabled(s, Miss(t)) && ReturnsExactly(start, s, failed)
    ensures ReturnsExactly(start, Step(s, Miss(t)), failed + FailedBy(s, Miss(t)))
  {
    assert ThreadOk(start, s, t);
    hide Replay, Applied, Told, Linear, ThreadOk;
  }

  lemma ReleaseReturns(start: ClientState, s: System, t: nat, ok: bool, failed: set<nat>)
    requires Linear(start, s) && Enabled(s, Release(t, ok)) && ReturnsExactly(start, s, failed)
    ensures ReturnsExactly(start, Step(s, Release(t, ok)), failed + FailedBy(s, Release(t, ok)))
  {
    assert ThreadOk(start, s, t);
    hide Replay, Applied, Linear, ThreadOk;
  }

  /** A step by which no call returns. */
  lemma TurnsGrow(start: ClientState, s: System, a: Action, failed: set<nat>)
    requires Linear(start, s) && Enabled(s, a) && ReturnsExactly(start, s, failed) && !a.Release? && !a.Miss?
    ensures ReturnsExactly(start, Step(s, a), failed) && FailedBy(s, a) == {}
  {
    var s' := Step(s, a);
    if a.Force? {
      AppendedExtends(start, s.turns, Forced(a.value));
      CodesStay(start, s, s'.turns, |s.turns|, Forced(a.value), failed);
    } else {
      var pc := s.threads[a.t];
      if a.Compare? && pc.expected != s.state {
        var turn := Turn(pc.call, pc.expected, pc.newState);
        AppendedExtends(start, s.turns, turn);
        CodesStay(start, s, s'.turns, |s.turns|, turn, failed);
      } else if a.Assign? {
        var turn := Turn(pc.call, pc.expected, pc.newState);
        var at := if s.state == pc.expected then |s.turns| else pc.at;
        assert ThreadOk(start, s, a.t);
        assert s.state != pc.expected ==> ForcedFrom(s.turns, pc.at);
        assert ForcedFrom(s.turns, |s.turns|);
        InsertedExtends(start, s.turns, at, turn);
        CodesStay(start, s, s'.turns, at, turn, failed);
      }
    }
    hide Replay, Extends, Applied, Told, Inserted, Linear, CodeExact;
  }

  lemma {:induction false} RunReturnsFrom(start: ClientState, s: System, actions: seq<Action>, failed: set<nat>)
    requires Linear(start, s) && AllEnabled(s, actions) && NeverLoses(s, actions) && ReturnsExactly(start, s, failed)
    ensures ReturnsExactly(start, Run(s, actions), failed + ReleaseFailures(s, actions))
    decreases |actions|
  {
    hide Linear, Step, Enabled, Loses, ReturnsExactly, FailedBy;
    if actions != [] {
      var a := actions[0];
      StepExact(start, s, a);
      StepReturns(start, s, a, failed);
      RunReturnsFrom(start, Step(s, a), actions[1..], failed + FailedBy(s, a));
      assert failed + FailedBy(s, a) + ReleaseFailures(Step(s, a), actions[1..])
          == failed + ReleaseFailures(s, actions);
    } else {
      assert failed + {} == failed;
    }
  }

  /** The codes of every run that loses nothing: a call that did not get the mutex returned a mutex
      error; one that did returned what it was told in its turn, except that it returned a mutex error
      exactly if it was applied and its own release failed. If no release failed, every served call
      returned what it was told. */
  lemma RunReturns(start: ClientState, threads: nat, actions: seq<Action>, call: nat)
    requires AllEnabled(Init(start, threads), actions) && NeverLoses(Init(start, threads), actions)
    requires call in Run(Init(start, threads), actions).returned
    ensures var s := Run(Init(start, threads), actions);
            match s.returned[call]
            case Refused(rc) => rc == MutexLockError
            case Served(at, rc) =>
              && at < |s.turns|
              && (rc == MutexLockError <==>
                    Applied(start, s.turns, at) && call in ReleaseFailures(Init(start, threads), actions))
              && (rc != MutexLockError ==> rc == Told(start, s.turns, at))
              && ((forall a <- actions :: a.Release? ==> a.ok) ==> rc == Told(start, s.turns, at))
  {
    var s0 := Init(start, threads);
    InitLinear(start, threads);
    RunReturnsFrom(start, s0, actions, {});
    if forall a <- actions :: a.Release? ==> a.ok {
      NoFailures(s0, actions);
    }
    assert {} + ReleaseFailures(s0, actions) == ReleaseFailures(s0, actions);
    var s := Run(s0, actions);
    assert CodeExact(start, s.turns, s.returned[call], call in ReleaseFailures(s0, actions));
    hide Run, Init, AllEnabled, NeverLoses, ReleaseFailures, Replay, ReturnsExactly;
  }

  lemma {:induction false} NoFailures(s: System, actions: seq<Action>)
    requires AllEnabled(s, actions) && forall a <- actions :: a.Release? ==> a.ok
    ensures ReleaseFailures(s, actions) == {}
    decreases |actions|
  {
    hide Step, Enabled;
    if actions != [] {
      assert actions[0] in actions;
      NoFailures(Step(s, actions[0]), actions[1..]);
    }
  }

  /** A call by a thread that finds the mutex free, with nobody else moving, can be made, and does what
      compare and set does: the state, the code, and the mutex, which is free for the next call if it
      could be released. A call that misses the mutex changes nothing and says so. */
  lemma CallAlone(s: System, t: nat, e: ClientState, n: ClientState, ok: bool)
    requires t < |s.threads| && s.threads[t].Outside? && s.holder.Free?
    ensures var actions := [Begin(t, e, n), Acquire(t), Compare(t)] + (if s.state == e then [Assign(t)] else [])
                           + [Release(t, ok)];
            AllEnabled(s, actions) &&
            var r := Run(s, actions);
            && r.state == (if s.state == e then n else s.state)
            && r.threads == s.threads && r.holder == (if ok then Free else Held(t))
            && r.nextCall == s.nextCall + 1 && s.nextCall in r.returned
            && r.returned[s.nextCall].Served?
            && r.returned[s.nextCall].rc ==
                 (if s.state != e then UnexpectedClientState else if ok then Success else MutexLockError)
  {
    hide Run, AllEnabled, Step, Enabled;
    if s.state == e {
      CallApplied(s, t, e, n, ok);
    } else {
      CallRefused(s, t, e, n, ok);
      assert [Begin(t, e, n), Acquire(t), Compare(t)] + [] == [Begin(t, e, n), Acquire(t), Compare(t)];
    }
  }

  /** The first two steps of a call that obtains the mutex. */
  lemma CallLocked(s: System, t: nat, e: ClientState, n: ClientState, rest: seq<Action>)
    requires t < |s.threads| && s.threads[t].Outside? && s.holder.Free?
    requires AllEnabled(Inside(s, t, Locked(s.nextCall, e, n)), rest)
    ensures AllEnabled(s, [Begin(t, e, n), Acquire(t)] + rest)
    ensures Run(s, [Begin(t, e, n), Acquire(t)] + rest) == Run(Inside(s, t, Locked(s.nextCall, e, n)), rest)
  {
    hide Run, AllEnabled;
    var s1 := Step(s, Begin(t, e, n));
    assert Step(s1, Acquire(t)) == Inside(s, t, Locked(s.nextCall, e, n));
    OneStep(s1, Acquire(t), rest);
    OneStep(s, Begin(t, e, n), [Acquire(t)] + rest);
    assert [Begin(t, e, n)] + ([Acquire(t)] + rest) == [Begin(t, e, n), Acquire(t)] + rest;
  }

  /** A new call of thread `t`, which holds the mutex, stands at `pc`. */
  function Inside(s: System, t: nat, pc: Pc): System
    requires t < |s.threads|
  {
    s.(threads := s.threads[t := pc], holder := Held(t), nextCall := s.nextCall + 1)
  }

  lemma CallApplied(s: System, t: nat, e: ClientState, n: ClientState, ok: bool)
    requires t < |s.threads| && s.threads[t].Outside? && s.holder.Free? && s.state == e
    ensures var actions := [Begin(t, e, n), Acquire(t), Compare(t)] + [Assign(t)] + [Release(t, ok)];
            AllEnabled(s, actions) &&
            var r := Run(s, actions);
            && r.state == n && r.threads == s.threads && r.holder == (if ok then Free else Held(t))
            && r.nextCall == s.nextCall + 1 && s.nextCall in r.returned
            && r.returned[s.nextCall].Served?
            && r.returned[s.nextCall].rc == (if ok then Success else MutexLockError)
  {
    var s2 := Inside(s, t, Locked(s.nextCall, e, n));
    var s3 := Inside(s, t, Matched(s.nextCall, e, n, |s.turns|));
    CallAssigned(s, t, e, n, ok);
    hide Run, AllEnabled;
    assert Step(s2, Compare(t)) == s3;
    OneStep(s2, Compare(t), [Assign(t), Release(t, ok)]);
    CallLocked(s, t, e, n, [Compare(t)] + [Assign(t), Release(t, ok)]);
    hide Step, Enabled;
    assert [Begin(t, e, n), Acquire(t)] + ([Compare(t)] + [Assign(t), Release(t, ok)])
        == [Begin(t, e, n), Acquire(t), Compare(t)] + [Assign(t)] + [Release(t, ok)];
  }

  lemma CallAssigned(s: System, t: nat, e: ClientState, n: ClientState, ok: bool)
    requires t < |s.threads| && s.threads[t].Outside?
    ensures var s3 := Inside(s, t, Matched(s.nextCall, e, n, |s.turns|));
            s.state == e ==>
              && AllEnabled(s3, [Assign(t), Release(t, ok)])
              && var r := Run(s3, [Assign(t), Release(t, ok)]);
                 && r.state == n && r.threads == s.threads && r.holder == (if ok then Free else Held(t))
                 && r.nextCall == s.nextCall + 1 && s.nextCall in r.returned
                 && r.returned[s.nextCall].Served?
                 && r.returned[s.nextCall].rc == (if ok then Success else MutexLockError)
  {
    hide Run, AllEnabled;
    var s3 := Inside(s, t, Matched(s.nextCall, e, n, |s.turns|));
    if s.state == e {
      var s4 := Step(s3, Assign(t));
      var s5 := Step(s4, Release(t, ok));
      assert s5.threads == s.threads;
      RunEnds(s5);
      OneStep(s4, Release(t, ok), []);
      OneStep(s3, Assign(t), [Release(t, ok)] + []);
      assert [Assign(t)] + ([Release(t, ok)] + []) == [Assign(t), Release(t, ok)];
    }
  }

  lemma CallRefused(s: System, t: nat, e: ClientState, n: ClientState, ok: bool)
    requires t < |s.threads| && s.threads[t].Outside? && s.holder.Free? && s.state != e
    ensures var actions := [Begin(t, e, n), Acquire(t), Compare(t)] + [Release(t, ok)];
            AllEnabled(s, actions) &&
            var r := Run(s, actions);
            && r.state == s.state && r.threads == s.threads && r.holder == (if ok then Free else Held(t))
            && r.nextCall == s.nextCall + 1 && s.nextCall in r.returned
            && r.returned[s.nextCall].Served? && r.returned[s.nextCall].rc == UnexpectedClientState
  {
    hide Run, AllEnabled;
    var s2 := Inside(s, t, Locked(s.nextCall, e, n));
    var s3 := Step(s2, Compare(t));
    var s4 := Step(s3, Release(t, ok));
    assert s4.threads == s.threads;
    RunEnds(s4);
    OneStep(s3, Release(t, ok), []);
    OneStep(s2, Compare(t), [Release(t, ok)] + []);
    CallLocked(s, t, e, n, [Compare(t)] + ([Release(t, ok)] + []));
    hide Step, Enabled;
    assert [Begin(t, e, n), Acquire(t)] + ([Compare(t)] + ([Release(t, ok)] + []))
        == [Begin(t, e, n), Acquire(t), Compare(t)] + [Release(t, ok)];
  }

  lemma CallMissed(s: System, t: nat, e: ClientState, n: ClientState)
    requires t < |s.threads| && s.threads[t].Outside?
    ensures AllEnabled(s, [Begin(t, e, n), Miss(t)])
    ensures var r := Run(s, [Begin(t, e, n), Miss(t)]);
            && r.state == s.state && r.threads == s.threads && r.holder == s.holder && r.turns == s.turns
            && r.returned == s.returned[s.nextCall := Refused(MutexLockError)]
  {
    hide Run, AllEnabled;
    var s1 := Step(s, Begin(t, e, n));
    RunEnds(Step(s1, Miss(t)));
    OneStep(s1, Miss(t), []);
    OneStep(s, Begin(t, e, n), [Miss(t)] + []);
    assert [Begin(t, e, n)] + ([Miss(t)] + []) == [Begin(t, e, n), Miss(t)];
    assert Step(s1, Miss(t)).threads == s.threads;
  }

  lemma RunEnds(s: System)
    ensures AllEnabled(s, []) && Run(s, []) == s
  {
  }

  lemma OneStep(s: System, a: Action, rest: seq<Action>)
    requires Enabled(s, a) && AllEnabled(Step(s, a), rest)
    ensures AllEnabled(s, [a] + rest) && Run(s, [a] + rest) == Run(Step(s, a), rest)
  {
    assert ([a] + rest)[1..] == rest;
  }

  /** Calls alone lose nothing: without assignments outside the mutex every run is in order. */
  lemma {:induction false} CallsAlone(start: ClientState, s: System, actions: seq<Action>)
    requires Linear(start, s) && AllEnabled(s, actions) && NoneForced(s.turns)
    requires forall a <- actions :: !a.Force?
    ensures NeverLoses(s, actions) && Linear(start, Run(s, actions))
    decreases |actions|
  {
    if actions != [] {
      var a := actions[0];
      assert a in actions;
      if a.Assign? {
        MatchedStill(start, s, a.t);
      }
      StepExact(start, s, a);
      hide Linear, Loses, Enabled;
      CallsAlone(start, Step(s, a), actions[1..]);
    }
  }

  predicate NoneForced(turns: seq<Turn>) {
    forall i :: 0 <= i < |turns| ==> turns[i].Turn?
  }

  lemma MatchedStill(start: ClientState, s: System, t: nat)
    requires Linear(start, s) && NoneForced(s.turns) && t < |s.threads| && s.threads[t].Matched?
    ensures s.state == s.threads[t].expected
  {
    assert ThreadOk(start, s, t);
    assert s.turns[..|s.turns|] == s.turns;
    hide Replay;
  }

  /** The turns of calls that had not begun in `s` lie behind position `at`. */
  ghost predicate LaterBehind(s: System, since: nat, at: nat) {
    forall j :: 0 <= j < |s.turns| && s.turns[j].Turn? && s.turns[j].call >= since ==> at < j
  }

  lemma {:induction false} StaysBehind(start: ClientState, s: System, actions: seq<Action>, call: nat, since: nat)
    requires Linear(start, s) && AllEnabled(s, actions) && NeverLoses(s, actions)
    requires call in s.returned && s.returned[call].Served? && LaterBehind(s, since, s.returned[call].at)
    ensures var s' := Run(s, actions);
            call in s'.returned && s'.returned[call] == s.returned[call] && LaterBehind(s', since, s.returned[call].at)
    decreases |actions|
  {
    if actions != [] {
      StepExact(start, s, actions[0]);
      StepBehind(start, s, actions[0], call, since);
      hide Linear, Loses, Enabled, Step, LaterBehind;
      StaysBehind(start, Step(s, actions[0]), actions[1..], call, since);
    }
  }

  lemma StepBehind(start: ClientState, s: System, a: Action, call: nat, since: nat)
    requires Linear(start, s) && Enabled(s, a)
    requires call in s.returned && s.returned[call].Served? && LaterBehind(s, since, s.returned[call].at)
    ensures var s' := Step(s, a);
            call in s'.returned && s'.returned[call] == s.returned[call] && LaterBehind(s', since, s.returned[call].at)
  {
    hide Replay, Applied, Told;
    assert ReturnOk(start, s, call);
    if !a.Force? {
      assert ThreadOk(start, s, a.t);
      if a.Assign? {
        var pc := s.threads[a.t];
        InsertedExtends(start, s.turns, if s.state == pc.expected then |s.turns| else pc.at,
                        Turn(pc.call, pc.expected, pc.newState));
      }
    }
  }

  /** The order of the turns respects time: a call that had finished before another began had its
      turn earlier. */
  lemma TimeRespected(start: ClientState, threads: nat, before: seq<Action>, after: seq<Action>, call: nat, j: nat)
    requires AllEnabled(Init(start, threads), before) && NeverLoses(Init(start, threads), before)
    requires var s := Run(Init(start, threads), before);
             && AllEnabled(s, after) && NeverLoses(s, after)
             && call in s.returned && s.returned[call].Served?
             && j < |Run(s, after).turns| && Run(s, after).turns[j].Turn? && Run(s, after).turns[j].call >= s.nextCall
    ensures var s := Run(Init(start, threads), before);
            s.returned[call].at < j && IsCall(Run(s, after).turns, s.returned[call].at, call)
  {
    var s := Run(Init(start, threads), before);
    InitLinear(start, threads);
    RunExact(start, Init(start, threads), before);
    RunExact(start, s, after);
    assert LaterBehind(s, s.nextCall, s.returned[call].at);
    StaysBehind(start, s, after, call, s.nextCall);
    hide Run, Init, AllEnabled, NeverLoses, AlwaysLinear, Replay, Applied;
    assert ReturnOk(start, Run(s, after), call);
  }

  /** Turn `k` sets the state to `value`. */
  ghost predicate Sets(start: ClientState, turns: seq<Turn>, k: nat, value: ClientState) {
    k < |turns| && (turns[k] == Forced(value) || (Applied(start, turns, k) && turns[k].newState == value))
  }

  /** Between two applied calls that leave the same state there is a turn that entered it: of
      several calls leaving a state, at most one is applied until the state is entered again. */
  lemma {:induction false} AppliedOnce(start: ClientState, turns: seq<Turn>, i: nat, j: nat)
    requires i < j < |turns| && Applied(start, turns, i) && Applied(start, turns, j)
    ensures exists k :: i <= k < j && Sets(start, turns, k, turns[j].expected)
  {
    Entered(start, turns, i, j);
  }

  /** If an applied turn came before turn `j`, a turn from then on set the state that turn `j` finds. */
  lemma {:induction false} Entered(start: ClientState, turns: seq<Turn>, i: nat, j: nat)
    requires i < j <= |turns| && Applied(start, turns, i)
    ensures exists k :: i <= k < j && Sets(start, turns, k, Replay(start, turns[..j]))
    decreases j
  {
    assert turns[..j][..j - 1] == turns[..j - 1];
    if turns[j - 1].Turn? && !Applied(start, turns, j - 1) {
      assert Replay(start, turns[..j]) == Replay(start, turns[..j - 1]);
      Entered(start, turns, i, j - 1);
      var k :| i <= k < j - 1 && Sets(start, turns, k, Replay(start, turns[..j - 1]));
      assert Sets(start, turns, k, Replay(start, turns[..j]));
    } else {
      assert Sets(start, turns, j - 1, Replay(start, turns[..j]));
    }
  }

  /** Such a loss happens: a client is forced to be disconnected between a call's comparison and its
      assignment, and the call makes it idle. */
  lemma UnlockedWriteLost()
    ensures var actions := [Begin(0, PublishInProgress, ConnectedIdle), Acquire(0), Compare(0),
                            Force(DisconnectedError), Assign(0)];
            var s := Init(PublishInProgress, 1);
            && AllEnabled(s, actions) && !NeverLoses(s, actions)
            && Run(s, actions).state == ConnectedIdle
  {
  }
}
