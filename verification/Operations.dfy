/**
 The operations on one connected client, run by any number of threads: publish, subscribe,
 unsubscribe, resubscribe and yield, with the callbacks that arriving messages run inside
 them and the operations that those callbacks start.

 Every operation reads the client state, takes the state over with one compare-and-set and
 gives it back with another. Those three are the steps here; each compare-and-set is one
 step, as module StateChange justifies, and may miss the mutex.
 */
module Operations {
  import opened ClientStates
  import opened StateChange

  datatype Kind = Yield | Publish | Subscribe | Unsubscribe | Resubscribe {
    /** The state that says that the operation is in progress. */
    function Marker(): ClientState {
      match this
      case Yield => YieldInProgress
      case Publish => PublishInProgress
      case Subscribe => SubscribeInProgress
      case Unsubscribe => UnsubscribeInProgress
      case Resubscribe => ResubscribeInProgress
    }

    /** The states in which the operation lets itself be started. */
    predicate StartsIn(s: ClientState) {
      s == ConnectedIdle || (s == WaitForCbReturn && !Yield? && !Resubscribe?)
    }
  }

  /** An operation or a callback in progress: the state it found and the one it set. */
  datatype Frame = Frame(from: ClientState, own: ClientState)

  datatype Position =
    | Running
    | Starting(kind: Kind, seen: ClientState)
    | Undoing(seen: ClientState)
    | Delivering(seen: ClientState)

  datatype Thread = Thread(frames: seq<Frame>, at: Position) {
    function Top(): Frame
      requires frames != []
    {
      frames[|frames| - 1]
    }

    /** Outside every operation, or in a callback, which may start one. */
    predicate MayStart() {
      frames == [] || Top().own == WaitForCbReturn
    }
  }

  datatype Shared = Shared(state: ClientState, threads: seq<Thread>)

  /** How a compare-and-set fared with the mutex: not obtained, obtained and not released, or both. */
  datatype Grip = Missed | Kept | Clean

  datatype Move =
    | Look(t: nat, kind: Kind)
    | Enter(t: nat, grip: Grip)
    | Undo(t: nat, grip: Grip)
    | Receive(t: nat)
    | Call(t: nat, grip: Grip)
    | Leave(t: nat, grip: Grip)

  function Connected(threads: nat): Shared {
    Shared(ConnectedIdle, seq(threads, _ => Thread([], Running)))
  }

  predicate Possible(s: Shared, a: Move) {
    a.t < |s.threads| &&
    var th := s.threads[a.t];
    match a
    case Look(_, _) => th.at.Running? && th.MayStart()
    case Enter(_, _) => th.at.Starting?
    case Undo(_, _) => th.at.Undoing?
    case Receive(_) => th.at.Running? && !th.MayStart()
    case Call(_, _) => th.at.Delivering?
    case Leave(_, _) => th.at.Running? && th.frames != []
  }

  function Swap(s: ClientState, grip: Grip, expected: ClientState, newState: ClientState): ClientState {
    if grip.Missed? then s else Cas(s, expected, newState)
  }

  /** An unsubscribe that could not take the state over makes an attempt to give it back. A callback
      is called whether or not the state could be set for it. */
  function Make(s: Shared, a: Move): Shared
    requires Possible(s, a)
  {
    var th := s.threads[a.t];
    match a
    case Look(t, kind) =>
      if kind.StartsIn(s.state) then s.(threads := s.threads[t := th.(at := Starting(kind, s.state))]) else s
    case Enter(t, grip) =>
      var kind, seen := th.at.kind, th.at.seen;
      if grip.Clean? && s.state == seen then
        Shared(kind.Marker(), s.threads[t := Thread(th.frames + [Frame(seen, kind.Marker())], Running)])
      else
        Shared(Swap(s.state, grip, seen, kind.Marker()),
               s.threads[t := th.(at := if kind.Unsubscribe? then Undoing(seen) else Running)])
    case Undo(t, grip) =>
      Shared(Swap(s.state, grip, UnsubscribeInProgress, th.at.seen), s.threads[t := th.(at := Running)])
    case Receive(t) => s.(threads := s.threads[t := th.(at := Delivering(s.state))])
    case Call(t, grip) =>
      Shared(Swap(s.state, grip, th.at.seen, WaitForCbReturn),
             s.threads[t := Thread(th.frames + [Frame(th.at.seen, WaitForCbReturn)], Running)])
    case Leave(t, grip) =>
      Shared(Swap(s.state, grip, th.Top().own, th.Top().from),
             s.threads[t := th.(frames := th.frames[..|th.frames| - 1])])
  }

  predicate AllPossible(s: Shared, moves: seq<Move>)
    decreases |moves|
  {
    moves == [] || (Possible(s, moves[0]) && AllPossible(Make(s, moves[0]), moves[1..]))
  }

  function After(s: Shared, moves: seq<Move>): Shared
    requires AllPossible(s, moves)
    decreases |moves|
  {
    if moves == [] then s else After(Make(s, moves[0]), moves[1..])
  }

  // ---- What the states are for

  predicate IsMarker(s: ClientState) {
    s.YieldInProgress? || s.PublishInProgress? || s.SubscribeInProgress? || s.UnsubscribeInProgress?
    || s.ResubscribeInProgress?
  }

  /** Operations and callbacks take turns, each on top of the state that the one below it set. */
  predicate Nested(frames: seq<Frame>) {
    frames == [] ||
    (var n := |frames| - 1;
     && Nested(frames[..n])
     && frames[n].from == (if n == 0 then ConnectedIdle else frames[n - 1].own)
     && if n % 2 == 1 then frames[n].own == WaitForCbReturn else IsMarker(frames[n].own))
  }

  predicate ThreadGood(th: Thread) {
    Nested(th.frames) &&
    match th.at
    case Running => true
    case Starting(kind, seen) =>
      && kind.StartsIn(seen)
      && (th.frames != [] ==> th.Top().own == WaitForCbReturn == seen)
    case Undoing(seen) =>
      && (seen == ConnectedIdle || seen == WaitForCbReturn)
      && (th.frames != [] ==> th.Top().own == WaitForCbReturn)
    case Delivering(seen) => th.frames != [] && th.Top().own == seen && seen != WaitForCbReturn
  }

  predicate Outside(s: Shared, t: nat)
    requires t < |s.threads|
  {
    s.threads[t].frames == []
  }

  /** At most one thread is inside an operation, and the client state is the one that its innermost
      operation or callback set; when none is inside, the client is idle. */
  ghost predicate Exclusive(s: Shared) {
    && (forall t, u :: 0 <= t < |s.threads| && 0 <= u < |s.threads| && t != u ==> Outside(s, t) || Outside(s, u))
    && (forall t :: 0 <= t < |s.threads| && !Outside(s, t) ==> s.state == s.threads[t].Top().own)
    && ((forall t :: 0 <= t < |s.threads| ==> Outside(s, t)) ==> s.state == ConnectedIdle)
  }

  ghost predicate Good(s: Shared) {
    Exclusive(s) && forall t :: 0 <= t < |s.threads| ==> ThreadGood(s.threads[t])
  }

  /** The moves that let two threads in or leave the state behind: starting an operation, from
      outside, while another thread runs a callback; giving the state back after an unsubscribe that
      could not start, while another unsubscribe is in progress; not obtaining the mutex in front of
      a callback or at an end; not releasing it at the start. */
  predicate Breaks(s: Shared, a: Move)
    requires Possible(s, a)
  {
    var th := s.threads[a.t];
    match a
    case Enter(t, grip) =>
      s.state == th.at.seen && (grip.Kept? || (grip.Clean? && th.frames == [] && s.state == WaitForCbReturn))
    case Undo(t, grip) => !grip.Missed? && s.state == UnsubscribeInProgress
    case Call(t, grip) => grip.Missed?
    case Leave(t, grip) => grip.Missed?
    case _ => false
  }

  lemma ConnectedGood(threads: nat)
    ensures Good(Connected(threads))
  {
  }

  /** A move keeps the operations apart exactly when it is not one of those. */
  lemma MoveExact(s: Shared, a: Move)
    requires Good(s) && Possible(s, a)
    ensures Breaks(s, a) ==> !Exclusive(Make(s, a))
    ensures !Breaks(s, a) ==> Good(Make(s, a))
  {
    match a
    case Look(t, kind) => LookGood(s, t, kind);
    case Enter(t, grip) => EnterGood(s, t, grip);
    case Undo(t, grip) => UndoGood(s, t, grip);
    case Receive(t) => ReceiveGood(s, t);
    case Call(t, grip) => CallGood(s, t, grip);
    case Leave(t, grip) => LeaveGood(s, t, grip);
  }

  ghost predicate OthersOutside(s: Shared, t: nat) {
    forall u :: 0 <= u < |s.threads| && u != t ==> Outside(s, u)
  }

  /** What Good says to one thread. */
  lemma View(s: Shared, t: nat)
    requires Good(s) && t < |s.threads|
    ensures ThreadGood(s.threads[t])
    ensures !Outside(s, t) ==> OthersOutside(s, t) && s.state == s.threads[t].Top().own
    ensures Outside(s, t) && OthersOutside(s, t) ==> s.state == ConnectedIdle
    ensures s.state == ConnectedIdle ==> Outside(s, t) && OthersOutside(s, t)
  {
  }

  /** A change of one thread that leaves its frames and the state alone. */
  lemma OnlyPosition(s: Shared, t: nat, at: Position)
    requires Good(s) && t < |s.threads| && ThreadGood(s.threads[t].(at := at))
    ensures Good(s.(threads := s.threads[t := s.threads[t].(at := at)]))
  {
    hide ThreadGood;
    var s' := s.(threads := s.threads[t := s.threads[t].(at := at)]);
    forall u | 0 <= u < |s.threads| ensures Outside(s', u) == Outside(s, u) {
    }
    if forall u :: 0 <= u < |s.threads| ==> Outside(s', u) {
      forall u | 0 <= u < |s.threads| ensures Outside(s, u) {
        assert Outside(s', u);
      }
    }
  }

  /** A change of one thread and the state while the others are outside. */
  lemma Alone(s: Shared, t: nat, th: Thread, state: ClientState)
    requires Good(s) && t < |s.threads| && OthersOutside(s, t) && ThreadGood(th)
    ensures state == (if th.frames == [] then ConnectedIdle else th.Top().own) <==>
            Exclusive(Shared(state, s.threads[t := th]))
    ensures Exclusive(Shared(state, s.threads[t := th])) ==> Good(Shared(state, s.threads[t := th]))
  {
    hide ThreadGood;
    var s' := Shared(state, s.threads[t := th]);
    forall u | 0 <= u < |s.threads| && u != t ensures Outside(s', u) {
      assert Outside(s, u);
    }
    if th.frames == [] {
      assert forall u :: 0 <= u < |s.threads| ==> Outside(s', u);
    } else {
      assert !Outside(s', t);
    }
  }

  /** The innermost frame. */
  lemma TopIs(frames: seq<Frame>)
    requires Nested(frames) && frames != []
    ensures var n := |frames| - 1;
            && Nested(frames[..n])
            && frames[n].own != ConnectedIdle && frames[n].own != frames[n].from
            && frames[n].from == (if n == 0 then ConnectedIdle else frames[n - 1].own)
            && (frames[n].own == WaitForCbReturn <==> |frames| % 2 == 0)
  {
  }

  lemma Push(frames: seq<Frame>, f: Frame)
    requires Nested(frames)
    requires f.from == (if frames == [] then ConnectedIdle else frames[|frames| - 1].own)
    requires if |frames| % 2 == 1 then f.own == WaitForCbReturn else IsMarker(f.own)
    ensures Nested(frames + [f])
  {
  }

  lemma LookGood(s: Shared, t: nat, kind: Kind)
    requires Good(s) && Possible(s, Look(t, kind))
    ensures Good(Make(s, Look(t, kind)))
  {
    hide Exclusive, Nested;
    View(s, t);
    if kind.StartsIn(s.state) {
      OnlyPosition(s, t, Starting(kind, s.state));
    }
  }

  lemma EnterGood(s: Shared, t: nat, grip: Grip)
    requires Good(s) && Possible(s, Enter(t, grip))
    ensures if Breaks(s, Enter(t, grip)) then !Exclusive(Make(s, Enter(t, grip))) else Good(Make(s, Enter(t, grip)))
  {
    if grip.Missed? || s.state != s.threads[t].at.seen {
      EnterRefused(s, t, grip);
    } else if grip.Kept? {
      EnterKept(s, t);
    } else {
      EnterClean(s, t);
    }
    hide Exclusive, Good, Make, Breaks, Possible;
  }

  lemma EnterRefused(s: Shared, t: nat, grip: Grip)
    requires Good(s) && Possible(s, Enter(t, grip)) && (grip.Missed? || s.state != s.threads[t].at.seen)
    ensures Good(Make(s, Enter(t, grip))) && !(Breaks(s, Enter(t, grip)))
  {
    hide Exclusive, Nested, Good;
    View(s, t);
    var at := s.threads[t].at;
    OnlyPosition(s, t, if at.kind.Unsubscribe? then Undoing(at.seen) else Running);
  }

  lemma EnterKept(s: Shared, t: nat)
    requires Good(s) && Possible(s, Enter(t, Kept)) && s.state == s.threads[t].at.seen
    ensures !Exclusive(Make(s, Enter(t, Kept))) && Breaks(s, Enter(t, Kept))
  {
    hide Exclusive, Nested, Good;
    View(s, t);
    var th := s.threads[t];
    var at := if th.at.kind.Unsubscribe? then Undoing(th.at.seen) else Running;
    StateTaken(s, t, th.(at := at), th.at.kind.Marker());
  }

  lemma EnterClean(s: Shared, t: nat)
    requires Good(s) && Possible(s, Enter(t, Clean)) && s.state == s.threads[t].at.seen
    ensures if Breaks(s, Enter(t, Clean)) then !Exclusive(Make(s, Enter(t, Clean))) else Good(Make(s, Enter(t, Clean)))
  {
    hide Exclusive, Nested, Good;
    View(s, t);
    var th := s.threads[t];
    var seen, own := th.at.seen, th.at.kind.Marker();
    var inside := Thread(th.frames + [Frame(seen, own)], Running);
    if Breaks(s, Enter(t, Clean)) {
      TwoInside(s, t, inside, own);
    } else {
      if th.frames != [] {
        TopIs(th.frames);
      }
      Push(th.frames, Frame(seen, own));
      Alone(s, t, inside, own);
    }
  }

  /** The state is set to an operation's that nobody carries out. */
  lemma StateTaken(s: Shared, t: nat, th: Thread, state: ClientState)
    requires Good(s) && t < |s.threads| && th.frames == s.threads[t].frames && state != s.state && state != ConnectedIdle
    ensures !Exclusive(Shared(state, s.threads[t := th]))
  {
  }

  /** Somebody else is inside, so nobody may come in. */
  lemma TwoInside(s: Shared, t: nat, th: Thread, state: ClientState)
    requires Good(s) && t < |s.threads| && Outside(s, t) && s.state != ConnectedIdle && th.frames != []
    ensures !Exclusive(Shared(state, s.threads[t := th]))
  {
    hide ThreadGood;
    var u :| 0 <= u < |s.threads| && !Outside(s, u);
    var s' := Shared(state, s.threads[t := th]);
    assert !Outside(s', u) && !Outside(s', t);
  }

  lemma UndoGood(s: Shared, t: nat, grip: Grip)
    requires Good(s) && Possible(s, Undo(t, grip))
    ensures if Breaks(s, Undo(t, grip)) then !Exclusive(Make(s, Undo(t, grip))) else Good(Make(s, Undo(t, grip)))
  {
    hide Exclusive, Nested, Good;
    View(s, t);
    if Breaks(s, Undo(t, grip)) {
      StateStolen(s, t, s.threads[t].(at := Running), s.threads[t].at.seen);
    } else {
      OnlyPosition(s, t, Running);
    }
  }

  /** The state is taken from under the thread that is inside. */
  lemma StateStolen(s: Shared, t: nat, th: Thread, state: ClientState)
    requires Good(s) && t < |s.threads| && Outside(s, t) && s.state != ConnectedIdle && s.state != state
    ensures !Exclusive(Shared(state, s.threads[t := th]))
  {
    hide ThreadGood;
    var u :| 0 <= u < |s.threads| && !Outside(s, u);
    var s' := Shared(state, s.threads[t := th]);
    assert !Outside(s', u) && s'.threads[u].Top().own == s.state;
  }

  lemma ReceiveGood(s: Shared, t: nat)
    requires Good(s) && Possible(s, Receive(t))
    ensures Good(Make(s, Receive(t)))
  {
    hide Exclusive, Nested, Good;
    View(s, t);
    OnlyPosition(s, t, Delivering(s.state));
  }

  lemma CallGood(s: Shared, t: nat, grip: Grip)
    requires Good(s) && Possible(s, Call(t, grip))
    ensures if Breaks(s, Call(t, grip)) then !Exclusive(Make(s, Call(t, grip))) else Good(Make(s, Call(t, grip)))
  {
    hide Exclusive, Nested, Good;
    View(s, t);
    var th := s.threads[t];
    TopIs(th.frames);
    Push(th.frames, Frame(th.at.seen, WaitForCbReturn));
    Alone(s, t, Thread(th.frames + [Frame(th.at.seen, WaitForCbReturn)], Running), Make(s, Call(t, grip)).state);
  }

  lemma LeaveGood(s: Shared, t: nat, grip: Grip)
    requires Good(s) && Possible(s, Leave(t, grip))
    ensures if Breaks(s, Leave(t, grip)) then !Exclusive(Make(s, Leave(t, grip))) else Good(Make(s, Leave(t, grip)))
  {
    hide Exclusive, Nested, Good;
    View(s, t);
    var th := s.threads[t];
    TopIs(th.frames);
    Alone(s, t, th.(frames := th.frames[..|th.frames| - 1]), Make(s, Leave(t, grip)).state);
  }

  // ---- Whole runs

  predicate NeverBreaks(s: Shared, moves: seq<Move>)
    requires AllPossible(s, moves)
    decreases |moves|
  {
    moves == [] || (!Breaks(s, moves[0]) && NeverBreaks(Make(s, moves[0]), moves[1..]))
  }

  /** Exclusive now and after every move. */
  ghost predicate AlwaysExclusive(s: Shared, moves: seq<Move>)
    requires AllPossible(s, moves)
    decreases |moves|
  {
    Exclusive(s) && (moves == [] || AlwaysExclusive(Make(s, moves[0]), moves[1..]))
  }

  lemma {:induction false} RunExact(s: Shared, moves: seq<Move>)
    requires Good(s) && AllPossible(s, moves)
    ensures AlwaysExclusive(s, moves) <==> NeverBreaks(s, moves)
    ensures NeverBreaks(s, moves) ==> Good(After(s, moves))
    decreases |moves|
  {
    hide Breaks, Exclusive, ThreadGood;
    if moves != [] {
      MoveExact(s, moves[0]);
      if !Breaks(s, moves[0]) {
        RunExact(Make(s, moves[0]), moves[1..]);
      } else if moves[1..] == [] {
        assert !AlwaysExclusive(Make(s, moves[0]), moves[1..]);
      }
    }
  }

  /** A run of any number of threads on a connected client keeps the operations apart throughout
      exactly when it makes none of the breaking moves. */
  lemma OperationsExclude(threads: nat, moves: seq<Move>)
    requires AllPossible(Connected(threads), moves)
    ensures AlwaysExclusive(Connected(threads), moves) <==> NeverBreaks(Connected(threads), moves)
    ensures NeverBreaks(Connected(threads), moves) ==> Exclusive(After(Connected(threads), moves))
  {
    hide AllPossible, NeverBreaks, AlwaysExclusive, After, Exclusive;
    ConnectedGood(threads);
    RunExact(Connected(threads), moves);
  }

  /** With one thread, at any depth of operations started from callbacks, and a mutex that is always
      obtained, the state is always the innermost one's and is restored at the end. */
  lemma {:induction false} OneThread(s: Shared, moves: seq<Move>)
    requires Good(s) && AllPossible(s, moves) && |s.threads| == 1
    requires forall a <- moves :: !a.Look? && !a.Receive? ==> a.grip.Clean?
    ensures NeverBreaks(s, moves) && Exclusive(After(s, moves))
    ensures After(s, moves).threads == [Thread([], Running)] ==> After(s, moves).state == ConnectedIdle
    decreases |moves|
  {
    hide Exclusive, Nested;
    if moves != [] {
      var a := moves[0];
      View(s, 0);
      assert a in moves;
      MoveExact(s, a);
      OneThread(Make(s, a), moves[1..]);
    } else {
      View(s, 0);
      assert OthersOutside(s, 0);
    }
  }

  // ---- Single operations, undisturbed

  /** An operation can be started from idle, and all but yield and resubscribe from a callback. */
  predicate MayBegin(s: ClientState, kind: Kind) {
    s == ConnectedIdle || (s == WaitForCbReturn && (kind.Publish? || kind.Subscribe? || kind.Unsubscribe?))
  }

  /** Where it can, an operation that nobody disturbs goes through its own state, and gives back the
      state that it found, whatever the other threads are doing. Where it cannot, nothing happens. */
  lemma OperationAlone(s: Shared, t: nat, kind: Kind)
    requires t < |s.threads| && s.threads[t].at.Running? && s.threads[t].MayStart()
    ensures var begin := [Look(t, kind), Enter(t, Clean)];
            MayBegin(s.state, kind) ==>
              && AllPossible(s, begin) && AllPossible(s, begin + [Leave(t, Clean)])
              && var m := After(s, begin);
                 && m.state == (if kind.Yield? then YieldInProgress else if kind.Publish? then PublishInProgress
                                else if kind.Subscribe? then SubscribeInProgress
                                else if kind.Unsubscribe? then UnsubscribeInProgress else ResubscribeInProgress)
                 && m.threads == s.threads[t := Thread(s.threads[t].frames + [Frame(s.state, m.state)], Running)]
                 && After(s, begin + [Leave(t, Clean)]) == s
    ensures !MayBegin(s.state, kind) ==> AllPossible(s, [Look(t, kind)]) && After(s, [Look(t, kind)]) == s
  {
    hide AllPossible, After;
    if MayBegin(s.state, kind) {
      var th := s.threads[t];
      var s1 := Put(s, t, th.(at := Starting(kind, s.state)), s.state);
      var s2 := Put(s, t, Thread(th.frames + [Frame(s.state, kind.Marker())], Running), kind.Marker());
      NoMoves(s);
      NoMoves(s2);
      OneMove(s2, Leave(t, Clean), [], s);
      OneMove(s1, Enter(t, Clean), [Leave(t, Clean)] + [], s2);
      OneMove(s1, Enter(t, Clean), [], s2);
      OneMove(s, Look(t, kind), [Enter(t, Clean)] + ([Leave(t, Clean)] + []), s1);
      OneMove(s, Look(t, kind), [Enter(t, Clean)] + [], s1);
      hide Make, Possible, MayBegin;
      assert [Look(t, kind)] + ([Enter(t, Clean)] + []) == [Look(t, kind), Enter(t, Clean)];
      assert [Look(t, kind)] + ([Enter(t, Clean)] + ([Leave(t, Clean)] + []))
          == [Look(t, kind), Enter(t, Clean)] + [Leave(t, Clean)];
    } else {
      NoMoves(s);
      OneMove(s, Look(t, kind), [], s);
      assert [Look(t, kind)] + [] == [Look(t, kind)];
    }
  }

  /** An operation that misses the mutex at its start, and an unsubscribe that then tries to give the
      state back, leave everything as it was. */
  lemma MissedStart(s: Shared, t: nat, kind: Kind, grip: Grip)
    requires t < |s.threads| && s.threads[t].at.Running? && s.threads[t].MayStart() && MayBegin(s.state, kind)
    ensures var moves := [Look(t, kind), Enter(t, Missed)] + (if kind.Unsubscribe? then [Undo(t, grip)] else []);
            AllPossible(s, moves) && After(s, moves) == s
  {
    hide AllPossible, After;
    var th := s.threads[t];
    var s1 := Put(s, t, th.(at := Starting(kind, s.state)), s.state);
    NoMoves(s);
    var rest := if kind.Unsubscribe? then [Undo(t, grip)] else [];
    if kind.Unsubscribe? {
      var s2 := Put(s, t, th.(at := Undoing(s.state)), s.state);
      OneMove(s2, Undo(t, grip), [], s);
      assert [Undo(t, grip)] + [] == rest;
      OneMove(s1, Enter(t, Missed), rest, s2);
    } else {
      OneMove(s1, Enter(t, Missed), rest, s);
    }
    OneMove(s, Look(t, kind), [Enter(t, Missed)] + rest, s1);
    hide Make, Possible, MayBegin;
    assert [Look(t, kind)] + ([Enter(t, Missed)] + rest) == [Look(t, kind), Enter(t, Missed)] + rest;
  }

  /** A callback inside an operation, undisturbed: it runs in the state that waits for its return, may
      start an operation there, and the state before it is given back. */
  lemma CallbackAlone(s: Shared, t: nat)
    requires t < |s.threads| && s.threads[t].at.Running? && !s.threads[t].MayStart()
    ensures var begin := [Receive(t), Call(t, Clean)];
            && AllPossible(s, begin) && AllPossible(s, begin + [Leave(t, Clean)])
            && After(s, begin + [Leave(t, Clean)]) == s
            && var m, inside := After(s, begin), Thread(s.threads[t].frames + [Frame(s.state, WaitForCbReturn)], Running);
               m.state == WaitForCbReturn && m.threads == s.threads[t := inside] && inside.MayStart()
  {
    hide AllPossible, After;
    var th := s.threads[t];
    var s1 := Put(s, t, th.(at := Delivering(s.state)), s.state);
    var s2 := Put(s, t, Thread(th.frames + [Frame(s.state, WaitForCbReturn)], Running), WaitForCbReturn);
    NoMoves(s);
    NoMoves(s2);
    OneMove(s2, Leave(t, Clean), [], s);
    OneMove(s1, Call(t, Clean), [Leave(t, Clean)] + [], s2);
    OneMove(s1, Call(t, Clean), [], s2);
    OneMove(s, Receive(t), [Call(t, Clean)] + ([Leave(t, Clean)] + []), s1);
    OneMove(s, Receive(t), [Call(t, Clean)] + [], s1);
    hide Make, Possible;
    assert [Receive(t)] + ([Call(t, Clean)] + []) == [Receive(t), Call(t, Clean)];
    assert [Receive(t)] + ([Call(t, Clean)] + ([Leave(t, Clean)] + [])) == [Receive(t), Call(t, Clean)] + [Leave(t, Clean)];
  }

  function Put(s: Shared, t: nat, th: Thread, state: ClientState): Shared
    requires t < |s.threads|
  {
    Shared(state, s.threads[t := th])
  }

  lemma NoMoves(s: Shared)
    ensures AllPossible(s, []) && After(s, []) == s
  {
  }

  // ---- The breaking moves happen

  lemma OneMove(s: Shared, a: Move, rest: seq<Move>, next: Shared)
    requires Possible(s, a) && AllPossible(next, rest) && |next.threads| == |s.threads|
    requires var m := Make(s, a);
             && m.state == next.state
             && m.threads[a.t].frames == next.threads[a.t].frames && m.threads[a.t].at == next.threads[a.t].at
    requires forall u :: 0 <= u < |s.threads| && u != a.t ==> next.threads[u] == s.threads[u]
    ensures AllPossible(s, [a] + rest) && After(s, [a] + rest) == After(next, rest)
  {
    assert ([a] + rest)[1..] == rest;
    assert Make(s, a).threads == next.threads;
  }

  lemma Beginning()
    ensures Connected(1) == Shared(ConnectedIdle, [Thread([], Running)])
    ensures Connected(2) == Shared(ConnectedIdle, [Thread([], Running), Thread([], Running)])
  {
  }

  const DURING_CALLBACK: seq<Move> :=
    [Look(1, Publish), Enter(1, Clean), Leave(0, Clean), Leave(0, Clean), Leave(1, Clean)]
  const YIELDING: Frame := Frame(ConnectedIdle, YieldInProgress)
  const WAITING: Frame := Frame(YieldInProgress, WaitForCbReturn)

  /** While one thread runs a callback inside its yield, another starts a publish. Each side ends by
      giving the state back, yet when no thread is inside any more the client still claims to wait
      for a callback, and yield, which starts only from idle, can no longer be started. */
  lemma CallbackLeftBehind()
    ensures var moves := [Look(0, Yield), Enter(0, Clean), Receive(0), Call(0, Clean)] + DURING_CALLBACK;
            var s := Connected(2);
            && AllPossible(s, moves)
            && After(s, moves) == Shared(WaitForCbReturn, [Thread([], Running), Thread([], Running)])
  {
    hide AllPossible, After;
    Beginning();
    var s0 := Shared(ConnectedIdle, [Thread([], Running), Thread([], Running)]);
    var s1 := Shared(ConnectedIdle, [Thread([], Starting(Yield, ConnectedIdle)), Thread([], Running)]);
    var s2 := Shared(YieldInProgress, [Thread([YIELDING], Running), Thread([], Running)]);
    var s3 := Shared(YieldInProgress, [Thread([YIELDING], Delivering(YieldInProgress)), Thread([], Running)]);
    var s4 := Shared(WaitForCbReturn, [Thread([YIELDING, WAITING], Running), Thread([], Running)]);
    hide DURING_CALLBACK;
    var r4 := DURING_CALLBACK;
    var r3 := [Call(0, Clean)] + r4;
    var r2 := [Receive(0)] + r3;
    var r1 := [Enter(0, Clean)] + r2;
    PublishDuringCallback();
    OneMove(s3, Call(0, Clean), r4, s4);
    OneMove(s2, Receive(0), r3, s3);
    OneMove(s1, Enter(0, Clean), r2, s2);
    OneMove(s0, Look(0, Yield), r1, s1);
    assert [Look(0, Yield)] + r1 == [Look(0, Yield), Enter(0, Clean), Receive(0), Call(0, Clean)] + r4;
  }

  lemma PublishDuringCallback()
    ensures var moves := DURING_CALLBACK;
            var s := Shared(WaitForCbReturn, [Thread([YIELDING, WAITING], Running), Thread([], Running)]);
            && AllPossible(s, moves)
            && After(s, moves) == Shared(WaitForCbReturn, [Thread([], Running), Thread([], Running)])
  {
  }

  /** Of two threads that unsubscribe at once, the second finds the state taken and then gives it
      back, which succeeds: the client is idle while the first thread is still unsubscribing. */
  lemma UnsubscribeStolen()
    ensures var moves := [Look(0, Unsubscribe), Look(1, Unsubscribe), Enter(0, Clean), Enter(1, Clean),
                            Undo(1, Clean)];
            var s := Connected(2);
            && AllPossible(s, moves)
            && After(s, moves).state == ConnectedIdle
            && After(s, moves).threads[0].frames == [Frame(ConnectedIdle, UnsubscribeInProgress)]
  {
  }

  /** A single publish that does not obtain the mutex at its end leaves the client publishing forever. */
  lemma StuckWithoutMutex()
    ensures var moves := [Look(0, Publish), Enter(0, Clean), Leave(0, Missed)];
            var s := Connected(1);
            && AllPossible(s, moves)
            && After(s, moves) == Shared(PublishInProgress, [Thread([], Running)])
  {
  }
}
