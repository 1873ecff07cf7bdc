/**
 The table of message handlers under subscribe, unsubscribe and resubscribe. While one of
 them waits for its acknowledgement, arriving messages run callbacks, and those may subscribe
 and unsubscribe in turn; an operation therefore comes with the operations that callbacks
 perform during its wait. Whether its packets get through is an input.
 */
module Subscriptions {
  import opened ClientSpec

  datatype Op =
    | Subscribe(topic: string, topicNameLen: nat, acked: bool, during: seq<Op>)
    | Unsubscribe(topic: string, acked: bool, during: seq<Op>)

  type Table = seq<Handler>

  const UNUSED: Handler := Handler(None, 0, false)

  /** The first free slot, or the size of the table. */
  function FreeIndex(t: Table): (i: nat)
    ensures i <= |t|
    ensures i < |t| ==> t[i].topic.None?
    ensures forall k :: 0 <= k < i ==> t[k].topic.Some?
  {
    if t == [] || t[0].topic.None? then 0
    else
      var j := FreeIndex(t[1..]);
      assert forall k :: 0 < k <= j ==> t[k] == t[1..][k - 1];
      1 + j
  }

  predicate Holds(t: Table, topic: string) {
    exists i :: 0 <= i < |t| && t[i].topic == Some(topic)
  }

  /** Every slot with the topic is emptied. */
  function Without(t: Table, topic: string): (r: Table)
    ensures |r| == |t|
    ensures forall i :: 0 <= i < |t| ==> r[i] == if t[i].topic == Some(topic) then t[i].(topic := None) else t[i]
  {
    seq(|t|, i requires 0 <= i < |t| => if t[i].topic == Some(topic) then t[i].(topic := None) else t[i])
  }

  /** What an operation makes of the table. The slot is chosen before the wait, and written after it. */
  function Apply(t: Table, op: Op): (r: Table)
    ensures |r| == |t|
    decreases op
  {
    match op
    case Subscribe(topic, len, acked, during) =>
      var i := FreeIndex(t);
      if i == |t| then t
      else
        var u := ApplyAll(t, during);
        if acked then u[i := Handler(Some(topic), len, true)] else u
    case Unsubscribe(topic, acked, during) =>
      if !Holds(t, topic) then t
      else
        var u := ApplyAll(t, during);
        if acked then Without(u, topic) else u
  }

  function ApplyAll(t: Table, ops: seq<Op>): (r: Table)
    ensures |r| == |t|
    decreases ops
  {
    if ops == [] then t else ApplyAll(Apply(t, ops[0]), ops[1..])
  }

  class HandlerTable {
    const slots: array<Handler>

    constructor ()
      ensures slots[..] == seq(NUM_SUBSCRIBE_HANDLERS, _ => UNUSED)
      ensures fresh(slots)
    {
      slots := new Handler[NUM_SUBSCRIBE_HANDLERS](_ => UNUSED);
    }

    method GetFreeMessageHandlerIndex() returns (i: nat)
      ensures i == FreeIndex(slots[..])
    {
      i := 0;
      while i < slots.Length
        invariant i <= slots.Length
        invariant forall k :: 0 <= k < i ==> slots[k].topic.Some?
      {
        if slots[i].topic.None? {
          break;
        }
        i := i + 1;
      }
    }

    method Remove(topic: string)
      modifies slots
      ensures slots[..] == Without(old(slots[..]), topic)
    {
      for i := 0 to slots.Length
        invariant slots[..i] == Without(old(slots[..]), topic)[..i]
        invariant slots[i..] == old(slots[..])[i..]
      {
        if slots[i].topic == Some(topic) {
          slots[i] := slots[i].(topic := None);
        }
      }
    }

    method Exists(topic: string) returns (found: bool)
      ensures found == Holds(slots[..], topic)
    {
      found := false;
      for i := 0 to slots.Length
        invariant found == exists k :: 0 <= k < i && slots[k].topic == Some(topic)
      {
        if slots[i].topic == Some(topic) {
          found := true;
        }
      }
    }

    /** One operation with everything that happens during its wait. */
    method Perform(op: Op)
      modifies slots
      ensures slots[..] == Apply(old(slots[..]), op)
      decreases op
    {
      match op
      case Subscribe(topic, len, acked, during) =>
        var i := GetFreeMessageHandlerIndex();
        if i < slots.Length {
          PerformAll(during);
          if acked {
            slots[i] := Handler(Some(topic), len, true);
          }
        }
      case Unsubscribe(topic, acked, during) =>
        var found := Exists(topic);
        if found {
          PerformAll(during);
          if acked {
            Remove(topic);
          }
        }
    }

    method PerformAll(ops: seq<Op>)
      modifies slots
      ensures slots[..] == ApplyAll(old(slots[..]), ops)
      decreases ops
    {
      if ops != [] {
        Perform(ops[0]);
        PerformAll(ops[1..]);
      }
    }

    /** Each slot before the first free one is subscribed again, until an exchange fails or a slot has
        been emptied. How many there are is settled before. */
    method Resubscribe(exchanges: seq<Exchange>) returns (outcome: Outcome, requested: seq<Handler>)
      modifies slots
      ensures Resubscribed(outcome, requested, slots[..])
           == Resub(old(slots[..]), FreeIndex(old(slots[..])), 0, exchanges)
    {
      hide FreeIndex, ApplyAll;
      requested := [];
      var existing := GetFreeMessageHandlerIndex();
      ghost var goal := Resub(slots[..], existing, 0, exchanges);
      assert exchanges[0..] == exchanges;
      for i := 0 to existing
        invariant i <= |exchanges|
        invariant var r := Resub(slots[..], existing, i, exchanges[i..]);
                  Resubscribed(r.outcome, requested + r.requested, r.table) == goal
      {
        ResubStep(slots[..], existing, i, exchanges, requested);
        if slots[i].topic.None? {
          return NullTopic, requested;
        }
        requested := requested + [slots[i]];
        if i == |exchanges| {
          return ExchangeFailed, requested;
        }
        PerformAll(exchanges[i].during);
        if !exchanges[i].acked {
          return ExchangeFailed, requested;
        }
      }
      assert requested + [] == requested;
      return AllRequested, requested;
    }
  }

  // ---- Subscribing again

  /** The exchange of a request: whether it succeeds, and what callbacks do during its wait. */
  datatype Exchange = Exchange(acked: bool, during: seq<Op>)

  /** `NullTopic`: the topic of a slot that has been emptied meanwhile is written into the packet. */
  datatype Outcome = AllRequested | ExchangeFailed | NullTopic

  datatype Resubscribed = Resubscribed(outcome: Outcome, requested: seq<Handler>, table: Table)

  function Resub(t: Table, existing: nat, i: nat, exchanges: seq<Exchange>): Resubscribed
    requires i <= existing <= |t|
    decreases existing - i
  {
    if i == existing then Resubscribed(AllRequested, [], t)
    else if t[i].topic.None? then Resubscribed(NullTopic, [], t)
    else if exchanges == [] then Resubscribed(ExchangeFailed, [t[i]], t)
    else
      var u := ApplyAll(t, exchanges[0].during);
      if !exchanges[0].acked then Resubscribed(ExchangeFailed, [t[i]], u)
      else
        var r := Resub(u, existing, i + 1, exchanges[1..]);
        r.(requested := [t[i]] + r.requested)
  }

  lemma ResubStep(t: Table, existing: nat, i: nat, exchanges: seq<Exchange>, done: seq<Handler>)
    requires i < existing <= |t| && i <= |exchanges|
    ensures var r := Resub(t, existing, i, exchanges[i..]);
            if t[i].topic.None? then r == Resubscribed(NullTopic, [], t) && done + r.requested == done
            else if i == |exchanges| then r == Resubscribed(ExchangeFailed, [t[i]], t)
            else
              var u := ApplyAll(t, exchanges[i].during);
              if !exchanges[i].acked then r == Resubscribed(ExchangeFailed, [t[i]], u)
              else
                var next := Resub(u, existing, i + 1, exchanges[i + 1..]);
                && r == next.(requested := [t[i]] + next.requested)
                && done + r.requested == (done + [t[i]]) + next.requested
  {
    hide ApplyAll;
    if i < |exchanges| {
      assert exchanges[i..][1..] == exchanges[i + 1..];
    }
  }

  /** The table after `n` exchanges. */
  function TableAfter(t: Table, exchanges: seq<Exchange>, n: nat): (u: Table)
    requires n <= |exchanges|
    ensures |u| == |t|
  {
    if n == 0 then t else ApplyAll(TableAfter(t, exchanges, n - 1), exchanges[n - 1].during)
  }

  /** The first `n` exchanges succeed. */
  predicate Answered(exchanges: seq<Exchange>, n: nat) {
    n <= |exchanges| && forall k :: 0 <= k < n ==> exchanges[k].acked
  }

  /** Each request, from slot `i` on, is for what its slot holds when its turn comes. */
  predicate AsFound(t: Table, exchanges: seq<Exchange>, requested: seq<Handler>, i: nat)
    decreases |requested|
  {
    requested == [] ||
    (&& i <= |exchanges| && i < |t| && requested[0] == TableAfter(t, exchanges, i)[i] && requested[0].topic.Some?
     && AsFound(t, exchanges, requested[1..], i + 1))
  }

  lemma {:induction false} AsFoundAt(t: Table, exchanges: seq<Exchange>, requested: seq<Handler>, i: nat, k: nat)
    requires AsFound(t, exchanges, requested, i) && k < |requested|
    ensures i + k <= |exchanges| && i + k < |t| && requested[k] == TableAfter(t, exchanges, i + k)[i + k]
    decreases |requested|
  {
    hide TableAfter;
    if k > 0 {
      AsFoundAt(t, exchanges, requested[1..], i + 1, k - 1);
    }
  }

  /** With `n` requests made, subscribing again ends with this outcome and this table: all slots have
      been requested, the next one is found empty, or the last request failed. */
  ghost predicate Ends(t: Table, existing: nat, exchanges: seq<Exchange>, outcome: Outcome, n: nat, table: Table) {
    && n <= existing <= |t| && n <= |exchanges| + 1
    && (outcome == AllRequested <==> n == existing && Answered(exchanges, n))
    && (outcome == NullTopic <==>
          n < existing && Answered(exchanges, n) && TableAfter(t, exchanges, n)[n].topic.None?)
    && (outcome == ExchangeFailed <==> n > 0 && !Answered(exchanges, n))
    && (n > 0 ==> Answered(exchanges, n - 1))
    && table == TableAfter(t, exchanges, if n <= |exchanges| then n else |exchanges|)
  }

  lemma {:induction false} ResubFrom(t: Table, exchanges: seq<Exchange>, existing: nat, i: nat)
    requires i <= existing <= |t| && Answered(exchanges, i)
    ensures var r := Resub(TableAfter(t, exchanges, i), existing, i, exchanges[i..]);
            && AsFound(t, exchanges, r.requested, i)
            && Ends(t, existing, exchanges, r.outcome, i + |r.requested|, r.table)
    decreases existing - i
  {
    hide ApplyAll, Ends, TableAfter;
    var u := TableAfter(t, exchanges, i);
    if i < existing && u[i].topic.Some? && i < |exchanges| && exchanges[i].acked {
      OneExchange(t, exchanges, i);
      ResubFrom(t, exchanges, existing, i + 1);
      assert exchanges[i..][1..] == exchanges[i + 1..];
    } else {
      EndsHere(t, exchanges, existing, i);
    }
  }

  lemma OneExchange(t: Table, exchanges: seq<Exchange>, i: nat)
    requires i < |exchanges|
    ensures TableAfter(t, exchanges, i + 1) == ApplyAll(TableAfter(t, exchanges, i), exchanges[i].during)
    ensures Answered(exchanges, i) && exchanges[i].acked ==> Answered(exchanges, i + 1)
  {
    hide ApplyAll;
  }

  lemma EndsHere(t: Table, exchanges: seq<Exchange>, existing: nat, i: nat)
    requires i <= existing <= |t| && Answered(exchanges, i)
    requires i == existing || TableAfter(t, exchanges, i)[i].topic.None? || i == |exchanges| || !exchanges[i].acked
    ensures var r := Resub(TableAfter(t, exchanges, i), existing, i, exchanges[i..]);
            && AsFound(t, exchanges, r.requested, i)
            && Ends(t, existing, exchanges, r.outcome, i + |r.requested|, r.table)
  {
    hide ApplyAll, TableAfter;
    var r := Resub(TableAfter(t, exchanges, i), existing, i, exchanges[i..]);
    if i < |exchanges| {
      OneExchange(t, exchanges, i);
    }
    assert r.requested != [] ==> r.requested[1..] == [];
  }

  /** For every behaviour of callbacks during the waits: each request is for what the slot then holds;
      all slots before the first free one are requested exactly if as many exchanges succeed and no
      slot is found empty; a slot is found empty exactly if callbacks have emptied it before its turn,
      all exchanges up to then having succeeded; and otherwise the last request is the one that
      failed. The table is as the callbacks have left it. */
  lemma ResubscribeExact(t: Table, exchanges: seq<Exchange>)
    ensures var existing := FreeIndex(t);
            var r := Resub(t, existing, 0, exchanges);
            var n := |r.requested|;
            && Ends(t, existing, exchanges, r.outcome, n, r.table)
            && (forall k :: 0 <= k < n ==> k <= |exchanges| && r.requested[k] == TableAfter(t, exchanges, k)[k])
  {
    assert exchanges[0..] == exchanges;
    ResubFrom(t, exchanges, FreeIndex(t), 0);
    var r := Resub(t, FreeIndex(t), 0, exchanges).requested;
    forall k | 0 <= k < |r| ensures k <= |exchanges| && r[k] == TableAfter(t, exchanges, k)[k] {
      AsFoundAt(t, exchanges, r, 0, k);
    }
    hide Resub, TableAfter, AsFound, Ends;
  }

  lemma SameSlots(t: Table, u: Table, i: nat, existing: nat)
    requires i < existing <= |t| == |u| && forall k :: 0 <= k < existing ==> u[k] == t[k]
    ensures t[i..existing] == [t[i]] + u[i + 1..existing]
  {
  }

  /** As long as callbacks only subscribe, the requests are for the handlers there were. */
  lemma {:induction false} ResubscribeUndisturbed(t: Table, existing: nat, i: nat, exchanges: seq<Exchange>)
    requires i <= existing <= |t| && (forall k :: 0 <= k < existing ==> t[k].topic.Some?)
    requires forall e <- exchanges :: OnlySubscribes(e.during)
    ensures var r := Resub(t, existing, i, exchanges);
            r.outcome != NullTopic && r.requested <= t[i..existing]
            && (r.outcome == AllRequested ==> r.requested == t[i..existing])
    decreases existing - i
  {
    if i < existing && exchanges != [] {
      var u := ApplyAll(t, exchanges[0].during);
      assert exchanges[0] in exchanges;
      SubscribesFill(t, exchanges[0].during);
      hide FreeIndex, ApplyAll, OnlySubscribes;
      ResubscribeUndisturbed(u, existing, i + 1, exchanges[1..]);
      SameSlots(t, u, i, existing);
    }
  }

  /** A callback that unsubscribes at the wrong time: the second slot is emptied while the first one's
      request waits. */
  lemma EmptiedMeanwhile()
    ensures var t: Table := [Handler(Some("a"), 1, true), Handler(Some("b"), 1, true), UNUSED, UNUSED, UNUSED];
            FreeIndex(t) == 2 &&
            Resub(t, 2, 0, [Exchange(true, [Unsubscribe("b", true, [])]), Exchange(true, [])]).outcome == NullTopic
  {
    var t: Table := [Handler(Some("a"), 1, true), Handler(Some("b"), 1, true), UNUSED, UNUSED, UNUSED];
    var off := Unsubscribe("b", true, []);
    assert t[1].topic == Some("b");
    assert Apply(t, off) == Without(t, "b");
    assert [off][1..] == [];
    assert ApplyAll(t, [off]) == Without(t, "b");
    assert FreeIndex(t[2..]) == 0 && FreeIndex(t[1..][1..]) == 0;
    var es := [Exchange(true, [off]), Exchange(true, [])];
    assert Resub(Without(t, "b"), 2, 1, es[1..]).outcome == NullTopic;
  }

  // ---- Holes

  /** No used slot lies behind a free one. */
  predicate Compact(t: Table) {
    forall i :: FreeIndex(t) <= i < |t| ==> t[i].topic.None?
  }

  /** Resubscribe reaches all registered handlers, if every exchange succeeds, exactly when the table
      has no hole. */
  lemma ResubscribeReaches(t: Table)
    ensures Compact(t) <==> forall i :: 0 <= i < |t| && t[i].topic.Some? ==> i < FreeIndex(t)
    ensures !Compact(t) <==> exists i, j :: 0 <= i < j < |t| && t[i].topic.None? && t[j].topic.Some?
  {
  }

  /** An undisturbed subscription makes no hole. */
  lemma SubscribeCompact(t: Table, topic: string, len: nat)
    requires Compact(t)
    ensures Compact(Apply(t, Subscribe(topic, len, true, [])))
  {
  }

  /** An unsubscribe makes a hole exactly when a handler that stays lies behind one that goes. */
  lemma HolesExactly(t: Table, topic: string)
    requires Compact(t)
    ensures Compact(Without(t, topic)) <==>
            forall i, j :: 0 <= i < j < |t| && t[i].topic == Some(topic) && t[j].topic.Some? ==>
              t[j].topic == Some(topic)
  {
  }

  /** A table with a hole comes about: of two subscriptions the first is cancelled, and after a
      reconnection resubscribe asks for nothing, although a handler is still registered. */
  lemma ResubscribeMissesOne()
    ensures var empty := seq(NUM_SUBSCRIBE_HANDLERS, _ => UNUSED);
            var t := ApplyAll(empty, [Subscribe("a", 1, true, []), Subscribe("b", 1, true, []), Unsubscribe("a", true, [])]);
            FreeIndex(t) == 0 && t[1] == Handler(Some("b"), 1, true)
  {
  }

  // ---- Waiting

  /** No operation of the tree unsubscribes. */
  predicate OnlySubscribes(ops: seq<Op>) {
    forall op <- ops :: op.Subscribe? && OnlySubscribes(op.during)
  }

  /** No operation of the tree is acknowledged. */
  predicate NoneAcked(ops: seq<Op>) {
    forall op <- ops :: !op.acked && NoneAcked(op.during)
  }

  /** Used slots stay as they are, and the first free one stays free exactly when nothing is
      acknowledged. */
  lemma {:induction false} SubscribesFill(t: Table, ops: seq<Op>)
    requires OnlySubscribes(ops)
    ensures forall j :: 0 <= j < |t| && t[j].topic.Some? ==> ApplyAll(t, ops)[j] == t[j]
    ensures FreeIndex(t) < |t| ==> (ApplyAll(t, ops)[FreeIndex(t)].topic.None? <==> NoneAcked(ops))
    decreases ops
  {
    if ops != [] {
      var op, u := ops[0], Apply(t, ops[0]);
      assert op in ops;
      SubscribesFill(t, op.during);
      SubscribesFill(u, ops[1..]);
      var i := FreeIndex(t);
      if i < |t| {
        assert u[i].topic.None? <==> !op.acked && NoneAcked(op.during);
        if u[i].topic.None? {
          assert FreeIndex(u) == i;
        }
        assert NoneAcked(ops) <==> !op.acked && NoneAcked(op.during) && NoneAcked(ops[1..]) by {
          assert ops == [op] + ops[1..];
        }
      }
    }
  }

  /** What happens to the table in the end: a slot is written, or a topic is cleared. */
  datatype Event = Write(slot: nat, handler: Handler) | Clear(topic: string)

  function Effect(t: Table, e: Event): (r: Table)
    ensures |r| == |t|
  {
    match e
    case Write(slot, h) => if slot < |t| then t[slot := h] else t
    case Clear(topic) => Without(t, topic)
  }

  function Effects(t: Table, es: seq<Event>): (r: Table)
    ensures |r| == |t|
  {
    if es == [] then t else Effect(Effects(t, es[..|es| - 1]), es[|es| - 1])
  }

  /** The events of an operation in their order: those of its wait, then its own. */
  function EventsOf(t: Table, op: Op): seq<Event>
    decreases op
  {
    match op
    case Subscribe(topic, len, acked, during) =>
      if FreeIndex(t) == |t| then []
      else EventsOfAll(t, during) + if acked then [Write(FreeIndex(t), Handler(Some(topic), len, true))] else []
    case Unsubscribe(topic, acked, during) =>
      if !Holds(t, topic) then [] else EventsOfAll(t, during) + if acked then [Clear(topic)] else []
  }

  function EventsOfAll(t: Table, ops: seq<Op>): seq<Event>
    decreases ops
  {
    if ops == [] then [] else EventsOf(t, ops[0]) + EventsOfAll(Apply(t, ops[0]), ops[1..])
  }

  lemma {:induction false} EffectsConcat(t: Table, es: seq<Event>, fs: seq<Event>)
    ensures Effects(t, es + fs) == Effects(Effects(t, es), fs)
    decreases |fs|
  {
    if fs == [] {
      assert es + fs == es;
    } else {
      assert (es + fs)[..|es + fs| - 1] == es + fs[..|fs| - 1];
      EffectsConcat(t, es, fs[..|fs| - 1]);
    }
  }

  /** The operations do to the table what their events do, one after another. */
  lemma {:induction false} ApplyIsEffects(t: Table, op: Op)
    ensures Apply(t, op) == Effects(t, EventsOf(t, op))
    decreases op
  {
    hide FreeIndex, Without, Holds, Effect, Effects;
    ApplyAllIsEffects(t, op.during);
    match op
    case Subscribe(topic, len, acked, during) =>
      OneMoreEffect(t, EventsOfAll(t, during), Write(FreeIndex(t), Handler(Some(topic), len, true)));
    case Unsubscribe(topic, acked, during) =>
      OneMoreEffect(t, EventsOfAll(t, during), Clear(topic));
  }

  lemma OneMoreEffect(t: Table, es: seq<Event>, e: Event)
    ensures Effects(t, es + [e]) == Effect(Effects(t, es), e)
    ensures es + [] == es && Effects(t, []) == t
    ensures e.Write? && e.slot < |t| ==> Effect(Effects(t, es), e) == Effects(t, es)[e.slot := e.handler]
    ensures e.Clear? ==> Effect(Effects(t, es), e) == Without(Effects(t, es), e.topic)
  {
  }

  lemma {:induction false} ApplyAllIsEffects(t: Table, ops: seq<Op>)
    ensures ApplyAll(t, ops) == Effects(t, EventsOfAll(t, ops))
    decreases ops
  {
    if ops != [] {
      ApplyIsEffects(t, ops[0]);
      ApplyAllIsEffects(Apply(t, ops[0]), ops[1..]);
      EffectsConcat(t, EventsOf(t, ops[0]), EventsOfAll(Apply(t, ops[0]), ops[1..]));
    }
  }

  /** Event `k` writes slot `i`, and nothing after it writes the slot or clears the topic written. */
  ghost predicate Lasts(es: seq<Event>, k: int, i: nat) {
    && 0 <= k < |es| && es[k].Write? && es[k].slot == i && es[k].handler.topic.Some?
    && forall m :: k < m < |es| ==>
         && !(es[m].Write? && es[m].slot == i)
         && !(es[m].Clear? && es[k].handler.topic == Some(es[m].topic))
  }

  /** A free slot is used after some events exactly when such a write is among them, and then it
      holds what was written. */
  lemma {:induction false} SlotAfter(t: Table, es: seq<Event>, i: nat)
    requires i < |t| && t[i].topic.None? && forall e <- es :: e.Write? ==> e.handler.topic.Some?
    ensures Effects(t, es)[i].topic.Some? <==> exists k :: Lasts(es, k, i)
    ensures forall k :: Lasts(es, k, i) ==> Effects(t, es)[i] == es[k].handler
    decreases |es|
  {
    hide Without, FreeIndex;
    if es != [] {
      var n := |es| - 1;
      var front := es[..n];
      assert forall e <- front :: e in es;
      assert es[n] in es;
      SlotAfter(t, front, i);
      forall k | Lasts(es, k, i) ensures Effects(t, es)[i] == es[k].handler {
        if k < n {
          LastsBefore(es, k, i);
        }
      }
      if es[n].Write? && es[n].slot == i {
        assert Lasts(es, n, i);
      } else if Effects(t, es)[i].topic.Some? {
        var k :| Lasts(front, k, i);
        assert Effects(t, front)[i] == front[k].handler;
        assert Lasts(es, k, i);
      }
    }
  }

  lemma LastsBefore(es: seq<Event>, k: int, i: nat)
    requires Lasts(es, k, i) && k < |es| - 1
    ensures Lasts(es[..|es| - 1], k, i)
    ensures var e := es[|es| - 1];
            !(e.Write? && e.slot == i) && !(e.Clear? && es[k].handler.topic == Some(e.topic))
  {
  }

  lemma {:induction false} WritesHandlers(t: Table, op: Op)
    ensures forall e <- EventsOf(t, op) :: e.Write? ==> e.handler.topic.Some?
    decreases op
  {
    AllWriteHandlers(t, op.during);
  }

  lemma {:induction false} AllWriteHandlers(t: Table, ops: seq<Op>)
    ensures forall e <- EventsOfAll(t, ops) :: e.Write? ==> e.handler.topic.Some?
    decreases ops
  {
    if ops != [] {
      WritesHandlers(t, ops[0]);
      AllWriteHandlers(Apply(t, ops[0]), ops[1..]);
    }
  }

  /** The slot is chosen before the wait. Whatever callbacks subscribe to and unsubscribe from
      meanwhile, to any depth, an acknowledged subscription changes nothing but that slot; and it
      overwrites a handler there exactly when one of their subscriptions was written to the slot, and
      neither another was nor its topic was cleared from then on. */
  lemma {:induction false} WaitKeeps(t: Table, topic: string, len: nat, during: seq<Op>)
    requires FreeIndex(t) < |t|
    ensures var i, u, r := FreeIndex(t), ApplyAll(t, during), Apply(t, Subscribe(topic, len, true, during));
            && r == u[i := Handler(Some(topic), len, true)]
            && (u[i].topic.Some? <==> exists k :: Lasts(EventsOfAll(t, during), k, i))
            && (forall k :: Lasts(EventsOfAll(t, during), k, i) ==> u[i] == EventsOfAll(t, during)[k].handler)
  {
    ApplyAllIsEffects(t, during);
    AllWriteHandlers(t, during);
    SlotAfter(t, EventsOfAll(t, during), FreeIndex(t));
  }

  /** Such a loss: a callback subscribes to "b" while a subscription to "a" waits; both are
      acknowledged, and no handler for "b" is left. */
  lemma HandlerOverwritten()
    ensures var empty: Table := seq(NUM_SUBSCRIBE_HANDLERS, _ => UNUSED);
            var r := Apply(empty, Subscribe("a", 1, true, [Subscribe("b", 1, true, [])]));
            Holds(r, "a") && !Holds(r, "b")
  {
    var t: Table := seq(NUM_SUBSCRIBE_HANDLERS, _ => UNUSED);
    var b := Subscribe("b", 1, true, []);
    assert FreeIndex(t) == 0;
    assert Apply(t, b) == t[0 := Handler(Some("b"), 1, true)];
    assert [b][1..] == [] && ApplyAll(Apply(t, b), []) == Apply(t, b);
    assert ApplyAll(t, [b]) == Apply(t, b);
    var r := Apply(t, Subscribe("a", 1, true, [b]));
    assert r == t[0 := Handler(Some("a"), 1, true)];
    assert r[0].topic == Some("a");
    assert "a"[0] != "b"[0];
  }
}
