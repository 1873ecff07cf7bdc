/**
 The handshake between a push button's callback and the publishing thread of the starter
 demo. Both share two volatile counters and no lock. A step is a single read or a single
 write of one counter; the steps of the two interleave in every order, and the two reads of
 a comparison may come in either order, as C leaves it open.

 The counters are `uint32_t`. `presses`, `formatted` and `recorded` are history: no step
 consults them.
 */
module ButtonHandshake {
  import opened Bytes

  /** Where the callback is. Counters already read are kept. */
  datatype Callback =
    | Released
    | SawPrev(p: uint32)
    | SawCount(c: uint32)
    | Equal
    | Adding(c: uint32)

  /** Where the publisher is. */
  datatype Publisher =
    | Away
    | ReadPrev(p: uint32)
    | ReadCount(c: uint32)
    | Differ
    | Formatted(v: uint32)
    | Recording(c: uint32)

  datatype Board = Board(
    count: uint32, prev: uint32, cb: Callback, pub: Publisher,
    presses: nat, formatted: seq<uint32>, recorded: seq<uint32>)

  /** The callback reads `prev` or `count` for its comparison, reads `count` to add one, writes it;
      the publisher reads `prev` or `count` for its comparison, reads `count` to format it, reads
      it again, writes `prev`. */
  datatype Step = CbPrev | CbCount | CbLoad | CbStore | PubPrev | PubCount | PubFormat | PubLoad | PubStore

  const START: Board := Board(0, 0xFFFF_FFFF, Released, Away, 0, [], [])

  function Inc(n: uint32): uint32 {
    (n + 1) % 0x1_0000_0000
  }

  predicate Can(b: Board, s: Step) {
    match s
    case CbPrev => b.cb.Released? || b.cb.SawCount?
    case CbCount => b.cb.Released? || b.cb.SawPrev?
    case CbLoad => b.cb.Equal?
    case CbStore => b.cb.Adding?
    case PubPrev => b.pub.Away? || b.pub.ReadCount?
    case PubCount => b.pub.Away? || b.pub.ReadPrev?
    case PubFormat => b.pub.Differ?
    case PubLoad => b.pub.Formatted?
    case PubStore => b.pub.Recording?
  }

  function Next(b: Board, s: Step): Board
    requires Can(b, s)
  {
    match s
    case CbPrev =>
      if b.cb.Released? then b.(cb := SawPrev(b.prev))
      else b.(cb := if b.prev == b.cb.c then Equal else Released)
    case CbCount =>
      if b.cb.Released? then b.(cb := SawCount(b.count))
      else b.(cb := if b.cb.p == b.count then Equal else Released)
    case CbLoad => b.(cb := Adding(b.count))
    case CbStore => b.(cb := Released, count := Inc(b.cb.c), presses := b.presses + 1)
    case PubPrev =>
      if b.pub.Away? then b.(pub := ReadPrev(b.prev))
      else b.(pub := if b.prev != b.pub.c then Differ else Away)
    case PubCount =>
      if b.pub.Away? then b.(pub := ReadCount(b.count))
      else b.(pub := if b.pub.p != b.count then Differ else Away)
    case PubFormat => b.(pub := Formatted(b.count), formatted := b.formatted + [b.count])
    case PubLoad => b.(pub := Recording(b.count))
    case PubStore => b.(pub := Away, prev := b.pub.c, recorded := b.recorded + [b.pub.c])
  }

  predicate AllCan(b: Board, steps: seq<Step>)
    decreases |steps|
  {
    steps == [] || (Can(b, steps[0]) && AllCan(Next(b, steps[0]), steps[1..]))
  }

  function Run(b: Board, steps: seq<Step>): Board
    requires AllCan(b, steps)
    decreases |steps|
  {
    if steps == [] then b else Run(Next(b, steps[0]), steps[1..])
  }

  // ---- What every run keeps

  /** A press waits to be published. */
  predicate Full(b: Board) {
    b.count == Inc(b.prev)
  }

  predicate CountsUp(s: seq<uint32>) {
    forall k :: 0 <= k < |s| ==> s[k] == k % 0x1_0000_0000
  }

  predicate CallbackOk(b: Board) {
    match b.cb
    case Released => true
    case SawPrev(p) => p == b.count ==> !Full(b)
    case SawCount(c) => c == b.count
    case Equal => !Full(b)
    case Adding(c) => !Full(b) && c == b.count
  }

  predicate PublisherOk(b: Board) {
    match b.pub
    case Away => true
    case ReadPrev(p) => p == b.prev
    case ReadCount(c) => c == b.count || c == b.prev
    case Differ => Full(b)
    case Formatted(v) => Full(b) && v == b.count
    case Recording(c) => Full(b) && c == b.count
  }

  /** The slot holds at most one press, the counters count the presses and the publications, and
      a value is formatted before it is recorded. */
  predicate Invariant(b: Board) {
    && (b.count == b.prev || Full(b)) && CallbackOk(b) && PublisherOk(b)
    && b.count == b.presses % 0x1_0000_0000
    && |b.recorded| == (if Full(b) then b.presses else b.presses + 1)
    && CountsUp(b.recorded)
    && b.formatted == b.recorded + (if b.pub.Formatted? || b.pub.Recording? then [b.count] else [])
  }

  lemma NextKeeps(b: Board, s: Step)
    requires Invariant(b) && Can(b, s)
    ensures Invariant(Next(b, s))
  {
  }

  lemma {:induction false} RunKeeps(b: Board, steps: seq<Step>)
    requires Invariant(b) && AllCan(b, steps)
    ensures Invariant(Run(b, steps))
    decreases |steps|
  {
    hide Invariant, Can, Next;
    if steps != [] {
      NextKeeps(b, steps[0]);
      RunKeeps(Next(b, steps[0]), steps[1..]);
    }
  }

  /** In every interleaving: the counters differ by 0 or 1; the values formatted for publication
      are 0, 1, 2, … with no gap and no repetition; each is the value then recorded as published,
      and only the last one may still be on its way; and counting the value 0 of the start, every
      counted press is published once, but for the one that waits in the slot. */
  lemma Handshake(steps: seq<Step>)
    requires AllCan(START, steps)
    ensures var b := Run(START, steps);
            && (b.count == b.prev || b.count == Inc(b.prev))
            && (forall k :: 0 <= k < |b.formatted| ==> b.formatted[k] == k % 0x1_0000_0000)
            && b.recorded <= b.formatted && |b.formatted| <= |b.recorded| + 1
            && |b.recorded| == b.presses + (if b.count == b.prev then 1 else 0)
  {
    RunKeeps(START, steps);
  }

  // ---- Whole bodies

  predicate IsPublishers(s: Step) {
    s.PubPrev? || s.PubCount? || s.PubFormat? || s.PubLoad? || s.PubStore?
  }

  predicate AllPublishers(steps: seq<Step>) {
    forall s <- steps :: IsPublishers(s)
  }

  predicate AllCallbacks(steps: seq<Step>) {
    forall s <- steps :: !IsPublishers(s)
  }

  /** The two reads of a comparison, in either order. */
  predicate Reads(x: Step, y: Step, prev: Step, count: Step) {
    (x == prev && y == count) || (x == count && y == prev)
  }

  predicate Reachable(b: Board, before: seq<Step>) {
    AllCan(START, before) && Run(START, before) == b
  }

  /** The counter that a read looks at. */
  function Looked(b: Board, s: Step): uint32 {
    if s.CbPrev? || s.PubPrev? then b.prev else b.count
  }

  lemma {:induction false} PublishersOnly(b: Board, steps: seq<Step>)
    requires Invariant(b) && AllCan(b, steps) && AllPublishers(steps)
    ensures var r := Run(b, steps);
            Invariant(r) && r.cb == b.cb && r.count == b.count && r.presses == b.presses
    decreases |steps|
  {
    hide Invariant;
    if steps != [] {
      assert steps[0] in steps;
      NextKeeps(b, steps[0]);
      PublishersOnly(Next(b, steps[0]), steps[1..]);
    }
  }

  lemma {:induction false} CallbacksOnly(b: Board, steps: seq<Step>)
    requires Invariant(b) && AllCan(b, steps) && AllCallbacks(steps)
    ensures var r := Run(b, steps);
            && Invariant(r) && r.pub == b.pub && r.prev == b.prev
            && r.formatted == b.formatted && r.recorded == b.recorded
            && (Full(b) ==> r.count == b.count)
    decreases |steps|
  {
    if steps != [] {
      assert steps[0] in steps;
      NextKeeps(b, steps[0]);
      CallbacksOnly(Next(b, steps[0]), steps[1..]);
    }
  }

  /** A whole callback on a reachable board, with any steps of the publisher before each of its own:
      if the two values it read are equal, it goes on to count the press, exactly one; otherwise it
      ends and counts nothing. */
  lemma CallbackWhole(before: seq<Step>, b: Board, x: Step, p1: seq<Step>, y: Step, p2: seq<Step>, p3: seq<Step>)
    requires Reachable(b, before) && b.cb.Released? && Reads(x, y, CbPrev, CbCount)
    requires AllPublishers(p1) && AllPublishers(p2) && AllPublishers(p3)
    requires Can(b, x) ==> AllCan(Next(b, x), p1)
    requires Can(b, x) && Can(Run(Next(b, x), p1), y) ==> AllCan(Next(Run(Next(b, x), p1), y), p2)
    ensures Can(b, x) && Can(Run(Next(b, x), p1), y)
    ensures var b1 := Run(Next(b, x), p1);
            var b2 := Next(b1, y);
            if Looked(b, x) != Looked(b1, y) then
              b2.cb == Released && b2.count == b.count && b2.presses == b.presses
            else
              var b3 := Run(b2, p2);
              && Can(b3, CbLoad)
              && (AllCan(Next(b3, CbLoad), p3) ==>
                    var b4 := Run(Next(b3, CbLoad), p3);
                    && Can(b4, CbStore)
                    && var r := Next(b4, CbStore);
                       r.cb == Released && r.count == Inc(b.count) && r.presses == b.presses + 1)
  {
    RunKeeps(START, before);
    NextKeeps(b, x);
    PublishersOnly(Next(b, x), p1);
    var b1 := Run(Next(b, x), p1);
    NextKeeps(b1, y);
    var b2 := Next(b1, y);
    PublishersOnly(b2, p2);
    var b3 := Run(b2, p2);
    if Looked(b, x) == Looked(b1, y) {
      NextKeeps(b3, CbLoad);
      if AllCan(Next(b3, CbLoad), p3) {
        PublishersOnly(Next(b3, CbLoad), p3);
      }
    }
  }

  /** A whole round of the publisher on a reachable board, with any steps of the callback before each of
      its own: if the two values it read differ, it formats and records one value, the count there
      was then; otherwise it ends and publishes nothing. */
  lemma PublisherWhole(before: seq<Step>, b: Board, x: Step, q1: seq<Step>, y: Step, q2: seq<Step>,
                       q3: seq<Step>, q4: seq<Step>)
    requires Reachable(b, before) && b.pub.Away? && Reads(x, y, PubPrev, PubCount)
    requires AllCallbacks(q1) && AllCallbacks(q2) && AllCallbacks(q3) && AllCallbacks(q4)
    requires Can(b, x) ==> AllCan(Next(b, x), q1)
    requires Can(b, x) && Can(Run(Next(b, x), q1), y) ==> AllCan(Next(Run(Next(b, x), q1), y), q2)
    ensures Can(b, x) && Can(Run(Next(b, x), q1), y)
    ensures var b1 := Run(Next(b, x), q1);
            var b2 := Next(b1, y);
            if Looked(b, x) == Looked(b1, y) then
              b2.pub == Away && b2.prev == b.prev && b2.formatted == b.formatted && b2.recorded == b.recorded
            else
              var b3 := Run(b2, q2);
              && Can(b3, PubFormat)
              && (AllCan(Next(b3, PubFormat), q3) ==>
                    var b4 := Run(Next(b3, PubFormat), q3);
                    && Can(b4, PubLoad)
                    && (AllCan(Next(b4, PubLoad), q4) ==>
                          var b5 := Run(Next(b4, PubLoad), q4);
                          && Can(b5, PubStore)
                          && var r := Next(b5, PubStore);
                             && r.pub == Away && r.prev == r.count == b1.count
                             && r.formatted == b.formatted + [b1.count] && r.recorded == b.recorded + [b1.count]))
  {
    RunKeeps(START, before);
    NextKeeps(b, x);
    CallbacksOnly(Next(b, x), q1);
    var b1 := Run(Next(b, x), q1);
    NextKeeps(b1, y);
    var b2 := Next(b1, y);
    CallbacksOnly(b2, q2);
    if Looked(b, x) != Looked(b1, y) {
      Publishes(Run(b2, q2), q3, q4);
    }
  }

  /** The rest of such a round. */
  lemma Publishes(b: Board, q3: seq<Step>, q4: seq<Step>)
    requires Invariant(b) && b.pub.Differ? && AllCallbacks(q3) && AllCallbacks(q4)
    ensures Can(b, PubFormat)
    ensures AllCan(Next(b, PubFormat), q3) ==>
              var b4 := Run(Next(b, PubFormat), q3);
              && Can(b4, PubLoad)
              && (AllCan(Next(b4, PubLoad), q4) ==>
                    var b5 := Run(Next(b4, PubLoad), q4);
                    && Can(b5, PubStore)
                    && var r := Next(b5, PubStore);
                       && r.pub == Away && r.prev == r.count == b.count
                       && r.formatted == b.formatted + [b.count] && r.recorded == b.recorded + [b.count])
  {
    NextKeeps(b, PubFormat);
    if AllCan(Next(b, PubFormat), q3) {
      CallbacksOnly(Next(b, PubFormat), q3);
      var b4 := Run(Next(b, PubFormat), q3);
      NextKeeps(b4, PubLoad);
      if AllCan(Next(b4, PubLoad), q4) {
        CallbacksOnly(Next(b4, PubLoad), q4);
      }
    }
  }

  lemma RunConcat(b: Board, s: Step, rest: seq<Step>)
    requires Can(b, s) && AllCan(Next(b, s), rest)
    ensures AllCan(b, [s] + rest) && Run(b, [s] + rest) == Run(Next(b, s), rest)
  {
    assert ([s] + rest)[1..] == rest;
  }

  lemma NoSteps(b: Board)
    ensures AllCan(b, []) && Run(b, []) == b
  {
  }

  /** An undisturbed press counts, on every board, exactly one when the two counters are equal, and
      nothing otherwise, whichever counter it reads first. */
  lemma PressAlone(b: Board, x: Step, y: Step)
    requires b.cb.Released? && Reads(x, y, CbPrev, CbCount)
    ensures var steps := if b.count == b.prev then [x, y, CbLoad, CbStore] else [x, y];
            && AllCan(b, steps)
            && Run(b, steps) == if b.count == b.prev then b.(count := Inc(b.count), presses := b.presses + 1) else b
  {
    var b1 := Next(b, x);
    var b2 := Next(b1, y);
    if b.count == b.prev {
      var b3 := Next(b2, CbLoad);
      NoSteps(Next(b3, CbStore));
      RunConcat(b3, CbStore, []);
      RunConcat(b2, CbLoad, [CbStore]);
      assert [CbStore] + [] == [CbStore] && [CbLoad] + [CbStore] == [CbLoad, CbStore];
      RunConcat(b1, y, [CbLoad, CbStore]);
      assert [y] + [CbLoad, CbStore] == [y, CbLoad, CbStore];
      RunConcat(b, x, [y, CbLoad, CbStore]);
      assert [x] + [y, CbLoad, CbStore] == [x, y, CbLoad, CbStore];
    } else {
      NoSteps(b2);
      RunConcat(b1, y, []);
      assert [y] + [] == [y];
      RunConcat(b, x, [y]);
      assert [x] + [y] == [x, y];
    }
  }

  /** An undisturbed round of the publisher formats, on every board, and records the count when the
      two counters differ, and changes nothing otherwise. */
  lemma PublishAlone(b: Board, x: Step, y: Step)
    requires b.pub.Away? && Reads(x, y, PubPrev, PubCount)
    ensures var steps := if b.count != b.prev then [x, y, PubFormat, PubLoad, PubStore] else [x, y];
            && AllCan(b, steps)
            && Run(b, steps)
               == if b.count == b.prev then b
                  else b.(prev := b.count, formatted := b.formatted + [b.count], recorded := b.recorded + [b.count])
  {
    var b1 := Next(b, x);
    var b2 := Next(b1, y);
    if b.count != b.prev {
      var b3 := Next(b2, PubFormat);
      var b4 := Next(b3, PubLoad);
      NoSteps(Next(b4, PubStore));
      RunConcat(b4, PubStore, []);
      assert [PubStore] + [] == [PubStore] && [PubLoad] + [PubStore] == [PubLoad, PubStore];
      RunConcat(b3, PubLoad, [PubStore]);
      assert [PubFormat] + [PubLoad, PubStore] == [PubFormat, PubLoad, PubStore];
      RunConcat(b2, PubFormat, [PubLoad, PubStore]);
      assert [y] + [PubFormat, PubLoad, PubStore] == [y, PubFormat, PubLoad, PubStore];
      RunConcat(b1, y, [PubFormat, PubLoad, PubStore]);
      RunConcat(b, x, [y, PubFormat, PubLoad, PubStore]);
      assert [x] + [y, PubFormat, PubLoad, PubStore] == [x, y, PubFormat, PubLoad, PubStore];
    } else {
      NoSteps(b2);
      RunConcat(b1, y, []);
      assert [y] + [] == [y];
      RunConcat(b, x, [y]);
      assert [x] + [y] == [x, y];
    }
  }
}
