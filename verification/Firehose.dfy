/**
  The firehose emitter as atomic steps: publishers under the mutex, subscribers that register
  before they replay, a replay query, and bounded live channels that drop what does not fit.
  A step of any publisher or subscriber may come between any two others.
 */
module Firehose {
  /** A persisted frame; its event carries the sequence number. */
  datatype Frame = Frame(n: int, body: string)

  const CAPACITY := 4096

  datatype Phase = Registered | Replaying | Live

  /**
    One subscription. `live` is its channel, `sent` and `pending` are the rows of its replay that
    were and are still to be sent, `out` everything sent to the reader. `since` and `upto` are the sequence numbers at
    registration and at the replay query, `closedAt` the one at cleanup. `dropped` holds the
    frames that found the channel full; `failed` says that the replay query or one of its rows
    failed.
   */
  datatype Sub = Sub(
    cursor: int, phase: Phase, since: int, upto: int,
    sent: seq<Frame>, pending: seq<Frame>, live: seq<Frame>, out: seq<Frame>,
    open: bool, closedAt: int, stopped: bool, dropped: set<Frame>, failed: bool)

  /** The emitter, and the rows of firehose_events in the order of their primary key. */
  datatype Hub = Hub(seqNo: int, id: nat, table: seq<Frame>, subs: map<nat, Sub>)

  datatype Outcome = Persisted | BuildFailed | InsertFailed

  datatype Step =
    | Publish(body: string, outcome: Outcome)
    | Subscribe(cursor: int)
    | Query(id: nat, ok: bool)
    | SendRow(id: nat)
    | RowsEnd(id: nat, ok: bool)
    | Pump(id: nat)
    | Cancel(id: nat)
    | Cleanup(id: nat)

  /** SELECT ... WHERE seq > cursor ORDER BY seq ASC. */
  function Above(table: seq<Frame>, cursor: int): seq<Frame>
    decreases |table|
  {
    if table == [] then []
    else
      var last := |table| - 1;
      Above(table[..last], cursor) + if table[last].n > cursor then [table[last]] else []
  }

  /** A send that does not wait: the frame is dropped when the channel is full. */
  function Offer(sub: Sub, f: Frame): Sub {
    if !sub.open then sub
    else if |sub.live| < CAPACITY then sub.(live := sub.live + [f])
    else sub.(dropped := sub.dropped + {f})
  }

  function OfferAll(subs: map<nat, Sub>, f: Frame): map<nat, Sub> {
    map id | id in subs :: Offer(subs[id], f)
  }

  function Started(cursor: int, seqNo: int): Sub {
    Sub(cursor, Registered, seqNo, seqNo, [], [], [], [], true, seqNo, false, {}, false)
  }

  /** Whether a subscription can take a step of its own. */
  predicate Ready(sub: Sub, step: Step) {
    match step
    case Publish(_, _) => false
    case Subscribe(_) => false
    case Query(_, _) => !sub.stopped && sub.phase == Registered
    case SendRow(_) => !sub.stopped && sub.phase == Replaying && sub.pending != []
    case RowsEnd(_, ok) => !sub.stopped && sub.phase == Replaying && (ok ==> sub.pending == [])
    case Pump(_) => !sub.stopped && sub.phase == Live && sub.live != []
    case Cancel(_) => true
    case Cleanup(_) => true
  }

  predicate Enabled(h: Hub, step: Step) {
    step.Publish? || step.Subscribe? || (step.id in h.subs && Ready(h.subs[step.id], step))
  }

  function Persist(h: Hub, f: Frame): Hub {
    h.(seqNo := f.n, table := h.table + [f], subs := OfferAll(h.subs, f))
  }

  /** A failed insert keeps the number it took: the sequence has a gap, the stream does not. */
  function DoPublish(h: Hub, body: string, outcome: Outcome): Hub {
    var n := h.seqNo + 1;
    match outcome
    case BuildFailed => h
    case InsertFailed => h.(seqNo := n)
    case Persisted => Persist(h, Frame(n, body))
  }

  /** A subscription after a step of its own. */
  function Own(sub: Sub, step: Step, seqNo: int, table: seq<Frame>): Sub
    requires Ready(sub, step)
  {
    match step
    case Query(_, ok) =>
      if ok then sub.(phase := Replaying, upto := seqNo, pending := Above(table, sub.cursor))
      else sub.(phase := Live, upto := seqNo, failed := true)
    case SendRow(_) =>
      sub.(sent := sub.sent + [sub.pending[0]], pending := sub.pending[1..], out := sub.out + [sub.pending[0]])
    case RowsEnd(_, ok) => sub.(phase := Live, pending := [], failed := !ok)
    case Pump(_) => sub.(live := sub.live[1..], out := sub.out + [sub.live[0]])
    case Cancel(_) => sub.(stopped := true)
    case Cleanup(_) => if sub.open then sub.(open := false, closedAt := seqNo) else sub
  }

  function Do(h: Hub, step: Step): Hub
    requires Enabled(h, step)
  {
    match step
    case Publish(body, outcome) => DoPublish(h, body, outcome)
    case Subscribe(cursor) => h.(id := h.id + 1, subs := h.subs[h.id + 1 := Started(cursor, h.seqNo)])
    case _ => h.(subs := h.subs[step.id := Own(h.subs[step.id], step, h.seqNo, h.table)])
  }

  predicate EnabledRun(h: Hub, steps: seq<Step>)
    decreases |steps|
  {
    steps == [] || (Enabled(h, steps[0]) && EnabledRun(Do(h, steps[0]), steps[1..]))
  }

  function Run(h: Hub, steps: seq<Step>): Hub
    requires EnabledRun(h, steps)
    decreases |steps|
  {
    if steps == [] then h else Run(Do(h, steps[0]), steps[1..])
  }

  /** Rows are numbered in order and no number has outrun the counter. */
  ghost predicate TableOk(table: seq<Frame>, seqNo: int) {
    && (forall i, j :: 0 <= i < j < |table| ==> table[i].n < table[j].n)
    && (forall i :: 0 <= i < |table| ==> table[i].n <= seqNo)
  }

  /** A new emitter over the persisted rows: numbering goes on from the largest. */
  ghost predicate Initial(h: Hub) {
    TableOk(h.table, h.seqNo) && h.subs == map[]
  }

  // ----- the rows between two numbers -----------------------------------------------------

  /** The rows with lo < seq <= hi, in order. */
  function Between(table: seq<Frame>, lo: int, hi: int): seq<Frame>
    decreases |table|
  {
    if table == [] then []
    else
      var last := |table| - 1;
      Between(table[..last], lo, hi) + if lo < table[last].n <= hi then [table[last]] else []
  }

  lemma BetweenAppend(table: seq<Frame>, f: Frame, lo: int, hi: int)
    ensures Between(table + [f], lo, hi) == Between(table, lo, hi) + if lo < f.n <= hi then [f] else []
  {
    assert (table + [f])[..|table|] == table;
  }

  lemma {:induction false} BetweenRaised(table: seq<Frame>, lo: int, hi: int, hi': int)
    requires hi <= hi' && forall i :: 0 <= i < |table| ==> table[i].n <= hi
    ensures Between(table, lo, hi) == Between(table, lo, hi')
    decreases |table|
  {
    if table != [] {
      BetweenRaised(table[..|table| - 1], lo, hi, hi');
    }
  }

  lemma {:induction false} AboveIsBetween(table: seq<Frame>, cursor: int, hi: int)
    requires forall i :: 0 <= i < |table| ==> table[i].n <= hi
    ensures Above(table, cursor) == Between(table, cursor, hi)
    decreases |table|
  {
    if table != [] {
      AboveIsBetween(table[..|table| - 1], cursor, hi);
    }
  }

  lemma {:induction false} BetweenIsFrom(table: seq<Frame>, lo: int, hi: int, f: Frame)
    requires f in Between(table, lo, hi)
    ensures f in table && lo < f.n <= hi
    decreases |table|
  {
    var last := |table| - 1;
    if f in Between(table[..last], lo, hi) {
      BetweenIsFrom(table[..last], lo, hi, f);
    }
  }

  /** The frames that were not dropped, in order. */
  function Without(s: seq<Frame>, dropped: set<Frame>): seq<Frame>
    decreases |s|
  {
    if s == [] then []
    else
      var last := |s| - 1;
      Without(s[..last], dropped) + if s[last] in dropped then [] else [s[last]]
  }

  lemma WithoutAppend(s: seq<Frame>, f: Frame, dropped: set<Frame>)
    ensures Without(s + [f], dropped) == Without(s, dropped) + if f in dropped then [] else [f]
  {
    assert (s + [f])[..|s|] == s;
  }

  lemma {:induction false} WithoutOther(s: seq<Frame>, f: Frame, dropped: set<Frame>)
    requires f !in s
    ensures Without(s, dropped + {f}) == Without(s, dropped)
    decreases |s|
  {
    if s != [] {
      var last := |s| - 1;
      assert s[last] in s;
      WithoutOther(s[..last], f, dropped);
    }
  }

  lemma {:induction false} WithoutNothing(s: seq<Frame>)
    ensures Without(s, {}) == s
    decreases |s|
  {
    if s != [] {
      WithoutNothing(s[..|s| - 1]);
    }
  }

  // ----- the invariant of a subscription --------------------------------------------------

  /** The last number that could still have reached the channel. */
  function Top(sub: Sub, seqNo: int): int {
    if sub.open then seqNo else sub.closedAt
  }

  /** What was offered to the channel and fitted. */
  function Received(sub: Sub, table: seq<Frame>, seqNo: int): seq<Frame> {
    Without(Between(table, sub.since, Top(sub, seqNo)), sub.dropped)
  }

  ghost predicate StreamOk(sub: Sub, table: seq<Frame>, seqNo: int) {
    var replay := Between(table, sub.cursor, sub.upto);
    var received := Received(sub, table, seqNo);
    if sub.phase.Registered? then sub.out == sub.sent == [] && sub.live == received
    else if sub.phase.Replaying? then sub.out == sub.sent && sub.sent + sub.pending == replay && sub.live == received
    else sub.out + sub.live == sub.sent + received && sub.sent <= replay && (!sub.failed ==> sub.sent == replay)
  }

  ghost predicate SubOk(sub: Sub, table: seq<Frame>, seqNo: int) {
    && sub.since <= sub.upto <= seqNo && sub.since <= sub.closedAt <= seqNo
    && (forall f :: f in sub.dropped ==> f in table && sub.since < f.n <= Top(sub, seqNo))
    && StreamOk(sub, table, seqNo)
  }

  ghost predicate Inv(h: Hub) {
    && TableOk(h.table, h.seqNo)
    && forall id :: id in h.subs ==> id <= h.id && SubOk(h.subs[id], h.table, h.seqNo)
  }

  lemma Snoc(a: seq<Frame>, b: seq<Frame>, f: Frame)
    ensures a + (b + [f]) == a + b + [f]
  {
  }

  /** What a publication adds to the rows between two numbers. */
  lemma RowsGrow(table: seq<Frame>, seqNo: int, f: Frame, lo: int, hi: int)
    requires TableOk(table, seqNo) && f.n == seqNo + 1 && hi <= seqNo
    ensures Between(table + [f], lo, hi) == Between(table, lo, hi)
    ensures lo <= seqNo ==> Between(table + [f], lo, seqNo + 1) == Between(table, lo, seqNo) + [f]
  {
    BetweenAppend(table, f, lo, hi);
    BetweenAppend(table, f, lo, seqNo + 1);
    BetweenRaised(table, lo, seqNo, seqNo + 1);
    assert Between(table, lo, hi) + [] == Between(table, lo, hi);
  }

  /** A frame newer than all of a stretch, received or dropped at its end. */
  lemma OneMoreOffered(tail: seq<Frame>, dropped: set<Frame>, f: Frame)
    requires f !in tail && f !in dropped
    ensures Without(tail + [f], dropped) == Without(tail, dropped) + [f]
    ensures Without(tail + [f], dropped + {f}) == Without(tail, dropped)
  {
    WithoutAppend(tail, f, dropped);
    WithoutAppend(tail, f, dropped + {f});
    WithoutOther(tail, f, dropped);
    assert Without(tail, dropped) + [] == Without(tail, dropped);
  }

  lemma NewFrame(table: seq<Frame>, seqNo: int, lo: int, hi: int, f: Frame)
    requires TableOk(table, seqNo) && f.n > seqNo
    ensures f !in table && f !in Between(table, lo, hi)
  {
    if f in Between(table, lo, hi) {
      BetweenIsFrom(table, lo, hi, f);
    }
  }

  lemma ReceivedGrows(sub: Sub, table: seq<Frame>, seqNo: int, f: Frame)
    requires TableOk(table, seqNo) && SubOk(sub, table, seqNo) && f.n == seqNo + 1
    ensures Received(Offer(sub, f), table + [f], f.n)
         == if sub.open && |sub.live| < CAPACITY then Received(sub, table, seqNo) + [f] else Received(sub, table, seqNo)
  {
    RowsGrow(table, seqNo, f, sub.since, Top(sub, seqNo));
    if sub.open {
      NewFrame(table, seqNo, sub.since, seqNo, f);
      OneMoreOffered(Between(table, sub.since, seqNo), sub.dropped, f);
    }
  }

  /** A publication reaches the channel of every open subscription with room, and the replay of none. */
  lemma OfferKeeps(sub: Sub, table: seq<Frame>, seqNo: int, f: Frame)
    requires TableOk(table, seqNo) && SubOk(sub, table, seqNo) && f.n == seqNo + 1
    ensures SubOk(Offer(sub, f), table + [f], f.n)
  {
    RowsGrow(table, seqNo, f, sub.cursor, sub.upto);
    ReceivedGrows(sub, table, seqNo, f);
    Snoc(sub.out, sub.live, f);
    Snoc(sub.sent, Received(sub, table, seqNo), f);
  }

  lemma GapKeeps(sub: Sub, table: seq<Frame>, seqNo: int)
    requires TableOk(table, seqNo) && SubOk(sub, table, seqNo)
    ensures SubOk(sub, table, seqNo + 1)
  {
    BetweenRaised(table, sub.since, seqNo, seqNo + 1);
  }

  lemma QueryKeeps(sub: Sub, table: seq<Frame>, seqNo: int, step: Step)
    requires TableOk(table, seqNo) && SubOk(sub, table, seqNo) && step.Query? && Ready(sub, step)
    ensures SubOk(Own(sub, step, seqNo, table), table, seqNo)
  {
    AboveIsBetween(table, sub.cursor, seqNo);
    assert [] + Above(table, sub.cursor) == Above(table, sub.cursor);
  }

  /** Handing the front of one sequence to the end of another leaves the two together as they were. */
  lemma Handed(a: seq<Frame>, b: seq<Frame>)
    requires b != []
    ensures (a + [b[0]]) + b[1..] == a + b
  {
  }

  /** One subscription's own step. */
  lemma OwnKeeps(sub: Sub, table: seq<Frame>, seqNo: int, step: Step)
    requires TableOk(table, seqNo) && SubOk(sub, table, seqNo) && Ready(sub, step)
    ensures SubOk(Own(sub, step, seqNo, table), table, seqNo)
  {
    match step
    case Query(_, _) => QueryKeeps(sub, table, seqNo, step);
    case SendRow(_) => Handed(sub.sent, sub.pending);
    case Pump(_) => Handed(sub.out, sub.live);
    case RowsEnd(_, _) => assert sub.sent + [] == sub.sent;
    case _ =>
  }

  lemma TableGrows(table: seq<Frame>, seqNo: int, f: Frame)
    requires TableOk(table, seqNo) && f.n == seqNo + 1
    ensures TableOk(table + [f], f.n)
  {
  }

  lemma OfferKeepsAll(subs: map<nat, Sub>, table: seq<Frame>, seqNo: int, f: Frame)
    requires TableOk(table, seqNo) && (forall id :: id in subs ==> SubOk(subs[id], table, seqNo)) && f.n == seqNo + 1
    ensures forall id :: id in subs ==> SubOk(OfferAll(subs, f)[id], table + [f], f.n)
  {
    forall id | id in subs
      ensures SubOk(Offer(subs[id], f), table + [f], f.n)
    {
      OfferKeeps(subs[id], table, seqNo, f);
    }
  }

  lemma PersistedKeepsInv(h: Hub, f: Frame)
    requires Inv(h) && f.n == h.seqNo + 1
    ensures Inv(Persist(h, f))
  {
    TableGrows(h.table, h.seqNo, f);
    OfferKeepsAll(h.subs, h.table, h.seqNo, f);
  }

  lemma GapKeepsAll(subs: map<nat, Sub>, table: seq<Frame>, seqNo: int)
    requires TableOk(table, seqNo) && forall id :: id in subs ==> SubOk(subs[id], table, seqNo)
    ensures forall id :: id in subs ==> SubOk(subs[id], table, seqNo + 1)
  {
    forall id | id in subs
      ensures SubOk(subs[id], table, seqNo + 1)
    {
      GapKeeps(subs[id], table, seqNo);
    }
  }

  lemma GapKeepsInv(h: Hub)
    requires Inv(h)
    ensures Inv(h.(seqNo := h.seqNo + 1))
  {
    GapKeepsAll(h.subs, h.table, h.seqNo);
  }

  lemma PublishKeepsInv(h: Hub, body: string, outcome: Outcome)
    requires Inv(h)
    ensures Inv(DoPublish(h, body, outcome))
  {
    if outcome.Persisted? {
      PersistedKeepsInv(h, Frame(h.seqNo + 1, body));
      assert DoPublish(h, body, outcome) == Persist(h, Frame(h.seqNo + 1, body));
    } else if outcome.InsertFailed? {
      GapKeepsInv(h);
    }
  }

  lemma StepKeepsInv(h: Hub, step: Step)
    requires Inv(h) && Enabled(h, step)
    ensures Inv(Do(h, step))
  {
    if step.Publish? {
      PublishKeepsInv(h, step.body, step.outcome);
    } else if step.Subscribe? {
      NothingNew(h.table, h.seqNo);
    } else {
      OwnKeeps(h.subs[step.id], h.table, h.seqNo, step);
    }
  }

  lemma {:induction false} NothingNew(table: seq<Frame>, n: int)
    ensures Between(table, n, n) == []
    decreases |table|
  {
    if table != [] {
      NothingNew(table[..|table| - 1], n);
    }
  }

  lemma {:induction false} RunKeepsInv(h: Hub, steps: seq<Step>)
    requires Inv(h) && EnabledRun(h, steps)
    ensures Inv(Run(h, steps))
    decreases |steps|
  {
    if steps != [] {
      StepKeepsInv(h, steps[0]);
      RunKeepsInv(Do(h, steps[0]), steps[1..]);
    }
  }
}
