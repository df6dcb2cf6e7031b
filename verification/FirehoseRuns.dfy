/** What the steps of publishers and subscribers mean over whole runs: numbers, cursors, and endings. */
module FirehoseRuns {
  import opened Firehose
  import opened FirehoseStream

  // ----- runs put together ----------------------------------------------------------------

  lemma {:induction false} RunAppend(h: Hub, a: seq<Step>, b: seq<Step>)
    ensures EnabledRun(h, a + b) <==> EnabledRun(h, a) && EnabledRun(Run(h, a), b)
    ensures EnabledRun(h, a + b) ==> Run(h, a + b) == Run(Run(h, a), b)
    decreases |a|
  {
    if a == [] {
      assert a + b == b;
    } else {
      assert (a + b)[0] == a[0] && (a + b)[1..] == a[1..] + b;
      if Enabled(h, a[0]) {
        RunAppend(Do(h, a[0]), a[1..], b);
      }
    }
  }

  // ----- the cursor a subscriber asked for ------------------------------------------------

  /** No id is given out twice. */
  ghost predicate IdsUsed(h: Hub) {
    forall id :: id in h.subs ==> id <= h.id
  }

  /** A new subscription stands at the cursor asked for and at the last number taken; nobody else notices. */
  lemma SubscribeStarts(h: Hub, cursor: int)
    requires IdsUsed(h)
    ensures var h' := Do(h, Subscribe(cursor));
            var id := h.id + 1;
            && IdsUsed(h') && id !in h.subs && id in h'.subs
            && h'.subs[id].cursor == cursor && h'.subs[id].since == h.seqNo && h'.subs[id].phase.Registered?
            && h'.subs[id].open && !h'.subs[id].stopped && h'.subs[id].out == [] && h'.subs[id].live == []
            && h'.table == h.table && h'.seqNo == h.seqNo
            && forall other :: other in h.subs ==> other in h'.subs && h'.subs[other] == h.subs[other]
  {
  }

  lemma StepKeepsStart(h: Hub, step: Step, id: nat)
    requires IdsUsed(h) && Enabled(h, step) && id in h.subs
    ensures var h' := Do(h, step);
            && IdsUsed(h') && id in h'.subs
            && h'.subs[id].cursor == h.subs[id].cursor && h'.subs[id].since == h.subs[id].since
  {
  }

  /** No step of anybody moves a subscription's cursor, or the number it registered at. */
  lemma {:induction false} RunKeepsStart(h: Hub, steps: seq<Step>, id: nat)
    requires IdsUsed(h) && EnabledRun(h, steps) && id in h.subs
    ensures var h' := Run(h, steps);
            && IdsUsed(h') && id in h'.subs
            && h'.subs[id].cursor == h.subs[id].cursor && h'.subs[id].since == h.subs[id].since
    decreases |steps|
  {
    if steps != [] {
      StepKeepsStart(h, steps[0], id);
      RunKeepsStart(Do(h, steps[0]), steps[1..], id);
    }
  }

  lemma InitialIds(h: Hub, steps: seq<Step>)
    requires Initial(h) && EnabledRun(h, steps)
    ensures IdsUsed(Run(h, steps))
  {
    RunKeepsInv(h, steps);
  }

  lemma SubscriberIs(h: Hub, before: seq<Step>, cursor: int, after: seq<Step>) returns (id: nat)
    requires Initial(h) && EnabledRun(h, before + ([Subscribe(cursor)] + after))
    ensures EnabledRun(h, before) && id == Run(h, before).id + 1
    ensures var h' := Run(h, before + ([Subscribe(cursor)] + after));
            id in h'.subs && h'.subs[id].cursor == cursor && h'.subs[id].since == Run(h, before).seqNo
  {
    RunAppend(h, before, [Subscribe(cursor)] + after);
    InitialIds(h, before);
    var mid := Run(h, before);
    id := mid.id + 1;
    assert ([Subscribe(cursor)] + after)[1..] == after;
    SubscribeStarts(mid, cursor);
    RunKeepsStart(Do(mid, Subscribe(cursor)), after, id);
  }

  /**
    The stream of whoever subscribes at `cursor`, whatever came before and comes after: it holds the
    frames after that cursor in place, and it is exact for that cursor.
   */
  lemma SubscriberStreamIsExact(h: Hub, before: seq<Step>, cursor: int, after: seq<Step>)
    requires Initial(h) && EnabledRun(h, before + ([Subscribe(cursor)] + after))
    ensures EnabledRun(h, before)
    ensures var h' := Run(h, before + ([Subscribe(cursor)] + after));
            var id := Run(h, before).id + 1;
            && id in h'.subs && h'.subs[id].since == Run(h, before).seqNo
            && (h'.subs[id].phase.Live? ==>
                  && InPlace(cursor, h'.subs[id], h'.table, h'.seqNo)
                  && ExactStream(cursor, h'.subs[id], h'.table, h'.seqNo))
  {
    var steps := before + ([Subscribe(cursor)] + after);
    var id := SubscriberIs(h, before, cursor, after);
    if Run(h, steps).subs[id].phase.Live? {
      StreamHasNoGaps(h, steps, id);
      DeduplicatedStreamIsExact(h, steps, id);
    }
  }

  // ----- a reader that is done, and a channel that is closed -----------------------------

  /** After Cancel nothing more is sent to the reader, over every run. */
  lemma {:induction false} StoppedForGood(h: Hub, steps: seq<Step>, id: nat)
    requires IdsUsed(h) && EnabledRun(h, steps) && id in h.subs && h.subs[id].stopped
    ensures var h' := Run(h, steps);
            id in h'.subs && h'.subs[id].stopped && h'.subs[id].out == h.subs[id].out
    decreases |steps|
  {
    if steps != [] {
      StepKeepsStart(h, steps[0], id);
      StoppedForGood(Do(h, steps[0]), steps[1..], id);
    }
  }

  /** A reader that cancels has, for good, what it had been sent. */
  lemma CancelEnds(h: Hub, id: nat, steps: seq<Step>)
    requires IdsUsed(h) && id in h.subs && EnabledRun(Do(h, Cancel(id)), steps)
    ensures var h' := Run(Do(h, Cancel(id)), steps);
            id in h'.subs && h'.subs[id].out == h.subs[id].out
  {
    StepKeepsStart(h, Cancel(id), id);
    StoppedForGood(Do(h, Cancel(id)), steps, id);
  }

  /** What is left of a channel from which only the front was taken. */
  ghost predicate IsRestOf(rest: seq<Frame>, live: seq<Frame>) {
    |rest| <= |live| && rest == live[|live| - |rest|..]
  }

  lemma RestOfRest(a: seq<Frame>, b: seq<Frame>, c: seq<Frame>)
    requires IsRestOf(a, b) && IsRestOf(b, c)
    ensures IsRestOf(a, c)
  {
  }

  lemma StepKeepsClosed(h: Hub, step: Step, id: nat)
    requires IdsUsed(h) && Enabled(h, step) && id in h.subs && !h.subs[id].open
    ensures var sub, sub' := h.subs[id], Do(h, step).subs[id];
            !sub'.open && IsRestOf(sub'.live, sub.live) && sub'.dropped == sub.dropped
  {
  }

  /** What waits in a closed channel only ever leaves it at the front. */
  lemma {:induction false} ClosedForGood(h: Hub, steps: seq<Step>, id: nat)
    requires IdsUsed(h) && EnabledRun(h, steps) && id in h.subs && !h.subs[id].open
    ensures var h' := Run(h, steps);
            && id in h'.subs && !h'.subs[id].open && IsRestOf(h'.subs[id].live, h.subs[id].live)
            && h'.subs[id].dropped == h.subs[id].dropped
    decreases |steps|
  {
    if steps != [] {
      var next := Do(h, steps[0]);
      StepKeepsStart(h, steps[0], id);
      StepKeepsClosed(h, steps[0], id);
      ClosedForGood(next, steps[1..], id);
      RestOfRest(Run(h, steps).subs[id].live, next.subs[id].live, h.subs[id].live);
    }
  }

  /** After cleanup the channel gets nothing more, over every run. */
  lemma CleanupEnds(h: Hub, id: nat, steps: seq<Step>)
    requires IdsUsed(h) && id in h.subs && EnabledRun(Do(h, Cleanup(id)), steps)
    ensures var h' := Run(Do(h, Cleanup(id)), steps);
            id in h'.subs && IsRestOf(h'.subs[id].live, h.subs[id].live)
  {
    StepKeepsStart(h, Cleanup(id), id);
    ClosedForGood(Do(h, Cleanup(id)), steps, id);
  }

  // ----- failing, and catching up ---------------------------------------------------------

  /** The replay query of this subscription, or one of its rows, fails in this step. */
  predicate FailsReplay(step: Step, id: nat) {
    (step.Query? || step.RowsEnd?) && step.id == id && !step.ok
  }

  /** A subscription counts as failed only if its query or one of its rows did fail. */
  lemma {:induction false} FailsOnlyThen(h: Hub, steps: seq<Step>, id: nat)
    requires IdsUsed(h) && EnabledRun(h, steps) && id in h.subs && !h.subs[id].failed
    requires forall i :: 0 <= i < |steps| ==> !FailsReplay(steps[i], id)
    ensures id in Run(h, steps).subs && !Run(h, steps).subs[id].failed
    decreases |steps|
  {
    if steps != [] {
      StepKeepsStart(h, steps[0], id);
      assert !FailsReplay(steps[0], id);
      forall i | 0 <= i < |steps[1..]|
        ensures !FailsReplay(steps[1..][i], id)
      {
        assert steps[1..][i] == steps[i + 1];
      }
      FailsOnlyThen(Do(h, steps[0]), steps[1..], id);
    }
  }

  /** A replay that fails goes live: the reader is still there, and what waits for it still comes. */
  lemma FailingGoesLive(h: Hub, step: Step)
    requires IdsUsed(h) && Enabled(h, step) && (step.Query? || step.RowsEnd?) && FailsReplay(step, step.id)
    ensures var sub, sub' := h.subs[step.id], Do(h, step).subs[step.id];
            && sub'.phase.Live? && !sub'.stopped && sub'.open == sub.open
            && sub'.live == sub.live && sub'.out == sub.out
            && (sub.live != [] <==> Enabled(Do(h, step), Pump(step.id)))
  {
  }

  /** Some steps by which a subscription alone gets on; nothing else of it or anyone changes. */
  ghost predicate GetsOn(h: Hub, steps: seq<Step>, id: nat, phase: Phase, out: seq<Frame>, pending: seq<Frame>,
                         live: seq<Frame>) {
    && EnabledRun(h, steps) && Run(h, steps).table == h.table && Run(h, steps).seqNo == h.seqNo
    && id in Run(h, steps).subs && !Run(h, steps).subs[id].stopped
    && Run(h, steps).subs[id].phase == phase && Run(h, steps).subs[id].out == out
    && Run(h, steps).subs[id].pending == pending && Run(h, steps).subs[id].live == live
  }

  lemma GetsOnFirst(h: Hub, step: Step, steps: seq<Step>, id: nat, phase: Phase, out: seq<Frame>, pending: seq<Frame>,
                    live: seq<Frame>)
    requires Enabled(h, step) && Do(h, step).table == h.table && Do(h, step).seqNo == h.seqNo
    requires GetsOn(Do(h, step), steps, id, phase, out, pending, live)
    ensures GetsOn(h, [step] + steps, id, phase, out, pending, live)
  {
    assert ([step] + steps)[1..] == steps;
  }

  /** A live reader that goes on gets everything that waits for it, in order. */
  lemma {:induction false} PumpsAll(h: Hub, id: nat) returns (steps: seq<Step>)
    requires id in h.subs && h.subs[id].phase.Live? && !h.subs[id].stopped && h.subs[id].pending == []
    ensures GetsOn(h, steps, id, Live, h.subs[id].out + h.subs[id].live, [], [])
    decreases |h.subs[id].live|
  {
    var sub := h.subs[id];
    if sub.live == [] {
      steps := [];
      assert sub.out + [] == sub.out;
    } else {
      var next := Do(h, Pump(id));
      var rest := PumpsAll(next, id);
      assert next.subs[id].out + next.subs[id].live == sub.out + sub.live;
      steps := [Pump(id)] + rest;
      GetsOnFirst(h, Pump(id), rest, id, Live, sub.out + sub.live, [], []);
    }
  }

  /** A replaying reader that goes on gets every row there still is, and then what waits for it. */
  lemma {:induction false} SendsAll(h: Hub, id: nat) returns (steps: seq<Step>)
    requires id in h.subs && h.subs[id].phase.Replaying? && !h.subs[id].stopped
    ensures GetsOn(h, steps, id, Live, h.subs[id].out + h.subs[id].pending + h.subs[id].live, [], [])
    decreases |h.subs[id].pending|
  {
    var sub := h.subs[id];
    var step := if sub.pending == [] then RowsEnd(id, true) else SendRow(id);
    var next := Do(h, step);
    var rest;
    if sub.pending == [] {
      rest := PumpsAll(next, id);
      assert sub.out + [] == sub.out;
    } else {
      rest := SendsAll(next, id);
      assert next.subs[id].out + next.subs[id].pending == sub.out + sub.pending;
    }
    steps := [step] + rest;
    GetsOnFirst(h, step, rest, id, Live, sub.out + sub.pending + sub.live, [], []);
  }

  /**
    Catching up. Whatever has happened since it registered, a subscriber whose query and rows succeed
    can go on until it has been sent every persisted frame above its cursor, in order, and then
    everything that waited in its channel.
   */
  lemma CatchesUp(h: Hub, id: nat) returns (steps: seq<Step>)
    requires id in h.subs && h.subs[id].phase.Registered? && !h.subs[id].stopped && h.subs[id].out == []
    ensures GetsOn(h, steps, id, Live, Above(h.table, h.subs[id].cursor) + h.subs[id].live, [], [])
  {
    var sub := h.subs[id];
    var next := Do(h, Query(id, true));
    var rest := SendsAll(next, id);
    assert [] + Above(h.table, sub.cursor) == Above(h.table, sub.cursor);
    steps := [Query(id, true)] + rest;
    GetsOnFirst(h, Query(id, true), rest, id, Live, Above(h.table, sub.cursor) + sub.live, [], []);
  }

  // ----- numbers --------------------------------------------------------------------------

  /** How many of the steps take a number: every publication that could be built. */
  function Built(steps: seq<Step>): nat
    decreases |steps|
  {
    if steps == [] then 0
    else Built(steps[1..]) + if steps[0].Publish? && !steps[0].outcome.BuildFailed? then 1 else 0
  }

  /** And how many persist a frame. */
  function Stored(steps: seq<Step>): nat
    decreases |steps|
  {
    if steps == [] then 0
    else Stored(steps[1..]) + if steps[0].Publish? && steps[0].outcome.Persisted? then 1 else 0
  }

  lemma StepNumbers(h: Hub, step: Step)
    requires Enabled(h, step)
    ensures var h' := Do(h, step);
            && h'.seqNo == h.seqNo + (if step.Publish? && !step.outcome.BuildFailed? then 1 else 0)
            && h'.table
               == h.table + (if step.Publish? && step.outcome.Persisted? then [Frame(h'.seqNo, step.body)] else [])
  {
    assert h.table + [] == h.table;
  }

  /**
    Numbering. Every publication that could be built takes the next number, and keeps it when its
    insert fails; one that could not takes none. The rows are the persisted ones, in order.
   */
  lemma {:induction false} NumbersAreTaken(h: Hub, steps: seq<Step>)
    requires EnabledRun(h, steps)
    ensures var h' := Run(h, steps);
            && h'.seqNo == h.seqNo + Built(steps)
            && h.table <= h'.table && |h'.table| == |h.table| + Stored(steps)
    decreases |steps|
  {
    if steps != [] {
      StepNumbers(h, steps[0]);
      NumbersAreTaken(Do(h, steps[0]), steps[1..]);
    }
  }

  /** The row of any one publication that was persisted: its place, its number and its body. */
  lemma RowOf(h: Hub, before: seq<Step>, body: string, after: seq<Step>)
    requires EnabledRun(h, before + ([Publish(body, Persisted)] + after))
    ensures var h' := Run(h, before + ([Publish(body, Persisted)] + after));
            var i := |h.table| + Stored(before);
            i < |h'.table| && h'.table[i] == Frame(h.seqNo + Built(before) + 1, body)
  {
    RunAppend(h, before, [Publish(body, Persisted)] + after);
    assert ([Publish(body, Persisted)] + after)[1..] == after;
    NumbersAreTaken(h, before);
    StepNumbers(Run(h, before), Publish(body, Persisted));
    NumbersAreTaken(Do(Run(h, before), Publish(body, Persisted)), after);
  }

  /** A channel has room for 4096 frames: with fewer waiting none is dropped, and with as many each is. */
  lemma RoomFor4096(h: Hub, body: string, id: nat)
    requires id in h.subs && h.subs[id].open
    ensures var sub, sub' := h.subs[id], Do(h, Publish(body, Persisted)).subs[id];
            var f := Frame(h.seqNo + 1, body);
            if |sub.live| < 4096 then sub'.live == sub.live + [f] && sub'.dropped == sub.dropped
            else sub'.live == sub.live && sub'.dropped == sub.dropped + {f}
  {
  }
}
