/** The emitter as it is written: counters, a subscriber map and channels updated in place. */
module FirehoseEmitter {
  import opened Firehose

  /** Offer the frame to every registered channel in turn. */
  method Broadcast(before: map<nat, Sub>, f: Frame) returns (subs: map<nat, Sub>)
    ensures subs == OfferAll(before, f)
  {
    subs := before;
    var left := before.Keys;
    while left != {}
      invariant left <= before.Keys && subs.Keys == before.Keys
      invariant forall i :: i in left ==> subs[i] == before[i]
      invariant forall i :: i in before && i !in left ==> subs[i] == Offer(before[i], f)
      decreases left
    {
      var i :| i in left;
      if subs[i].open {
        if |subs[i].live| < CAPACITY {
          subs := subs[i := subs[i].(live := subs[i].live + [f])];
        } else {
          subs := subs[i := subs[i].(dropped := subs[i].dropped + {f})];
        }
      }
      left := left - {i};
    }
  }

  class Emitter {
    var seqNo: int
    var id: nat
    var table: seq<Frame>
    var subs: map<nat, Sub>

    function Current(): Hub
      reads this
    {
      Hub(seqNo, id, table, subs)
    }

    /** Numbering goes on after the largest persisted number. */
    constructor (rows: seq<Frame>)
      requires forall i, j :: 0 <= i < j < |rows| ==> rows[i].n < rows[j].n
      ensures table == rows && Initial(Current())
      ensures rows == [] ==> seqNo == 0
      ensures rows != [] ==> seqNo == rows[|rows| - 1].n
    {
      var max := if rows == [] then 0 else rows[0].n;
      for i := 0 to |rows|
        invariant rows == [] ==> max == 0
        invariant rows != [] ==> max == rows[if i == 0 then 0 else i - 1].n
      {
        if rows[i].n > max {
          max := rows[i].n;
        }
      }
      seqNo := max;
      id := 0;
      table := rows;
      subs := map[];
    }

    method Publish(body: string, outcome: Outcome)
      modifies this
      ensures Current() == Do(old(Current()), Step.Publish(body, outcome))
    {
      seqNo := seqNo + 1;
      if outcome.BuildFailed? {
        seqNo := seqNo - 1;
        return;
      }
      if outcome.InsertFailed? {
        return;
      }
      var f := Frame(seqNo, body);
      table := table + [f];
      subs := Broadcast(subs, f);
    }

    method Subscribe(cursor: int) returns (sub: nat)
      modifies this
      ensures Current() == Do(old(Current()), Step.Subscribe(cursor)) && sub == id
    {
      id := id + 1;
      subs := subs[id := Sub(cursor, Registered, seqNo, seqNo, [], [], [], [], true, seqNo, false, {}, false)];
      sub := id;
    }

    /** The subscriber's goroutine runs its replay query. */
    method Query(sub: nat, ok: bool)
      requires Enabled(Current(), Step.Query(sub, ok))
      modifies this`subs
      ensures Current() == Do(old(Current()), Step.Query(sub, ok))
    {
      if !ok {
        subs := subs[sub := subs[sub].(phase := Live, upto := seqNo, failed := true)];
        return;
      }
      var rows: seq<Frame> := [];
      for i := 0 to |table|
        invariant rows == Above(table[..i], subs[sub].cursor)
      {
        if table[i].n > subs[sub].cursor {
          rows := rows + [table[i]];
        }
        assert table[..i + 1][..i] == table[..i];
      }
      assert table[..|table|] == table;
      subs := subs[sub := subs[sub].(phase := Replaying, upto := seqNo, pending := rows)];
    }

    /** It sends one row, or ends the replay, after the last row or when one fails, or pumps one frame. */
    method Advance(sub: nat, ok: bool)
      requires sub in subs && !subs[sub].stopped
      modifies this`subs
      ensures match old(subs[sub]).phase
              case Registered => Current() == old(Current())
              case Replaying =>
                Current() == Do(old(Current()), if !ok then RowsEnd(sub, false)
                                                else if old(subs[sub]).pending == [] then RowsEnd(sub, true)
                                                else SendRow(sub))
              case Live =>
                Current() == if old(subs[sub]).live == [] then old(Current()) else Do(old(Current()), Pump(sub))
    {
      var s := subs[sub];
      if s.phase == Replaying {
        if !ok || s.pending == [] {
          subs := subs[sub := s.(phase := Live, pending := [], failed := !ok)];
        } else {
          var row := s.pending[0];
          subs := subs[sub := s.(out := s.out + [row], sent := s.sent + [row], pending := s.pending[1..])];
        }
      } else if s.phase == Live && s.live != [] {
        subs := subs[sub := s.(out := s.out + [s.live[0]], live := s.live[1..])];
      }
    }

    /** The reader's context is done: the goroutine returns. */
    method Cancel(sub: nat)
      requires sub in subs
      modifies this`subs
      ensures Current() == Do(old(Current()), Step.Cancel(sub))
    {
      subs := subs[sub := subs[sub].(stopped := true)];
    }

    method Cleanup(sub: nat)
      requires sub in subs
      modifies this`subs
      ensures Current() == Do(old(Current()), Step.Cleanup(sub))
    {
      if subs[sub].open {
        subs := subs[sub := subs[sub].(open := false, closedAt := seqNo)];
      } else {
        assert subs[sub := subs[sub]] == subs;
      }
    }
  }
}
