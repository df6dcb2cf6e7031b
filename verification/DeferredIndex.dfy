/**
  The deferred index write. After the commit every upsert of the batch is written to
  repo_records and then every delete; this agrees with the committed tree exactly when no path
  is written again after its last delete.
 */
module DeferredIndex {
  import opened Basics
  import opened RecordPath
  import opened WriteBatch

  /** The action of the last operation that names k. */
  function LastNamed(ops: seq<Op>, k: Key): Option<Action>
    decreases |ops|
  {
    if ops == [] then None
    else
      var last := ops[|ops| - 1];
      if last.Names() && last.Named() == k then Some(last.action) else LastNamed(ops[..|ops| - 1], k)
  }

  /** For every path the batch deletes, the last operation on that path is a delete. */
  predicate DeletesLast(ops: seq<Op>) {
    forall op :: op in ops && op.action.Delete? ==> LastNamed(ops, op.Named()) == Some(Delete)
  }

  lemma {:induction false} WithoutAt(index: Index, deletes: seq<Key>, k: Key)
    ensures Get(Without(index, deletes), k) == if k in deletes then None else Get(index, k)
    decreases |deletes|
  {
    if deletes != [] {
      var last := |deletes| - 1;
      WithoutAt(index, deletes[..last], k);
      assert deletes == deletes[..last] + [deletes[last]];
    }
  }

  /** What the batch has queued for the index, against its tree, for one key. */
  ghost predicate Tracks(index: Index, b: Batch, done: seq<Op>, k: Key) {
    var last := LastNamed(done, k);
    && (last == Some(Delete) ==> Path(k) !in b.tree)
    && (last != Some(Delete) ==> Get(b.tree, Path(k)) == Get(Upserted(index, b.upserts), k))
    && (last.Some? && last != Some(Delete) ==> Path(k) in b.tree)
    && (last.Some? ==> Path(k) in b.cur)
    && (k in b.deletes <==> exists op :: op in done && op.action.Delete? && op.Named() == k)
  }

  ghost predicate Tracked(index: Index, b: Batch, done: seq<Op>) {
    && (forall k :: Joinable(k) ==> Tracks(index, b, done, k))
    && (forall k :: k in b.deletes ==> Joinable(k))
  }

  lemma {:induction false} NamedIfDeleted(done: seq<Op>, op: Op)
    requires op in done && op.action.Delete?
    ensures LastNamed(done, op.Named()).Some?
    decreases |done|
  {
    var last := |done| - 1;
    if done[last] != op {
      assert done == done[..last] + [done[last]];
      NamedIfDeleted(done[..last], op);
    }
  }

  /** A path whose last operation is a delete has a delete among its operations. */
  lemma {:induction false} DeletedIfLast(done: seq<Op>, k: Key)
    requires LastNamed(done, k) == Some(Delete)
    ensures exists op :: op in done && op.action.Delete? && op.Named() == k
    decreases |done|
  {
    var last := |done| - 1;
    if done[last].Names() && done[last].Named() == k {
      assert done[last] in done;
    } else {
      DeletedIfLast(done[..last], k);
      var op :| op in done[..last] && op.action.Delete? && op.Named() == k;
      assert op in done;
    }
  }

  lemma Snoc(index: Index, upserts: seq<(Key, Cid)>, u: (Key, Cid), done: seq<Op>, op: Op, k: Key)
    ensures Upserted(index, upserts + [u]) == Upserted(index, upserts)[u.0 := u.1]
    ensures LastNamed(done + [op], k) == if op.Names() && op.Named() == k then Some(op.action) else LastNamed(done, k)
  {
    assert (upserts + [u])[..|upserts|] == upserts;
    assert (done + [op])[..|done|] == done;
  }

  lemma TrackStepAt(index: Index, b: Batch, done: seq<Op>, op: Op, out: TreeOut, k: Key)
    requires Joinable(k) && Tracks(index, b, done, k)
    requires Joinable(op.Named()) && MintIsFresh(b, op, out)
    requires StepOp(index, b, op, out).err.None?
    ensures Tracks(index, StepOp(index, b, op, out).batch, done + [op], k)
  {
    var key := Touched(op, out);
    Snoc(index, b.upserts, (key, op.rec), done, op, k);
    if Path(k) == Path(key) {
      PathInjective(k, key);
    }
    var after := StepOp(index, b, op, out).batch;
    assert k in after.deletes <==> k in b.deletes || (op.action.Delete? && op.Named() == k);
    assert op in done + [op];
    assert forall o :: o in done + [op] <==> o in done || o == op;
  }

  lemma TrackStep(index: Index, b: Batch, done: seq<Op>, op: Op, out: TreeOut)
    requires Tracked(index, b, done) && Joinable(op.Named()) && MintIsFresh(b, op, out)
    requires StepOp(index, b, op, out).err.None?
    ensures Tracked(index, StepOp(index, b, op, out).batch, done + [op])
  {
    var after := StepOp(index, b, op, out).batch;
    forall k | Joinable(k)
      ensures Tracks(index, after, done + [op], k)
    {
      TrackStepAt(index, b, done, op, out, k);
    }
  }

  lemma Shift(done: seq<Op>, ops: seq<Op>)
    requires ops != []
    ensures done + [ops[0]] + ops[1..] == done + ops
  {
  }

  lemma {:induction false} TrackRun(index: Index, b: Batch, done: seq<Op>, ops: seq<Op>, outs: seq<TreeOut>,
                                    all: seq<Op>)
    requires |ops| == |outs| && OpsJoinable(ops) && all == done + ops
    requires Tracked(index, b, done) && LibraryOk(index, b, ops, outs)
    requires RunOps(index, b, ops, outs).err.None?
    ensures Tracked(index, RunOps(index, b, ops, outs).batch, all)
    decreases |ops|
  {
    if ops == [] {
      assert all == done;
    } else {
      assert Joinable(ops[0].Named());
      TrackStep(index, b, done, ops[0], outs[0]);
      Shift(done, ops);
      TrackRun(index, StepOp(index, b, ops[0], outs[0]).batch, done + [ops[0]], ops[1..], outs[1..], all);
    }
  }

  lemma {:induction false} UpsertedKeys(index: Index, upserts: seq<(Key, Cid)>)
    requires forall k :: k in index ==> Joinable(k)
    requires forall u :: u in upserts ==> Joinable(u.0)
    ensures forall k :: k in Upserted(index, upserts) ==> Joinable(k)
    decreases |upserts|
  {
    if upserts != [] {
      UpsertedKeys(index, upserts[..|upserts| - 1]);
    }
  }

  /** The batch only writes well-formed paths, and only keys whose collection is joinable. */
  lemma {:induction false} RunKeepsShape(index: Index, b: Batch, ops: seq<Op>, outs: seq<TreeOut>)
    requires |ops| == |outs| && OpsJoinable(ops)
    requires forall u :: u in b.upserts ==> Joinable(u.0)
    requires forall p :: p in b.tree ==> '/' in p
    ensures var after := RunOps(index, b, ops, outs).batch;
            && (forall u :: u in after.upserts ==> Joinable(u.0))
            && (forall p :: p in after.tree ==> '/' in p)
    decreases |ops|
  {
    if ops != [] {
      assert Joinable(ops[0].Named());
      assert '/' in Path(Touched(ops[0], outs[0]));
      var p := StepOp(index, b, ops[0], outs[0]);
      if p.err.None? {
        RunKeepsShape(index, p.batch, ops[1..], outs[1..]);
      }
    }
  }

  /** One key after the index write. */
  lemma WrittenAt(index: Index, b: Batch, ops: seq<Op>, k: Key)
    requires Tracks(index, b, ops, k)
    ensures Get(IndexAfter(index, b), k) == Get(b.tree, Path(k))
       <==> (k in b.deletes ==> LastNamed(ops, k) == Some(Delete))
  {
    WithoutAt(Upserted(index, b.upserts), b.deletes, k);
    if k in b.deletes {
      var op :| op in ops && op.action.Delete? && op.Named() == k;
      NamedIfDeleted(ops, op);
      assert LastNamed(ops, k).Some? && Get(IndexAfter(index, b), k) == None;
    } else if LastNamed(ops, k) == Some(Delete) {
      DeletedIfLast(ops, k);
      assert false;
    }
  }

  lemma WrittenIs(index: Index, b: Batch, ops: seq<Op>)
    requires OpsJoinable(ops) && Tracked(index, b, ops)
    requires forall k :: k in Upserted(index, b.upserts) ==> Joinable(k)
    requires forall p :: p in b.tree ==> '/' in p
    ensures IndexIs(IndexAfter(index, b), b.tree) <==> DeletesLast(ops)
  {
    var written := IndexAfter(index, b);
    if DeletesLast(ops) {
      forall k
        ensures k in written ==> Joinable(k)
        ensures Joinable(k) ==> Get(written, k) == Get(b.tree, Path(k))
      {
        WithoutAt(Upserted(index, b.upserts), b.deletes, k);
        if Joinable(k) {
          WrittenAt(index, b, ops, k);
        }
      }
    } else {
      var op :| op in ops && op.action.Delete? && LastNamed(ops, op.Named()) != Some(Delete);
      WrittenAt(index, b, ops, op.Named());
    }
  }

  /**
    After an accepted batch the index holds the committed tree exactly when, for every path the
    batch deletes, its last operation on that path is a delete.
   */
  lemma {:induction false} DeferredIndexAgrees(index: Index, tree: Tree, ops: seq<Op>, outs: seq<TreeOut>)
    requires |ops| == |outs| && OpsJoinable(ops)
    requires IndexIs(index, tree) && LibraryOk(index, Start(tree), ops, outs)
    requires RunOps(index, Start(tree), ops, outs).err.None?
    ensures var final := RunOps(index, Start(tree), ops, outs).batch;
            IndexIs(IndexAfter(index, final), final.tree) <==> DeletesLast(ops)
  {
    var final := RunOps(index, Start(tree), ops, outs).batch;
    assert [] + ops == ops;
    TrackRun(index, Start(tree), [], ops, outs, ops);
    RunKeepsShape(index, Start(tree), ops, outs);
    UpsertedKeys(index, final.upserts);
    WrittenIs(index, final, ops);
  }
}
