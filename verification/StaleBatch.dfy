/**
  A batch run on a tree that is not the one the index holds, as after an aborted write. What it
  announces and queues does not depend on the tree; what it leaves there does.
 */
module StaleBatch {
  import opened Basics
  import opened RecordPath
  import opened WriteBatch
  import opened BatchLaws
  import opened Inversion
  import opened DeferredIndex

  /** Some operation of the batch writes this path. */
  ghost predicate Touches(ops: seq<Op>, outs: seq<TreeOut>, p: string)
    requires |ops| == |outs|
  {
    exists i :: 0 <= i < |ops| && Path(Touched(ops[i], outs[i])) == p
  }

  /** Wherever the two trees differ, the batch writes. */
  ghost predicate Covered(head: Tree, tree: Tree, ops: seq<Op>, outs: seq<TreeOut>)
    requires |ops| == |outs|
  {
    forall p :: Get(tree, p) != Get(head, p) ==> Touches(ops, outs, p)
  }

  lemma SameTree(a: Tree, b: Tree)
    requires forall p :: Get(a, p) == Get(b, p)
    ensures a == b
  {
    forall p
      ensures p in a <==> p in b
      ensures p in a ==> a[p] == b[p]
    {
      assert Get(a, p) == Get(b, p);
    }
  }

  // ----- two runs side by side ------------------------------------------------------------

  lemma StepAlike(index: Index, b: Batch, tree: Tree, op: Op, out: TreeOut, p: string)
    ensures var one, two := StepOp(index, b, op, out), StepOp(index, b.(tree := tree), op, out);
            && two.err == one.err && two.batch == one.batch.(tree := two.batch.tree)
            && (one.err.None? ==>
                  (Get(two.batch.tree, p) == Get(one.batch.tree, p)
                   <==> Get(tree, p) == Get(b.tree, p) || Path(Touched(op, out)) == p))
  {
  }

  lemma TouchesTail(ops: seq<Op>, outs: seq<TreeOut>, p: string)
    requires |ops| == |outs| && ops != []
    ensures Touches(ops, outs, p) <==> Path(Touched(ops[0], outs[0])) == p || Touches(ops[1..], outs[1..], p)
  {
    if i :| 0 <= i < |ops| && Path(Touched(ops[i], outs[i])) == p {
      if i > 0 {
        assert ops[1..][i - 1] == ops[i] && outs[1..][i - 1] == outs[i];
      }
    }
    if i :| 0 <= i < |ops[1..]| && Path(Touched(ops[1..][i], outs[1..][i])) == p {
      assert ops[1..][i] == ops[i + 1] && outs[1..][i] == outs[i + 1];
    }
  }

  /** An accepted batch does the same on any two trees, and they end equal where they were or where it wrote. */
  lemma {:induction false} RunAlike(index: Index, b: Batch, tree: Tree, ops: seq<Op>, outs: seq<TreeOut>, p: string)
    requires |ops| == |outs| && RunOps(index, b, ops, outs).err.None?
    ensures var one, two := RunOps(index, b, ops, outs), RunOps(index, b.(tree := tree), ops, outs);
            && two.err.None? && two.batch == one.batch.(tree := two.batch.tree)
            && (Get(two.batch.tree, p) == Get(one.batch.tree, p)
                <==> Get(tree, p) == Get(b.tree, p) || Touches(ops, outs, p))
    decreases |ops|
  {
    if ops != [] {
      var one := StepOp(index, b, ops[0], outs[0]);
      var two := StepOp(index, b.(tree := tree), ops[0], outs[0]);
      StepAlike(index, b, tree, ops[0], outs[0], p);
      RunAlike(index, one.batch, two.batch.tree, ops[1..], outs[1..], p);
      TouchesTail(ops, outs, p);
    }
  }

  /** The runs from the head and from the tree of the handle, compared over all paths. */
  lemma RunsCompared(index: Index, head: Tree, tree: Tree, ops: seq<Op>, outs: seq<TreeOut>)
    requires |ops| == |outs| && RunOps(index, Start(tree), ops, outs).err.None?
    ensures var h, b := RunOps(index, Start(head), ops, outs), RunOps(index, Start(tree), ops, outs).batch;
            && h.err.None? && h.batch == b.(tree := h.batch.tree)
            && (forall p :: Get(h.batch.tree, p) == Get(b.tree, p)
                            <==> Get(head, p) == Get(tree, p) || Touches(ops, outs, p))
            && (h.batch.tree == b.tree <==> Covered(head, tree, ops, outs))
  {
    var h, b := RunOps(index, Start(head), ops, outs), RunOps(index, Start(tree), ops, outs).batch;
    RunAlike(index, Start(tree), head, ops, outs, "");
    forall p
      ensures Get(h.batch.tree, p) == Get(b.tree, p) <==> Get(head, p) == Get(tree, p) || Touches(ops, outs, p)
    {
      RunAlike(index, Start(tree), head, ops, outs, p);
    }
    if Covered(head, tree, ops, outs) {
      SameTree(h.batch.tree, b.tree);
    }
  }

  // ----- the index ------------------------------------------------------------------------

  /** Operations that keep off a path leave its record and its index row as they were. */
  lemma {:induction false} RunKeepsOff(index: Index, b: Batch, ops: seq<Op>, outs: seq<TreeOut>, k: Key)
    requires |ops| == |outs| && OpsJoinable(ops) && Joinable(k)
    requires forall i :: 0 <= i < |ops| ==> Touched(ops[i], outs[i]) != k
    ensures var after := RunOps(index, b, ops, outs).batch;
            && Get(after.tree, Path(k)) == Get(b.tree, Path(k))
            && Get(IndexAfter(index, after), k) == Get(IndexAfter(index, b), k)
    decreases |ops|
  {
    if ops != [] {
      assert Joinable(ops[0].Named()) && Touched(ops[0], outs[0]) != k;
      var p := StepOp(index, b, ops[0], outs[0]);
      if p.err.None? {
        AcceptKeepsRow(index, b, ops[0], outs[0], k);
        RunKeepsOff(index, p.batch, ops[1..], outs[1..], k);
      }
    }
  }

  lemma AcceptKeepsRow(index: Index, b: Batch, op: Op, out: TreeOut, k: Key)
    requires Joinable(k) && Joinable(op.Named()) && Touched(op, out) != k
    requires StepOp(index, b, op, out).err.None?
    ensures var after := StepOp(index, b, op, out).batch;
            && Get(after.tree, Path(k)) == Get(b.tree, Path(k))
            && Get(IndexAfter(index, after), k) == Get(IndexAfter(index, b), k)
  {
    if Path(Touched(op, out)) == Path(k) {
      PathInjective(Touched(op, out), k);
    }
    var after := StepOp(index, b, op, out).batch;
    var key := Touched(op, out);
    WithoutAt(Upserted(index, b.upserts), b.deletes, k);
    WithoutAt(Upserted(index, after.upserts), after.deletes, k);
    assert (b.upserts + [(key, op.rec)])[..|b.upserts|] == b.upserts;
  }

  /** A path the batch does not write keeps the index row of the head. */
  lemma UntouchedRow(index: Index, head: Tree, tree: Tree, ops: seq<Op>, outs: seq<TreeOut>, p: string)
    requires |ops| == |outs| && OpsJoinable(ops) && IndexIs(index, head) && '/' in p && !Touches(ops, outs, p)
    ensures var b := RunOps(index, Start(tree), ops, outs).batch;
            Joinable(Cut(p)) && Path(Cut(p)) == p
            && Get(IndexAfter(index, b), Cut(p)) == Get(head, p) && Get(b.tree, p) == Get(tree, p)
  {
    var k := Cut(p);
    PathUndoesCut(p);
    RunKeepsOff(index, Start(tree), ops, outs, k);
  }

  /**
    After an accepted batch on any tree the index holds the resulting tree exactly when every
    deleted path has a delete as its last operation, and the batch writes wherever the tree it
    started from differs from the one the index held.
   */
  lemma {:induction false} StaleIndexAgreesExactlyWhen(index: Index, head: Tree, tree: Tree,
                                                       ops: seq<Op>, outs: seq<TreeOut>)
    requires |ops| == |outs| && OpsJoinable(ops)
    requires IndexIs(index, head) && LibraryOk(index, Start(head), ops, outs)
    requires (forall p :: p in tree ==> '/' in p) && RunOps(index, Start(tree), ops, outs).err.None?
    ensures var b := RunOps(index, Start(tree), ops, outs).batch;
            IndexIs(IndexAfter(index, b), b.tree) <==> DeletesLast(ops) && Covered(head, tree, ops, outs)
  {
    var b := RunOps(index, Start(tree), ops, outs).batch;
    RunsCompared(index, head, tree, ops, outs);
    DeferredIndexAgrees(index, head, ops, outs);
    if IndexIs(IndexAfter(index, b), b.tree) {
      forall p | Get(tree, p) != Get(head, p)
        ensures Touches(ops, outs, p)
      {
        if !Touches(ops, outs, p) {
          UntouchedRow(index, head, tree, ops, outs, p);
          assert false;
        }
      }
    }
  }

  // ----- the announcements ----------------------------------------------------------------

  lemma StepAnnounces(index: Index, b: Batch, op: Op, out: TreeOut, o: RepoOp)
    requires StepOp(index, b, op, out).err.None? && o in StepOp(index, b, op, out).batch.emitted
    ensures o in b.emitted || o.path == Path(Touched(op, out))
  {
  }

  /** A batch announces only paths it writes. */
  lemma {:induction false} AnnouncesTouched(index: Index, b: Batch, ops: seq<Op>, outs: seq<TreeOut>, o: RepoOp)
    requires |ops| == |outs| && RunOps(index, b, ops, outs).err.None?
    requires o in RunOps(index, b, ops, outs).batch.emitted
    ensures o in b.emitted || Touches(ops, outs, o.path)
    decreases |ops|
  {
    if ops != [] {
      var one := StepOp(index, b, ops[0], outs[0]).batch;
      AnnouncesTouched(index, one, ops[1..], outs[1..], o);
      TouchesTail(ops, outs, o.path);
      if o in one.emitted {
        StepAnnounces(index, b, ops[0], outs[0], o);
      }
    }
  }

  /** Taking announcements back does the same to two trees that agree on the announced paths. */
  lemma {:induction false} BackwardAlike(a: Tree, b: Tree, os: seq<RepoOp>, p: string)
    requires forall i :: 0 <= i < |os| ==> Get(a, os[i].path) == Get(b, os[i].path)
    ensures Backward(a, os).None? <==> Backward(b, os).None?
    ensures Backward(a, os).Some? ==>
              (Get(Backward(a, os).value, p) == Get(Backward(b, os).value, p) <==> Get(a, p) == Get(b, p))
    decreases |os|
  {
    if os != [] {
      forall i | 0 <= i < |os[1..]|
        ensures Get(a, os[1..][i].path) == Get(b, os[1..][i].path)
      {
        assert os[1..][i] == os[i + 1];
      }
      BackwardAlike(a, b, os[1..], p);
      BackwardAlike(a, b, os[1..], os[0].path);
    }
  }

  /** The announcements taken back from the tree of the handle, and from what the head would have become. */
  lemma BackwardCompared(index: Index, head: Tree, tree: Tree, ops: seq<Op>, outs: seq<TreeOut>)
    requires |ops| == |outs| && RunOps(index, Start(tree), ops, outs).err.None?
    ensures var h, b := RunOps(index, Start(head), ops, outs).batch, RunOps(index, Start(tree), ops, outs).batch;
            && (Backward(b.tree, b.emitted).None? <==> Backward(h.tree, b.emitted).None?)
            && (Backward(b.tree, b.emitted).Some? ==>
                  (Backward(b.tree, b.emitted) == Backward(h.tree, b.emitted) <==> b.tree == h.tree))
  {
    var h, b := RunOps(index, Start(head), ops, outs).batch, RunOps(index, Start(tree), ops, outs).batch;
    RunsCompared(index, head, tree, ops, outs);
    forall i | 0 <= i < |b.emitted|
      ensures Get(b.tree, b.emitted[i].path) == Get(h.tree, b.emitted[i].path)
    {
      AnnouncesTouched(index, Start(tree), ops, outs, b.emitted[i]);
    }
    BackwardAlike(b.tree, h.tree, b.emitted, "");
    if Backward(b.tree, b.emitted).Some? && Backward(b.tree, b.emitted) == Backward(h.tree, b.emitted) {
      forall p
        ensures Get(b.tree, p) == Get(h.tree, p)
      {
        BackwardAlike(b.tree, h.tree, b.emitted, p);
      }
      SameTree(b.tree, h.tree);
    }
  }

  /**
    The announcements of an accepted batch on any tree lead from the head to the resulting tree,
    and back, each exactly when no operation names a path minted before it, and the batch writes
    wherever the tree it started from differs from the head.
   */
  lemma {:induction false} StaleBatchInvertsExactlyWhen(index: Index, head: Tree, tree: Tree,
                                                        ops: seq<Op>, outs: seq<TreeOut>)
    requires |ops| == |outs| && OpsJoinable(ops)
    requires IndexIs(index, head) && LibraryOk(index, Start(head), ops, outs)
    requires RunOps(index, Start(tree), ops, outs).err.None?
    ensures var b := RunOps(index, Start(tree), ops, outs).batch;
            var told := AvoidsMinted({}, ops, outs) && Covered(head, tree, ops, outs);
            && (Forward(head, b.emitted) == Some(b.tree) <==> told)
            && (Backward(b.tree, b.emitted) == Some(head) <==> told)
  {
    RunsCompared(index, head, tree, ops, outs);
    AcceptedBatchInverts(index, head, ops, outs);
    BackwardCompared(index, head, tree, ops, outs);
  }
}
