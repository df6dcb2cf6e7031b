/** What a write does from a cached handle whose tree is not the head's, and how a handle gets there. */
module RepoStale {
  import opened Basics
  import opened RecordPath
  import opened WriteBatch
  import opened BatchLaws
  import opened Inversion
  import opened DeferredIndex
  import opened StaleBatch
  import opened RepoState
  import opened RepoInvariant
  import opened RepoSteps
  import opened RepoRejected
  import opened RepoRuns

  // ----- writes from a handle that is not what the head says ------------------------------

  lemma StaleRan(w: World, s: State, did: Did, h: Handle, p: Progress)
    requires BlocksOk(w, s)
    ensures var ran := AfterOps(w, s, did, h, p);
            && ran.rows == s.rows && ran.log == s.log && ran.recorded == Some(p.batch.puts)
            && ran.handles == s.handles[did := h.(tree := p.batch.tree)]
            && ran.blocks.Keys == s.blocks.Keys + p.batch.puts
            && BlocksOk(w, ran)
  {
    BlocksOnlyGrow(w, Begun(s, did, h.(tree := p.batch.tree)).(recorded := Some({})), p.batch.puts);
    assert {} + p.batch.puts == p.batch.puts;
  }

  /** The batch is accepted and Commit succeeds; the handle's tree may be anything. */
  ghost predicate Accepted(w: World, s: State, did: Did, ops: seq<Op>, outs: seq<TreeOut>, co: CommitOut,
                           h: Handle, p: Progress)
    requires |ops| == |outs|
  {
    && Opened(w, s, did) == Some(h) && h.last == HeadOf(RowsOf(s, did))
    && p == RunOps(RowsOf(s, did).records, Start(h.tree), ops, outs)
    && p.err.None? && co.ok && CommitOk(w, did, h.(tree := p.batch.tree), co)
  }

  /** Whatever tree the handle held, an accepted write ends the same way. */
  lemma AcceptedWrite(w: World, s: State, did: Did, ops: seq<Op>, outs: seq<TreeOut>,
                      swapCommit: Option<Option<Cid>>, co: CommitOut, h: Handle, p: Progress)
    requires |ops| == |outs| && BlocksOk(w, s) && RowsSigned(w, did, RowsOf(s, did), s.blocks.Keys)
    requires Accepted(w, s, did, ops, outs, co, h, p) && SwapMatches(s, did, swapCommit)
    ensures ApplyWrites(w, s, did, ops, outs, swapCommit, co)
         == Finished(w, AfterOps(w, s, did, h, p), did, p.batch, co)
  {
    var ran := AfterOps(w, s, did, h, p);
    StaleRan(w, s, did, h, p);
    HeadIsMax(RowsOf(s, did));
    FinishedRowsFacts(w, did, RowsOf(s, did), s.blocks.Keys, p.batch, co);
    FinishOutcome(w, ran, did, p.batch, co);
  }

  /** The rows, blocks, handle and log it ends with. */
  lemma AcceptedParts(w: World, s: State, did: Did, h: Handle, p: Progress, co: CommitOut)
    requires BlocksOk(w, s)
    ensures var t := RowsOf(s, did);
            var r := Finished(w, AfterOps(w, s, did, h, p), did, p.batch, co);
            && r.result.Ok?
            && r.state.rows == s.rows[did := FinishedRows(t, p.batch, co)]
            && r.state.handles == s.handles[did := Handle(p.batch.tree, Some(NewHead(co)))]
            && r.state.blocks.Keys == s.blocks.Keys + (p.batch.puts + ToSet(co.puts)) && BlocksOk(w, r.state)
            && r.state.log == s.log + [FinishedEvent(w, did, h.last, p.batch, co)]
  {
    StaleRan(w, s, did, h, p);
    PutAllIs(w, AfterOps(w, s, did, h, p).blocks, ToSet(co.puts));
  }

  lemma FinishedSigned(w: World, did: Did, t: Tables, stored: set<Cid>, b: Batch, co: CommitOut)
    requires RowsSigned(w, did, t, stored)
    requires w.signed(co.cid) == Some(Signed(did, co.rev, co.data))
    requires HeadOf(t).Some? ==> co.rev > HeadOf(t).value.rev
    ensures RowsSigned(w, did, FinishedRows(t, b, co), stored + (b.puts + ToSet(co.puts)))
  {
    CommittedHead(t, co, b.puts + ToSet(co.puts));
  }

  /** A commit's blocks are all listed exactly when its records are, once its other blocks were Put. */
  lemma FinishedReaches(w: World, did: Did, t: Tables, b: Batch, co: CommitOut)
    requires WorldOk(w) && co.ok && CommitOk(w, did, Handle(b.tree, HeadOf(t)), co)
    requires Reached(w, HeadOf(t)) <= t.revs.Keys
    ensures w.reach(co.cid) <= RepoCids(FinishedRows(t, b, co), None)
       <==> b.tree.Values <= t.revs.Keys + (b.puts + ToSet(co.puts))
  {
    assert RepoCids(FinishedRows(t, b, co), None) == t.revs.Keys + (b.puts + ToSet(co.puts));
    assert b.tree.Values <= w.reach(co.cid);
  }

  /**
    Every accepted write from a handle whose tree may not be the head's, and whose full export
    was complete before. It commits, and the account's full export then holds every block of the
    new head exactly when each record of the committed tree was listed in the block revs already
    or Put by this write.
   */
  lemma ExportStaysCompleteExactlyWhen(w: World, s: State, did: Did, ops: seq<Op>, outs: seq<TreeOut>,
                                       swapCommit: Option<Option<Cid>>, co: CommitOut, h: Handle, p: Progress)
    requires WorldOk(w) && |ops| == |outs| && BlocksOk(w, s)
    requires RowsSigned(w, did, RowsOf(s, did), s.blocks.Keys)
    requires Reached(w, HeadOf(RowsOf(s, did))) <= RowsOf(s, did).revs.Keys
    requires Accepted(w, s, did, ops, outs, co, h, p) && SwapMatches(s, did, swapCommit)
    ensures var r := ApplyWrites(w, s, did, ops, outs, swapCommit, co);
            var car := RepoCar(r.state, did, None);
            && r.result.Ok? && HeadOf(RowsOf(r.state, did)) == Some(NewHead(co)) && car.Some?
            && (w.reach(co.cid) <= car.value.blocks.Keys
                <==> p.batch.tree.Values <= RowsOf(s, did).revs.Keys + (p.batch.puts + ToSet(co.puts)))
  {
    var t := RowsOf(s, did);
    AcceptedWrite(w, s, did, ops, outs, swapCommit, co, h, p);
    AcceptedParts(w, s, did, h, p, co);
    FinishedRowsFacts(w, did, t, s.blocks.Keys, p.batch, co);
    FinishedReaches(w, did, t, p.batch, co);
    FinishedSigned(w, did, t, s.blocks.Keys, p.batch, co);
    SignedExports(w, ApplyWrites(w, s, did, ops, outs, swapCommit, co).state, did);
  }

  lemma SignedExports(w: World, s: State, did: Did)
    requires RowsSigned(w, did, RowsOf(s, did), s.blocks.Keys) && HeadOf(RowsOf(s, did)).Some?
    ensures RepoCar(s, did, None).Some? && RepoCar(s, did, None).value.blocks.Keys == RepoCids(RowsOf(s, did), None)
  {
  }

  /**
    In particular, let the handle hold a record the head does not have, whose block no block rev
    lists. Any accepted write that keeps off its path and does not Put that block again commits
    the record, but writes no index row and no block rev for it.
   */
  lemma StaleHandleBreaksSync(w: World, s: State, did: Did, ops: seq<Op>, outs: seq<TreeOut>,
                              swapCommit: Option<Option<Cid>>, co: CommitOut, h: Handle, p: Progress, k: Key)
    requires WorldOk(w) && |ops| == |outs| && OpsJoinable(ops) && Joinable(k) && BlocksOk(w, s)
    requires AccountOk(w, did, RowsOf(s, did), s.blocks.Keys)
    requires Accepted(w, s, did, ops, outs, co, h, p) && SwapMatches(s, did, swapCommit)
    requires Path(k) in h.tree && Path(k) !in HeadTree(w, RowsOf(s, did))
    requires forall i :: 0 <= i < |ops| ==> Touched(ops[i], outs[i]) != k
    requires var lost := h.tree[Path(k)]; lost !in p.batch.puts && lost !in co.puts && lost !in RowsOf(s, did).revs
    ensures var r := ApplyWrites(w, s, did, ops, outs, swapCommit, co);
            var lost := h.tree[Path(k)];
            && r.result.Ok?
            && HeadOf(RowsOf(r.state, did)) == Some(NewHead(co))
            && Get(HeadTree(w, RowsOf(r.state, did)), Path(k)) == Some(lost)
            && k !in RowsOf(r.state, did).records
            && lost in w.reach(co.cid) && lost !in RepoCids(RowsOf(r.state, did), None)
  {
    var t := RowsOf(s, did);
    RunKeepsOff(t.records, Start(h.tree), ops, outs, k);
    assert Get(t.records, k) == None;
    assert h.tree[Path(k)] in p.batch.tree.Values;
    FinishedRowsFacts(w, did, t, s.blocks.Keys, p.batch, co);
    FinishedHead(w, t, p.batch, co);
    assert h.tree[Path(k)] in w.reach(co.cid);
    AcceptedWrite(w, s, did, ops, outs, swapCommit, co, h, p);
    AcceptedParts(w, s, did, h, p, co);
  }

  // ----- the index and the event of such a write ------------------------------------------

  /** A replica that holds the account's head. */
  ghost predicate AtHead(w: World, rep: Replica, t: Tables) {
    rep.head == HeadOf(t) && rep.tree == HeadTree(w, t)
  }

  /** Where a consumer at the head gets with the event of a write: on, if the announcements lead there and back. */
  lemma ConsumeFinished(w: World, did: Did, t: Tables, b: Batch, co: CommitOut, rep: Replica)
    requires AtHead(w, rep, t) && w.signed(co.cid) == Some(Signed(did, co.rev, co.data)) && w.tree(co.data) == b.tree
    ensures Consume(w, rep, FinishedEvent(w, did, HeadOf(t), b, co)).Some?
       <==> Forward(HeadTree(w, t), b.emitted) == Some(b.tree) && Backward(b.tree, b.emitted) == Some(HeadTree(w, t))
  {
  }

  /** What the rows and the event of such a write say, each with its exact condition. */
  ghost predicate StaleOutcome(w: World, t: Tables, t': Tables, e: Event, ops: seq<Op>, outs: seq<TreeOut>,
                               h: Handle, p: Progress)
    requires |ops| == |outs| && e.CommitEvent?
  {
    var covered := Covered(HeadTree(w, t), h.tree, ops, outs);
    var told := AvoidsMinted({}, ops, outs) && covered;
    && HeadTree(w, t') == p.batch.tree
    && (IndexIs(t'.records, HeadTree(w, t')) <==> DeletesLast(ops) && covered)
    && (Forward(HeadTree(w, t), e.ops) == Some(HeadTree(w, t')) <==> told)
    && (Backward(HeadTree(w, t'), e.ops) == Some(HeadTree(w, t)) <==> told)
    && (forall rep :: AtHead(w, rep, t) ==> (Consume(w, rep, e).Some? <==> told))
  }

  lemma StaleFinished(w: World, did: Did, t: Tables, stored: set<Cid>, ops: seq<Op>, outs: seq<TreeOut>,
                      co: CommitOut, h: Handle, p: Progress)
    requires AccountOk(w, did, t, stored) && |ops| == |outs| && OpsJoinable(ops)
    requires LibraryOk(t.records, Start(HeadTree(w, t)), ops, outs)
    requires (forall x :: x in h.tree ==> '/' in x) && h.last == HeadOf(t)
    requires p == RunOps(t.records, Start(h.tree), ops, outs) && p.err.None?
    requires co.ok && CommitOk(w, did, h.(tree := p.batch.tree), co)
    ensures StaleOutcome(w, t, FinishedRows(t, p.batch, co), FinishedEvent(w, did, HeadOf(t), p.batch, co), ops, outs,
                         h, p)
  {
    StaleIndexAgreesExactlyWhen(t.records, HeadTree(w, t), h.tree, ops, outs);
    StaleBatchInvertsExactlyWhen(t.records, HeadTree(w, t), h.tree, ops, outs);
    FinishedHead(w, t, p.batch, co);
    forall rep | AtHead(w, rep, t)
      ensures Consume(w, rep, FinishedEvent(w, did, HeadOf(t), p.batch, co)).Some?
         <==> AvoidsMinted({}, ops, outs) && Covered(HeadTree(w, t), h.tree, ops, outs)
    {
      ConsumeFinished(w, did, t, p.batch, co, rep);
    }
  }

  /**
    Every accepted write from a handle whose tree may not be the head's. It commits the tree of the
    handle. The index holds that tree exactly when deleted paths have a delete last, and every path
    on which the handle differed from the head is written by the batch. Its event leads from the
    old head to the new one, and back, exactly when no operation names a path minted before it, and
    again every such path is written; otherwise every consumer that stands at the old head refuses it.
   */
  lemma StaleWriteExactlyWhen(w: World, s: State, did: Did, ops: seq<Op>, outs: seq<TreeOut>,
                              swapCommit: Option<Option<Cid>>, co: CommitOut, h: Handle, p: Progress)
    requires |ops| == |outs| && OpsJoinable(ops) && BlocksOk(w, s)
    requires AccountOk(w, did, RowsOf(s, did), s.blocks.Keys)
    requires LibraryOk(RowsOf(s, did).records, Start(HeadTree(w, RowsOf(s, did))), ops, outs)
    requires Accepted(w, s, did, ops, outs, co, h, p) && SwapMatches(s, did, swapCommit)
    requires forall x :: x in h.tree ==> '/' in x
    ensures var r := ApplyWrites(w, s, did, ops, outs, swapCommit, co);
            && r.result.Ok? && |r.state.log| == |s.log| + 1 && s.log <= r.state.log
            && r.state.log[|s.log|].CommitEvent?
            && StaleOutcome(w, RowsOf(s, did), RowsOf(r.state, did), r.state.log[|s.log|], ops, outs, h, p)
  {
    AcceptedWrite(w, s, did, ops, outs, swapCommit, co, h, p);
    AcceptedParts(w, s, did, h, p, co);
    StaleFinished(w, did, RowsOf(s, did), s.blocks.Keys, ops, outs, co, h, p);
  }

  // ----- how a handle gets there ----------------------------------------------------------

  /** A batch that creates k and then deletes a record that is not there. */
  predicate CreateThenBadDelete(ops: seq<Op>, outs: seq<TreeOut>, k: Key, rec: Cid, absent: Key) {
    && ops == [Op(Action.Create, k.collection, k.rkey, rec, None),
               Op(Action.Delete, absent.collection, absent.rkey, rec, None)]
    && |outs| == 2 && outs[0].ok && outs[0].puts == [rec]
  }

  lemma AbortedBatch(index: Index, tree: Tree, ops: seq<Op>, outs: seq<TreeOut>, k: Key, rec: Cid, absent: Key)
    requires IndexIs(index, tree) && Joinable(k) && Joinable(absent) && k != absent && k.rkey != ""
    requires Path(k) !in tree && Path(absent) !in tree && CreateThenBadDelete(ops, outs, k, rec, absent)
    ensures var p := RunOps(index, Start(tree), ops, outs);
            p.err == Some(RecordNotFound(Path(absent))) && p.batch.tree == tree[Path(k) := rec] && p.batch.puts == {rec}
  {
    var one := StepOp(index, Start(tree), ops[0], outs[0]);
    assert ops[0].Named() == k && ops[1].Named() == absent;
    assert Get(index, k) == None && Get(index, absent) == None;
    if Path(k) == Path(absent) {
      PathInjective(k, absent);
    }
    assert one.err.None? && one.batch.tree == tree[Path(k) := rec] && one.batch.puts == {rec};
    var two := StepOp(index, one.batch, ops[1], outs[1]);
    assert two.err == Some(RecordNotFound(Path(absent)));
    assert two.batch.tree == one.batch.tree && two.batch.puts == one.batch.puts;
    assert RunOps(index, one.batch, ops[1..], outs[1..]) == two;
  }

  /** A refused write, from any state that is in order, and what it leaves. */
  lemma RefusedLeaves(w: World, s: State, did: Did, ops: seq<Op>, outs: seq<TreeOut>, co: CommitOut, p: Progress)
    requires WorldOk(w) && Inv(w, s) && |ops| == |outs|
    requires p == RunOps(RowsOf(s, did).records, Start(HeadTree(w, RowsOf(s, did))), ops, outs) && p.err.Some?
    ensures var r := ApplyWrites(w, s, did, ops, outs, None, co);
            && r.result == Err(Refused(p.err.value)) && r.state.rows == s.rows && r.state.log == s.log
            && r.state.handles == s.handles[did := Handle(p.batch.tree, HeadOf(RowsOf(s, did)))]
            && BlocksOk(w, r.state) && r.state.blocks.Keys == s.blocks.Keys + p.batch.puts
            && (Inv(w, r.state) <==> p.batch.tree == HeadTree(w, RowsOf(s, did)))
  {
    OpensAtHead(w, s, did);
    RanCoherence(w, s, did, p.batch);
    RanIs(w, s, did, p.batch);
  }

  /**
    From any state of a clean run, such a batch is refused, and changes no row and no event; but
    the record it created stays in the cached handle.
   */
  lemma AbortLeavesRecord(w: World, s: State, did: Did, ops: seq<Op>, outs: seq<TreeOut>, co: CommitOut,
                          k: Key, rec: Cid, absent: Key)
    requires WorldOk(w) && Inv(w, s) && CreateThenBadDelete(ops, outs, k, rec, absent)
    requires Joinable(k) && Joinable(absent) && k != absent && k.rkey != ""
    requires Path(k) !in HeadTree(w, RowsOf(s, did)) && Path(absent) !in HeadTree(w, RowsOf(s, did))
    ensures var t := RowsOf(s, did);
            var r := ApplyWrites(w, s, did, ops, outs, None, co);
            && r.result == Err(Refused(RecordNotFound(Path(absent)))) && r.state.rows == s.rows && r.state.log == s.log
            && r.state.handles == s.handles[did := Handle(HeadTree(w, t)[Path(k) := rec], HeadOf(t))]
            && BlocksOk(w, r.state) && r.state.blocks.Keys == s.blocks.Keys + {rec}
            && !Inv(w, r.state)
  {
    var t := RowsOf(s, did);
    RowsOk(w, s, did);
    AbortedBatch(t.records, HeadTree(w, t), ops, outs, k, rec, absent);
    RefusedLeaves(w, s, did, ops, outs, co, RunOps(t.records, Start(HeadTree(w, t)), ops, outs));
  }

  /** A state like the one after the abort: the rows are in order, the handle holds one record too many. */
  ghost predicate Stray(w: World, s: State, did: Did, k: Key, rec: Cid) {
    var t := RowsOf(s, did);
    && BlocksOk(w, s) && AccountOk(w, did, t, s.blocks.Keys)
    && did in s.handles && s.handles[did] == Handle(HeadTree(w, t)[Path(k) := rec], HeadOf(t))
  }

  lemma AbortIsStray(w: World, s: State, did: Did, ops: seq<Op>, outs: seq<TreeOut>, co: CommitOut,
                     k: Key, rec: Cid, absent: Key)
    requires WorldOk(w) && Inv(w, s) && CreateThenBadDelete(ops, outs, k, rec, absent)
    requires Joinable(k) && Joinable(absent) && k != absent && k.rkey != ""
    requires Path(k) !in HeadTree(w, RowsOf(s, did)) && Path(absent) !in HeadTree(w, RowsOf(s, did))
    ensures Stray(w, ApplyWrites(w, s, did, ops, outs, None, co).state, did, k, rec)
    ensures RowsOf(ApplyWrites(w, s, did, ops, outs, None, co).state, did) == RowsOf(s, did)
  {
    AbortLeavesRecord(w, s, did, ops, outs, co, k, rec, absent);
    RowsOk(w, s, did);
    StoredKeeps(w, did, RowsOf(s, did), s.blocks.Keys, ApplyWrites(w, s, did, ops, outs, None, co).state.blocks.Keys);
  }

  /** A batch that creates one record under a key of its own. */
  predicate CreateOne(ops: seq<Op>, outs: seq<TreeOut>, k: Key, rec: Cid) {
    && ops == [Op(Action.Create, k.collection, k.rkey, rec, None)] && k.rkey != ""
    && |outs| == 1 && outs[0].ok && outs[0].puts == [rec]
  }

  lemma CreatedOne(index: Index, tree: Tree, ops: seq<Op>, outs: seq<TreeOut>, k: Key, rec: Cid)
    requires Get(index, k) == None && CreateOne(ops, outs, k, rec)
    ensures var p := RunOps(index, Start(tree), ops, outs);
            p.err.None? && p.batch.tree == tree[Path(k) := rec] && p.batch.puts == {rec}
  {
    assert ops[0].Named() == k;
    var one := StepOp(index, Start(tree), ops[0], outs[0]);
    assert RunOps(index, one.batch, ops[1..], outs[1..]) == Progress(one.batch, None);
  }

  /** A create from a handle with one stray record is accepted. */
  lemma StrayCreate(w: World, s: State, did: Did, k: Key, rec: Cid, ops: seq<Op>, outs: seq<TreeOut>,
                    k': Key, rec': Cid)
    requires Stray(w, s, did, k, rec) && CreateOne(ops, outs, k', rec') && Joinable(k')
    requires Path(k') !in HeadTree(w, RowsOf(s, did))
    ensures var p := RunOps(RowsOf(s, did).records, Start(s.handles[did].tree), ops, outs);
            p.err.None? && p.batch.puts == {rec'}
            && p.batch.tree == HeadTree(w, RowsOf(s, did))[Path(k) := rec][Path(k') := rec']
  {
    var t := RowsOf(s, did);
    assert Get(t.records, k') == Get(HeadTree(w, t), Path(k')) == None;
    CreatedOne(t.records, s.handles[did].tree, ops, outs, k', rec');
  }

  /** What an account in order lists: the blocks of its head, its records among them. */
  lemma HeadIsListed(w: World, did: Did, t: Tables, stored: set<Cid>)
    requires WorldOk(w) && AccountOk(w, did, t, stored)
    ensures Reached(w, HeadOf(t)) <= t.revs.Keys && HeadTree(w, t).Values <= t.revs.Keys
  {
    assert RepoCids(t, None) == t.revs.Keys;
    HeadValuesReached(w, t);
  }

  /** From a handle with one stray record, a create of another one. */
  lemma CreateAfterStray(w: World, s: State, did: Did, k: Key, rec: Cid, ops: seq<Op>, outs: seq<TreeOut>,
                         co: CommitOut, k': Key, rec': Cid, tree: Tree)
    requires WorldOk(w) && Stray(w, s, did, k, rec) && CreateOne(ops, outs, k', rec')
    requires Joinable(k) && Joinable(k') && k != k'
    requires tree == HeadTree(w, RowsOf(s, did)) && Path(k) !in tree && Path(k') !in tree
    requires co.ok && CommitOk(w, did, Handle(tree[Path(k) := rec][Path(k') := rec'], HeadOf(RowsOf(s, did))), co)
    ensures var r := ApplyWrites(w, s, did, ops, outs, None, co);
            var car := RepoCar(r.state, did, None);
            && r.result.Ok? && HeadOf(RowsOf(r.state, did)) == Some(NewHead(co)) && car.Some?
            && (w.reach(co.cid) <= car.value.blocks.Keys <==> rec in RowsOf(s, did).revs.Keys + {rec'} + ToSet(co.puts))
  {
    var t := RowsOf(s, did);
    var p := RunOps(t.records, Start(s.handles[did].tree), ops, outs);
    StrayCreate(w, s, did, k, rec, ops, outs, k', rec');
    HeadIsListed(w, did, t, s.blocks.Keys);
    ExportStaysCompleteExactlyWhen(w, s, did, ops, outs, None, co, s.handles[did], p);
    assert p.batch.tree.Values == tree.Values + {rec, rec'} by {
      if Path(k) == Path(k') {
        PathInjective(k, k');
      }
      TwoMoreValues(tree, Path(k), rec, Path(k'), rec');
    }
    StrayListed(tree.Values, t.revs.Keys, ToSet(co.puts), rec, rec');
  }

  lemma OneCreateMisses(index: Index, head: Tree, ops: seq<Op>, outs: seq<TreeOut>, k: Key, rec: Cid,
                        k': Key, rec': Cid)
    requires CreateOne(ops, outs, k', rec') && Joinable(k) && Joinable(k') && k != k' && Path(k) !in head
    ensures LibraryOk(index, Start(head), ops, outs) && OpsJoinable(ops)
    ensures !Covered(head, head[Path(k) := rec], ops, outs)
  {
    assert Touched(ops[0], outs[0]) == k';
    assert LibraryOk(index, StepOp(index, Start(head), ops[0], outs[0]).batch, ops[1..], outs[1..]);
    if Path(k) == Path(k') {
      PathInjective(k, k');
    }
    assert Get(head[Path(k) := rec], Path(k)) != Get(head, Path(k)) && !Touches(ops, outs, Path(k));
  }

  /** A write that committed, but left the index behind and logged an event that nobody at the old head accepts. */
  ghost predicate Untold(w: World, s: State, did: Did, r: Reply<Written>) {
    var t, t' := RowsOf(s, did), RowsOf(r.state, did);
    && r.result.Ok? && |r.state.log| == |s.log| + 1 && s.log <= r.state.log
    && !IndexIs(t'.records, HeadTree(w, t'))
    && r.state.log[|s.log|].CommitEvent?
    && Forward(HeadTree(w, t), r.state.log[|s.log|].ops) != Some(HeadTree(w, t'))
    && Backward(HeadTree(w, t'), r.state.log[|s.log|].ops) != Some(HeadTree(w, t))
    && forall rep :: AtHead(w, rep, t) ==> Consume(w, rep, r.state.log[|s.log|]).None?
  }

  /** From such a handle, the create of another record leaves the index behind, and no consumer accepts its event. */
  lemma CreateAfterStrayUntold(w: World, s: State, did: Did, k: Key, rec: Cid, ops: seq<Op>, outs: seq<TreeOut>,
                               co: CommitOut, k': Key, rec': Cid, tree: Tree)
    requires Stray(w, s, did, k, rec) && CreateOne(ops, outs, k', rec') && Joinable(k) && Joinable(k') && k != k'
    requires tree == HeadTree(w, RowsOf(s, did)) && Path(k) !in tree && Path(k') !in tree
    requires co.ok && CommitOk(w, did, Handle(tree[Path(k) := rec][Path(k') := rec'], HeadOf(RowsOf(s, did))), co)
    ensures Untold(w, s, did, ApplyWrites(w, s, did, ops, outs, None, co))
  {
    var t := RowsOf(s, did);
    var p := RunOps(t.records, Start(s.handles[did].tree), ops, outs);
    StrayCreate(w, s, did, k, rec, ops, outs, k', rec');
    OneCreateMisses(t.records, tree, ops, outs, k, rec, k', rec');
    JoinedHolds(k);
    StaleWriteExactlyWhen(w, s, did, ops, outs, None, co, s.handles[did], p);
  }

  lemma JoinedHolds(k: Key)
    ensures '/' in Path(k)
  {
    assert Path(k)[|k.collection|] == '/';
  }

  lemma StrayListed(values: set<Cid>, listed: set<Cid>, puts: set<Cid>, rec: Cid, rec': Cid)
    requires values <= listed
    ensures values + {rec, rec'} <= listed + ({rec'} + puts) <==> rec in listed + {rec'} + puts
  {
  }

  lemma TwoMoreValues(tree: Tree, p: string, a: Cid, q: string, b: Cid)
    requires p !in tree && q !in tree && p != q
    ensures tree[p := a][q := b].Values == tree.Values + {a, b}
  {
    var after := tree[p := a][q := b];
    assert after[p] == a && after[q] == b;
    forall c | c in tree.Values
      ensures c in after.Values
    {
      var x :| x in tree && tree[x] == c;
      assert after[x] == c;
    }
  }

  /** Two new records, another key that is not there either, and a commit of both records. */
  ghost predicate Scenario(w: World, s: State, did: Did, k: Key, rec: Cid, absent: Key,
                           k': Key, rec': Cid, co: CommitOut) {
    var t := RowsOf(s, did);
    var tree := HeadTree(w, t);
    && WorldOk(w) && Inv(w, s)
    && Joinable(k) && Joinable(absent) && Joinable(k') && k != absent && k != k' && k.rkey != ""
    && Path(k) !in tree && Path(absent) !in tree && Path(k') !in tree
    && co.ok && CommitOk(w, did, Handle(tree[Path(k) := rec][Path(k') := rec'], HeadOf(t)), co)
  }

  /**
    How an export comes to lack a block of its own head. From any state of a clean run: a batch
    that creates k and is then refused, and after it a create of another record. The second write
    commits both records, and the full export is complete exactly when the block of the first one
    was listed before, or is Put again.
   */
  lemma AbortThenCreateBreaksExport(w: World, s: State, did: Did,
                                    bad: seq<Op>, badOuts: seq<TreeOut>, k: Key, rec: Cid, absent: Key,
                                    ops: seq<Op>, outs: seq<TreeOut>, co: CommitOut, k': Key, rec': Cid)
    requires Scenario(w, s, did, k, rec, absent, k', rec', co)
    requires CreateThenBadDelete(bad, badOuts, k, rec, absent) && CreateOne(ops, outs, k', rec')
    ensures var first := ApplyWrites(w, s, did, bad, badOuts, None, co);
            var r := ApplyWrites(w, first.state, did, ops, outs, None, co);
            var car := RepoCar(r.state, did, None);
            && first.result == Err(Refused(RecordNotFound(Path(absent))))
            && r.result.Ok? && HeadOf(RowsOf(r.state, did)) == Some(NewHead(co)) && car.Some?
            && (w.reach(co.cid) <= car.value.blocks.Keys <==> rec in RowsOf(s, did).revs.Keys + {rec'} + ToSet(co.puts))
  {
    AbortLeavesRecord(w, s, did, bad, badOuts, co, k, rec, absent);
    AbortIsStray(w, s, did, bad, badOuts, co, k, rec, absent);
    CreateAfterStray(w, ApplyWrites(w, s, did, bad, badOuts, None, co).state, did, k, rec, ops, outs, co, k', rec',
                     HeadTree(w, RowsOf(s, did)));
  }

  /**
    How the event log stops being a faithful replica. From any state of a clean run: a batch that
    creates k and is then refused, and after it a create of another record. The index does not hold
    the new head, and every consumer that stands at the old head, as one that followed the log to
    here does, refuses the event.
   */
  lemma AbortThenCreateBreaksLog(w: World, s: State, did: Did,
                                 bad: seq<Op>, badOuts: seq<TreeOut>, k: Key, rec: Cid, absent: Key,
                                 ops: seq<Op>, outs: seq<TreeOut>, co: CommitOut, k': Key, rec': Cid)
    requires Scenario(w, s, did, k, rec, absent, k', rec', co)
    requires CreateThenBadDelete(bad, badOuts, k, rec, absent) && CreateOne(ops, outs, k', rec')
    ensures var first := ApplyWrites(w, s, did, bad, badOuts, None, co);
            && first.result == Err(Refused(RecordNotFound(Path(absent))))
            && first.state.rows == s.rows && first.state.log == s.log
            && Untold(w, first.state, did, ApplyWrites(w, first.state, did, ops, outs, None, co))
  {
    AbortLeavesRecord(w, s, did, bad, badOuts, co, k, rec, absent);
    AbortIsStray(w, s, did, bad, badOuts, co, k, rec, absent);
    CreateAfterStrayUntold(w, ApplyWrites(w, s, did, bad, badOuts, None, co).state, did, k, rec, ops, outs, co,
                           k', rec', HeadTree(w, RowsOf(s, did)));
  }
}
