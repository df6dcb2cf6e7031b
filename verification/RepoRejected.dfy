/**
  What a rejected batch leaves behind, and why clean runs must exclude what they exclude.
 */
module RepoRejected {
  import opened Basics
  import opened RecordPath
  import opened WriteBatch
  import opened OneAtATime
  import opened BatchLaws
  import opened DeferredIndex
  import opened RepoState
  import opened RepoInvariant
  import opened RepoSteps
  import opened RepoExport

  /** The operations that did run are exactly those before the rejected one. */
  lemma {:induction false} RunEachPrefix(s: Single, ops: seq<Op>, outs: seq<TreeOut>)
    requires |ops| == |outs|
    ensures var o := RunEach(s, ops, outs);
            var n := |o.state.results| - |s.results|;
            && 0 <= n <= |ops| && (o.err.Some? ==> n < |ops| && o.err == Refusal(o.state.tree, ops[n], outs[n]))
            && RunEach(s, ops[..n], outs[..n]) == Outcome(o.state, None)
    decreases |ops|
  {
    if ops != [] && Refusal(s.tree, ops[0], outs[0]).None? {
      var next := Single(After(s.tree, ops[0], outs[0]),
                         s.emitted + [Announce(s.tree, ops[0], outs[0])],
                         s.results + [Answer(ops[0], outs[0])]);
      RunEachPrefix(next, ops[1..], outs[1..]);
      var n := |RunEach(s, ops, outs).state.results| - |s.results|;
      assert ops[..n][1..] == ops[1..][..n - 1] && outs[..n][1..] == outs[1..][..n - 1];
    }
  }

  lemma RanCoherence(w: World, s: State, did: Did, b: Batch)
    requires WorldOk(w) && Inv(w, s)
    ensures var after := RanState(w, s, did, b);
            && after.rows == s.rows && after.log == s.log
            && after.handles == s.handles[did := Handle(b.tree, HeadOf(RowsOf(s, did)))]
            && (Inv(w, after) <==> b.tree == HeadTree(w, RowsOf(s, did)))
  {
    var t := RowsOf(s, did);
    var after := RanState(w, s, did, b);
    RanIs(w, s, did, b);
    if b.tree == HeadTree(w, t) {
      AbortKeepsInv(w, s, did, b.tree, b.puts, {});
      StoredNothing(w, after);
    } else {
      assert after.handles[did] != Fresh(w, RowsOf(after, did));
    }
  }

  /** How many operations a run accepts. */
  function Turns(index: Index, b: Batch, ops: seq<Op>, outs: seq<TreeOut>): (n: nat)
    requires |ops| == |outs|
    ensures n <= |ops|
    decreases |ops|
  {
    if ops == [] then 0
    else
      var one := StepOp(index, b, ops[0], outs[0]);
      if one.err.Some? then 0 else 1 + Turns(index, one.batch, ops[1..], outs[1..])
  }

  lemma {:induction false} TurnsAnswered(index: Index, b: Batch, ops: seq<Op>, outs: seq<TreeOut>)
    requires |ops| == |outs|
    ensures var p := RunOps(index, b, ops, outs);
            |p.batch.results| == |b.results| + Turns(index, b, ops, outs)
            && (p.err.Some? <==> Turns(index, b, ops, outs) < |ops|)
    decreases |ops|
  {
    if ops != [] {
      var one := StepOp(index, b, ops[0], outs[0]);
      if one.err.None? {
        TurnsAnswered(index, one.batch, ops[1..], outs[1..]);
      }
    }
  }

  /** The same batch, but for what the refused operation looked up and Put. */
  predicate SameSoFar(q: Batch, p: Batch) {
    q.tree == p.tree && q.emitted == p.emitted && q.results == p.results
  }

  /** A run that stops at its first operation. */
  lemma StoppedTurn(index: Index, b: Batch, ops: seq<Op>, outs: seq<TreeOut>, p: Progress, q: Progress)
    requires |ops| == |outs| && ops != [] && StepOp(index, b, ops[0], outs[0]).err.Some?
    requires p == RunOps(index, b, ops, outs) && q == RunOps(index, b, [], [])
    ensures q == Progress(b, None) && SameSoFar(b, p.batch) && p.err == StepOp(index, b, ops[0], outs[0]).err
  {
  }

  /** A run that accepts its first operation, and the run of its first n operations. */
  lemma AcceptedTurn(index: Index, b: Batch, ops: seq<Op>, outs: seq<TreeOut>, n: nat, p: Progress, q: Progress)
    returns (one: Batch)
    requires |ops| == |outs| && ops != [] && StepOp(index, b, ops[0], outs[0]).err.None?
    requires n == Turns(index, b, ops, outs)
    requires p == RunOps(index, b, ops, outs) && q == RunOps(index, b, ops[..n], outs[..n])
    ensures n > 0 && n - 1 == Turns(index, one, ops[1..], outs[1..])
    ensures p == RunOps(index, one, ops[1..], outs[1..])
    ensures q == RunOps(index, one, ops[1..][..n - 1], outs[1..][..n - 1])
  {
    one := StepOp(index, b, ops[0], outs[0]).batch;
    assert ops[..n][1..] == ops[1..][..n - 1] && outs[..n][1..] == outs[1..][..n - 1];
  }

  /** A run has done exactly the operations before the one it stopped at. */
  lemma {:induction false} RunOpsPrefix(index: Index, b: Batch, ops: seq<Op>, outs: seq<TreeOut>, n: nat,
                                        p: Progress, q: Progress)
    requires |ops| == |outs| && n == Turns(index, b, ops, outs)
    requires p == RunOps(index, b, ops, outs) && q == RunOps(index, b, ops[..n], outs[..n])
    ensures q.err.None? && SameSoFar(q.batch, p.batch)
    ensures p.err.Some? ==> n < |ops| && p.err == StepOp(index, q.batch, ops[n], outs[n]).err
    decreases |ops|
  {
    if ops != [] {
      if StepOp(index, b, ops[0], outs[0]).err.Some? {
        assert ops[..n] == [] && outs[..n] == [];
        StoppedTurn(index, b, ops, outs, p, q);
      } else {
        var next := AcceptedTurn(index, b, ops, outs, n, p, q);
        RunOpsPrefix(index, next, ops[1..], outs[1..], n - 1, p, q);
        assert n < |ops| ==> ops[1..][n - 1] == ops[n] && outs[1..][n - 1] == outs[n];
      }
    }
  }

  /**
    A batch rejected at operation i changes no table but the block store and publishes nothing.
    It leaves the cached handle at the head plus the operations before i, so the state is still
    coherent exactly when those operations cancel out.
   */
  lemma RejectedBatchLeavesPrefix(w: World, s: State, did: Did, ops: seq<Op>, outs: seq<TreeOut>,
                                  swapCommit: Option<Option<Cid>>, co: CommitOut, p: Progress)
    requires WorldOk(w) && Inv(w, s) && |ops| == |outs| && SwapMatches(s, did, swapCommit)
    requires p == RunOps(RowsOf(s, did).records, Start(HeadTree(w, RowsOf(s, did))), ops, outs) && p.err.Some?
    ensures var t := RowsOf(s, did);
            var r := ApplyWrites(w, s, did, ops, outs, swapCommit, co);
            var i := |p.batch.results|;
            && r.result == Err(Refused(p.err.value)) && r.state.rows == s.rows && r.state.log == s.log
            && i < |ops|
            && var before := RunOps(t.records, Start(HeadTree(w, t)), ops[..i], outs[..i]);
               && before.err.None?
               && r.state.handles == s.handles[did := Handle(before.batch.tree, HeadOf(t))]
               && (Inv(w, r.state) <==> before.batch.tree == HeadTree(w, t))
  {
    var t := RowsOf(s, did);
    OpensAtHead(w, s, did);
    TurnsAnswered(t.records, Start(HeadTree(w, t)), ops, outs);
    var i := |p.batch.results|;
    RunOpsPrefix(t.records, Start(HeadTree(w, t)), ops, outs, i, p,
                 RunOps(t.records, Start(HeadTree(w, t)), ops[..i], outs[..i]));
    assert ApplyWrites(w, s, did, ops, outs, swapCommit, co)
             == Reply(RanState(w, s, did, p.batch), Err(Refused(p.err.value)));
    RanCoherence(w, s, did, p.batch);
  }

  /**
    A batch whose operations were all accepted, and whose Commit then fails, likewise. Every one of
    its operations stays in the cached handle, for the next write to commit.
   */
  lemma FailedCommitLeavesBatch(w: World, s: State, did: Did, ops: seq<Op>, outs: seq<TreeOut>,
                                swapCommit: Option<Option<Cid>>, co: CommitOut, p: Progress)
    requires WorldOk(w) && Inv(w, s) && |ops| == |outs| && SwapMatches(s, did, swapCommit)
    requires p == RunOps(RowsOf(s, did).records, Start(HeadTree(w, RowsOf(s, did))), ops, outs)
    requires p.err.None? && !co.ok
    ensures var r := ApplyWrites(w, s, did, ops, outs, swapCommit, co);
            && r.result == Err(CommitFailed) && r.state.rows == s.rows && r.state.log == s.log
            && r.state.handles == s.handles[did := Handle(p.batch.tree, HeadOf(RowsOf(s, did)))]
            && (Inv(w, r.state) <==> p.batch.tree == HeadTree(w, RowsOf(s, did)))
  {
    var t := RowsOf(s, did);
    var after := Stored(w, RanState(w, s, did, p.batch), ToSet(co.puts));
    OpensAtHead(w, s, did);
    assert ApplyWrites(w, s, did, ops, outs, swapCommit, co) == Reply(after, Err(CommitFailed));
    RanIs(w, s, did, p.batch);
    if p.batch.tree == HeadTree(w, t) {
      AbortKeepsInv(w, s, did, p.batch.tree, p.batch.puts, ToSet(co.puts));
    } else {
      assert after.handles[did] != Fresh(w, RowsOf(after, did));
    }
  }

  /**
    A commit whose rev the account has a row for already is refused when its row is written. No row
    changes and nothing is announced, but the handle has signed it.
   */
  lemma TakenRevIsRefused(w: World, s: State, did: Did, ops: seq<Op>, outs: seq<TreeOut>,
                          swapCommit: Option<Option<Cid>>, co: CommitOut, h: Handle, p: Progress)
    requires |ops| == |outs| && Opened(w, s, did) == Some(h) && SwapMatches(s, did, swapCommit)
    requires p == RunOps(RowsOf(s, did).records, Start(h.tree), ops, outs) && p.err.None?
    requires co.ok && co.rev in RowsOf(s, did).commits
    ensures var r := ApplyWrites(w, s, did, ops, outs, swapCommit, co);
            && r.result == Err(RevTaken) && r.state.rows == s.rows && r.state.log == s.log
            && r.state.handles == s.handles[did := Handle(p.batch.tree, Some(NewHead(co)))]
  {
    var ran := AfterOps(w, s, did, h, p);
    assert ran.rows == s.rows && ran.log == s.log && ran.handles == s.handles[did := h.(tree := p.batch.tree)];
    RevIsTaken(w, ran, did, p.batch, co);
  }

  lemma RevIsTaken(w: World, s: State, did: Did, b: Batch, co: CommitOut)
    requires did in s.handles && co.ok && co.rev in RowsOf(s, did).commits
    ensures var r := Finish(w, s, did, b, co);
            && r.result == Err(RevTaken) && r.state.rows == s.rows && r.state.log == s.log
            && r.state.handles == s.handles[did := Handle(s.handles[did].tree, Some(NewHead(co)))]
  {
  }

  /**
    Where no operation names a minted path, what was done before the rejected operation is what
    running the operations one at a time does.
   */
  lemma RejectedBatchRanEach(w: World, s: State, did: Did, ops: seq<Op>, outs: seq<TreeOut>,
                                  swapCommit: Option<Option<Cid>>, co: CommitOut)
    requires WorldOk(w) && Inv(w, s) && |ops| == |outs| && OpsJoinable(ops) && AvoidsMinted({}, ops, outs)
    requires WriteContract(w, s, did, ops, outs, co) && SwapMatches(s, did, swapCommit)
    requires RunEach(Single(HeadTree(w, RowsOf(s, did)), [], []), ops, outs).err.Some?
    ensures var o := RunEach(Single(HeadTree(w, RowsOf(s, did)), [], []), ops, outs);
            var r := ApplyWrites(w, s, did, ops, outs, swapCommit, co);
            var i := |o.state.results|;
            && r.result == Err(Refused(o.err.value))
            && r.state.rows == s.rows && r.state.log == s.log
            && i < |ops|
            && RunEach(Single(HeadTree(w, RowsOf(s, did)), [], []), ops[..i], outs[..i]) == Outcome(o.state, None)
            && r.state.handles == s.handles[did := Handle(o.state.tree, HeadOf(RowsOf(s, did)))]
            && (Inv(w, r.state) <==> o.state.tree == HeadTree(w, RowsOf(s, did)))
  {
    var t := RowsOf(s, did);
    var tree := HeadTree(w, t);
    OpensAtHead(w, s, did);
    assert SameOutcome(RunOps(t.records, Start(tree), ops, outs), RunEach(Single(tree, [], []), ops, outs)) by {
      RowsOk(w, s, did);
      AvoidingMintedIsHarmless({}, tree, ops, outs);
      OverlayRefinesOneAtATime(t.records, tree, ops, outs);
    }
    RunEachPrefix(Single(tree, [], []), ops, outs);
    var p := RunOps(t.records, Start(tree), ops, outs);
    assert ApplyWrites(w, s, did, ops, outs, swapCommit, co)
             == Reply(RanState(w, s, did, p.batch), Err(Refused(p.err.value)));
    RanCoherence(w, s, did, p.batch);
  }

  /** In particular a write rejected at its first operation, so every rejected single write. */
  lemma RejectedSingleWriteIsCoherent(w: World, s: State, did: Did, op: Op, out: TreeOut,
                                      swapCommit: Option<Option<Cid>>, co: CommitOut)
    requires WorldOk(w) && Inv(w, s) && Joinable(op.Named())
    requires WriteContract(w, s, did, [op], [out], co) && SwapMatches(s, did, swapCommit)
    requires Refusal(HeadTree(w, RowsOf(s, did)), op, out).Some?
    ensures var r := ApplyWrites(w, s, did, [op], [out], swapCommit, co);
            && r.result == Err(Refused(Refusal(HeadTree(w, RowsOf(s, did)), op, out).value))
            && Inv(w, r.state)
  {
    RejectedBatchRanEach(w, s, did, [op], [out], swapCommit, co);
  }

  // ----- opening -------------------------------------------------------------------------

  /** The commit block of the greatest rev is not stored, or is not a commit. */
  ghost predicate HeadUnreadable(w: World, s: State, did: Did) {
    exists rev :: rev in RowsOf(s, did).commits && (forall x :: x in RowsOf(s, did).commits ==> x <= rev)
      && (RowsOf(s, did).commits[rev].cid !in s.blocks || w.signed(RowsOf(s, did).commits[rev].cid).None?)
  }

  /** A repo fails to open exactly when it is not cached and its head cannot be read. */
  lemma OpenFailsExactlyWhen(w: World, s: State, did: Did)
    ensures Opened(w, s, did).None? <==> did !in s.handles && HeadUnreadable(w, s, did)
  {
    var t := RowsOf(s, did);
    HeadIsMax(t);
    if HeadOf(t).Some? {
      var rev := HeadOf(t).value.rev;
      assert forall x :: x in t.commits && (forall y :: y in t.commits ==> y <= x) ==> x == rev;
    }
  }

  /** A write to it fails then, and changes nothing. */
  lemma UnreadableHeadFails(w: World, s: State, did: Did, ops: seq<Op>, outs: seq<TreeOut>,
                            swapCommit: Option<Option<Cid>>, co: CommitOut)
    requires |ops| == |outs| && did !in s.handles && HeadUnreadable(w, s, did)
    ensures ApplyWrites(w, s, did, ops, outs, swapCommit, co) == Reply(s, Err(OpenFailed))
  {
    OpenFailsExactlyWhen(w, s, did);
  }

  // ----- the commit a caller expects ------------------------------------------------------

  /** The caller's swapCommit names the commit of the greatest rev, or says that there is none. */
  ghost predicate NamesHead(commits: map<Rev, Commit>, wanted: Option<Cid>) {
    if commits == map[] then wanted.None?
    else exists rev :: rev in commits && (forall x :: x in commits ==> x <= rev) && wanted == Some(commits[rev].cid)
  }

  /** Nothing after the check ends in this fault. */
  lemma FinishSwaps(w: World, s: State, did: Did, b: Batch, co: CommitOut)
    requires did in s.handles
    ensures Finish(w, s, did, b, co).result != Err(SwapCommitMismatch)
  {
  }

  lemma SwapNamesHead(s: State, did: Did, wanted: Option<Cid>)
    ensures SwapMatches(s, did, Some(wanted)) <==> NamesHead(RowsOf(s, did).commits, wanted)
  {
    var t := RowsOf(s, did);
    HeadIsMax(t);
    if HeadOf(t).Some? {
      var rev := HeadOf(t).value.rev;
      assert forall x :: x in t.commits && (forall y :: y in t.commits ==> y <= x) ==> x == rev;
      assert NamesHead(t.commits, wanted) <==> wanted == Some(t.commits[rev].cid);
    }
  }

  /** A write with a swapCommit is the write without one, or ends at the check. */
  lemma SwapPasses(w: World, s: State, did: Did, ops: seq<Op>, outs: seq<TreeOut>, wanted: Option<Cid>, co: CommitOut)
    requires |ops| == |outs| && Opened(w, s, did).Some?
    ensures ApplyWrites(w, s, did, ops, outs, Some(wanted), co)
         == if SwapMatches(s, did, Some(wanted)) then ApplyWrites(w, s, did, ops, outs, None, co)
            else Reply(Begun(s, did, Opened(w, s, did).value), Err(SwapCommitMismatch))
  {
  }

  lemma NeverSwaps(w: World, s: State, did: Did, ops: seq<Op>, outs: seq<TreeOut>, co: CommitOut)
    requires |ops| == |outs| && Opened(w, s, did).Some?
    ensures ApplyWrites(w, s, did, ops, outs, None, co).result != Err(SwapCommitMismatch)
  {
    var h := Opened(w, s, did).value;
    var p := RunOps(RowsOf(s, did).records, Start(h.tree), ops, outs);
    FinishSwaps(w, AfterOps(w, s, did, h, p), did, p.batch, co);
  }

  /**
    When swapCommit lets a write through. Once the repo opens, the write is refused for it exactly
    when it does not name the head, and then nothing but the cache has changed; when it does name
    the head, the write goes on as one without it, which is never refused for it.
   */
  lemma SwapCommitDecides(w: World, s: State, did: Did, ops: seq<Op>, outs: seq<TreeOut>,
                          wanted: Option<Cid>, co: CommitOut)
    requires |ops| == |outs| && Opened(w, s, did).Some?
    ensures var r := ApplyWrites(w, s, did, ops, outs, Some(wanted), co);
            var free := ApplyWrites(w, s, did, ops, outs, None, co);
            && (r.result == Err(SwapCommitMismatch) <==> !NamesHead(RowsOf(s, did).commits, wanted))
            && (NamesHead(RowsOf(s, did).commits, wanted) ==> r == free)
            && (!NamesHead(RowsOf(s, did).commits, wanted) ==>
                  r.state == s.(handles := s.handles[did := Opened(w, s, did).value]))
            && free.result != Err(SwapCommitMismatch)
  {
    SwapNamesHead(s, did, wanted);
    SwapPasses(w, s, did, ops, outs, wanted, co);
    NeverSwaps(w, s, did, ops, outs, co);
  }

  // ----- why the conditions are needed ----------------------------------------------------

  /** Deleting a record and creating it again in one batch is accepted, and loses its index row. */
  lemma DeleteThenCreateLosesRow(index: Index, tree: Tree, k: Key, rec: Cid)
    requires IndexIs(index, tree) && Joinable(k) && k.rkey != "" && Path(k) in tree
    ensures var ops := [Op(Delete, k.collection, k.rkey, rec, None), Op(Create, k.collection, k.rkey, rec, None)];
            var p := RunOps(index, Start(tree), ops, [TreeOut(true, "", []), TreeOut(true, "", [rec])]);
            && p.err.None?
            && Get(p.batch.tree, Path(k)) == Some(rec)
            && k !in IndexAfter(index, p.batch)
            && !IndexIs(IndexAfter(index, p.batch), p.batch.tree)
  {
    var first := Op(Delete, k.collection, k.rkey, rec, None);
    var second := Op(Create, k.collection, k.rkey, rec, None);
    var ops := [first, second];
    var outs := [TreeOut(true, "", []), TreeOut(true, "", [rec])];
    assert first.Named() == k && second.Named() == k;
    assert Get(index, k) == Get(tree, Path(k));
    var one := StepOp(index, Start(tree), first, outs[0]);
    assert ops[1..] == [second] && outs[1..] == [outs[1]];
    var two := StepOp(index, one.batch, second, outs[1]);
    assert RunOps(index, one.batch, [second], [outs[1]]) == two;
    assert two.batch.deletes == [k];
    WithoutAt(Upserted(index, two.batch.upserts), [k], k);
  }

  // ----- reads while a commit is being written --------------------------------------------

  /**
    Exports take no lock, and a commit writes its row first and then moves its blocks one at a
    time. With the blocks in `moved` moved so far, the new head is what is exported; a full export
    holds all its blocks exactly when they were listed before or are among those moved, so never
    while its own new commit block is still to come; and an export since an earlier rev brings its
    reader there exactly when what that reader lacks was selected before or is among those moved.
   */
  lemma ExportDuringCommit(w: World, did: Did, t: Tables, stored: set<Cid>, co: CommitOut, moved: set<Cid>)
    requires WorldOk(w) && RowsSigned(w, did, t, stored) && w.signed(co.cid).Some?
    requires HeadOf(t).Some? ==> co.rev > HeadOf(t).value.rev
    ensures var during := Committed(t, co, moved);
            && HeadOf(during) == Some(NewHead(co))
            && (w.reach(co.cid) <= RepoCids(during, None) <==> w.reach(co.cid) <= t.revs.Keys + moved)
            && (co.cid !in t.revs && co.cid !in moved ==> !(w.reach(co.cid) <= RepoCids(during, None)))
            && forall r :: r in t.commits ==>
                 (w.reach(co.cid) <= w.reach(t.commits[r].cid) + RepoCids(during, Some(r))
                  <==> w.reach(co.cid) <= w.reach(t.commits[r].cid) + RepoCids(t, Some(r)) + moved)
  {
    var during := Committed(t, co, moved);
    CommittedHead(t, co, moved);
    HeadIsMax(t);
    assert RepoCids(during, None) == t.revs.Keys + moved;
    forall r | r in t.commits
      ensures RepoCids(during, Some(r)) == RepoCids(t, Some(r)) + moved
    {
    }
  }

  // ----- imports of a CAR that does not carry its whole repo ------------------------------

  /** An import that was accepted left the account in order exactly when its CAR was complete. */
  lemma AcceptedImportIsOkExactlyWhen(w: World, s: State, did: Did, car: Car, broken: bool)
    requires ImportRepo(w, s, did, car, broken).result.Ok?
    ensures var after := ImportRepo(w, s, did, car, broken).state;
            AccountOk(w, did, RowsOf(after, did), after.blocks.Keys) <==> CompleteCar(w, car)
  {
    ImportedRowsOk(w, did, car, ImportRepo(w, s, did, car, broken).state.blocks.Keys);
  }

  /**
    A CAR that lacks blocks of its repo is accepted when the shared block store happens to hold
    them. The account is then not in order: its own export lacks those blocks again.
   */
  lemma PartialCarIsAccepted(w: World, s: State, did: Did, car: Car)
    requires WorldOk(w) && |car.roots| == 1
    requires w.signed(car.roots[0]).Some? && w.signed(car.roots[0]).value.did == did
    requires Converts(w, w.signed(car.roots[0]).value.data)
    requires w.reach(car.roots[0]) <= car.blocks.Keys + s.blocks.Keys && !(w.reach(car.roots[0]) <= car.blocks.Keys)
    ensures var r := ImportRepo(w, s, did, car, false);
            && r.result.Ok? && !AccountOk(w, did, RowsOf(r.state, did), r.state.blocks.Keys)
            && HeadOf(RowsOf(r.state, did)).Some? && HeadOf(RowsOf(r.state, did)).value.cid == car.roots[0]
            && RepoCar(r.state, did, None).Some?
            && !(w.reach(car.roots[0]) <= RepoCar(r.state, did, None).value.blocks.Keys)
  {
    var root := car.roots[0];
    var sc := w.signed(root).value;
    assert (car.blocks + s.blocks).Keys == car.blocks.Keys + s.blocks.Keys;
    ReachIsWalked(w, root, (car.blocks + s.blocks).Keys);
    var after := ImportRepo(w, s, did, car, false).state;
    AcceptedImportIsOkExactlyWhen(w, s, did, car, false);
    ImportedRowsOk(w, did, car, after.blocks.Keys);
    assert RepoCids(RowsOf(after, did), None) == car.blocks.Keys;
  }
}
