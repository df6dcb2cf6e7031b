/** What a single write does, in plain terms: by path, record and check. */
module RepoSingle {
  import opened Basics
  import opened RecordPath
  import opened WriteBatch
  import opened BatchLaws
  import opened DeferredIndex
  import opened Inversion
  import opened RepoState
  import opened RepoInvariant
  import opened RepoSteps
  import opened RepoRejected

  /** The path an operation is about, as text. */
  function PathText(op: Op, out: TreeOut): string {
    op.collection + "/" + if op.action.Create? && op.rkey == "" then out.minted else op.rkey
  }

  /** The record that swapRecord names is the one there, if it names one. */
  predicate SwapFits(tree: Tree, path: string, swap: Option<Cid>) {
    swap.Some? ==> path in tree && tree[path] == swap.value
  }

  /** Why a single operation is refused, against the records there are, if it is. */
  ghost predicate Refuses(tree: Tree, op: Op, out: TreeOut, err: WriteError) {
    var path := PathText(op, out);
    match op.action
    case Create =>
      if op.rkey != "" && path in tree then err == RecordExists(path) else !out.ok && err == TreeFailed(Create)
    case Update =>
      if !SwapFits(tree, path, op.swapRecord) then err == SwapRecordMismatch(path)
      else !out.ok && err == TreeFailed(Update)
    case Delete =>
      if path !in tree then err == RecordNotFound(path)
      else if !SwapFits(tree, path, op.swapRecord) then err == SwapRecordMismatch(path)
      else !out.ok && err == TreeFailed(Delete)
    case Other(name) => err == UnknownAction(name)
  }

  /** What an accepted operation does to the records, announces and answers. */
  ghost predicate Does(tree: Tree, op: Op, out: TreeOut, after: Tree, announced: RepoOp, answer: OpResult) {
    var path := PathText(op, out);
    var rkey := if op.action.Create? && op.rkey == "" then out.minted else op.rkey;
    && (forall p :: p != path ==> Get(after, p) == Get(tree, p))
    && Get(after, path) == (if op.action.Delete? then None else Some(op.rec))
    && announced.path == path && announced.prev == Get(tree, path) && announced.cid == Get(after, path)
    && announced.action == (if op.action.Delete? then Delete else if path in tree then Update else Create)
    && answer == OpResult(op.action, rkey, Get(after, path))
  }

  /** What the lookup of one operation sees. */
  function SeenFirst(tree: Tree, op: Op): Option<Cid> {
    if op.Names() then Get(tree, Path(op.Named())) else None
  }

  lemma OneStep(index: Index, tree: Tree, op: Op, out: TreeOut)
    requires IndexIs(index, tree) && Joinable(op.Named())
    ensures var p := RunOps(index, Start(tree), [op], [out]);
            var refused := Check(op, SeenFirst(tree, op));
            && p == StepOp(index, Start(tree), op, out)
            && p.err == (if refused.Some? then refused else if !out.ok then Some(TreeFailed(op.action)) else None)
            && (p.err.Some? ==> p.batch.tree == tree)
  {
    assert [op][1..] == [] && [out][1..] == [];
    assert Get(index, op.Named()) == Get(tree, Path(op.Named()));
  }

  lemma ChecksAre(tree: Tree, op: Op, out: TreeOut, err: WriteError)
    ensures var refused := Check(op, SeenFirst(tree, op));
            (if refused.Some? then refused else if !out.ok then Some(TreeFailed(op.action)) else None) == Some(err)
            <==> Refuses(tree, op, out, err)
  {
    assert !op.Mints() ==> PathText(op, out) == Path(op.Named());
  }

  lemma AcceptDoes(tree: Tree, b: Batch, op: Op, out: TreeOut)
    requires b.tree == tree && b.emitted == [] && b.results == [] && !op.action.Other?
    requires op.Mints() ==> PathText(op, out) !in tree
    requires Check(op, SeenFirst(tree, op)).None?
    ensures var after := Accept(b, op, out, SeenFirst(tree, op));
            && |after.emitted| == 1 && |after.results| == 1
            && Does(tree, op, out, after.tree, after.emitted[0], after.results[0])
  {
    assert PathText(op, out) == Path(Touched(op, out));
    assert !op.Mints() ==> PathText(op, out) == Path(op.Named());
  }

  lemma OneAccepted(index: Index, tree: Tree, op: Op, out: TreeOut)
    requires IndexIs(index, tree) && Joinable(op.Named()) && MintIsFresh(Start(tree), op, out)
    requires StepOp(index, Start(tree), op, out).err.None?
    ensures var b := StepOp(index, Start(tree), op, out).batch;
            |b.emitted| == 1 && |b.results| == 1 && Does(tree, op, out, b.tree, b.emitted[0], b.results[0])
  {
    assert Get(index, op.Named()) == Get(tree, Path(op.Named()));
    var looked := if op.Names() then Start(tree).(cur := map[Path(op.Named()) := SeenFirst(tree, op)]) else Start(tree);
    var stored := looked.(puts := {} + ToSet(out.puts));
    assert PathText(op, out) == Path(Touched(op, out));
    AcceptDoes(tree, stored, op, out);
    assert StepOp(index, Start(tree), op, out).batch == Accept(stored, op, out, SeenFirst(tree, op));
  }

  /**
    One operation on an index that holds the tree: exactly when it is refused and for what, and
    otherwise the record it leaves at its path, no other path touched, and what it announces and
    answers.
   */
  lemma OneOperation(index: Index, tree: Tree, op: Op, out: TreeOut)
    requires IndexIs(index, tree) && Joinable(op.Named()) && MintIsFresh(Start(tree), op, out)
    ensures var p := RunOps(index, Start(tree), [op], [out]);
            && (forall err :: p.err == Some(err) <==> Refuses(tree, op, out, err))
            && (p.err.Some? ==> p.batch.tree == tree)
            && (p.err.None? ==>
                  && |p.batch.emitted| == 1 && |p.batch.results| == 1
                  && Does(tree, op, out, p.batch.tree, p.batch.emitted[0], p.batch.results[0]))
  {
    OneStep(index, tree, op, out);
    forall err
      ensures RunOps(index, Start(tree), [op], [out]).err == Some(err) <==> Refuses(tree, op, out, err)
    {
      ChecksAre(tree, op, out, err);
    }
    if StepOp(index, Start(tree), op, out).err.None? {
      OneAccepted(index, tree, op, out);
    }
  }

  /** The write went through: the operation is in the head, in the index, in the event and in the answer. */
  ghost predicate WriteDid(w: World, s: State, did: Did, op: Op, out: TreeOut, co: CommitOut, r: Reply<Written>) {
    var t, t' := RowsOf(s, did), RowsOf(r.state, did);
    && r.result.Ok? && r.result.value.cid == co.cid && r.result.value.rev == co.rev && |r.result.value.results| == 1
    && |r.state.log| == |s.log| + 1 && r.state.log[|s.log|].CommitEvent? && |r.state.log[|s.log|].ops| == 1
    && HeadOf(t').Some? && HeadOf(t').value.cid == co.cid && HeadOf(t').value.rev == co.rev
    && IndexIs(t'.records, HeadTree(w, t'))
    && Does(HeadTree(w, t), op, out, HeadTree(w, t'), r.state.log[|s.log|].ops[0], r.result.value.results[0])
  }

  lemma LastAlone(op: Op, out: TreeOut)
    ensures DeletesLast([op]) && AvoidsMinted({}, [op], [out])
  {
    assert [op][1..] == [] && [out][1..] == [];
  }

  lemma KeptDid(w: World, s: State, did: Did, op: Op, out: TreeOut, co: CommitOut, b: Batch, r: Reply<Written>)
    requires WriteKeeps(w, s, did, r) && r.result == Ok(Written(co.cid, co.rev, b.results))
    requires r.state.log == s.log + [FinishedEvent(w, did, HeadOf(RowsOf(s, did)), b, co)]
    requires |b.emitted| == 1 && |b.results| == 1 && Forward(HeadTree(w, RowsOf(s, did)), b.emitted) == Some(b.tree)
    requires Does(HeadTree(w, RowsOf(s, did)), op, out, b.tree, b.emitted[0], b.results[0])
    ensures WriteDid(w, s, did, op, out, co, r)
  {
    RowsOk(w, r.state, did);
    assert r.state.log[|s.log|] == FinishedEvent(w, did, HeadOf(RowsOf(s, did)), b, co);
    assert HeadTree(w, RowsOf(r.state, did)) == b.tree;
  }

  lemma AcceptedSingle(w: World, s: State, did: Did, op: Op, out: TreeOut, co: CommitOut, p: Progress)
    requires WorldOk(w) && Inv(w, s) && Joinable(op.Named()) && WriteContract(w, s, did, [op], [out], co)
    requires p == RunOps(RowsOf(s, did).records, Start(HeadTree(w, RowsOf(s, did))), [op], [out])
    requires p.err.None? && co.ok
    ensures WriteDid(w, s, did, op, out, co, ApplyWrites(w, s, did, [op], [out], None, co))
  {
    var t := RowsOf(s, did);
    RowsOk(w, s, did);
    OpensAtHead(w, s, did);
    LastAlone(op, out);
    OneOperation(t.records, HeadTree(w, t), op, out);
    AcceptedIsReady(w, did, t, s.blocks.Keys, [op], [out], co);
    FinishKeeps(w, s, did, p.batch, co);
    KeptDid(w, s, did, op, out, co, p.batch, Finish(w, RanState(w, s, did, p.batch), did, p.batch, co));
    assert ApplyWrites(w, s, did, [op], [out], None, co) == Finish(w, RanState(w, s, did, p.batch), did, p.batch, co);
  }

  /**
    A single write, from any state of a clean run. It is refused exactly when and for what the plain
    rules say, fails when Commit does, and otherwise does what they say, and nothing else, to the
    records of the account.
   */
  lemma SingleWriteDoes(w: World, s: State, did: Did, op: Op, out: TreeOut, co: CommitOut)
    requires WorldOk(w) && Inv(w, s) && Joinable(op.Named()) && WriteContract(w, s, did, [op], [out], co)
    ensures var r := ApplyWrites(w, s, did, [op], [out], None, co);
            var refused := exists err :: Refuses(HeadTree(w, RowsOf(s, did)), op, out, err);
            && (forall err :: Refuses(HeadTree(w, RowsOf(s, did)), op, out, err) ==> r.result == Err(Refused(err)))
            && (!refused && !co.ok ==> r.result == Err(CommitFailed))
            && (!refused && co.ok ==> WriteDid(w, s, did, op, out, co, r))
            && (refused || !co.ok ==> r.state.rows == s.rows && r.state.log == s.log)
  {
    var t := RowsOf(s, did);
    RowsOk(w, s, did);
    OpensAtHead(w, s, did);
    OneOperation(t.records, HeadTree(w, t), op, out);
    var p := RunOps(t.records, Start(HeadTree(w, t)), [op], [out]);
    if p.err.Some? {
      assert Refuses(HeadTree(w, t), op, out, p.err.value);
      RejectedBatchLeavesPrefix(w, s, did, [op], [out], None, co, p);
    } else if !co.ok {
      FailedCommitLeavesBatch(w, s, did, [op], [out], None, co, p);
    } else {
      AcceptedSingle(w, s, did, op, out, co, p);
    }
  }
}
