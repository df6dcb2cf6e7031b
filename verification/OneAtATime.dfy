/**
  The reference meaning of a write: each operation on its own, checked against the repo tree
  itself, with no pending map and no index.
 */
module OneAtATime {
  import opened Basics
  import opened RecordPath
  import opened WriteBatch

  datatype Single = Single(tree: Tree, emitted: seq<RepoOp>, results: seq<OpResult>)
  datatype Outcome = Outcome(state: Single, err: Option<WriteError>)

  /** Why an operation is refused in this tree, if it is. */
  function Refusal(tree: Tree, op: Op, out: TreeOut): Option<WriteError> {
    var path := Path(op.Named());
    if op.action.Other? then Some(UnknownAction(op.action.name))
    else if op.action.Create? && op.rkey != "" && path in tree then Some(RecordExists(path))
    else if op.action.Delete? && path !in tree then Some(RecordNotFound(path))
    else if !op.action.Create? && op.swapRecord.Some? && Get(tree, path) != op.swapRecord then
      Some(SwapRecordMismatch(path))
    else if !out.ok then Some(TreeFailed(op.action))
    else None
  }

  /** The tree after an accepted operation: one path changed. */
  function After(tree: Tree, op: Op, out: TreeOut): Tree {
    var path := Path(Touched(op, out));
    if op.action.Delete? then tree - {path} else tree[path := op.rec]
  }

  /** The announcement says how the path really changed. */
  function Announce(tree: Tree, op: Op, out: TreeOut): RepoOp {
    var path := Path(Touched(op, out));
    var now := if op.action.Delete? then None else Some(op.rec);
    var was := Get(tree, path);
    RepoOp(if now.None? then Delete else if was.None? then Create else Update, path, now, was)
  }

  function Answer(op: Op, out: TreeOut): OpResult {
    OpResult(op.action, Touched(op, out).rkey, if op.action.Delete? then None else Some(op.rec))
  }

  function RunEach(s: Single, ops: seq<Op>, outs: seq<TreeOut>): Outcome
    requires |ops| == |outs|
    decreases |ops|
  {
    if ops == [] then Outcome(s, None)
    else
      var refused := Refusal(s.tree, ops[0], outs[0]);
      if refused.Some? then Outcome(s, refused)
      else
        RunEach(Single(After(s.tree, ops[0], outs[0]),
                       s.emitted + [Announce(s.tree, ops[0], outs[0])],
                       s.results + [Answer(ops[0], outs[0])]),
                ops[1..], outs[1..])
  }
}
