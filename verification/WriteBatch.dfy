/**
  The per-operation part of a repo write: what applyWrites does between Begin and commit.

  The repo library is not modelled. Each operation comes with the library's answer, a TreeOut:
  whether the tree operation succeeded, the rkey it minted, and the blocks it Put.
 */
module WriteBatch {
  import opened Basics
  import opened RecordPath

  type Tree = map<string, Cid>   // the repo's records: path -> record CID
  type Index = map<Key, Cid>     // one account's rows of repo_records

  datatype Action = Create | Update | Delete | Other(name: string)

  /** One mutation. A record stands as the CID of its encoding. */
  datatype Op = Op(action: Action, collection: string, rkey: string, rec: Cid, swapRecord: Option<Cid>) {
    /** A create without an rkey: the library mints one. */
    predicate Mints() {
      action.Create? && rkey == ""
    }

    /** The operation looks up, and then writes, a path its caller named. */
    predicate Names() {
      !action.Other? && !Mints()
    }

    function Named(): Key {
      Key(collection, rkey)
    }
  }

  datatype TreeOut = TreeOut(ok: bool, minted: string, puts: seq<Cid>)

  datatype OpResult = OpResult(action: Action, rkey: string, cid: Option<Cid>)

  /** An operation of a #commit event. */
  datatype RepoOp = RepoOp(action: Action, path: string, cid: Option<Cid>, prev: Option<Cid>)

  datatype WriteError =
    | RecordExists(path: string)
    | RecordNotFound(path: string)
    | SwapRecordMismatch(path: string)
    | TreeFailed(action: Action)
    | UnknownAction(name: string)

  /** The local variables of applyWrites, with the tree inside the open handle. */
  datatype Batch = Batch(
    tree: Tree,
    cur: map<string, Option<Cid>>,
    upserts: seq<(Key, Cid)>,
    deletes: seq<Key>,
    emitted: seq<RepoOp>,
    results: seq<OpResult>,
    puts: set<Cid>)

  datatype Progress = Progress(batch: Batch, err: Option<WriteError>)

  function Start(tree: Tree): Batch {
    Batch(tree, map[], [], [], [], [], {})
  }

  /** batchRecordCID: the pending map first, the index only when the path is not pending. */
  function Seen(index: Index, cur: map<string, Option<Cid>>, k: Key): Option<Cid> {
    if Path(k) in cur then cur[Path(k)] else Get(index, k)
  }

  /** The key an operation writes, given the library's answer. */
  function Touched(op: Op, out: TreeOut): Key {
    Key(op.collection, if op.Mints() then out.minted else op.rkey)
  }

  /** The checks made before the tree is touched, on the CID the lookup saw. */
  function Check(op: Op, prev: Option<Cid>): Option<WriteError> {
    var path := Path(op.Named());
    match op.action
    case Other(name) => Some(UnknownAction(name))
    case Create =>
      if !op.Mints() && prev.Some? then Some(RecordExists(path)) else None
    case Update =>
      if op.swapRecord.Some? && prev != op.swapRecord then Some(SwapRecordMismatch(path)) else None
    case Delete =>
      if prev.None? then Some(RecordNotFound(path))
      else if op.swapRecord.Some? && prev != op.swapRecord then Some(SwapRecordMismatch(path))
      else None
  }

  /** The batch once the tree operation succeeded. A minted path is not entered in `cur`. */
  function Accept(b: Batch, op: Op, out: TreeOut, prev: Option<Cid>): Batch {
    var k := Touched(op, out);
    var path := Path(k);
    var written := if op.action.Delete? then None else Some(op.rec);
    Batch(
      if op.action.Delete? then b.tree - {path} else b.tree[path := op.rec],
      if op.Mints() then b.cur else b.cur[path := written],
      if op.action.Delete? then b.upserts else b.upserts + [(k, op.rec)],
      if op.action.Delete? then b.deletes + [k] else b.deletes,
      b.emitted + [RepoOp(if op.action.Update? && prev.None? then Create else op.action, path, written,
                          if op.action.Create? then None else prev)],
      b.results + [OpResult(op.action, k.rkey, written)],
      b.puts)
  }

  /** One iteration of the loop of applyWrites. */
  function StepOp(index: Index, b: Batch, op: Op, out: TreeOut): Progress {
    var prev := if op.Names() then Seen(index, b.cur, op.Named()) else None;
    var looked := if op.Names() then b.(cur := b.cur[Path(op.Named()) := prev]) else b;
    var refused := Check(op, prev);
    if refused.Some? then
      Progress(looked, refused)
    else
      var stored := looked.(puts := looked.puts + ToSet(out.puts));
      if !out.ok then Progress(stored, Some(TreeFailed(op.action)))
      else Progress(Accept(stored, op, out, prev), None)
  }

  function RunOps(index: Index, b: Batch, ops: seq<Op>, outs: seq<TreeOut>): Progress
    requires |ops| == |outs|
    decreases |ops|
  {
    if ops == [] then Progress(b, None)
    else
      var p := StepOp(index, b, ops[0], outs[0]);
      if p.err.Some? then p else RunOps(index, p.batch, ops[1..], outs[1..])
  }

  // ----- what is assumed of the library ---------------------------------------------------

  /** A minted rkey is new: no path of the tree, and none this batch has looked up. */
  predicate MintIsFresh(b: Batch, op: Op, out: TreeOut) {
    op.Mints() && out.ok ==>
      Path(Touched(op, out)) !in b.tree && Path(Touched(op, out)) !in b.cur
  }

  /** A successful Put stores the record's own block. */
  predicate PutsRecord(op: Op, out: TreeOut) {
    out.ok && (op.action.Create? || op.action.Update?) ==> op.rec in out.puts
  }

  predicate LibraryOk(index: Index, b: Batch, ops: seq<Op>, outs: seq<TreeOut>)
    requires |ops| == |outs|
    decreases |ops|
  {
    ops == [] ||
    (&& MintIsFresh(b, ops[0], outs[0])
     && PutsRecord(ops[0], outs[0])
     && var p := StepOp(index, b, ops[0], outs[0]);
        p.err.None? ==> LibraryOk(index, p.batch, ops[1..], outs[1..]))
  }

  /** Collections are NSIDs: the HTTP layer parses them before it calls the manager. */
  predicate OpsJoinable(ops: seq<Op>) {
    forall op :: op in ops ==> Joinable(op.Named())
  }

  // ----- the record index -----------------------------------------------------------------

  /** The index and the tree hold the same records. */
  ghost predicate IndexIs(index: Index, tree: Tree) {
    && (forall k :: k in index ==> Joinable(k))
    && (forall p :: p in tree ==> '/' in p)
    && (forall k :: Joinable(k) ==> Get(index, k) == Get(tree, Path(k)))
  }

  function Upserted(index: Index, upserts: seq<(Key, Cid)>): Index
    decreases |upserts|
  {
    if upserts == [] then index
    else
      var last := |upserts| - 1;
      Upserted(index, upserts[..last])[upserts[last].0 := upserts[last].1]
  }

  function Without(index: Index, deletes: seq<Key>): Index
    decreases |deletes|
  {
    if deletes == [] then index
    else
      var last := |deletes| - 1;
      Without(index, deletes[..last]) - {deletes[last]}
  }

  /** The deferred index write: every upsert, then every delete. */
  function IndexAfter(index: Index, b: Batch): Index {
    Without(Upserted(index, b.upserts), b.deletes)
  }
}
