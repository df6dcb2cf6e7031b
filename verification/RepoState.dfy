/**
  The repo manager as a state machine: the tables of every account, the shared block store, the
  cached handles, the recording window and the event log, and what each operation does to them.

  The repo library is seen only through a World, which says what a CID stands for, and through
  the answers it gives during an operation (TreeOut, CommitOut).
 */
module RepoState {
  import opened Basics
  import opened RecordPath
  import opened WriteBatch

  type Did = string
  type Rev = nat       // TIDs are fixed-width sortable text; only their order matters
  type Data = string   // the bytes of a block

  /** What a signed commit block says. */
  datatype Signed = Signed(did: Did, rev: Rev, data: Cid)

  /** The meaning of CIDs: content addressing makes each of these a function of the CID. */
  datatype World = World(
    signed: Cid -> Option<Signed>,   // the commit in this block, if it is one
    tree: Cid -> Tree,               // the records below this data root
    nodes: Cid -> set<Cid>,          // the blocks of the tree itself
    reach: Cid -> set<Cid>,          // the blocks reachable from this commit
    content: Cid -> Data,
    converts: Cid -> bool)           // whether this record converts to JSON

  datatype Commit = Commit(cid: Cid, data: Cid)
  datatype Head = Head(cid: Cid, rev: Rev, data: Cid)

  /** One account's rows: repo_commits by rev, repo_records, and repo_block_revs. */
  datatype Tables = Tables(commits: map<Rev, Commit>, records: Index, revs: map<Cid, Rev>)

  const NO_ROWS := Tables(map[], map[], map[])

  /** An open repo handle: its tree and the commit it last read or wrote. */
  datatype Handle = Handle(tree: Tree, last: Option<Head>)

  datatype Car = Car(roots: seq<Cid>, blocks: map<Cid, Data>)

  datatype Event =
    | CommitEvent(did: Did, commit: Cid, rev: Rev, since: Option<Rev>, prevData: Option<Cid>, ops: seq<RepoOp>,
                  car: Car)
    | IdentityEvent(did: Did)

  datatype State = State(
    rows: map<Did, Tables>,
    blocks: map<Cid, Data>,
    handles: map<Did, Handle>,
    recorded: Option<set<Cid>>,
    log: seq<Event>)

  datatype Fault =
    | OpenFailed | SwapCommitMismatch | Refused(err: WriteError) | CommitFailed | RevTaken
    | CarFailed | NoAccount | BadRoots | CarBroken | WrongDid | WalkFailed | BlobsFailed

  datatype CommitOut = CommitOut(ok: bool, cid: Cid, rev: Rev, data: Cid, puts: seq<Cid>)
  datatype CommitResult = CommitResult(cid: Cid, rev: Rev, prevRev: Option<Rev>, prevData: Option<Cid>)

  datatype Result<+T> = Ok(value: T) | Err(fault: Fault)
  datatype Written = Written(cid: Cid, rev: Rev, results: seq<OpResult>)
  datatype Reply<+T> = Reply(state: State, result: Result<T>)

  // ----- reading the tables ---------------------------------------------------------------

  function RowsOf(s: State, did: Did): Tables {
    if did in s.rows then s.rows[did] else NO_ROWS
  }

  /** ORDER BY rev DESC LIMIT 1. */
  function MaxRev(revs: set<Rev>): (r: Rev)
    requires revs != {}
    ensures r in revs && forall x :: x in revs ==> x <= r
  {
    HasMax(revs);
    var r :| r in revs && forall x :: x in revs ==> x <= r;
    r
  }

  lemma {:induction false} HasMax(revs: set<Rev>)
    requires revs != {}
    ensures exists r :: r in revs && forall x :: x in revs ==> x <= r
  {
    var x :| x in revs;
    if revs != {x} {
      HasMax(revs - {x});
      var y :| y in revs - {x} && forall z :: z in revs - {x} ==> z <= y;
      var r := if x <= y then y else x;
      forall z | z in revs
        ensures z <= r
      {
        assert z == x || z in revs - {x};
      }
    }
  }

  function HeadOf(t: Tables): Option<Head> {
    if t.commits == map[] then None
    else
      assert t.commits.Keys != {};
      var rev := MaxRev(t.commits.Keys);
      Some(Head(t.commits[rev].cid, rev, t.commits[rev].data))
  }

  function RevOf(h: Option<Head>): Option<Rev> {
    if h.Some? then Some(h.value.rev) else None
  }

  function DataOf(h: Option<Head>): Option<Cid> {
    if h.Some? then Some(h.value.data) else None
  }

  /** RepoCids: every block of the account, or those with a rev after `since`. */
  function RepoCids(t: Tables, since: Option<Rev>): set<Cid> {
    set c | c in t.revs && (since.Some? ==> t.revs[c] > since.value)
  }

  /** WriteRepoCAR; it fails without a head or when a listed block is not stored. */
  function RepoCar(s: State, did: Did, since: Option<Rev>): Option<Car> {
    var t := RowsOf(s, did);
    var cids := RepoCids(t, since);
    if HeadOf(t).None? || !(cids <= s.blocks.Keys) then None
    else Some(Car([HeadOf(t).value.cid], map c | c in cids :: s.blocks[c]))
  }

  // ----- the steps of an operation --------------------------------------------------------

  /** Put of every listed block: a block already stored is left alone. */
  function PutAll(w: World, blocks: map<Cid, Data>, cids: set<Cid>): map<Cid, Data> {
    map c | c in blocks.Keys + cids :: if c in blocks then blocks[c] else w.content(c)
  }

  /** Puts made through the recording block store. */
  function Stored(w: World, s: State, cids: set<Cid>): State {
    s.(blocks := PutAll(w, s.blocks, cids),
       recorded := if s.recorded.Some? then Some(s.recorded.value + cids) else None)
  }

  lemma StoredNothing(w: World, s: State)
    ensures Stored(w, s, {}) == s
  {
    assert PutAll(w, s.blocks, {}) == s.blocks;
    if s.recorded.Some? {
      assert s.recorded.value + {} == s.recorded.value;
    }
  }

  lemma StoredAgain(w: World, s: State, a: set<Cid>, b: set<Cid>)
    ensures Stored(w, Stored(w, s, a), b) == Stored(w, s, a + b)
  {
    assert PutAll(w, PutAll(w, s.blocks, a), b) == PutAll(w, s.blocks, a + b);
    if s.recorded.Some? {
      assert s.recorded.value + a + b == s.recorded.value + (a + b);
    }
  }

  function Rebuild(w: World, cid: Cid, sc: Signed): Handle {
    Handle(w.tree(sc.data), Some(Head(cid, sc.rev, sc.data)))
  }

  /** The handle `open` returns: the cached one, a new one, or one read from the head commit. */
  function Opened(w: World, s: State, did: Did): Option<Handle> {
    if did in s.handles then Some(s.handles[did])
    else
      var head := HeadOf(RowsOf(s, did));
      if head.None? then Some(Handle(map[], None))
      else if head.value.cid !in s.blocks || w.signed(head.value.cid).None? then None
      else Some(Rebuild(w, head.value.cid, w.signed(head.value.cid).value))
  }

  /** The rows after a commit: a commit row, and the drained blocks moved to its rev. */
  function Committed(t: Tables, co: CommitOut, drained: set<Cid>): Tables {
    t.(commits := t.commits[co.rev := Commit(co.cid, co.data)],
       revs := t.revs + map c | c in drained :: co.rev)
  }

  function CommitRepo(w: World, s: State, did: Did, co: CommitOut): Reply<CommitResult>
    requires did in s.handles
  {
    var h := s.handles[did];
    var stored := Stored(w, s, ToSet(co.puts));
    if !co.ok then Reply(stored, Err(CommitFailed))
    else
      var signed := stored.(handles := s.handles[did := Handle(h.tree, Some(Head(co.cid, co.rev, co.data)))]);
      var t := RowsOf(s, did);
      if co.rev in t.commits then Reply(signed, Err(RevTaken))
      else
        var drained := if signed.recorded.Some? then signed.recorded.value else {};
        Reply(signed.(rows := s.rows[did := Committed(t, co, drained)], recorded := None),
              Ok(CommitResult(co.cid, co.rev, RevOf(h.last), DataOf(h.last))))
  }

  function EmitCommit(s: State, did: Did, res: CommitResult, ops: seq<RepoOp>): Reply<()> {
    var car := RepoCar(s, did, res.prevRev);
    if car.None? then Reply(s, Err(CarFailed))
    else
      Reply(s.(log := s.log + [CommitEvent(did, res.cid, res.rev, res.prevRev, res.prevData, ops, car.value)]), Ok(()))
  }

  /** The handle is cached before anything else is checked. */
  function Begun(s: State, did: Did, h: Handle): State {
    s.(handles := s.handles[did := h])
  }

  function CreateAccount(w: World, s: State, did: Did, co: CommitOut, known: bool): Reply<()> {
    var h := Opened(w, s, did);
    if h.None? then Reply(s, Err(OpenFailed))
    else
      var c := CommitRepo(w, Begun(s, did, h.value).(recorded := Some({})), did, co);
      if c.result.Err? then Reply(c.state, Err(c.result.fault))
      else
        var e := EmitCommit(c.state, did, c.result.value, []);
        if e.result.Err? then e
        else if !known then Reply(e.state, Err(NoAccount))
        else Reply(e.state.(log := e.state.log + [IdentityEvent(did)]), Ok(()))
  }

  /** `swapCommit` is the head CID the caller expects; Some(None) is the empty string. */
  predicate SwapMatches(s: State, did: Did, swapCommit: Option<Option<Cid>>) {
    swapCommit.Some? ==>
      var head := HeadOf(RowsOf(s, did));
      swapCommit.value == if head.Some? then Some(head.value.cid) else None
  }

  /** The state when the loop over the operations has ended, accepted or not. */
  function AfterOps(w: World, s: State, did: Did, h: Handle, p: Progress): State {
    Stored(w, Begun(s, did, h.(tree := p.batch.tree)).(recorded := Some({})), p.batch.puts)
  }

  function Finish(w: World, s: State, did: Did, b: Batch, co: CommitOut): Reply<Written>
    requires did in s.handles
  {
    var c := CommitRepo(w, s, did, co);
    if c.result.Err? then Reply(c.state, Err(c.result.fault))
    else
      var t := RowsOf(c.state, did);
      var indexed := c.state.(rows := c.state.rows[did := t.(records := IndexAfter(t.records, b))]);
      var e := EmitCommit(indexed, did, c.result.value, b.emitted);
      if e.result.Err? then Reply(e.state, Err(e.result.fault))
      else Reply(e.state, Ok(Written(co.cid, co.rev, b.results)))
  }

  function ApplyWrites(w: World, s: State, did: Did, ops: seq<Op>, outs: seq<TreeOut>,
                       swapCommit: Option<Option<Cid>>, co: CommitOut): Reply<Written>
    requires |ops| == |outs|
  {
    var h := Opened(w, s, did);
    if h.None? then Reply(s, Err(OpenFailed))
    else if !SwapMatches(s, did, swapCommit) then Reply(Begun(s, did, h.value), Err(SwapCommitMismatch))
    else
      var p := RunOps(RowsOf(s, did).records, Start(h.value.tree), ops, outs);
      var ran := AfterOps(w, s, did, h.value, p);
      if p.err.Some? then Reply(ran, Err(Refused(p.err.value)))
      else Finish(w, ran, did, p.batch, co)
  }

  /** The index rows of an imported tree: paths with an empty half are skipped. */
  function ImportedIndex(tree: Tree): Index {
    map k | k in (set p | p in tree :: Cut(p)) && Importable(k) && Path(k) in tree :: tree[Path(k)]
  }

  /** The rows that replace an account's: one commit, and every block of the CAR at its rev. */
  function ImportedRows(w: World, head: Cid, sc: Signed, car: Car): Tables {
    Tables(map[sc.rev := Commit(head, sc.data)], ImportedIndex(w.tree(sc.data)), map c | c in car.blocks :: sc.rev)
  }

  predicate Importable(k: Key) {
    k.collection != "" && k.rkey != ""
  }

  /** The walk reads every block of the tree, and every record it indexes. */
  predicate WalkOk(w: World, data: Cid, stored: set<Cid>) {
    && w.nodes(data) <= stored
    && forall p :: p in w.tree(data) && Importable(Cut(p)) ==> w.tree(data)[p] in stored && w.converts(w.tree(data)[p])
  }

  /** ImportRepo of a CAR; `broken` says that reading it failed after these blocks. */
  function ImportRepo(w: World, s: State, did: Did, car: Car, broken: bool): Reply<()> {
    if |car.roots| != 1 then Reply(s, Err(BadRoots))
    else
      var head := car.roots[0];
      var stored := s.(blocks := car.blocks + s.blocks);
      if broken then Reply(stored, Err(CarBroken))
      else if head !in stored.blocks || w.signed(head).None? then Reply(stored, Err(OpenFailed))
      else
        var sc := w.signed(head).value;
        if sc.did != did then Reply(stored, Err(WrongDid))
        else if !WalkOk(w, sc.data, stored.blocks.Keys) then Reply(stored, Err(WalkFailed))
        else
          Reply(stored.(rows := s.rows[did := ImportedRows(w, head, sc, car)], handles := s.handles - {did}), Ok(()))
  }

  /** DeleteAccount; the handle goes first, before the blobs, whose removal may fail. */
  function DeleteAccount(s: State, did: Did, blobsOk: bool): Reply<()> {
    var evicted := s.(handles := s.handles - {did});
    if !blobsOk then Reply(evicted, Err(BlobsFailed))
    else Reply(evicted.(rows := s.rows - {did}), Ok(()))
  }

  /** A new process over the same database. */
  function Restart(s: State): State {
    s.(handles := map[], recorded := None)
  }
}
