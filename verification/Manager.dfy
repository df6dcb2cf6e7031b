/**
  The repo manager as it is written: objects whose methods update their fields. Each method is
  proved to take the manager from one state to the next as the state machine says.
 */
module Manager {
  import opened Basics
  import opened RecordPath
  import opened WriteBatch
  import opened RepoState

  /** The repo_blocks table: write-once, keyed by CID. */
  class Blockstore {
    var blocks: map<Cid, Data>

    constructor (stored: map<Cid, Data>)
      ensures blocks == stored
    {
      blocks := stored;
    }

    method Get(c: Cid) returns (data: Option<Data>)
      ensures data == Basics.Get(blocks, c)
    {
      data := if c in blocks then Some(blocks[c]) else None;
    }

    /** INSERT ... ON CONFLICT(cid) DO NOTHING. */
    method Put(c: Cid, data: Data)
      modifies this
      ensures blocks == if c in old(blocks) then old(blocks) else old(blocks)[c := data]
    {
      if c !in blocks {
        blocks := blocks[c := data];
      }
    }

    method Has(c: Cid) returns (found: bool)
      ensures found <==> c in blocks
    {
      found := c in blocks;
    }
  }

  /** The block store handed to the repo library: it notes every CID Put inside a window. */
  class RecordingBlockstore {
    const inner: Blockstore
    var recorded: Option<set<Cid>>

    constructor (inner: Blockstore)
      ensures this.inner == inner && recorded == None
    {
      this.inner := inner;
      recorded := None;
    }

    method Begin()
      modifies this
      ensures recorded == Some({})
    {
      recorded := Some({});
    }

    method Put(c: Cid, data: Data)
      modifies this, inner
      ensures inner.blocks == if c in old(inner.blocks) then old(inner.blocks) else old(inner.blocks)[c := data]
      ensures recorded == if old(recorded).Some? then Some(old(recorded).value + {c}) else None
    {
      inner.Put(c, data);
      if recorded.Some? {
        recorded := Some(recorded.value + {c});
      }
    }

    /** Close the window and list what was Put in it, in no particular order. */
    method Drain() returns (out: seq<Cid>)
      modifies this
      ensures recorded == None
      ensures ToSet(out) == if old(recorded).Some? then old(recorded).value else {}
    {
      var m := if recorded.Some? then recorded.value else {};
      recorded := None;
      out := [];
      while m != {}
        invariant recorded == None
        invariant ToSet(out) + m == if old(recorded).Some? then old(recorded).value else {}
        decreases m
      {
        var c :| c in m;
        out := out + [c];
        m := m - {c};
      }
    }
  }

  lemma StoredOne(w: World, s: State, c: Cid)
    ensures PutAll(w, s.blocks, {c}) == if c in s.blocks then s.blocks else s.blocks[c := w.content(c)]
  {
  }

  /** repo_block_revs: every listed block is written at `rev`, or moved forward to it. */
  method MoveToRev(revs: map<Cid, Rev>, cids: seq<Cid>, rev: Rev) returns (moved: map<Cid, Rev>)
    ensures moved == revs + map c | c in ToSet(cids) :: rev
  {
    moved := revs;
    for i := 0 to |cids|
      invariant moved == revs + map c | c in ToSet(cids[..i]) :: rev
    {
      moved := moved[cids[i] := rev];
      assert ToSet(cids[..i + 1]) == ToSet(cids[..i]) + {cids[i]};
    }
    assert cids[..|cids|] == cids;
  }

  /** The handle of an account with another tree in it. */
  ghost function Opening(s: State, did: Did, tree: Tree): State
    requires did in s.handles
  {
    s.(handles := s.handles[did := s.handles[did].(tree := tree)])
  }

  /** A state in which a batch has got as far as `b`. */
  ghost function Ran(w: World, s: State, did: Did, b: Batch): State
    requires did in s.handles
  {
    Stored(w, Opening(s, did, b.tree), b.puts)
  }

  lemma RanIsAfterOps(w: World, s: State, did: Did, h: Handle, p: Progress)
    ensures Ran(w, Begun(s, did, h).(recorded := Some({})), did, p.batch) == AfterOps(w, s, did, h, p)
  {
    assert s.handles[did := h][did := h.(tree := p.batch.tree)] == s.handles[did := h.(tree := p.batch.tree)];
  }

  lemma OneTurn(index: Index, b: Batch, ops: seq<Op>, outs: seq<TreeOut>, i: nat)
    requires |ops| == |outs| && i < |ops|
    ensures RunOps(index, b, ops[i..], outs[i..])
         == var p := StepOp(index, b, ops[i], outs[i]);
            if p.err.Some? then p else RunOps(index, p.batch, ops[i + 1..], outs[i + 1..])
  {
    assert ops[i..][1..] == ops[i + 1..] && outs[i..][1..] == outs[i + 1..];
  }

  /** The tree operation of an accepted operation, and what the batch notes about it. */
  method Write(b: Batch, op: Op, out: TreeOut, prev: Option<Cid>) returns (done: Batch)
    requires !op.action.Other?
    ensures done == Accept(b, op, out, prev)
  {
    var key := if op.Mints() then Key(op.collection, out.minted) else op.Named();
    var path := Path(key);
    var tree, cur, upserts, deletes, emitted, results := b.tree, b.cur, b.upserts, b.deletes, b.emitted, b.results;
    match op.action {
      case Create =>
        tree := tree[path := op.rec];
        if !op.Mints() {
          cur := cur[path := Some(op.rec)];
        }
        upserts := upserts + [(key, op.rec)];
        emitted := emitted + [RepoOp(Create, path, Some(op.rec), None)];
        results := results + [OpResult(Create, key.rkey, Some(op.rec))];
      case Update =>
        tree := tree[path := op.rec];
        cur := cur[path := Some(op.rec)];
        upserts := upserts + [(key, op.rec)];
        emitted := emitted + [RepoOp(if prev.Some? then Update else Create, path, Some(op.rec), prev)];
        results := results + [OpResult(Update, key.rkey, Some(op.rec))];
      case Delete =>
        tree := tree - {path};
        cur := cur[path := None];
        deletes := deletes + [key];
        emitted := emitted + [RepoOp(Delete, path, None, prev)];
        results := results + [OpResult(Delete, key.rkey, None)];
    }
    done := Batch(tree, cur, upserts, deletes, emitted, results, b.puts);
  }

  class RepoManager {
    const recBS: RecordingBlockstore
    var rows: map<Did, Tables>
    var handles: map<Did, Handle>
    var log: seq<Event>

    /** A process that starts over an existing database: nothing is cached. */
    constructor (blocks: Blockstore, rows: map<Did, Tables>, log: seq<Event>)
      ensures fresh(recBS) && recBS.inner == blocks
      ensures Current() == State(rows, blocks.blocks, map[], None, log)
    {
      recBS := new RecordingBlockstore(blocks);
      this.rows := rows;
      handles := map[];
      this.log := log;
    }

    function Current(): State
      reads this, recBS, recBS.inner
    {
      State(rows, recBS.inner.blocks, handles, recBS.recorded, log)
    }

    /** The Puts the library makes while it works on a handle. */
    method LibraryPuts(w: World, puts: seq<Cid>)
      modifies recBS, recBS.inner
      ensures Current() == Stored(w, old(Current()), ToSet(puts))
    {
      ghost var s := Current();
      StoredNothing(w, s);
      assert ToSet(puts[..0]) == {};
      for i := 0 to |puts|
        invariant unchanged(this)
        invariant Current() == Stored(w, s, ToSet(puts[..i]))
      {
        ghost var before := Current();
        recBS.Put(puts[i], w.content(puts[i]));
        StoredOne(w, before, puts[i]);
        StoredAgain(w, s, ToSet(puts[..i]), {puts[i]});
        assert ToSet(puts[..i + 1]) == ToSet(puts[..i]) + {puts[i]};
      }
      assert puts[..|puts|] == puts;
    }

    method Open(w: World, did: Did) returns (h: Option<Handle>)
      modifies this`handles
      ensures h == Opened(w, old(Current()), did)
      ensures Current() == if h.Some? then Begun(old(Current()), did, h.value) else old(Current())
    {
      if did in handles {
        h := Some(handles[did]);
        assert handles[did := handles[did]] == handles;
        return;
      }
      var head := HeadOf(if did in rows then rows[did] else NO_ROWS);
      if head.None? {
        h := Some(Handle(map[], None));
      } else {
        var data := recBS.inner.Get(head.value.cid);
        var sc := w.signed(head.value.cid);
        if data.None? || sc.None? {
          return None;
        }
        h := Some(Handle(w.tree(sc.value.data), Some(Head(head.value.cid, sc.value.rev, sc.value.data))));
      }
      handles := handles[did := h.value];
    }

    /** Sign and store a commit of the cached handle, then move every drained block to its rev. */
    method Commit(w: World, did: Did, co: CommitOut) returns (r: Result<CommitResult>)
      requires did in handles
      modifies this, recBS, recBS.inner
      ensures Reply(Current(), r) == CommitRepo(w, old(Current()), did, co)
    {
      var oldHead := handles[did].last;
      LibraryPuts(w, co.puts);
      if !co.ok {
        return Err(CommitFailed);
      }
      handles := handles[did := Handle(handles[did].tree, Some(Head(co.cid, co.rev, co.data)))];
      var t := if did in rows then rows[did] else NO_ROWS;
      if co.rev in t.commits {
        return Err(RevTaken);
      }
      var commits := t.commits[co.rev := RepoState.Commit(co.cid, co.data)];
      var drained := recBS.Drain();
      var revs := MoveToRev(t.revs, drained, co.rev);
      rows := rows[did := t.(commits := commits, revs := revs)];
      r := Ok(CommitResult(co.cid, co.rev, RevOf(oldHead), DataOf(oldHead)));
    }

    /** The head's CAR: every block of the account, or those written after `since`. */
    method WriteRepoCar(did: Did, since: Option<Rev>) returns (car: Option<Car>)
      ensures car == RepoCar(Current(), did, since)
    {
      var t := if did in rows then rows[did] else NO_ROWS;
      var head := HeadOf(t);
      if head.None? {
        return None;
      }
      var cids := RepoCids(t, since);
      var left := cids;
      var blocks: map<Cid, Data> := map[];
      while left != {}
        invariant left <= cids && cids - left <= recBS.inner.blocks.Keys
        invariant blocks == map c | c in cids - left :: recBS.inner.blocks[c]
        decreases left
      {
        var c :| c in left;
        var data := recBS.inner.Get(c);
        if data.None? {
          return None;
        }
        blocks := blocks[c := data.value];
        left := left - {c};
      }
      assert cids - left == cids;
      car := Some(Car([head.value.cid], blocks));
    }

    method EmitCommit(did: Did, res: CommitResult, ops: seq<RepoOp>) returns (r: Result<()>)
      modifies this`log
      ensures Reply(Current(), r) == RepoState.EmitCommit(old(Current()), did, res, ops)
    {
      var car := WriteRepoCar(did, res.prevRev);
      if car.None? {
        return Err(CarFailed);
      }
      log := log + [CommitEvent(did, res.cid, res.rev, res.prevRev, res.prevData, ops, car.value)];
      r := Ok(());
    }

    method CreateAccount(w: World, did: Did, co: CommitOut, known: bool) returns (r: Result<()>)
      modifies this, recBS, recBS.inner
      ensures Reply(Current(), r) == RepoState.CreateAccount(w, old(Current()), did, co, known)
    {
      var h := Open(w, did);
      if h.None? {
        return Err(OpenFailed);
      }
      recBS.Begin();
      var c := Commit(w, did, co);
      if c.Err? {
        return Err(c.fault);
      }
      r := EmitCommit(did, c.value, []);
      if r.Err? {
        return;
      }
      if !known {
        return Err(NoAccount);
      }
      log := log + [IdentityEvent(did)];
    }

    /** The CID of a record as the batch sees it; a path read from the index becomes pending. */
    method BatchRecordCid(cur: map<string, Option<Cid>>, did: Did, k: Key)
      returns (prev: Option<Cid>, cur': map<string, Option<Cid>>)
      ensures prev == Seen(RowsOf(Current(), did).records, cur, k)
      ensures cur' == cur[Path(k) := prev]
    {
      if Path(k) in cur {
        prev, cur' := cur[Path(k)], cur;
        return;
      }
      var records := if did in rows then rows[did].records else map[];
      prev := if k in records then Some(records[k]) else None;
      cur' := cur[Path(k) := prev];
    }

    /** One turn of the loop: look up, check, change the tree, queue the index write, announce. */
    method ApplyOp(w: World, ghost base: State, did: Did, b: Batch, op: Op, out: TreeOut) returns (p: Progress)
      requires did in base.handles && Current() == Ran(w, base, did, b)
      modifies this`handles, recBS, recBS.inner
      ensures p == StepOp(RowsOf(base, did).records, b, op, out)
      ensures Current() == Ran(w, base, did, p.batch)
    {
      var prev: Option<Cid> := None;
      var cur := b.cur;
      if op.Names() {
        prev, cur := BatchRecordCid(cur, did, op.Named());
      }
      var refused := Check(op, prev);
      if refused.Some? {
        return Progress(b.(cur := cur), refused);
      }
      LibraryPuts(w, out.puts);
      var puts := b.puts + ToSet(out.puts);
      StoredAgain(w, Opening(base, did, b.tree), b.puts, ToSet(out.puts));
      if !out.ok {
        return Progress(b.(cur := cur, puts := puts), Some(TreeFailed(op.action)));
      }
      var done := Write(b.(cur := cur, puts := puts), op, out, prev);
      assert handles[did := handles[did].(tree := done.tree)]
               == base.handles[did := base.handles[did].(tree := done.tree)];
      handles := handles[did := handles[did].(tree := done.tree)];
      p := Progress(done, None);
    }

    /** The loop of applyWrites over its operations, on an open handle and an open window. */
    method RunBatch(w: World, did: Did, ops: seq<Op>, outs: seq<TreeOut>) returns (p: Progress)
      requires |ops| == |outs| && did in handles
      modifies this`handles, recBS, recBS.inner
      ensures p == RunOps(RowsOf(old(Current()), did).records, Start(old(handles[did].tree)), ops, outs)
      ensures Current() == Ran(w, old(Current()), did, p.batch)
    {
      ghost var s := Current();
      var b := Start(handles[did].tree);
      StoredNothing(w, s);
      assert Opening(s, did, b.tree) == s by {
        assert s.handles[did := s.handles[did].(tree := b.tree)] == s.handles;
      }
      var i := 0;
      while i < |ops|
        invariant 0 <= i <= |ops|
        invariant Current() == Ran(w, s, did, b)
        invariant RunOps(RowsOf(s, did).records, Start(s.handles[did].tree), ops, outs)
               == RunOps(RowsOf(s, did).records, b, ops[i..], outs[i..])
      {
        OneTurn(RowsOf(s, did).records, b, ops, outs, i);
        var turn := ApplyOp(w, s, did, b, ops[i], outs[i]);
        b := turn.batch;
        if turn.err.Some? {
          return turn;
        }
        i := i + 1;
      }
      p := Progress(b, None);
    }

    /** The index write put off until after the commit: every upsert, then every delete. */
    method WriteIndex(did: Did, upserts: seq<(Key, Cid)>, deletes: seq<Key>)
      requires did in rows
      modifies this`rows
      ensures var t := old(rows)[did];
              rows == old(rows)[did := t.(records := Without(Upserted(t.records, upserts), deletes))]
    {
      var t := rows[did];
      var records := t.records;
      for i := 0 to |upserts|
        invariant records == Upserted(t.records, upserts[..i])
      {
        records := records[upserts[i].0 := upserts[i].1];
        assert upserts[..i + 1][..i] == upserts[..i];
      }
      assert upserts[..|upserts|] == upserts;
      ghost var upserted := records;
      for i := 0 to |deletes|
        invariant records == Without(upserted, deletes[..i])
      {
        records := records - {deletes[i]};
        assert deletes[..i + 1][..i] == deletes[..i];
      }
      assert deletes[..|deletes|] == deletes;
      rows := rows[did := t.(records := records)];
    }

    method ApplyWrites(w: World, did: Did, ops: seq<Op>, outs: seq<TreeOut>,
                       swapCommit: Option<Option<Cid>>, co: CommitOut) returns (r: Result<Written>)
      requires |ops| == |outs|
      modifies this, recBS, recBS.inner
      ensures Reply(Current(), r) == RepoState.ApplyWrites(w, old(Current()), did, ops, outs, swapCommit, co)
    {
      ghost var s := Current();
      var h := Open(w, did);
      if h.None? {
        return Err(OpenFailed);
      }
      if swapCommit.Some? {
        var head := HeadOf(if did in rows then rows[did] else NO_ROWS);
        if swapCommit.value != (if head.Some? then Some(head.value.cid) else None) {
          return Err(SwapCommitMismatch);
        }
      }
      recBS.Begin();
      var p := RunBatch(w, did, ops, outs);
      RanIsAfterOps(w, s, did, h.value, p);
      if p.err.Some? {
        return Err(Refused(p.err.value));
      }
      r := Finish(w, did, p.batch, co);
    }

    /** Commit, write the index, publish. */
    method Finish(w: World, did: Did, b: Batch, co: CommitOut) returns (r: Result<Written>)
      requires did in handles
      modifies this, recBS, recBS.inner
      ensures Reply(Current(), r) == RepoState.Finish(w, old(Current()), did, b, co)
    {
      var c := Commit(w, did, co);
      if c.Err? {
        return Err(c.fault);
      }
      WriteIndex(did, b.upserts, b.deletes);
      var e := EmitCommit(did, c.value, b.emitted);
      if e.Err? {
        return Err(e.fault);
      }
      r := Ok(Written(co.cid, co.rev, b.results));
    }

    method ImportRepo(w: World, did: Did, car: Car, broken: bool) returns (r: Result<()>)
      modifies this, recBS.inner
      ensures Reply(Current(), r) == RepoState.ImportRepo(w, old(Current()), did, car, broken)
    {
      if |car.roots| != 1 {
        return Err(BadRoots);
      }
      var head := car.roots[0];
      var cids := StoreCar(car.blocks);
      if broken {
        return Err(CarBroken);
      }
      var found := recBS.inner.Has(head);
      var sc := w.signed(head);
      if !found || sc.None? {
        return Err(OpenFailed);
      }
      if sc.value.did != did {
        return Err(WrongDid);
      }
      var records := WalkRecords(w, sc.value.data);
      if records.None? {
        return Err(WalkFailed);
      }
      var t := BuildRows(w, head, sc.value, car, cids, records.value);
      rows := rows[did := t];
      handles := handles - {did};
      r := Ok(());
    }

    /** Read the blocks of a CAR into the block store, outside any recording window. */
    method StoreCar(blocks: map<Cid, Data>) returns (cids: seq<Cid>)
      modifies recBS.inner
      ensures recBS.inner.blocks == blocks + old(recBS.inner.blocks)
      ensures ToSet(cids) == blocks.Keys
    {
      var left := blocks.Keys;
      cids := [];
      while left != {}
        invariant left <= blocks.Keys && ToSet(cids) == blocks.Keys - left
        invariant recBS.inner.blocks == (map c | c in blocks && c !in left :: blocks[c]) + old(recBS.inner.blocks)
        decreases left
      {
        var c :| c in left;
        assert ToSet(cids + [c]) == ToSet(cids) + {c};
        cids := cids + [c];
        recBS.inner.Put(c, blocks[c]);
        left := left - {c};
      }
      assert (map c | c in blocks && c !in left :: blocks[c]) == blocks;
    }

    /**
      The walk over an imported tree: each path cut at its first "/", empty halves skipped, the
      record's block read and converted. It fails when a block it reads is missing.
     */
    method WalkRecords(w: World, data: Cid) returns (records: Option<Index>)
      ensures records == if WalkOk(w, data, recBS.inner.blocks.Keys) then Some(ImportedIndex(w.tree(data))) else None
    {
      var tree := w.tree(data);
      if !(w.nodes(data) <= recBS.inner.blocks.Keys) {
        return None;
      }
      var found: Index := map[];
      var left := tree.Keys;
      while left != {}
        invariant left <= tree.Keys
        invariant forall p :: p in tree && p !in left && Importable(Cut(p)) ==>
                    tree[p] in recBS.inner.blocks && w.converts(tree[p])
        invariant Indexes(found, tree, left)
        decreases left
      {
        var p :| p in left;
        if Importable(Cut(p)) {
          var block := recBS.inner.Get(tree[p]);
          if block.None? || !w.converts(tree[p]) {
            return None;
          }
          CutHasSlash(p);
          PathUndoesCut(p);
          found := found[Cut(p) := tree[p]];
        }
        left := left - {p};
      }
      IndexedAll(found, tree);
      records := Some(found);
    }

    method DeleteAccount(did: Did, blobsOk: bool) returns (r: Result<()>)
      modifies this
      ensures Reply(Current(), r) == RepoState.DeleteAccount(old(Current()), did, blobsOk)
    {
      handles := handles - {did};
      if !blobsOk {
        return Err(BlobsFailed);
      }
      rows := rows - {did};
      r := Ok(());
    }
  }

  method BuildRows(w: World, head: Cid, sc: Signed, car: Car, cids: seq<Cid>, records: Index) returns (t: Tables)
    requires ToSet(cids) == car.blocks.Keys && records == ImportedIndex(w.tree(sc.data))
    ensures t == ImportedRows(w, head, sc, car)
  {
    var revs := MoveToRev(map[], cids, sc.rev);
    assert revs == map c | c in car.blocks :: sc.rev;
    t := Tables(map[sc.rev := RepoState.Commit(head, sc.data)], records, revs);
  }

  /** The index rows of the paths already walked. */
  ghost predicate Indexes(records: Index, tree: Tree, left: set<string>) {
    && (forall k :: k in records <==> Importable(k) && Path(k) in tree.Keys - left && Cut(Path(k)) == k)
    && forall k :: k in records ==> records[k] == tree[Path(k)]
  }

  lemma IndexedAll(records: Index, tree: Tree)
    requires Indexes(records, tree, {})
    ensures records == ImportedIndex(tree)
  {
    forall k | k in ImportedIndex(tree)
      ensures Cut(Path(k)) == k
    {
      var p :| p in tree && k == Cut(p);
      CutHasSlash(p);
      PathUndoesCut(p);
    }
  }

  /** Only a path with a separator leaves something after it. */
  lemma {:induction false} CutHasSlash(p: string)
    requires Cut(p).rkey != ""
    ensures '/' in p
  {
    if p != [] && p[0] != '/' {
      CutHasSlash(p[1..]);
    }
  }
}
