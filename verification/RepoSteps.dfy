/** Every operation of the manager, run cleanly, keeps the invariant and announces the truth. */
module RepoSteps {
  import opened Basics
  import opened RecordPath
  import opened WriteBatch
  import opened BatchLaws
  import opened Inversion
  import opened DeferredIndex
  import opened RepoState
  import opened RepoInvariant

  function NewHead(co: CommitOut): Head {
    Head(co.cid, co.rev, co.data)
  }

  lemma CommittedHead(t: Tables, co: CommitOut, drained: set<Cid>)
    requires HeadOf(t).Some? ==> co.rev > HeadOf(t).value.rev
    ensures co.rev !in t.commits
    ensures HeadOf(Committed(t, co, drained)) == Some(NewHead(co))
  {
    HeadIsMax(t);
    var after := Committed(t, co, drained);
    assert co.rev in after.commits;
    HeadIsMax(after);
  }

  /** After a commit, the blocks selected since the previous head are exactly those drained. */
  lemma SinceIsDrained(w: World, did: Did, t: Tables, stored: set<Cid>, co: CommitOut, drained: set<Cid>)
    requires RowsSigned(w, did, t, stored)
    requires HeadOf(t).Some? ==> co.rev > HeadOf(t).value.rev
    ensures RepoCids(Committed(t, co, drained), RevOf(HeadOf(t))) == drained
  {
    HeadIsMax(t);
  }

  /** Reaching forward from a kept rev survives a commit; re-Put blocks only move forward. */
  lemma SyncStep(w: World, did: Did, t: Tables, stored: set<Cid>, co: CommitOut, drained: set<Cid>, r: Rev)
    requires AccountOk(w, did, t, stored)
    requires HeadOf(t).Some? ==> co.rev > HeadOf(t).value.rev
    requires w.reach(co.cid) <= Reached(w, HeadOf(t)) + drained
    requires r in t.commits
    ensures w.reach(co.cid) <= w.reach(t.commits[r].cid) + RepoCids(Committed(t, co, drained), Some(r))
  {
    HeadIsMax(t);
    var after := Committed(t, co, drained);
    forall c | c in w.reach(co.cid) && c !in w.reach(t.commits[r].cid)
      ensures c in RepoCids(after, Some(r))
    {
      if c !in drained {
        assert c in RepoCids(t, Some(r));
      }
    }
  }

  lemma CommitKeepsSync(w: World, did: Did, t: Tables, stored: set<Cid>, co: CommitOut, drained: set<Cid>)
    requires AccountOk(w, did, t, stored)
    requires HeadOf(t).Some? ==> co.rev > HeadOf(t).value.rev
    requires w.reach(co.cid) <= Reached(w, HeadOf(t)) + drained
    ensures SyncOk(w, Committed(t, co, drained))
  {
    CommittedHead(t, co, drained);
    var after := Committed(t, co, drained);
    forall c | c in w.reach(co.cid)
      ensures c in RepoCids(after, None)
    {
      if c !in drained {
        assert c in RepoCids(t, None);
      }
    }
    forall r | r in after.commits
      ensures w.reach(co.cid) <= w.reach(after.commits[r].cid) + RepoCids(after, Some(r))
    {
      if r != co.rev {
        SyncStep(w, did, t, stored, co, drained, r);
      }
    }
  }

  lemma IndexedSync(w: World, t: Tables, index: Index)
    ensures var after := t.(records := index);
            HeadOf(after) == HeadOf(t) && (SyncOk(w, t) ==> SyncOk(w, after))
  {
    var after := t.(records := index);
    assert RepoCids(after, None) == RepoCids(t, None);
    forall r | r in t.commits
      ensures RepoCids(after, Some(r)) == RepoCids(t, Some(r))
    {
    }
  }

  lemma CommittedSigned(w: World, did: Did, t: Tables, stored: set<Cid>, stored': set<Cid>,
                        co: CommitOut, drained: set<Cid>, index: Index)
    requires RowsSigned(w, did, t, stored) && stored <= stored' && drained <= stored'
    requires w.signed(co.cid) == Some(Signed(did, co.rev, co.data))
    requires HeadOf(t).Some? ==> co.rev > HeadOf(t).value.rev
    ensures RowsSigned(w, did, Committed(t, co, drained).(records := index), stored')
  {
    CommittedHead(t, co, drained);
  }

  lemma CommitKeepsAccount(w: World, did: Did, t: Tables, stored: set<Cid>, stored': set<Cid>,
                           co: CommitOut, drained: set<Cid>, tree: Tree, index: Index)
    requires AccountOk(w, did, t, stored) && stored <= stored'
    requires co.ok && CommitOk(w, did, Handle(tree, HeadOf(t)), co)
    requires drained <= stored'
    requires w.reach(co.cid) <= Reached(w, HeadOf(t)) + drained
    requires IndexIs(index, tree)
    ensures AccountOk(w, did, Committed(t, co, drained).(records := index), stored')
  {
    var committed := Committed(t, co, drained);
    CommittedSigned(w, did, t, stored, stored', co, drained, index);
    CommittedHead(t, co, drained);
    CommitKeepsSync(w, did, t, stored, co, drained);
    IndexedSync(w, committed, index);
  }

  /** The other accounts do not notice: blocks are only added. */
  lemma StoredKeeps(w: World, did: Did, t: Tables, stored: set<Cid>, stored': set<Cid>)
    requires AccountOk(w, did, t, stored) && stored <= stored'
    ensures AccountOk(w, did, t, stored')
  {
  }

  /** What every operation does to the invariant, once its own account is known to be in order. */
  lemma OneAccountChanged(w: World, s: State, s': State, did: Did)
    requires Inv(w, s)
    requires s.blocks.Keys <= s'.blocks.Keys && (forall c :: c in s'.blocks ==> s'.blocks[c] == w.content(c))
    requires forall d :: d != did && d in s'.rows ==> d in s.rows && s'.rows[d] == s.rows[d]
    requires forall d :: d != did && d in s.rows ==> d in s'.rows
    requires forall d :: d != did && d in s'.handles ==> d in s.handles && s'.handles[d] == s.handles[d]
    requires AccountOk(w, did, RowsOf(s', did), s'.blocks.Keys)
    requires did in s'.handles ==> s'.handles[did] == Fresh(w, RowsOf(s', did))
    ensures Inv(w, s')
  {
    forall d | d in s'.rows
      ensures AccountOk(w, d, s'.rows[d], s'.blocks.Keys)
    {
      if d != did {
        StoredKeeps(w, d, s.rows[d], s.blocks.Keys, s'.blocks.Keys);
      }
    }
  }

  lemma PutAllIs(w: World, blocks: map<Cid, Data>, cids: set<Cid>)
    requires forall c :: c in blocks ==> blocks[c] == w.content(c)
    ensures PutAll(w, blocks, cids).Keys == blocks.Keys + cids
    ensures forall c :: c in PutAll(w, blocks, cids) ==> PutAll(w, blocks, cids)[c] == w.content(c)
  {
  }

  lemma BlocksOnlyGrow(w: World, s: State, cids: set<Cid>)
    requires forall c :: c in s.blocks ==> s.blocks[c] == w.content(c)
    ensures var after := Stored(w, s, cids);
            && after.blocks.Keys == s.blocks.Keys + cids
            && forall c :: c in after.blocks ==> after.blocks[c] == w.content(c)
  {
  }

  // ----- applyWrites ----------------------------------------------------------------------

  /** What a #commit event says of the commits before and after it, and the blocks it carries. */
  ghost predicate EventChains(w: World, did: Did, t: Tables, t': Tables, e: Event) {
    && e.CommitEvent? && e.did == did
    && e.since == RevOf(HeadOf(t)) && e.prevData == DataOf(HeadOf(t))
    && HeadOf(t').Some? && e.commit == HeadOf(t').value.cid && e.rev == HeadOf(t').value.rev
    && e.car.roots == [e.commit] && e.car.blocks.Keys == RepoCids(t', e.since)
    && (forall c :: c in e.car.blocks ==> e.car.blocks[c] == w.content(c))
  }

  /** What a #commit event says, against the account's rows before and after. */
  ghost predicate EventTrue(w: World, did: Did, t: Tables, t': Tables, e: Event) {
    && EventChains(w, did, t, t', e)
    && Forward(HeadTree(w, t), e.ops) == Some(HeadTree(w, t'))
    && Backward(HeadTree(w, t'), e.ops) == Some(HeadTree(w, t))
    && Reached(w, HeadOf(t')) <= Reached(w, HeadOf(t)) + e.car.blocks.Keys
  }

  /** The library's contract for a whole write: each tree operation, then Commit. */
  ghost predicate WriteContract(w: World, s: State, did: Did, ops: seq<Op>, outs: seq<TreeOut>, co: CommitOut)
    requires |ops| == |outs|
  {
    var h := Opened(w, s, did);
    h.Some? ==>
      var index := RowsOf(s, did).records;
      var p := RunOps(index, Start(h.value.tree), ops, outs);
      && LibraryOk(index, Start(h.value.tree), ops, outs)
      && (p.err.None? ==> CommitOk(w, did, h.value.(tree := p.batch.tree), co))
  }

  /**
    A clean write: it does not abort after a successful tree operation, the last operation on
    every deleted path is a delete, and no operation names an rkey minted before it.
   */
  ghost predicate CleanWrite(w: World, s: State, did: Did, ops: seq<Op>, outs: seq<TreeOut>, co: CommitOut)
    requires |ops| == |outs|
  {
    var h := Opened(w, s, did);
    && OpsJoinable(ops)
    && (h.Some? ==>
          var p := RunOps(RowsOf(s, did).records, Start(h.value.tree), ops, outs);
          if p.err.Some? then p.batch.results == []
          else if !co.ok then ops == []
          else DeletesLast(ops) && AvoidsMinted({}, ops, outs))
  }

  lemma RejectedFirst(index: Index, b: Batch, ops: seq<Op>, outs: seq<TreeOut>)
    requires |ops| == |outs| && RunOps(index, b, ops, outs).err.Some?
    requires |RunOps(index, b, ops, outs).batch.results| == |b.results|
    ensures RunOps(index, b, ops, outs).batch.tree == b.tree
  {
    var p := StepOp(index, b, ops[0], outs[0]);
    if p.err.None? {
      RunOpsExtends(index, p.batch, ops[1..], outs[1..]);
    }
  }

  /** A write that does not reach its commit row leaves every table but the block store alone. */
  lemma AbortKeepsInv(w: World, s: State, did: Did, tree: Tree, cids: set<Cid>, more: set<Cid>)
    requires WorldOk(w) && Inv(w, s) && tree == HeadTree(w, RowsOf(s, did))
    ensures var h := Fresh(w, RowsOf(s, did));
            Inv(w, Stored(w, Stored(w, Begun(s, did, h.(tree := tree)).(recorded := Some({})), cids), more))
  {
    var begun := Begun(s, did, Fresh(w, RowsOf(s, did)).(tree := tree)).(recorded := Some({}));
    BlocksOnlyGrow(w, begun, cids);
    BlocksOnlyGrow(w, Stored(w, begun, cids), more);
    var after := Stored(w, Stored(w, begun, cids), more);
    RowsOk(w, s, did);
    StoredKeeps(w, did, RowsOf(s, did), s.blocks.Keys, after.blocks.Keys);
    OneAccountChanged(w, s, after, did);
  }

  ghost predicate KeepsCommits(t: Tables, t': Tables) {
    forall r :: r in t.commits ==> r in t'.commits && t'.commits[r] == t.commits[r]
  }

  /** What a clean write does: everything it promises, or nothing at all. */
  ghost predicate WriteKeeps(w: World, s: State, did: Did, r: Reply<Written>) {
    && Inv(w, r.state)
    && (if r.result.Ok? then
          && r.state.rows == s.rows[did := RowsOf(r.state, did)]
          && |r.state.log| == |s.log| + 1 && s.log <= r.state.log
          && EventTrue(w, did, RowsOf(s, did), RowsOf(r.state, did), r.state.log[|s.log|])
          && KeepsCommits(RowsOf(s, did), RowsOf(r.state, did))
        else
          r.state.rows == s.rows && r.state.log == s.log)
  }

  /** A commit whose operations and Commit were recorded has drained all it newly reaches. */
  ghost predicate Ready(w: World, did: Did, t: Tables, b: Batch, co: CommitOut) {
    && co.ok && CommitOk(w, did, Handle(b.tree, HeadOf(t)), co)
    && b.tree.Values <= HeadTree(w, t).Values + b.puts
    && IndexIs(IndexAfter(t.records, b), b.tree)
    && Forward(HeadTree(w, t), b.emitted) == Some(b.tree)
    && Backward(b.tree, b.emitted) == Some(HeadTree(w, t))
  }

  lemma DrainedReaches(w: World, did: Did, t: Tables, stored: set<Cid>, b: Batch, co: CommitOut)
    requires WorldOk(w) && AccountOk(w, did, t, stored) && Ready(w, did, t, b, co)
    ensures w.reach(co.cid) <= Reached(w, HeadOf(t)) + (b.puts + ToSet(co.puts))
  {
    HeadValuesReached(w, t);
  }

  function RanState(w: World, s: State, did: Did, b: Batch): State {
    Stored(w, Begun(s, did, Fresh(w, RowsOf(s, did)).(tree := b.tree)).(recorded := Some({})), b.puts)
  }

  function FinishedRows(t: Tables, b: Batch, co: CommitOut): Tables {
    Committed(t, co, b.puts + ToSet(co.puts)).(records := IndexAfter(t.records, b))
  }

  lemma RanIs(w: World, s: State, did: Did, b: Batch)
    requires forall c :: c in s.blocks ==> s.blocks[c] == w.content(c)
    ensures var ran := RanState(w, s, did, b);
            && ran.rows == s.rows && ran.log == s.log && ran.recorded == Some(b.puts)
            && ran.handles == s.handles[did := Handle(b.tree, HeadOf(RowsOf(s, did)))]
            && ran.blocks.Keys == s.blocks.Keys + b.puts
            && (forall c :: c in ran.blocks ==> ran.blocks[c] == w.content(c))
  {
    var begun := Begun(s, did, Fresh(w, RowsOf(s, did)).(tree := b.tree)).(recorded := Some({}));
    BlocksOnlyGrow(w, begun, b.puts);
    assert {} + b.puts == b.puts;
  }

  lemma FinishedRowsFacts(w: World, did: Did, t: Tables, stored: set<Cid>, b: Batch, co: CommitOut)
    requires RowsSigned(w, did, t, stored)
    requires HeadOf(t).Some? ==> co.rev > HeadOf(t).value.rev
    ensures co.rev !in t.commits
    ensures HeadOf(FinishedRows(t, b, co)) == Some(NewHead(co))
    ensures RepoCids(FinishedRows(t, b, co), RevOf(HeadOf(t))) == b.puts + ToSet(co.puts)
  {
    var drained := b.puts + ToSet(co.puts);
    CommittedHead(t, co, drained);
    SinceIsDrained(w, did, t, stored, co, drained);
    IndexedSync(w, Committed(t, co, drained), IndexAfter(t.records, b));
    assert RepoCids(FinishedRows(t, b, co), RevOf(HeadOf(t))) == RepoCids(Committed(t, co, drained), RevOf(HeadOf(t)));
  }

  function FinishedEvent(w: World, did: Did, last: Option<Head>, b: Batch, co: CommitOut): Event {
    CommitEvent(did, co.cid, co.rev, RevOf(last), DataOf(last), b.emitted,
                Car([co.cid], map c | c in b.puts + ToSet(co.puts) :: w.content(c)))
  }

  /** The state a clean write ends in, spelled out. */
  function Finished(w: World, s: State, did: Did, b: Batch, co: CommitOut): Reply<Written>
    requires did in s.handles
  {
    var h := s.handles[did];
    Reply(State(s.rows[did := FinishedRows(RowsOf(s, did), b, co)],
                PutAll(w, s.blocks, ToSet(co.puts)),
                s.handles[did := Handle(h.tree, Some(NewHead(co)))],
                None,
                s.log + [FinishedEvent(w, did, h.last, b, co)]),
          Ok(Written(co.cid, co.rev, b.results)))
  }

  /** What Commit does when nothing stops it. */
  lemma CommitOutcome(w: World, s: State, did: Did, co: CommitOut, puts: set<Cid>)
    requires did in s.handles && s.recorded == Some(puts) && co.ok && co.rev !in RowsOf(s, did).commits
    ensures CommitRepo(w, s, did, co)
         == Reply(s.(rows := s.rows[did := Committed(RowsOf(s, did), co, puts + ToSet(co.puts))],
                     blocks := PutAll(w, s.blocks, ToSet(co.puts)),
                     handles := s.handles[did := Handle(s.handles[did].tree, Some(NewHead(co)))],
                     recorded := None),
                  Ok(CommitResult(co.cid, co.rev, RevOf(s.handles[did].last), DataOf(s.handles[did].last))))
  {
  }

  /** The CAR of the blocks since the previous head. */
  lemma CarOutcome(w: World, s: State, did: Did, since: Option<Rev>, co: CommitOut, drained: set<Cid>)
    requires HeadOf(RowsOf(s, did)) == Some(NewHead(co)) && RepoCids(RowsOf(s, did), since) == drained
    requires BlocksOk(w, s) && drained <= s.blocks.Keys
    ensures RepoCar(s, did, since) == Some(Car([co.cid], map c | c in drained :: w.content(c)))
  {
    assert (map c | c in drained :: s.blocks[c]) == (map c | c in drained :: w.content(c));
  }

  /** The commit row is written and its event published, from any state the operations left. */
  lemma FinishOutcome(w: World, s: State, did: Did, b: Batch, co: CommitOut)
    requires did in s.handles && s.recorded == Some(b.puts) && co.ok
    requires co.rev !in RowsOf(s, did).commits
    requires HeadOf(FinishedRows(RowsOf(s, did), b, co)) == Some(NewHead(co))
    requires RepoCids(FinishedRows(RowsOf(s, did), b, co), RevOf(s.handles[did].last)) == b.puts + ToSet(co.puts)
    requires b.puts <= s.blocks.Keys && BlocksOk(w, s)
    ensures Finish(w, s, did, b, co) == Finished(w, s, did, b, co)
  {
    var after := FinishedRows(RowsOf(s, did), b, co);
    CommitOutcome(w, s, did, co, b.puts);
    var c := CommitRepo(w, s, did, co);
    var indexed := c.state.(rows := c.state.rows[did := after]);
    assert indexed.rows == s.rows[did := after];
    PutAllIs(w, s.blocks, ToSet(co.puts));
    CarOutcome(w, indexed, did, RevOf(s.handles[did].last), co, b.puts + ToSet(co.puts));
  }

  lemma FinishedAccountOk(w: World, did: Did, t: Tables, stored: set<Cid>, stored': set<Cid>, b: Batch, co: CommitOut)
    requires WorldOk(w) && AccountOk(w, did, t, stored) && Ready(w, did, t, b, co)
    requires stored' == stored + (b.puts + ToSet(co.puts))
    ensures AccountOk(w, did, FinishedRows(t, b, co), stored')
    ensures Fresh(w, FinishedRows(t, b, co)) == Handle(b.tree, Some(NewHead(co)))
  {
    DrainedReaches(w, did, t, stored, b, co);
    CommitKeepsAccount(w, did, t, stored, stored', co, b.puts + ToSet(co.puts), b.tree, IndexAfter(t.records, b));
    FinishedHead(w, t, b, co);
  }

  /** An account whose rows and handle were replaced together. */
  lemma ReplacedKeepsInv(w: World, s: State, s': State, did: Did, t': Tables)
    requires Inv(w, s) && BlocksOk(w, s') && s.blocks.Keys <= s'.blocks.Keys
    requires s'.rows == s.rows[did := t'] && s'.handles == s.handles[did := Fresh(w, t')]
    requires AccountOk(w, did, t', s'.blocks.Keys)
    ensures Inv(w, s')
  {
    assert RowsOf(s', did) == t';
    OneAccountChanged(w, s, s', did);
  }

  lemma FinishKeepsInv(w: World, s: State, s': State, did: Did, b: Batch, co: CommitOut)
    requires WorldOk(w) && Inv(w, s) && Ready(w, did, RowsOf(s, did), b, co)
    requires s'.rows == s.rows[did := FinishedRows(RowsOf(s, did), b, co)]
    requires s'.handles == s.handles[did := Handle(b.tree, Some(NewHead(co)))]
    requires s'.blocks.Keys == s.blocks.Keys + (b.puts + ToSet(co.puts))
    requires BlocksOk(w, s')
    ensures Inv(w, s')
  {
    var t' := FinishedRows(RowsOf(s, did), b, co);
    assert AccountOk(w, did, t', s'.blocks.Keys) && Fresh(w, t') == Handle(b.tree, Some(NewHead(co))) by {
      RowsOk(w, s, did);
      FinishedAccountOk(w, did, RowsOf(s, did), s.blocks.Keys, s'.blocks.Keys, b, co);
    }
    ReplacedKeepsInv(w, s, s', did, t');
  }

  lemma FinishedParts(w: World, s: State, ran: State, did: Did, b: Batch, co: CommitOut)
    requires ran.rows == s.rows
    requires ran.handles == s.handles[did := Handle(b.tree, HeadOf(RowsOf(s, did)))]
    requires ran.blocks.Keys == s.blocks.Keys + b.puts
    requires forall c :: c in ran.blocks ==> ran.blocks[c] == w.content(c)
    ensures var s' := Finished(w, ran, did, b, co).state;
            && s'.rows == s.rows[did := FinishedRows(RowsOf(s, did), b, co)]
            && s'.handles == s.handles[did := Handle(b.tree, Some(NewHead(co)))]
            && s'.blocks.Keys == s.blocks.Keys + (b.puts + ToSet(co.puts))
            && forall c :: c in s'.blocks ==> s'.blocks[c] == w.content(c)
  {
    PutAllIs(w, ran.blocks, ToSet(co.puts));
  }

  lemma FinishedInv(w: World, s: State, ran: State, did: Did, b: Batch, co: CommitOut)
    requires WorldOk(w) && Inv(w, s) && Ready(w, did, RowsOf(s, did), b, co)
    requires ran.rows == s.rows
    requires ran.handles == s.handles[did := Handle(b.tree, HeadOf(RowsOf(s, did)))]
    requires ran.blocks.Keys == s.blocks.Keys + b.puts
    requires forall c :: c in ran.blocks ==> ran.blocks[c] == w.content(c)
    ensures Inv(w, Finished(w, ran, did, b, co).state)
  {
    FinishedParts(w, s, ran, did, b, co);
    FinishKeepsInv(w, s, Finished(w, ran, did, b, co).state, did, b, co);
  }

  lemma FinishedEventTrue(w: World, did: Did, t: Tables, stored: set<Cid>, b: Batch, co: CommitOut)
    requires WorldOk(w) && AccountOk(w, did, t, stored) && Ready(w, did, t, b, co)
    ensures EventTrue(w, did, t, FinishedRows(t, b, co), FinishedEvent(w, did, HeadOf(t), b, co))
    ensures KeepsCommits(t, FinishedRows(t, b, co))
  {
    FinishedHead(w, t, b, co);
    DrainedReaches(w, did, t, stored, b, co);
    FinishedRowsFacts(w, did, t, stored, b, co);
  }

  lemma FinishKeeps(w: World, s: State, did: Did, b: Batch, co: CommitOut)
    requires WorldOk(w) && Inv(w, s) && Ready(w, did, RowsOf(s, did), b, co)
    ensures var r := Finish(w, RanState(w, s, did, b), did, b, co);
            && WriteKeeps(w, s, did, r) && r.result == Ok(Written(co.cid, co.rev, b.results))
            && r.state.log == s.log + [FinishedEvent(w, did, HeadOf(RowsOf(s, did)), b, co)]
  {
    var ran := RanState(w, s, did, b);
    RanIs(w, s, did, b);
    FinishedInv(w, s, ran, did, b, co);
    assert EventTrue(w, did, RowsOf(s, did), FinishedRows(RowsOf(s, did), b, co),
                     FinishedEvent(w, did, HeadOf(RowsOf(s, did)), b, co))
        && KeepsCommits(RowsOf(s, did), FinishedRows(RowsOf(s, did), b, co)) by {
      RowsOk(w, s, did);
      FinishedEventTrue(w, did, RowsOf(s, did), s.blocks.Keys, b, co);
    }
    assert Finish(w, ran, did, b, co) == Finished(w, ran, did, b, co) by {
      RowsOk(w, s, did);
      FinishedRowsFacts(w, did, RowsOf(s, did), s.blocks.Keys, b, co);
      FinishOutcome(w, ran, did, b, co);
    }
  }

  lemma FinishedHead(w: World, t: Tables, b: Batch, co: CommitOut)
    requires HeadOf(t).Some? ==> co.rev > HeadOf(t).value.rev
    requires w.tree(co.data) == b.tree
    ensures Fresh(w, FinishedRows(t, b, co)) == Handle(b.tree, Some(NewHead(co)))
    ensures KeepsCommits(t, FinishedRows(t, b, co))
  {
    var drained := b.puts + ToSet(co.puts);
    CommittedHead(t, co, drained);
    IndexedSync(w, Committed(t, co, drained), IndexAfter(t.records, b));
  }

  lemma HeadValuesReached(w: World, t: Tables)
    requires WorldOk(w)
    requires forall r :: r in t.commits ==>
               w.signed(t.commits[r].cid).Some? && w.signed(t.commits[r].cid).value.data == t.commits[r].data
    ensures HeadTree(w, t).Values <= Reached(w, HeadOf(t))
  {
    HeadIsMax(t);
  }

  /** An accepted clean batch is ready to be committed. */
  lemma AcceptedIsReady(w: World, did: Did, t: Tables, stored: set<Cid>, ops: seq<Op>, outs: seq<TreeOut>,
                        co: CommitOut)
    requires AccountOk(w, did, t, stored)
    requires |ops| == |outs| && OpsJoinable(ops)
    requires LibraryOk(t.records, Start(HeadTree(w, t)), ops, outs)
    requires var p := RunOps(t.records, Start(HeadTree(w, t)), ops, outs);
             p.err.None? && co.ok && CommitOk(w, did, Handle(p.batch.tree, HeadOf(t)), co)
    requires DeletesLast(ops) && AvoidsMinted({}, ops, outs)
    ensures Ready(w, did, t, RunOps(t.records, Start(HeadTree(w, t)), ops, outs).batch, co)
  {
    var tree := HeadTree(w, t);
    RunValues(t.records, Start(tree), ops, outs);
    DeferredIndexAgrees(t.records, tree, ops, outs);
    AcceptedBatchInverts(t.records, tree, ops, outs);
  }

  /**
    One clean write. It keeps the invariant; it either commits, moving only its own account and
    announcing exactly what changed, or leaves every table but the block store, and the log, alone.
   */
  lemma CleanWriteKeeps(w: World, s: State, did: Did, ops: seq<Op>, outs: seq<TreeOut>,
                        swapCommit: Option<Option<Cid>>, co: CommitOut)
    requires WorldOk(w) && Inv(w, s) && |ops| == |outs|
    requires WriteContract(w, s, did, ops, outs, co) && CleanWrite(w, s, did, ops, outs, co)
    ensures WriteKeeps(w, s, did, ApplyWrites(w, s, did, ops, outs, swapCommit, co))
  {
    var t := RowsOf(s, did);
    var h := Fresh(w, t);
    OpensAtHead(w, s, did);
    if !SwapMatches(s, did, swapCommit) {
      BegunKeepsInv(w, s, did);
    } else {
      var p := RunOps(t.records, Start(h.tree), ops, outs);
      if p.err.Some? {
        RejectedFirst(t.records, Start(h.tree), ops, outs);
        AbortKeepsInv(w, s, did, p.batch.tree, p.batch.puts, {});
        StoredNothing(w, RanState(w, s, did, p.batch));
      } else if !co.ok {
        AbortKeepsInv(w, s, did, p.batch.tree, p.batch.puts, ToSet(co.puts));
      } else {
        RowsOk(w, s, did);
        AcceptedIsReady(w, did, t, s.blocks.Keys, ops, outs, co);
        FinishKeeps(w, s, did, p.batch, co);
      }
    }
  }

  /** A write that succeeds has run its batch and finished it. */
  lemma SucceededWrite(w: World, s: State, did: Did, ops: seq<Op>, outs: seq<TreeOut>,
                       swapCommit: Option<Option<Cid>>, co: CommitOut)
    requires |ops| == |outs| && Opened(w, s, did) == Some(Fresh(w, RowsOf(s, did)))
    requires ApplyWrites(w, s, did, ops, outs, swapCommit, co).result.Ok?
    ensures var p := RunOps(RowsOf(s, did).records, Start(HeadTree(w, RowsOf(s, did))), ops, outs);
            && p.err.None? && co.ok
            && ApplyWrites(w, s, did, ops, outs, swapCommit, co)
                 == Finish(w, RanState(w, s, did, p.batch), did, p.batch, co)
  {
  }

  /** The CAR of a clean write's event holds exactly the blocks its recording window drained. */
  lemma EventCarIsDrained(w: World, s: State, did: Did, ops: seq<Op>, outs: seq<TreeOut>,
                          swapCommit: Option<Option<Cid>>, co: CommitOut)
    requires WorldOk(w) && Inv(w, s) && |ops| == |outs|
    requires WriteContract(w, s, did, ops, outs, co) && CleanWrite(w, s, did, ops, outs, co)
    requires ApplyWrites(w, s, did, ops, outs, swapCommit, co).result.Ok?
    ensures var t := RowsOf(s, did);
            var log := ApplyWrites(w, s, did, ops, outs, swapCommit, co).state.log;
            && |log| == |s.log| + 1 && log[|s.log|].CommitEvent?
            && log[|s.log|].car.blocks.Keys
               == RunOps(t.records, Start(HeadTree(w, t)), ops, outs).batch.puts + ToSet(co.puts)
  {
    var t := RowsOf(s, did);
    OpensAtHead(w, s, did);
    SucceededWrite(w, s, did, ops, outs, swapCommit, co);
    var b := RunOps(t.records, Start(HeadTree(w, t)), ops, outs).batch;
    assert Ready(w, did, t, b, co) by {
      RowsOk(w, s, did);
      AcceptedIsReady(w, did, t, s.blocks.Keys, ops, outs, co);
    }
    FinishKeeps(w, s, did, b, co);
  }

  lemma BegunKeepsInv(w: World, s: State, did: Did)
    requires Inv(w, s)
    ensures Inv(w, Begun(s, did, Fresh(w, RowsOf(s, did))))
  {
    RowsOk(w, s, did);
    OneAccountChanged(w, s, Begun(s, did, Fresh(w, RowsOf(s, did))), did);
  }

  // ----- account creation, import, deletion, restart --------------------------------------

  lemma FinishNothing(w: World, s: State, did: Did, tree: Tree, co: CommitOut)
    requires did in s.handles
    ensures var c := CommitRepo(w, s, did, co);
            var f := Finish(w, s, did, Start(tree), co);
            if c.result.Err? then f == Reply(c.state, Err(c.result.fault))
            else
              var e := EmitCommit(c.state, did, c.result.value, []);
              && f.state == e.state && (f.result.Ok? <==> e.result.Ok?)
              && (e.result.Err? ==> f.result == Err(e.result.fault))
  {
    var c := CommitRepo(w, s, did, co);
    if c.result.Ok? {
      var t := RowsOf(c.state, did);
      assert IndexAfter(t.records, Start(tree)) == t.records;
      assert t.(records := t.records) == t;
      assert c.state.rows[did := t] == c.state.rows;
    }
  }

  /** Creating an account is an empty write followed by the #identity event. */
  lemma CreateIsEmptyWrite(w: World, s: State, did: Did, co: CommitOut, known: bool)
    ensures var r := ApplyWrites(w, s, did, [], [], None, co);
            CreateAccount(w, s, did, co, known) ==
            if r.result.Err? then Reply(r.state, Err(r.result.fault))
            else if !known then Reply(r.state, Err(NoAccount))
            else Reply(r.state.(log := r.state.log + [IdentityEvent(did)]), Ok(()))
  {
    var h := Opened(w, s, did);
    if h.Some? {
      var begun := Begun(s, did, h.value).(recorded := Some({}));
      assert h.value.(tree := h.value.tree) == h.value;
      StoredNothing(w, begun);
      assert AfterOps(w, s, did, h.value, Progress(Start(h.value.tree), None)) == begun;
      FinishNothing(w, begun, did, h.value.tree, co);
    }
  }

  /** The blocks a CAR holds are what their CIDs say: the reader checks them. */
  ghost predicate CarOk(w: World, car: Car) {
    forall c :: c in car.blocks ==> car.blocks[c] == w.content(c)
  }

  /** A CAR that carries its whole repo, whose paths all split into two non-empty halves. */
  ghost predicate CompleteCar(w: World, car: Car) {
    |car.roots| == 1 && w.signed(car.roots[0]).Some? ==>
      && w.reach(car.roots[0]) <= car.blocks.Keys
      && forall p :: p in w.tree(w.signed(car.roots[0]).value.data) ==> '/' in p && Importable(Cut(p))
  }

  lemma ImportedIndexIs(tree: Tree)
    ensures IndexIs(ImportedIndex(tree), tree) <==> forall p :: p in tree ==> '/' in p && Importable(Cut(p))
  {
    var index := ImportedIndex(tree);
    forall p | p in tree && '/' in p
      ensures Path(Cut(p)) == p && Joinable(Cut(p))
    {
      PathUndoesCut(p);
    }
    forall k | Joinable(k)
      ensures Cut(Path(k)) == k
    {
      CutUndoesPath(k);
    }
    if IndexIs(index, tree) {
      forall p | p in tree
        ensures Importable(Cut(p))
      {
        assert Get(index, Cut(p)) == Get(tree, Path(Cut(p)));
      }
    } else if forall p :: p in tree ==> '/' in p && Importable(Cut(p)) {
      forall k
        ensures k in index ==> Joinable(k)
        ensures Joinable(k) ==> Get(index, k) == Get(tree, Path(k))
      {
        if Joinable(k) && Path(k) in tree {
          assert Importable(k);
        }
      }
    }
  }

  /** The rows an import writes are in order exactly when the CAR is complete. */
  lemma ImportedRowsOk(w: World, did: Did, car: Car, stored: set<Cid>)
    requires |car.roots| == 1 && w.signed(car.roots[0]).Some? && w.signed(car.roots[0]).value.did == did
    requires car.blocks.Keys <= stored
    ensures var sc := w.signed(car.roots[0]).value;
            var t := ImportedRows(w, car.roots[0], sc, car);
            && HeadOf(t) == Some(Head(car.roots[0], sc.rev, sc.data))
            && (AccountOk(w, did, t, stored) <==> CompleteCar(w, car))
  {
    var sc := w.signed(car.roots[0]).value;
    var t := ImportedRows(w, car.roots[0], sc, car);
    assert sc.rev in t.commits;
    HeadIsMax(t);
    ImportedIndexIs(w.tree(sc.data));
    assert RepoCids(t, None) == car.blocks.Keys;
    assert HeadTree(w, t) == w.tree(sc.data);
    assert SyncOk(w, t) <==> w.reach(car.roots[0]) <= car.blocks.Keys;
  }

  /** A failed import has at most added blocks. */
  lemma BlocksAddedKeepInv(w: World, s: State, did: Did, blocks: map<Cid, Data>)
    requires Inv(w, s) && forall c :: c in blocks ==> blocks[c] == w.content(c)
    ensures Inv(w, s.(blocks := blocks + s.blocks))
  {
    var s' := s.(blocks := blocks + s.blocks);
    RowsOk(w, s, did);
    StoredKeeps(w, did, RowsOf(s, did), s.blocks.Keys, s'.blocks.Keys);
    OneAccountChanged(w, s, s', did);
  }

  /** The rows of an account replaced, and its handle dropped. */
  function Replaced(s: State, did: Did, t: Tables): State {
    s.(rows := s.rows[did := t], handles := s.handles - {did})
  }

  lemma RowsReplacedKeepsInv(w: World, s: State, did: Did, t: Tables)
    requires Inv(w, s) && AccountOk(w, did, t, s.blocks.Keys)
    ensures Inv(w, Replaced(s, did, t))
  {
    OneAccountChanged(w, s, Replaced(s, did, t), did);
  }

  /** How an import can end: with nothing changed, with blocks added, or with the account's rows replaced. */
  lemma ImportOutcome(w: World, s: State, did: Did, car: Car, broken: bool)
    ensures var r := ImportRepo(w, s, did, car, broken);
            var stored := s.(blocks := car.blocks + s.blocks);
            if r.result.Err? then r.state == s || r.state == stored
            else
              && |car.roots| == 1 && w.signed(car.roots[0]).Some? && w.signed(car.roots[0]).value.did == did
              && r.state == Replaced(stored, did, ImportedRows(w, car.roots[0], w.signed(car.roots[0]).value, car))
  {
  }

  /** A complete import keeps the invariant, in whatever state it fails or succeeds. */
  lemma ImportKeepsInv(w: World, s: State, did: Did, car: Car, broken: bool)
    requires Inv(w, s) && CarOk(w, car) && CompleteCar(w, car)
    ensures var r := ImportRepo(w, s, did, car, broken);
            && Inv(w, r.state) && r.state.log == s.log
            && (if r.result.Ok? then forall d :: d != did ==> RowsOf(r.state, d) == RowsOf(s, d)
                else r.state.rows == s.rows)
  {
    BlocksAddedKeepInv(w, s, did, car.blocks);
    ImportOutcome(w, s, did, car, broken);
    if ImportRepo(w, s, did, car, broken).result.Ok? {
      var stored := s.(blocks := car.blocks + s.blocks);
      ImportedRowsOk(w, did, car, stored.blocks.Keys);
      RowsReplacedKeepsInv(w, stored, did, ImportedRows(w, car.roots[0], w.signed(car.roots[0]).value, car));
    }
  }

  /**
    Deletion succeeds exactly when the blobs could be removed; then the rows are gone. The handle is
    gone either way, no other account notices, and no block goes.
   */
  lemma DeleteDoes(s: State, did: Did, blobsOk: bool)
    ensures var r := DeleteAccount(s, did, blobsOk);
            && r.state.log == s.log && r.state.blocks == s.blocks
            && (r.result.Ok? <==> blobsOk)
            && (if blobsOk then did !in r.state.rows && RowsOf(r.state, did) == NO_ROWS else r.state.rows == s.rows)
            && did !in r.state.handles
            && (forall d :: d != did ==> Get(r.state.rows, d) == Get(s.rows, d))
            && (forall d :: d != did ==> Get(r.state.handles, d) == Get(s.handles, d))
  {
  }

  lemma DeleteKeepsInv(w: World, s: State, did: Did, blobsOk: bool)
    requires Inv(w, s)
    ensures var r := DeleteAccount(s, did, blobsOk);
            && Inv(w, r.state) && r.state.log == s.log
            && (r.result.Ok? <==> blobsOk) && (r.result.Ok? ==> RowsOf(r.state, did) == NO_ROWS)
  {
    RowsOk(w, s, did);
    NoRowsOk(w, did, s.blocks.Keys);
    OneAccountChanged(w, s, DeleteAccount(s, did, blobsOk).state, did);
  }
}
