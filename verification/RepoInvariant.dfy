/**
  The invariant of clean runs. Tree, record index, block revs and cached handle of every account
  agree with the head commit, and every rev that was head can be synced forward from.
 */
module RepoInvariant {
  import opened Basics
  import opened WriteBatch
  import opened RepoState

  /** A commit reaches its own block, the blocks of its tree and the blocks of its records. */
  ghost predicate WorldOk(w: World) {
    forall c :: w.signed(c).Some? ==>
      && c in w.reach(c)
      && w.nodes(w.signed(c).value.data) <= w.reach(c)
      && w.tree(w.signed(c).value.data).Values <= w.reach(c)
  }

  function HeadTree(w: World, t: Tables): Tree {
    var head := HeadOf(t);
    if head.None? then map[] else w.tree(head.value.data)
  }

  /** The blocks of the head, none before the first commit. */
  function Reached(w: World, head: Option<Head>): set<Cid> {
    if head.None? then {} else w.reach(head.value.cid)
  }

  /** Incremental sync: a reader at any kept rev, given the blocks since, has the head. */
  ghost predicate SyncOk(w: World, t: Tables) {
    && Reached(w, HeadOf(t)) <= RepoCids(t, None)
    && forall r :: r in t.commits ==>
         Reached(w, HeadOf(t)) <= w.reach(t.commits[r].cid) + RepoCids(t, Some(r))
  }

  /** Every commit row says what its block says; every block rev is a kept rev of a stored block. */
  ghost predicate RowsSigned(w: World, did: Did, t: Tables, stored: set<Cid>) {
    && (forall r :: r in t.commits ==> w.signed(t.commits[r].cid) == Some(Signed(did, r, t.commits[r].data)))
    && (forall c :: c in t.revs ==> t.revs[c] in t.commits && c in stored)
  }

  ghost predicate AccountOk(w: World, did: Did, t: Tables, stored: set<Cid>) {
    && RowsSigned(w, did, t, stored)
    && IndexIs(t.records, HeadTree(w, t))
    && SyncOk(w, t)
  }

  /** What `open` would build with an empty cache. */
  function Fresh(w: World, t: Tables): Handle {
    Handle(HeadTree(w, t), HeadOf(t))
  }

  ghost predicate BlocksOk(w: World, s: State) {
    forall c :: c in s.blocks ==> s.blocks[c] == w.content(c)
  }

  ghost predicate Inv(w: World, s: State) {
    && BlocksOk(w, s)
    && (forall did :: did in s.rows ==> AccountOk(w, did, s.rows[did], s.blocks.Keys))
    && (forall did :: did in s.handles ==> s.handles[did] == Fresh(w, RowsOf(s, did)))
  }

  // ----- what is assumed of Commit --------------------------------------------------------

  /**
    Commit signs the handle's tree under a later rev, and Puts every block of the new commit
    that the old one does not reach, except record blocks, which the tree operations Put.
   */
  ghost predicate CommitOk(w: World, did: Did, h: Handle, co: CommitOut) {
    co.ok ==>
      && w.signed(co.cid) == Some(Signed(did, co.rev, co.data))
      && w.tree(co.data) == h.tree
      && (h.last.Some? ==> co.rev > h.last.value.rev)
      && w.reach(co.cid) <= Reached(w, h.last) + h.tree.Values + ToSet(co.puts)
  }

  // ----- small facts ----------------------------------------------------------------------

  lemma NoRowsOk(w: World, did: Did, stored: set<Cid>)
    ensures AccountOk(w, did, NO_ROWS, stored)
  {
  }

  lemma RowsOk(w: World, s: State, did: Did)
    requires Inv(w, s)
    ensures AccountOk(w, did, RowsOf(s, did), s.blocks.Keys)
  {
    NoRowsOk(w, did, s.blocks.Keys);
  }

  lemma HeadIsMax(t: Tables)
    ensures HeadOf(t).None? <==> t.commits == map[]
    ensures HeadOf(t).Some? ==>
              var h := HeadOf(t).value;
              && h.rev in t.commits && t.commits[h.rev] == Commit(h.cid, h.data)
              && forall r :: r in t.commits ==> r <= h.rev
  {
  }

  /** The head row says what its commit block says. */
  lemma HeadIsSigned(w: World, s: State, did: Did)
    requires Inv(w, s)
    ensures var t := RowsOf(s, did);
            HeadOf(t).Some? ==>
              w.signed(HeadOf(t).value.cid) == Some(Signed(did, HeadOf(t).value.rev, HeadOf(t).value.data))
  {
    RowsOk(w, s, did);
    HeadIsMax(RowsOf(s, did));
  }

  /** With the invariant, opening always succeeds, cached or not, and finds the head. */
  lemma OpensAtHead(w: World, s: State, did: Did)
    requires WorldOk(w) && Inv(w, s)
    ensures Opened(w, s, did) == Some(Fresh(w, RowsOf(s, did)))
  {
    RowsOk(w, s, did);
    var t := RowsOf(s, did);
    HeadIsMax(t);
    if HeadOf(t).Some? {
      var head := HeadOf(t).value;
      assert w.signed(head.cid) == Some(Signed(did, head.rev, head.data));
      assert head.cid in w.reach(head.cid);
      assert head.cid in RepoCids(t, None);
    }
  }

  lemma {:induction false} RunValues(index: Index, b: Batch, ops: seq<Op>, outs: seq<TreeOut>)
    requires |ops| == |outs| && LibraryOk(index, b, ops, outs)
    ensures var after := RunOps(index, b, ops, outs).batch;
            b.puts <= after.puts && after.tree.Values <= b.tree.Values + after.puts
    decreases |ops|
  {
    if ops != [] {
      var p := StepOp(index, b, ops[0], outs[0]);
      if p.err.None? {
        assert p.batch.tree.Values <= b.tree.Values + p.batch.puts;
        RunValues(index, p.batch, ops[1..], outs[1..]);
      }
    }
  }
}
