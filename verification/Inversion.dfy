/**
  Operation inversion (AT Protocol Sync specification, "Commit Validation: MST Operation
  Inversion"): what a consumer does with the operations of a #commit event.
 */
module Inversion {
  import opened Basics
  import opened RecordPath
  import opened WriteBatch
  import opened OneAtATime
  import opened BatchLaws

  /** Apply an announced operation, insisting that it describes the tree it is applied to. */
  function Redo(tree: Tree, o: RepoOp): Option<Tree> {
    match o.action
    case Create => if o.path in tree || o.cid.None? || o.prev.Some? then None else Some(tree[o.path := o.cid.value])
    case Update =>
      if o.prev.None? || o.cid.None? || Get(tree, o.path) != o.prev then None
      else Some(tree[o.path := o.cid.value])
    case Delete => if o.prev.None? || Get(tree, o.path) != o.prev then None else Some(tree - {o.path})
    case Other(_) => None
  }

  /** Take an announced operation back, insisting that the tree shows its effect. */
  function Undo(tree: Tree, o: RepoOp): Option<Tree> {
    match o.action
    case Create => if o.cid.None? || Get(tree, o.path) != o.cid then None else Some(tree - {o.path})
    case Update =>
      if o.prev.None? || o.cid.None? || Get(tree, o.path) != o.cid then None
      else Some(tree[o.path := o.prev.value])
    case Delete => if o.prev.None? || o.path in tree then None else Some(tree[o.path := o.prev.value])
    case Other(_) => None
  }

  function Forward(tree: Tree, os: seq<RepoOp>): Option<Tree>
    decreases |os|
  {
    if os == [] then Some(tree)
    else
      var next := Redo(tree, os[0]);
      if next.None? then None else Forward(next.value, os[1..])
  }

  /** The operations taken back last to first. */
  function Backward(tree: Tree, os: seq<RepoOp>): Option<Tree>
    decreases |os|
  {
    if os == [] then Some(tree)
    else
      var later := Backward(tree, os[1..]);
      if later.None? then None else Undo(later.value, os[0])
  }

  /** A truthful announcement goes forward and back. */
  lemma AnnounceInverts(tree: Tree, op: Op, out: TreeOut)
    requires Refusal(tree, op, out).None?
    requires op.Mints() ==> Path(Touched(op, out)) !in tree
    ensures Redo(tree, Announce(tree, op, out)) == Some(After(tree, op, out))
    ensures Undo(After(tree, op, out), Announce(tree, op, out)) == Some(tree)
  {
    var path := Path(Touched(op, out));
    if path !in tree {
      assert tree[path := op.rec] - {path} == tree;
    } else {
      assert tree[path := op.rec][path := tree[path]] == tree;
      assert (tree - {path})[path := tree[path]] == tree;
    }
  }

  /** What going back reveals when some operation named a minted path. */
  ghost predicate Lacks(t: Option<Tree>, minted: set<string>) {
    t.None? || exists p :: p in minted && p !in t.value
  }

  /** What came after the first announcement of a stretch. */
  lemma NewsTail(before: seq<RepoOp>, one: seq<RepoOp>, all: seq<RepoOp>)
    requires before <= one <= all && |one| == |before| + 1
    ensures all[|before|..][0] == one[|before|] && all[|before|..][1..] == all[|one|..]
  {
  }

  lemma {:induction false} InversionFrom(index: Index, b: Batch, ops: seq<Op>, outs: seq<TreeOut>, minted: set<string>)
    requires |ops| == |outs| && OpsJoinable(ops)
    requires SeesTree(index, b, minted) && LibraryOk(index, b, ops, outs)
    requires RunOps(index, b, ops, outs).err.None?
    ensures var final := RunOps(index, b, ops, outs).batch;
            && b.emitted <= final.emitted
            && var news := final.emitted[|b.emitted|..];
            if AvoidsMinted(minted, ops, outs) then
              Forward(b.tree, news) == Some(final.tree) && Backward(final.tree, news) == Some(b.tree)
            else
              Forward(b.tree, news) == None && Lacks(Backward(final.tree, news), minted)
    decreases |ops|
  {
    if ops == [] {
      assert b.emitted[|b.emitted|..] == [];
    } else {
      var op, out := ops[0], outs[0];
      assert Joinable(op.Named());
      var p := StepOp(index, b, op, out);
      var final := RunOps(index, b, ops, outs).batch;
      RunOpsExtends(index, p.batch, ops[1..], outs[1..]);
      var news := final.emitted[|b.emitted|..];
      NewsTail(b.emitted, p.batch.emitted, final.emitted);
      if op.Names() && Path(op.Named()) in minted {
        UntruthfulName(index, b, op, out, minted, Backward(final.tree, news[1..]));
      } else {
        StepSeesTree(index, b, op, out, minted);
        AnnounceInverts(b.tree, op, out);
        InversionFrom(index, p.batch, ops[1..], outs[1..], Minted(minted, op, out));
        if !AvoidsMinted(minted, ops, outs) {
          StillLacks(b, op, out, minted, Backward(final.tree, news[1..]));
        }
      }
    }
  }

  /** Naming a minted path announces a create where the record already existed. */
  lemma UntruthfulName(index: Index, b: Batch, op: Op, out: TreeOut, minted: set<string>, later: Option<Tree>)
    requires SeesTree(index, b, minted) && Joinable(op.Named())
    requires op.Names() && Path(op.Named()) in minted
    requires StepOp(index, b, op, out).err.None?
    ensures var o := StepOp(index, b, op, out).batch.emitted[|b.emitted|];
            Redo(b.tree, o) == None && (later.Some? ==> Lacks(Undo(later.value, o), minted))
  {
    var o := StepOp(index, b, op, out).batch.emitted[|b.emitted|];
    assert o.action.Create? && o.path in minted;
  }

  lemma StillLacks(b: Batch, op: Op, out: TreeOut, minted: set<string>, later: Option<Tree>)
    requires Lacks(later, Minted(minted, op, out))
    requires op.Names() ==> Path(op.Named()) !in minted
    requires MintIsFresh(b, op, out) && Refusal(b.tree, op, out).None?
    requires minted <= b.tree.Keys
    ensures later.Some? ==> Lacks(Undo(later.value, Announce(b.tree, op, out)), minted)
  {
    if later.Some? {
      var p :| p in Minted(minted, op, out) && p !in later.value;
      var undone := Undo(later.value, Announce(b.tree, op, out));
      if undone.Some? {
        assert p in minted && p !in undone.value;
      }
    }
  }

  /**
    Operation inversion. For an accepted batch, replaying the announced operations on the old
    tree gives the new one, and undoing them from the new tree gives the old one back, exactly when
    no operation named a path minted earlier in the batch; otherwise neither can be done at all.
   */
  lemma {:induction false} AcceptedBatchInverts(index: Index, tree: Tree, ops: seq<Op>, outs: seq<TreeOut>)
    requires |ops| == |outs| && OpsJoinable(ops)
    requires IndexIs(index, tree) && LibraryOk(index, Start(tree), ops, outs)
    requires RunOps(index, Start(tree), ops, outs).err.None?
    ensures var final := RunOps(index, Start(tree), ops, outs).batch;
            if AvoidsMinted({}, ops, outs) then
              Forward(tree, final.emitted) == Some(final.tree) && Backward(final.tree, final.emitted) == Some(tree)
            else
              Forward(tree, final.emitted) == None && Backward(final.tree, final.emitted) == None
  {
    StartSeesTree(index, tree);
    InversionFrom(index, Start(tree), ops, outs, {});
    var final := RunOps(index, Start(tree), ops, outs).batch;
    assert final.emitted[0..] == final.emitted;
  }

  /** A create without a key, answered with the key k, and then an update of k. */
  predicate MintThenName(ops: seq<Op>, outs: seq<TreeOut>, k: Key, rec: Cid, rec': Cid) {
    && ops == [Op(Create, k.collection, "", rec, None), Op(Update, k.collection, k.rkey, rec', None)]
    && outs == [TreeOut(true, k.rkey, [rec]), TreeOut(true, "", [rec'])]
  }

  lemma MintTurn(index: Index, tree: Tree, ops: seq<Op>, outs: seq<TreeOut>, k: Key, rec: Cid, rec': Cid)
    requires MintThenName(ops, outs, k, rec, rec') && Path(k) !in tree
    ensures Touched(ops[0], outs[0]) == k && MintIsFresh(Start(tree), ops[0], outs[0]) && PutsRecord(ops[0], outs[0])
    ensures var p := StepOp(index, Start(tree), ops[0], outs[0]);
            && p.err.None? && p.batch.cur == map[] && p.batch.tree == tree[Path(k) := rec]
            && p.batch.emitted == [RepoOp(Create, Path(k), Some(rec), None)]
  {
  }

  lemma NameTurn(index: Index, b: Batch, ops: seq<Op>, outs: seq<TreeOut>, k: Key, rec: Cid, rec': Cid)
    requires MintThenName(ops, outs, k, rec, rec') && k.rkey != "" && b.cur == map[] && Get(index, k) == None
    ensures MintIsFresh(b, ops[1], outs[1]) && PutsRecord(ops[1], outs[1])
    ensures var p := StepOp(index, b, ops[1], outs[1]);
            && p.err.None? && p.batch.tree == b.tree[Path(k) := rec']
            && p.batch.emitted == b.emitted + [RepoOp(Create, Path(k), Some(rec'), None)]
  {
    assert ops[1].Named() == k;
  }

  lemma TwoTurns(index: Index, tree: Tree, ops: seq<Op>, outs: seq<TreeOut>, k: Key, rec: Cid, rec': Cid)
    requires MintThenName(ops, outs, k, rec, rec') && k.rkey != "" && Path(k) !in tree && Get(index, k) == None
    ensures LibraryOk(index, Start(tree), ops, outs)
    ensures var p := RunOps(index, Start(tree), ops, outs);
            && p.err.None? && p.batch.tree == tree[Path(k) := rec']
            && p.batch.emitted == [RepoOp(Create, Path(k), Some(rec), None), RepoOp(Create, Path(k), Some(rec'), None)]
  {
    var one := StepOp(index, Start(tree), ops[0], outs[0]);
    MintTurn(index, tree, ops, outs, k, rec, rec');
    NameTurn(index, one.batch, ops, outs, k, rec, rec');
    var two := StepOp(index, one.batch, ops[1], outs[1]);
    assert ops[1..] == [ops[1]] && outs[1..] == [outs[1]];
    assert RunOps(index, one.batch, ops[1..], outs[1..]) == two;
    assert LibraryOk(index, two.batch, [], []) && LibraryOk(index, one.batch, ops[1..], outs[1..]);
  }

  /**
    A batch that names what it minted. The library does nothing unusual, and the batch is accepted;
    but the second lookup does not see the first record, so a create is announced twice, which no
    consumer can apply.
   */
  lemma MintedNameIsAccepted(index: Index, tree: Tree, ops: seq<Op>, outs: seq<TreeOut>, k: Key, rec: Cid, rec': Cid)
    requires MintThenName(ops, outs, k, rec, rec') && IndexIs(index, tree)
    requires Joinable(k) && k.rkey != "" && Path(k) !in tree
    ensures LibraryOk(index, Start(tree), ops, outs) && OpsJoinable(ops) && !AvoidsMinted({}, ops, outs)
    ensures var p := RunOps(index, Start(tree), ops, outs);
            && p.err.None? && p.batch.tree == tree[Path(k) := rec']
            && p.batch.emitted == [RepoOp(Create, Path(k), Some(rec), None), RepoOp(Create, Path(k), Some(rec'), None)]
            && !SameOutcome(p, RunEach(Single(tree, [], []), ops, outs))
            && Forward(tree, p.batch.emitted) == None && Backward(p.batch.tree, p.batch.emitted) == None
  {
    assert Get(index, k) == Get(tree, Path(k)) == None;
    TwoTurns(index, tree, ops, outs, k, rec, rec');
    MintTurn(index, tree, ops, outs, k, rec, rec');
    NamesMinted(tree, ops, outs, k, rec, rec');
    OverlayRefinesOneAtATime(index, tree, ops, outs);
    AcceptedBatchInverts(index, tree, ops, outs);
  }

  lemma NamesMinted(tree: Tree, ops: seq<Op>, outs: seq<TreeOut>, k: Key, rec: Cid, rec': Cid)
    requires MintThenName(ops, outs, k, rec, rec') && k.rkey != "" && Path(k) !in tree
    ensures !AvoidsMinted({}, ops, outs) && !MintedIsHarmless({}, tree, ops, outs)
  {
    assert Touched(ops[0], outs[0]) == k && ops[1].Named() == k;
    assert ops[1..] == [ops[1]] && outs[1..] == [outs[1]];
    assert !AvoidsMinted({Path(k)}, ops[1..], outs[1..]);
    assert Minted({}, ops[0], outs[0]) == {Path(k)};
    assert !MintedIsHarmless({Path(k)}, After(tree, ops[0], outs[0]), ops[1..], outs[1..]);
  }
}
