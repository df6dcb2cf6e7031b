/**
  What the batch loop guarantees: the lazily filled pending map refines running the operations
  one at a time, with the exact condition under which it does, and each answer belongs to its
  operation.
 */
module BatchLaws {
  import opened Basics
  import opened RecordPath
  import opened WriteBatch
  import opened OneAtATime

  // ----- the pending map against the tree -------------------------------------------------

  /** Outside the paths minted in this batch and not named since, a lookup sees the tree. */
  ghost predicate SeesTree(index: Index, b: Batch, minted: set<string>) {
    && (forall k :: Joinable(k) && Path(k) !in minted ==> Seen(index, b.cur, k) == Get(b.tree, Path(k)))
    && (forall k :: Joinable(k) && Path(k) in minted ==> Seen(index, b.cur, k) == None)
    && minted <= b.tree.Keys
  }

  function Minted(minted: set<string>, op: Op, out: TreeOut): set<string> {
    if op.Mints() then minted + {Path(Touched(op, out))} else minted
  }

  /** No operation names a path minted earlier in the batch. */
  predicate AvoidsMinted(minted: set<string>, ops: seq<Op>, outs: seq<TreeOut>)
    requires |ops| == |outs|
    decreases |ops|
  {
    ops == [] ||
    (&& (ops[0].Names() ==> Path(ops[0].Named()) !in minted)
     && AvoidsMinted(Minted(minted, ops[0], outs[0]), ops[1..], outs[1..]))
  }

  /**
    The exact proviso. The first operation that names a minted path may only be an update that
    is refused however it is looked up: its swapRecord is wrong, or the library refuses it.
   */
  predicate MintedIsHarmless(minted: set<string>, tree: Tree, ops: seq<Op>, outs: seq<TreeOut>)
    requires |ops| == |outs|
    decreases |ops|
  {
    if ops == [] then true
    else if ops[0].Names() && Path(ops[0].Named()) in minted then
      && ops[0].action.Update?
      && (if ops[0].swapRecord.Some? then Get(tree, Path(ops[0].Named())) != ops[0].swapRecord else !outs[0].ok)
    else
      Refusal(tree, ops[0], outs[0]).Some? ||
      MintedIsHarmless(Minted(minted, ops[0], outs[0]), After(tree, ops[0], outs[0]), ops[1..], outs[1..])
  }

  predicate SameOutcome(p: Progress, o: Outcome) {
    && p.err == o.err
    && p.batch.tree == o.state.tree
    && p.batch.emitted == o.state.emitted
    && p.batch.results == o.state.results
  }

  function Plain(b: Batch): Single {
    Single(b.tree, b.emitted, b.results)
  }

  lemma StepSeesTree(index: Index, b: Batch, op: Op, out: TreeOut, minted: set<string>)
    requires SeesTree(index, b, minted) && Joinable(op.Named()) && MintIsFresh(b, op, out)
    requires op.Names() ==> Path(op.Named()) !in minted
    ensures var p := StepOp(index, b, op, out);
            && p.err == Refusal(b.tree, op, out)
            && (p.err.Some? ==> Plain(p.batch) == Plain(b))
            && (p.err.None? ==>
                  && Plain(p.batch) == Single(After(b.tree, op, out),
                                              b.emitted + [Announce(b.tree, op, out)],
                                              b.results + [Answer(op, out)])
                  && SeesTree(index, p.batch, Minted(minted, op, out)))
  {
    var p := StepOp(index, b, op, out);
    if p.err.None? {
      var key := Touched(op, out);
      forall k | Joinable(k)
        ensures Path(k) !in Minted(minted, op, out) ==> Seen(index, p.batch.cur, k) == Get(p.batch.tree, Path(k))
        ensures Path(k) in Minted(minted, op, out) ==> Seen(index, p.batch.cur, k) == None
      {
        if Path(k) == Path(key) {
          PathInjective(k, key);
        }
      }
    }
  }

  /** The run only ever appends to what it has announced and answered. */
  lemma {:induction false} RunOpsExtends(index: Index, b: Batch, ops: seq<Op>, outs: seq<TreeOut>)
    requires |ops| == |outs|
    ensures var p := RunOps(index, b, ops, outs);
            && b.emitted <= p.batch.emitted && b.results <= p.batch.results
            && (p.err.None? ==> |p.batch.results| == |b.results| + |ops|)
    decreases |ops|
  {
    if ops != [] {
      var p := StepOp(index, b, ops[0], outs[0]);
      if p.err.None? {
        RunOpsExtends(index, p.batch, ops[1..], outs[1..]);
      }
    }
  }

  lemma {:induction false} RunEachExtends(s: Single, ops: seq<Op>, outs: seq<TreeOut>)
    requires |ops| == |outs|
    ensures var o := RunEach(s, ops, outs);
            && s.emitted <= o.state.emitted && s.results <= o.state.results
    decreases |ops|
  {
    if ops != [] && Refusal(s.tree, ops[0], outs[0]).None? {
      RunEachExtends(Single(After(s.tree, ops[0], outs[0]),
                            s.emitted + [Announce(s.tree, ops[0], outs[0])],
                            s.results + [Answer(ops[0], outs[0])]), ops[1..], outs[1..]);
    }
  }

  /** At an operation that names a minted path the two runs part, except where both refuse it. */
  lemma {:induction false} MintedNameDiverges(index: Index, b: Batch, ops: seq<Op>, outs: seq<TreeOut>,
                                              minted: set<string>)
    requires |ops| == |outs| && ops != [] && OpsJoinable(ops)
    requires SeesTree(index, b, minted)
    requires ops[0].Names() && Path(ops[0].Named()) in minted
    ensures SameOutcome(RunOps(index, b, ops, outs), RunEach(Plain(b), ops, outs))
       <==> MintedIsHarmless(minted, b.tree, ops, outs)
  {
    var op, out := ops[0], outs[0];
    assert Joinable(op.Named());
    var p := StepOp(index, b, op, out);
    var refused := Refusal(b.tree, op, out);
    if p.err.None? {
      RunOpsExtends(index, p.batch, ops[1..], outs[1..]);
      assert p.batch.emitted[|b.emitted|] in RunOps(index, b, ops, outs).batch.emitted;
    }
    if refused.None? {
      var s := Single(After(b.tree, op, out), b.emitted + [Announce(b.tree, op, out)], b.results + [Answer(op, out)]);
      RunEachExtends(s, ops[1..], outs[1..]);
      assert s.emitted[|b.emitted|] == RunEach(Plain(b), ops, outs).state.emitted[|b.emitted|];
    }
  }

  lemma {:induction false} OverlayFrom(index: Index, b: Batch, ops: seq<Op>, outs: seq<TreeOut>, minted: set<string>)
    requires |ops| == |outs| && OpsJoinable(ops)
    requires SeesTree(index, b, minted) && LibraryOk(index, b, ops, outs)
    ensures SameOutcome(RunOps(index, b, ops, outs), RunEach(Plain(b), ops, outs))
       <==> MintedIsHarmless(minted, b.tree, ops, outs)
    decreases |ops|
  {
    if ops != [] {
      var op, out := ops[0], outs[0];
      assert Joinable(op.Named());
      if op.Names() && Path(op.Named()) in minted {
        MintedNameDiverges(index, b, ops, outs, minted);
      } else {
        StepSeesTree(index, b, op, out, minted);
        var p := StepOp(index, b, op, out);
        if p.err.None? {
          OverlayFrom(index, p.batch, ops[1..], outs[1..], Minted(minted, op, out));
        }
      }
    }
  }

  lemma StartSeesTree(index: Index, tree: Tree)
    requires IndexIs(index, tree)
    ensures SeesTree(index, Start(tree), {})
  {
  }

  /**
    Batch overlay. From an index that holds the tree, the batch fails at the same operation with
    the same error, or yields the same tree, announcements and answers, as running the
    operations one at a time, exactly when no operation makes use of a path minted before it.
   */
  lemma {:induction false} OverlayRefinesOneAtATime(index: Index, tree: Tree, ops: seq<Op>, outs: seq<TreeOut>)
    requires |ops| == |outs| && OpsJoinable(ops)
    requires IndexIs(index, tree) && LibraryOk(index, Start(tree), ops, outs)
    ensures SameOutcome(RunOps(index, Start(tree), ops, outs), RunEach(Single(tree, [], []), ops, outs))
       <==> MintedIsHarmless({}, tree, ops, outs)
  {
    StartSeesTree(index, tree);
    OverlayFrom(index, Start(tree), ops, outs, {});
  }

  /** In particular whenever no operation names a path minted before it. */
  lemma {:induction false} AvoidingMintedIsHarmless(minted: set<string>, tree: Tree, ops: seq<Op>, outs: seq<TreeOut>)
    requires |ops| == |outs| && AvoidsMinted(minted, ops, outs)
    ensures MintedIsHarmless(minted, tree, ops, outs)
    decreases |ops|
  {
    if ops != [] && Refusal(tree, ops[0], outs[0]).None? {
      AvoidingMintedIsHarmless(Minted(minted, ops[0], outs[0]), After(tree, ops[0], outs[0]), ops[1..], outs[1..]);
    }
  }

  /** Each answer says what its operation did: the rkey given or minted, and the record's CID. */
  lemma {:induction false} ResultsMatchOps(s: Single, ops: seq<Op>, outs: seq<TreeOut>)
    requires |ops| == |outs| && RunEach(s, ops, outs).err.None?
    ensures var results := RunEach(s, ops, outs).state.results;
            && |results| == |s.results| + |ops|
            && s.results <= results
            && forall i :: 0 <= i < |ops| ==>
                 results[|s.results| + i] == OpResult(ops[i].action,
                   if ops[i].action.Create? && ops[i].rkey == "" then outs[i].minted else ops[i].rkey,
                   if ops[i].action.Delete? then None else Some(ops[i].rec))
    decreases |ops|
  {
    if ops != [] {
      var next := Single(After(s.tree, ops[0], outs[0]),
                         s.emitted + [Announce(s.tree, ops[0], outs[0])],
                         s.results + [Answer(ops[0], outs[0])]);
      ResultsMatchOps(next, ops[1..], outs[1..]);
      var results := RunEach(s, ops, outs).state.results;
      assert results[|s.results|] == next.results[|s.results|];
      forall i | 0 <= i < |ops|
        ensures results[|s.results| + i] == Answer(ops[i], outs[i])
      {
        if i > 0 {
          assert ops[i] == ops[1..][i - 1] && outs[i] == outs[1..][i - 1];
          assert results[|next.results| + (i - 1)] == Answer(ops[i], outs[i]);
        }
      }
    }
  }
}
