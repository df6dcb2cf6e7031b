/**
  What survives in every run, clean or not: commits stay signed, block revs stay kept revs of
  stored blocks, every handle stands on its head row, and the log is an unbroken chain of commits.
 */
module RepoAnyRun {
  import opened Basics
  import opened WriteBatch
  import opened RepoState
  import opened RepoInvariant
  import opened RepoSteps
  import opened RepoRuns
  import opened RepoStale

  ghost predicate Loose(w: World, s: State) {
    && BlocksOk(w, s)
    && (forall did :: did in s.rows ==> RowsSigned(w, did, s.rows[did], s.blocks.Keys))
    && (forall did :: did in s.handles ==> s.handles[did].last == HeadOf(RowsOf(s, did)))
  }

  lemma InvIsLoose(w: World, s: State)
    requires Inv(w, s)
    ensures Loose(w, s)
  {
  }

  lemma RowsLoose(w: World, s: State, did: Did)
    requires Loose(w, s)
    ensures RowsSigned(w, did, RowsOf(s, did), s.blocks.Keys)
  {
    NoRowsOk(w, did, s.blocks.Keys);
  }

  /** What every operation does to the loose invariant, once its own account is known to be in order. */
  lemma OneLooselyChanged(w: World, s: State, s': State, did: Did)
    requires Loose(w, s) && BlocksOk(w, s') && s.blocks.Keys <= s'.blocks.Keys
    requires forall d :: d != did && d in s'.rows ==> d in s.rows && s'.rows[d] == s.rows[d]
    requires forall d :: d != did && d in s.rows ==> d in s'.rows
    requires forall d :: d != did && d in s'.handles ==> d in s.handles && s'.handles[d] == s.handles[d]
    requires RowsSigned(w, did, RowsOf(s', did), s'.blocks.Keys)
    requires did in s'.handles ==> s'.handles[did].last == HeadOf(RowsOf(s', did))
    ensures Loose(w, s')
  {
  }

  /** An opened handle, cached or read from the head commit, stands on the head row. */
  lemma OpensOnHead(w: World, s: State, did: Did)
    requires Loose(w, s)
    ensures Opened(w, s, did).Some? ==> Opened(w, s, did).value.last == HeadOf(RowsOf(s, did))
  {
    RowsLoose(w, s, did);
    HeadIsMax(RowsOf(s, did));
  }

  // ----- one step -------------------------------------------------------------------------

  /** A write commits and announces it, or leaves rows and log alone. */
  ghost predicate WriteChains(w: World, s: State, did: Did, r: Reply<Written>) {
    && Loose(w, r.state)
    && (if r.result.Ok? then
          && r.state.rows == s.rows[did := RowsOf(r.state, did)]
          && |r.state.log| == |s.log| + 1 && s.log <= r.state.log
          && EventChains(w, did, RowsOf(s, did), RowsOf(r.state, did), r.state.log[|s.log|])
          && KeepsCommits(RowsOf(s, did), RowsOf(r.state, did))
        else
          r.state.rows == s.rows && r.state.log == s.log)
  }

  lemma TriedKeepsLoose(w: World, s: State, did: Did, h: Handle, recorded: Option<set<Cid>>, cids: set<Cid>)
    requires Loose(w, s) && h.last == HeadOf(RowsOf(s, did))
    ensures Loose(w, Stored(w, Begun(s, did, h).(recorded := recorded), cids))
  {
    var begun := Begun(s, did, h).(recorded := recorded);
    BlocksOnlyGrow(w, begun, cids);
    RowsLoose(w, s, did);
    OneLooselyChanged(w, s, Stored(w, begun, cids), did);
  }

  lemma FinishedChains(w: World, did: Did, t: Tables, stored: set<Cid>, b: Batch, co: CommitOut)
    requires RowsSigned(w, did, t, stored) && (HeadOf(t).Some? ==> co.rev > HeadOf(t).value.rev)
    ensures EventChains(w, did, t, FinishedRows(t, b, co), FinishedEvent(w, did, HeadOf(t), b, co))
    ensures KeepsCommits(t, FinishedRows(t, b, co))
  {
    FinishedRowsFacts(w, did, t, stored, b, co);
  }

  /** From a state to the one an accepted write leaves, spelled out. */
  lemma CommittedKeepsLoose(w: World, s: State, s': State, did: Did, b: Batch, co: CommitOut)
    requires Loose(w, s) && BlocksOk(w, s')
    requires w.signed(co.cid) == Some(Signed(did, co.rev, co.data))
    requires HeadOf(RowsOf(s, did)).Some? ==> co.rev > HeadOf(RowsOf(s, did)).value.rev
    requires s'.rows == s.rows[did := FinishedRows(RowsOf(s, did), b, co)]
    requires s'.handles == s.handles[did := Handle(b.tree, Some(NewHead(co)))]
    requires s'.blocks.Keys == s.blocks.Keys + (b.puts + ToSet(co.puts))
    ensures Loose(w, s')
  {
    RowsLoose(w, s, did);
    FinishedRowsFacts(w, did, RowsOf(s, did), s.blocks.Keys, b, co);
    FinishedSigned(w, did, RowsOf(s, did), s.blocks.Keys, b, co);
    OneLooselyChanged(w, s, s', did);
  }

  lemma AcceptedChains(w: World, s: State, did: Did, ops: seq<Op>, outs: seq<TreeOut>,
                       swapCommit: Option<Option<Cid>>, co: CommitOut, h: Handle, p: Progress)
    requires Loose(w, s) && |ops| == |outs| && SwapMatches(s, did, swapCommit)
    requires Accepted(w, s, did, ops, outs, co, h, p)
    ensures WriteChains(w, s, did, ApplyWrites(w, s, did, ops, outs, swapCommit, co))
  {
    RowsLoose(w, s, did);
    AcceptedWrite(w, s, did, ops, outs, swapCommit, co, h, p);
    HeadIsMax(RowsOf(s, did));
    PartsChain(w, s, did, h, p, co, Finished(w, AfterOps(w, s, did, h, p), did, p.batch, co));
  }

  lemma PartsChain(w: World, s: State, did: Did, h: Handle, p: Progress, co: CommitOut, r: Reply<Written>)
    requires Loose(w, s) && h.last == HeadOf(RowsOf(s, did))
    requires w.signed(co.cid) == Some(Signed(did, co.rev, co.data))
    requires HeadOf(RowsOf(s, did)).Some? ==> co.rev > HeadOf(RowsOf(s, did)).value.rev
    requires r == Finished(w, AfterOps(w, s, did, h, p), did, p.batch, co)
    ensures WriteChains(w, s, did, r)
  {
    var t := RowsOf(s, did);
    AcceptedParts(w, s, did, h, p, co);
    CommittedKeepsLoose(w, s, r.state, did, p.batch, co);
    assert EventChains(w, did, t, FinishedRows(t, p.batch, co), FinishedEvent(w, did, h.last, p.batch, co))
        && KeepsCommits(t, FinishedRows(t, p.batch, co)) by {
      RowsLoose(w, s, did);
      FinishedChains(w, did, t, s.blocks.Keys, p.batch, co);
    }
  }

  /** A write that does not commit, at whatever point it stops. */
  lemma StoppedChains(w: World, s: State, did: Did, ops: seq<Op>, outs: seq<TreeOut>,
                      swapCommit: Option<Option<Cid>>, co: CommitOut, h: Handle, p: Progress)
    requires Loose(w, s) && |ops| == |outs| && Opened(w, s, did) == Some(h) && h.last == HeadOf(RowsOf(s, did))
    requires p == RunOps(RowsOf(s, did).records, Start(h.tree), ops, outs)
    requires !SwapMatches(s, did, swapCommit) || p.err.Some? || !co.ok
    ensures WriteChains(w, s, did, ApplyWrites(w, s, did, ops, outs, swapCommit, co))
  {
    var tried := h.(tree := p.batch.tree);
    if !SwapMatches(s, did, swapCommit) {
      TriedKeepsLoose(w, s, did, h, s.recorded, {});
      StoredNothing(w, Begun(s, did, h));
    } else if p.err.Some? {
      TriedKeepsLoose(w, s, did, tried, Some({}), p.batch.puts);
    } else {
      TriedKeepsLoose(w, s, did, tried, Some({}), p.batch.puts + ToSet(co.puts));
      StoredAgain(w, Begun(s, did, tried).(recorded := Some({})), p.batch.puts, ToSet(co.puts));
    }
  }

  lemma AnyWriteChains(w: World, s: State, did: Did, ops: seq<Op>, outs: seq<TreeOut>,
                       swapCommit: Option<Option<Cid>>, co: CommitOut)
    requires Loose(w, s) && |ops| == |outs| && WriteContract(w, s, did, ops, outs, co)
    ensures WriteChains(w, s, did, ApplyWrites(w, s, did, ops, outs, swapCommit, co))
  {
    OpensOnHead(w, s, did);
    var h := Opened(w, s, did);
    if h.Some? {
      var p := RunOps(RowsOf(s, did).records, Start(h.value.tree), ops, outs);
      if SwapMatches(s, did, swapCommit) && p.err.None? && co.ok {
        AcceptedChains(w, s, did, ops, outs, swapCommit, co, h.value, p);
      } else {
        StoppedChains(w, s, did, ops, outs, swapCommit, co, h.value, p);
      }
    }
  }

  lemma BlocksAddedLoose(w: World, s: State, did: Did, blocks: map<Cid, Data>)
    requires Loose(w, s) && forall c :: c in blocks ==> blocks[c] == w.content(c)
    ensures Loose(w, s.(blocks := blocks + s.blocks))
  {
    RowsLoose(w, s, did);
    OneLooselyChanged(w, s, s.(blocks := blocks + s.blocks), did);
  }

  lemma RowsReplacedLoose(w: World, s: State, did: Did, t: Tables)
    requires Loose(w, s) && RowsSigned(w, did, t, s.blocks.Keys)
    ensures Loose(w, Replaced(s, did, t))
  {
    OneLooselyChanged(w, s, Replaced(s, did, t), did);
  }

  lemma ImportedSigned(w: World, did: Did, car: Car, sc: Signed, stored: set<Cid>)
    requires |car.roots| == 1 && w.signed(car.roots[0]) == Some(sc) && sc.did == did && car.blocks.Keys <= stored
    ensures RowsSigned(w, did, ImportedRows(w, car.roots[0], sc, car), stored)
  {
  }

  lemma AcceptedImportLoose(w: World, s: State, did: Did, car: Car, broken: bool)
    requires Loose(w, s.(blocks := car.blocks + s.blocks)) && ImportRepo(w, s, did, car, broken).result.Ok?
    ensures Loose(w, ImportRepo(w, s, did, car, broken).state)
  {
    var stored := s.(blocks := car.blocks + s.blocks);
    ImportOutcome(w, s, did, car, broken);
    var sc := w.signed(car.roots[0]).value;
    ImportedSigned(w, did, car, sc, stored.blocks.Keys);
    RowsReplacedLoose(w, stored, did, ImportedRows(w, car.roots[0], sc, car));
  }

  lemma ImportKeepsLoose(w: World, s: State, did: Did, car: Car, broken: bool)
    requires Loose(w, s) && CarOk(w, car)
    ensures var r := ImportRepo(w, s, did, car, broken);
            && Loose(w, r.state) && r.state.log == s.log
            && (if r.result.Ok? then forall d :: d != did ==> RowsOf(r.state, d) == RowsOf(s, d)
                else r.state.rows == s.rows)
  {
    BlocksAddedLoose(w, s, did, car.blocks);
    ImportOutcome(w, s, did, car, broken);
    if ImportRepo(w, s, did, car, broken).result.Ok? {
      AcceptedImportLoose(w, s, did, car, broken);
    }
  }

  lemma DeleteKeepsLoose(w: World, s: State, did: Did, blobsOk: bool)
    requires Loose(w, s)
    ensures Loose(w, DeleteAccount(s, did, blobsOk).state)
  {
    RowsLoose(w, s, did);
    NoRowsOk(w, did, s.blocks.Keys);
    OneLooselyChanged(w, s, DeleteAccount(s, did, blobsOk).state, did);
  }

  // ----- the chain of commits in the log --------------------------------------------------

  /** The head that the #commit events of an account lead to, each following the one before. */
  function FollowHeads(w: World, did: Did, head: Option<Head>, log: seq<Event>): Option<Option<Head>>
    decreases |log|
  {
    if log == [] then Some(head)
    else if log[0].did != did || !log[0].CommitEvent? then FollowHeads(w, did, head, log[1..])
    else
      var e := log[0];
      if e.since != RevOf(head) || e.prevData != DataOf(head) || w.signed(e.commit).None? then None
      else FollowHeads(w, did, Some(Head(e.commit, e.rev, w.signed(e.commit).value.data)), log[1..])
  }

  lemma {:induction false} HeadsAppend(w: World, did: Did, head: Option<Head>, a: seq<Event>, b: seq<Event>)
    ensures FollowHeads(w, did, head, a + b)
         == var mid := FollowHeads(w, did, head, a); if mid.None? then None else FollowHeads(w, did, mid.value, b)
    decreases |a|
  {
    if a == [] {
      assert a + b == b;
    } else {
      var e := a[0];
      assert (a + b)[0] == e && (a + b)[1..] == a[1..] + b;
      if e.did != did || !e.CommitEvent? {
        HeadsAppend(w, did, head, a[1..], b);
      } else if w.signed(e.commit).Some? {
        HeadsAppend(w, did, Some(Head(e.commit, e.rev, w.signed(e.commit).value.data)), a[1..], b);
      }
    }
  }

  lemma {:induction false} HeadsStay(w: World, did: Did, head: Option<Head>, log: seq<Event>)
    requires forall i :: 0 <= i < |log| ==> log[i].IdentityEvent? || log[i].did != did
    ensures FollowHeads(w, did, head, log) == Some(head)
    decreases |log|
  {
    if log != [] {
      assert forall i :: 0 <= i < |log[1..]| ==> log[1..][i] == log[i + 1];
      HeadsStay(w, did, head, log[1..]);
    }
  }

  ghost predicate StepChains(w: World, s: State, s': State, did: Did, resets: bool) {
    && Loose(w, s') && s.log <= s'.log
    && (!resets ==>
          && KeepsCommits(RowsOf(s, did), RowsOf(s', did))
          && FollowHeads(w, did, HeadOf(RowsOf(s, did)), s'.log[|s.log|..]) == Some(HeadOf(RowsOf(s', did))))
  }

  lemma UntouchedChains(w: World, s: State, s': State, did: Did)
    requires Loose(w, s') && s.log <= s'.log && RowsOf(s', did) == RowsOf(s, did)
    requires forall i :: |s.log| <= i < |s'.log| ==> s'.log[i].IdentityEvent? || s'.log[i].did != did
    ensures StepChains(w, s, s', did, false)
  {
    HeadsStay(w, did, HeadOf(RowsOf(s, did)), s'.log[|s.log|..]);
  }

  lemma CommittedChains(w: World, s: State, s': State, did: Did, e: Event, more: seq<Event>)
    requires Loose(w, s') && s'.log == s.log + [e] + more
    requires forall i :: 0 <= i < |more| ==> more[i].IdentityEvent?
    requires EventChains(w, did, RowsOf(s, did), RowsOf(s', did), e)
    requires KeepsCommits(RowsOf(s, did), RowsOf(s', did))
    ensures StepChains(w, s, s', did, false)
  {
    RowsLoose(w, s', did);
    HeadIsMax(RowsOf(s', did));
    var news := s'.log[|s.log|..];
    assert news == [e] + more && news[1..] == more;
    HeadsStay(w, did, HeadOf(RowsOf(s', did)), more);
  }

  /** A write, and an #identity event after it, for any account. */
  lemma WriteStepChains(w: World, s: State, writer: Did, r: Reply<Written>, more: seq<Event>, did: Did)
    requires WriteChains(w, s, writer, r) && (more != [] ==> r.result.Ok?)
    requires forall i :: 0 <= i < |more| ==> more[i].IdentityEvent?
    ensures StepChains(w, s, r.state.(log := r.state.log + more), did, false)
  {
    var s' := r.state.(log := r.state.log + more);
    assert forall d :: RowsOf(s', d) == RowsOf(r.state, d);
    if r.result.Ok? && did == writer {
      assert r.state.log == s.log + [r.state.log[|s.log|]];
      CommittedChains(w, s, s', did, r.state.log[|s.log|], more);
    } else {
      UntouchedChains(w, s, s', did);
    }
  }

  lemma CreateStepChains(w: World, s: State, creator: Did, co: CommitOut, known: bool, did: Did)
    requires Loose(w, s) && WriteContract(w, s, creator, [], [], co)
    ensures StepChains(w, s, CreateAccount(w, s, creator, co, known).state, did, false)
  {
    var r := ApplyWrites(w, s, creator, [], [], None, co);
    AnyWriteChains(w, s, creator, [], [], None, co);
    WriteStepChains(w, s, creator, r, if r.result.Ok? && known then [IdentityEvent(creator)] else [], did);
    CreateLogs(w, s, creator, co, known);
  }

  lemma WriteChainsAll(w: World, s: State, step: Step, did: Did)
    requires Loose(w, s) && step.Write? && step.Shaped() && Contract(w, s, step)
    ensures StepChains(w, s, Do(w, s, step), did, false)
  {
    var r := ApplyWrites(w, s, step.did, step.ops, step.outs, step.swapCommit, step.co);
    AnyWriteChains(w, s, step.did, step.ops, step.outs, step.swapCommit, step.co);
    WriteStepChains(w, s, step.did, r, [], did);
    assert r.state.log + [] == r.state.log;
  }

  lemma AnyStepChains(w: World, s: State, step: Step, did: Did)
    requires Loose(w, s) && step.Shaped() && Contract(w, s, step)
    ensures StepChains(w, s, Do(w, s, step), did, step.Resets(did))
  {
    match step
    case Create(creator, co, known) => CreateStepChains(w, s, creator, co, known, did);
    case Write(_, _, _, _, _) => WriteChainsAll(w, s, step, did);
    case Import(importer, car, broken) =>
      ImportKeepsLoose(w, s, importer, car, broken);
      if importer != did {
        UntouchedChains(w, s, Do(w, s, step), did);
      }
    case Delete(leaver, blobsOk) =>
      DeleteKeepsLoose(w, s, leaver, blobsOk);
      if leaver != did {
        UntouchedChains(w, s, Do(w, s, step), did);
      }
    case Restarted =>
      UntouchedChains(w, s, Restart(s), did);
  }

  // ----- whole runs -----------------------------------------------------------------------

  /** A run that meets the library's contract, clean or not. */
  ghost predicate AnyRun(w: World, s: State, steps: seq<Step>)
    decreases |steps|
  {
    steps == [] ||
    (steps[0].Shaped() && Contract(w, s, steps[0]) && AnyRun(w, Do(w, s, steps[0]), steps[1..]))
  }

  lemma {:induction false} AnyRunShaped(w: World, s: State, steps: seq<Step>)
    requires AnyRun(w, s, steps)
    ensures forall i :: 0 <= i < |steps| ==> steps[i].Shaped()
    decreases |steps|
  {
    if steps != [] {
      AnyRunShaped(w, Do(w, s, steps[0]), steps[1..]);
      forall i | 0 < i < |steps|
        ensures steps[i].Shaped()
      {
        assert steps[i] == steps[1..][i - 1];
      }
    }
  }

  /**
    In every state of every run, aborted batches, lost index rows and partial imports included:
    commits are signed, block revs are kept revs of stored blocks, every handle stands on its head
    row, and every export succeeds.
   */
  lemma {:induction false} AnyRunKeepsLoose(w: World, s: State, steps: seq<Step>, did: Did)
    requires Loose(w, s) && AnyRun(w, s, steps)
    ensures forall i :: 0 <= i < |steps| ==> steps[i].Shaped()
    ensures var s' := Run(w, s, steps);
            Loose(w, s') && (HeadOf(RowsOf(s', did)).Some? ==> RepoCar(s', did, None).Some?)
    decreases |steps|
  {
    AnyRunShaped(w, s, steps);
    if steps == [] {
      RowsLoose(w, s, did);
    } else {
      AnyStepChains(w, s, steps[0], did);
      AnyRunKeepsLoose(w, Do(w, s, steps[0]), steps[1..], did);
    }
  }

  lemma HeadsThrough(w: World, did: Did, head: Option<Head>, a: seq<Event>, b: seq<Event>, c: seq<Event>)
    requires a <= b <= c && FollowHeads(w, did, head, b[|a|..]).Some?
    ensures a <= c
    ensures FollowHeads(w, did, head, c[|a|..])
              == FollowHeads(w, did, FollowHeads(w, did, head, b[|a|..]).value, c[|b|..])
  {
    assert c[|a|..] == b[|a|..] + c[|b|..];
    HeadsAppend(w, did, head, b[|a|..], c[|b|..]);
  }

  /**
    The chain is unbroken: over every run that neither imports into nor deletes the account, the
    since and prevData of each #commit event name the commit of the event before it, from the head
    at the start to the head at the end.
   */
  lemma {:induction false} ChainIsUnbroken(w: World, s: State, steps: seq<Step>, did: Did)
    requires Loose(w, s) && AnyRun(w, s, steps) && NoReset(steps, did)
    ensures forall i :: 0 <= i < |steps| ==> steps[i].Shaped()
    ensures var s' := Run(w, s, steps);
            && s.log <= s'.log && KeepsCommits(RowsOf(s, did), RowsOf(s', did))
            && FollowHeads(w, did, HeadOf(RowsOf(s, did)), s'.log[|s.log|..]) == Some(HeadOf(RowsOf(s', did)))
    decreases |steps|
  {
    AnyRunShaped(w, s, steps);
    if steps == [] {
      assert s.log[|s.log|..] == [];
    } else {
      var mid := Do(w, s, steps[0]);
      AnyStepChains(w, s, steps[0], did);
      NoResetTail(steps, did);
      ChainIsUnbroken(w, mid, steps[1..], did);
      HeadsThrough(w, did, HeadOf(RowsOf(s, did)), s.log, mid.log, Run(w, s, steps).log);
    }
  }

  /**
    From an empty database: after every run, clean or not, the account's export succeeds once it
    has a head; and if it was neither imported into nor deleted, the whole log chains its commits
    from none to that head.
   */
  lemma AnyRunFromNothing(w: World, steps: seq<Step>, did: Did)
    requires AnyRun(w, NOTHING, steps)
    ensures forall i :: 0 <= i < |steps| ==> steps[i].Shaped()
    ensures var s := Run(w, NOTHING, steps);
            && Loose(w, s) && (HeadOf(RowsOf(s, did)).Some? ==> RepoCar(s, did, None).Some?)
            && (NoReset(steps, did) ==> FollowHeads(w, did, None, s.log) == Some(HeadOf(RowsOf(s, did))))
  {
    InvIsLoose(w, NOTHING);
    AnyRunKeepsLoose(w, NOTHING, steps, did);
    if NoReset(steps, did) {
      ChainIsUnbroken(w, NOTHING, steps, did);
      var log := Run(w, NOTHING, steps).log;
      assert log[|NOTHING.log|..] == log;
    }
  }
}
