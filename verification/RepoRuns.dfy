/**
  Whole runs of the manager: any interleaving of its operations over any number of accounts.
 */
module RepoRuns {
  import opened Basics
  import opened WriteBatch
  import opened Inversion
  import opened RepoState
  import opened RepoInvariant
  import opened RepoSteps

  datatype Step =
    | Create(did: Did, co: CommitOut, known: bool)
    | Write(did: Did, ops: seq<Op>, outs: seq<TreeOut>, swapCommit: Option<Option<Cid>>, co: CommitOut)
    | Import(did: Did, car: Car, broken: bool)
    | Delete(did: Did, blobsOk: bool)
    | Restarted
  {
    predicate Shaped() {
      Write? ==> |ops| == |outs|
    }

    /** Imports and deletes start an account's history over. */
    predicate Resets(d: Did) {
      (Import? || Delete?) && did == d
    }
  }

  function Do(w: World, s: State, step: Step): State
    requires step.Shaped()
  {
    match step
    case Create(did, co, known) => CreateAccount(w, s, did, co, known).state
    case Write(did, ops, outs, swapCommit, co) => ApplyWrites(w, s, did, ops, outs, swapCommit, co).state
    case Import(did, car, broken) => ImportRepo(w, s, did, car, broken).state
    case Delete(did, blobsOk) => DeleteAccount(s, did, blobsOk).state
    case Restarted => Restart(s)
  }

  /** What the library, and the reader of an imported CAR, are assumed to do. */
  ghost predicate Contract(w: World, s: State, step: Step)
    requires step.Shaped()
  {
    match step
    case Create(did, co, _) => WriteContract(w, s, did, [], [], co)
    case Write(did, ops, outs, _, co) => WriteContract(w, s, did, ops, outs, co)
    case Import(_, car, _) => CarOk(w, car)
    case _ => true
  }

  ghost predicate Clean(w: World, s: State, step: Step)
    requires step.Shaped()
  {
    match step
    case Write(did, ops, outs, _, co) => CleanWrite(w, s, did, ops, outs, co)
    case Import(_, car, _) => CompleteCar(w, car)
    case _ => true
  }

  ghost predicate CleanRun(w: World, s: State, steps: seq<Step>)
    decreases |steps|
  {
    steps == [] ||
    (&& steps[0].Shaped() && Contract(w, s, steps[0]) && Clean(w, s, steps[0])
     && CleanRun(w, Do(w, s, steps[0]), steps[1..]))
  }

  function Run(w: World, s: State, steps: seq<Step>): State
    requires forall i :: 0 <= i < |steps| ==> steps[i].Shaped()
    decreases |steps|
  {
    if steps == [] then s else Run(w, Do(w, s, steps[0]), steps[1..])
  }

  lemma {:induction false} CleanRunShaped(w: World, s: State, steps: seq<Step>)
    requires CleanRun(w, s, steps)
    ensures forall i :: 0 <= i < |steps| ==> steps[i].Shaped()
    decreases |steps|
  {
    if steps != [] {
      CleanRunShaped(w, Do(w, s, steps[0]), steps[1..]);
      forall i | 0 <= i < |steps|
        ensures steps[i].Shaped()
      {
        if i > 0 {
          assert steps[i] == steps[1..][i - 1];
        }
      }
    }
  }

  // ----- a consumer of the event log ------------------------------------------------------

  /** What a consumer of one account holds: the head it last saw, its records, its blocks. */
  datatype Replica = Replica(head: Option<Head>, tree: Tree, blocks: set<Cid>)

  /**
    Consume one event of the account. A #commit must follow the head held; its operations must
    lead from the tree held to the records the commit signs, and back; its CAR is added to the
    blocks.
   */
  function Consume(w: World, r: Replica, e: Event): Option<Replica> {
    if !e.CommitEvent? then Some(r)
    else if e.since != RevOf(r.head) || e.prevData != DataOf(r.head) then None
    else
      var sc := w.signed(e.commit);
      if sc.None? then None
      else
        var tree := w.tree(sc.value.data);
        if Forward(r.tree, e.ops) != Some(tree) || Backward(tree, e.ops) != Some(r.tree) then None
        else Some(Replica(Some(Head(e.commit, e.rev, sc.value.data)), tree, r.blocks + e.car.blocks.Keys))
  }

  function Follow(w: World, did: Did, r: Replica, log: seq<Event>): Option<Replica>
    decreases |log|
  {
    if log == [] then Some(r)
    else if log[0].did != did then Follow(w, did, r, log[1..])
    else
      var next := Consume(w, r, log[0]);
      if next.None? then None else Follow(w, did, next.value, log[1..])
  }

  /** The replica is the account's head: same commit, same records, and no block missing. */
  ghost predicate Mirrors(w: World, r: Replica, t: Tables) {
    && r.head == HeadOf(t) && r.tree == HeadTree(w, t) && Reached(w, HeadOf(t)) <= r.blocks
  }

  lemma {:induction false} FollowAppend(w: World, did: Did, r: Replica, a: seq<Event>, b: seq<Event>)
    ensures Follow(w, did, r, a + b)
         == var mid := Follow(w, did, r, a); if mid.None? then None else Follow(w, did, mid.value, b)
    decreases |a|
  {
    if a == [] {
      assert a + b == b;
    } else {
      assert (a + b)[0] == a[0] && (a + b)[1..] == a[1..] + b;
      if a[0].did != did {
        FollowAppend(w, did, r, a[1..], b);
      } else {
        var next := Consume(w, r, a[0]);
        if next.Some? {
          FollowAppend(w, did, next.value, a[1..], b);
        }
      }
    }
  }

  /** What one clean step leaves a consumer of any account with. */
  ghost predicate StepKeeps(w: World, s: State, s': State, did: Did, resets: bool) {
    && Inv(w, s')
    && s.log <= s'.log
    && (!resets ==>
          && KeepsCommits(RowsOf(s, did), RowsOf(s', did))
          && forall r :: Mirrors(w, r, RowsOf(s, did)) ==>
               var next := Follow(w, did, r, s'.log[|s.log|..]);
               next.Some? && Mirrors(w, next.value, RowsOf(s', did)) && r.blocks <= next.value.blocks)
  }

  lemma ConsumeTrueEvent(w: World, s: State, did: Did, t: Tables, t': Tables, e: Event, r: Replica)
    requires EventTrue(w, did, t, t', e) && Mirrors(w, r, t)
    requires HeadOf(t').Some? ==>
               && w.signed(HeadOf(t').value.cid).Some?
               && w.signed(HeadOf(t').value.cid).value.data == HeadOf(t').value.data
    ensures var next := Consume(w, r, e);
            next.Some? && Mirrors(w, next.value, t') && r.blocks <= next.value.blocks
  {
  }

  lemma FollowNothing(w: World, did: Did, r: Replica, log: seq<Event>)
    requires forall i :: 0 <= i < |log| ==> log[i].IdentityEvent? || log[i].did != did
    ensures Follow(w, did, r, log) == Some(r)
    decreases |log|
  {
    if log != [] {
      assert forall i :: 0 <= i < |log[1..]| ==> log[1..][i] == log[i + 1];
      FollowNothing(w, did, r, log[1..]);
    }
  }

  /** A step that moves no row of the account and announces none of its commits. */
  lemma UntouchedKeeps(w: World, s: State, s': State, did: Did)
    requires Inv(w, s') && s.log <= s'.log && RowsOf(s', did) == RowsOf(s, did)
    requires forall i :: |s.log| <= i < |s'.log| ==> s'.log[i].IdentityEvent? || s'.log[i].did != did
    ensures StepKeeps(w, s, s', did, false)
  {
    forall r | Mirrors(w, r, RowsOf(s, did))
      ensures Follow(w, did, r, s'.log[|s.log|..]) == Some(r)
    {
      FollowNothing(w, did, r, s'.log[|s.log|..]);
    }
  }

  /** A step that commits to the account and announces it, perhaps with an #identity event after. */
  lemma CommittedKeeps(w: World, s: State, s': State, did: Did, e: Event, more: seq<Event>)
    requires Inv(w, s') && s'.log == s.log + [e] + more
    requires forall i :: 0 <= i < |more| ==> more[i].IdentityEvent?
    requires EventTrue(w, did, RowsOf(s, did), RowsOf(s', did), e)
    requires KeepsCommits(RowsOf(s, did), RowsOf(s', did))
    ensures StepKeeps(w, s, s', did, false)
  {
    HeadIsSigned(w, s', did);
    var news := s'.log[|s.log|..];
    assert news == [e] + more && news[1..] == more;
    forall r | Mirrors(w, r, RowsOf(s, did))
      ensures var next := Follow(w, did, r, news);
              next.Some? && Mirrors(w, next.value, RowsOf(s', did)) && r.blocks <= next.value.blocks
    {
      ConsumeTrueEvent(w, s, did, RowsOf(s, did), RowsOf(s', did), e, r);
      var next := Consume(w, r, e);
      FollowNothing(w, did, next.value, more);
    }
  }

  lemma LogGrownInv(w: World, s: State, more: seq<Event>)
    requires Inv(w, s)
    ensures Inv(w, s.(log := s.log + more))
  {
    assert forall d :: RowsOf(s.(log := s.log + more), d) == RowsOf(s, d);
  }

  /** A write, and an #identity event after it, for any account. */
  lemma WriteStepKeeps(w: World, s: State, writer: Did, r: Reply<Written>, more: seq<Event>, did: Did)
    requires WriteKeeps(w, s, writer, r)
    requires more != [] ==> r.result.Ok?
    requires forall i :: 0 <= i < |more| ==> more[i].IdentityEvent?
    ensures StepKeeps(w, s, r.state.(log := r.state.log + more), did, false)
  {
    var s' := r.state.(log := r.state.log + more);
    LogGrownInv(w, r.state, more);
    assert RowsOf(s', did) == RowsOf(r.state, did);
    if r.result.Ok? && did == writer {
      assert r.state.log == s.log + [r.state.log[|s.log|]];
      CommittedKeeps(w, s, s', did, r.state.log[|s.log|], more);
    } else {
      UntouchedKeeps(w, s, s', did);
    }
  }

  lemma CreateLogs(w: World, s: State, did: Did, co: CommitOut, known: bool)
    ensures var r := ApplyWrites(w, s, did, [], [], None, co);
            CreateAccount(w, s, did, co, known).state
            == r.state.(log := r.state.log + if r.result.Ok? && known then [IdentityEvent(did)] else [])
  {
    CreateIsEmptyWrite(w, s, did, co, known);
    var r := ApplyWrites(w, s, did, [], [], None, co);
    assert r.state.log + [] == r.state.log;
  }

  lemma EmptyWriteIsClean(w: World, s: State, did: Did, co: CommitOut)
    ensures CleanWrite(w, s, did, [], [], co)
  {
  }

  /** A reply to an empty write, with the #identity event that CreateAccount adds to it. */
  lemma CreatedKeeps(w: World, s: State, creator: Did, r: Reply<Written>, known: bool, did: Did)
    requires WriteKeeps(w, s, creator, r)
    ensures var more := if r.result.Ok? && known then [IdentityEvent(creator)] else [];
            StepKeeps(w, s, r.state.(log := r.state.log + more), did, false)
  {
    WriteStepKeeps(w, s, creator, r, if r.result.Ok? && known then [IdentityEvent(creator)] else [], did);
  }

  lemma CreateStepKeeps(w: World, s: State, creator: Did, co: CommitOut, known: bool, did: Did)
    requires WorldOk(w) && Inv(w, s) && WriteContract(w, s, creator, [], [], co)
    ensures StepKeeps(w, s, CreateAccount(w, s, creator, co, known).state, did, false)
  {
    var r := ApplyWrites(w, s, creator, [], [], None, co);
    assert WriteKeeps(w, s, creator, r) by {
      EmptyWriteIsClean(w, s, creator, co);
      CleanWriteKeeps(w, s, creator, [], [], None, co);
    }
    CreatedKeeps(w, s, creator, r, known, did);
    CreateLogs(w, s, creator, co, known);
  }

  lemma NothingLogged(s: State)
    ensures s.(log := s.log + []) == s
  {
    assert s.log + [] == s.log;
  }

  lemma CleanWriteStepKeeps(w: World, s: State, writer: Did, ops: seq<Op>, outs: seq<TreeOut>,
                            swapCommit: Option<Option<Cid>>, co: CommitOut, did: Did)
    requires WorldOk(w) && Inv(w, s) && |ops| == |outs|
    requires WriteContract(w, s, writer, ops, outs, co) && CleanWrite(w, s, writer, ops, outs, co)
    ensures StepKeeps(w, s, ApplyWrites(w, s, writer, ops, outs, swapCommit, co).state, did, false)
  {
    var r := ApplyWrites(w, s, writer, ops, outs, swapCommit, co);
    CleanWriteKeeps(w, s, writer, ops, outs, swapCommit, co);
    WriteStepKeeps(w, s, writer, r, [], did);
    NothingLogged(r.state);
  }

  lemma ImportStepKeeps(w: World, s: State, importer: Did, car: Car, broken: bool, did: Did)
    requires Inv(w, s) && CarOk(w, car) && CompleteCar(w, car)
    ensures StepKeeps(w, s, ImportRepo(w, s, importer, car, broken).state, did, importer == did)
  {
    ImportKeepsInv(w, s, importer, car, broken);
    if importer != did {
      UntouchedKeeps(w, s, ImportRepo(w, s, importer, car, broken).state, did);
    }
  }

  lemma DeleteStepKeeps(w: World, s: State, leaver: Did, blobsOk: bool, did: Did)
    requires Inv(w, s)
    ensures StepKeeps(w, s, DeleteAccount(s, leaver, blobsOk).state, did, leaver == did)
  {
    DeleteKeepsInv(w, s, leaver, blobsOk);
    if leaver != did {
      UntouchedKeeps(w, s, DeleteAccount(s, leaver, blobsOk).state, did);
    }
  }

  lemma RestartKeeps(w: World, s: State, did: Did)
    requires Inv(w, s)
    ensures StepKeeps(w, s, Restart(s), did, false)
  {
    UntouchedKeeps(w, s, Restart(s), did);
  }

  lemma StepKeepsAll(w: World, s: State, step: Step, did: Did)
    requires WorldOk(w) && Inv(w, s) && step.Shaped() && Contract(w, s, step) && Clean(w, s, step)
    ensures StepKeeps(w, s, Do(w, s, step), did, step.Resets(did))
  {
    match step
    case Create(creator, co, known) => CreateStepKeeps(w, s, creator, co, known, did);
    case Write(writer, ops, outs, swapCommit, co) => CleanWriteStepKeeps(w, s, writer, ops, outs, swapCommit, co, did);
    case Import(importer, car, broken) => ImportStepKeeps(w, s, importer, car, broken, did);
    case Delete(leaver, blobsOk) => DeleteStepKeeps(w, s, leaver, blobsOk, did);
    case Restarted => RestartKeeps(w, s, did);
  }

  // ----- the main results -----------------------------------------------------------------

  /** A run, and the account it is looked at for, without an import into it or its deletion. */
  ghost predicate NoReset(steps: seq<Step>, did: Did) {
    forall i :: 0 <= i < |steps| ==> !steps[i].Resets(did)
  }

  /**
    Invariant over runs: in every state of every clean run the index and the handle of every
    account agree with the tree of its head, and every kept rev can be synced forward from.
   */
  lemma {:induction false} CleanRunKeepsInv(w: World, s: State, steps: seq<Step>)
    requires WorldOk(w) && Inv(w, s) && CleanRun(w, s, steps)
    ensures (forall i :: 0 <= i < |steps| ==> steps[i].Shaped()) && Inv(w, Run(w, s, steps))
    decreases |steps|
  {
    CleanRunShaped(w, s, steps);
    if steps != [] {
      StepKeepsAll(w, s, steps[0], "");
      CleanRunKeepsInv(w, Do(w, s, steps[0]), steps[1..]);
    }
  }

  const NOTHING := State(map[], map[], map[], None, [])

  /**
    From an empty database: in every state of every clean run, each cached handle is what `open`
    would rebuild, opening succeeds whether or not a handle is cached, and the whole repo of
    every account with a head can be exported.
   */
  lemma {:induction false} CleanRunFromNothing(w: World, steps: seq<Step>, did: Did)
    requires WorldOk(w) && CleanRun(w, NOTHING, steps)
    ensures (forall i :: 0 <= i < |steps| ==> steps[i].Shaped())
    ensures var s := Run(w, NOTHING, steps);
            && Inv(w, s)
            && Opened(w, s, did) == Opened(w, Restart(s), did) == Some(Fresh(w, RowsOf(s, did)))
            && Restart(s).handles == map[] && Restart(s).rows == s.rows && Restart(s).blocks == s.blocks
            && (HeadOf(RowsOf(s, did)).Some? ==> RepoCar(s, did, None).Some?)
  {
    CleanRunKeepsInv(w, NOTHING, steps);
    var s := Run(w, NOTHING, steps);
    OpensAtHead(w, s, did);
    OpensAtHead(w, Restart(s), did);
    RowsOk(w, s, did);
  }

  /** Two stretches of log, followed one after the other. */
  lemma FollowThrough(w: World, did: Did, r: Replica, a: seq<Event>, b: seq<Event>, c: seq<Event>)
    requires a <= b <= c && Follow(w, did, r, b[|a|..]).Some?
    ensures a <= c
    ensures Follow(w, did, r, c[|a|..]) == Follow(w, did, Follow(w, did, r, b[|a|..]).value, c[|b|..])
  {
    assert c[|a|..] == b[|a|..] + c[|b|..];
    FollowAppend(w, did, r, b[|a|..], c[|b|..]);
  }

  lemma NoResetTail(steps: seq<Step>, did: Did)
    requires steps != [] && NoReset(steps, did)
    ensures !steps[0].Resets(did) && NoReset(steps[1..], did)
  {
    forall i | 0 <= i < |steps[1..]|
      ensures !steps[1..][i].Resets(did)
    {
      assert steps[1..][i] == steps[i + 1];
    }
  }

  /**
    The event log is a faithful replica: over a clean run that neither imports into nor deletes
    the account, a consumer that starts at its head and follows the log accepts every event and
    ends at its head, with the same records and every reachable block.
   */
  lemma {:induction false} LogIsFaithful(w: World, s: State, steps: seq<Step>, did: Did, r: Replica)
    requires WorldOk(w) && Inv(w, s) && CleanRun(w, s, steps) && NoReset(steps, did)
    requires Mirrors(w, r, RowsOf(s, did))
    ensures (forall i :: 0 <= i < |steps| ==> steps[i].Shaped())
    ensures var s' := Run(w, s, steps);
            && s.log <= s'.log
            && KeepsCommits(RowsOf(s, did), RowsOf(s', did))
            && var last := Follow(w, did, r, s'.log[|s.log|..]);
               last.Some? && Mirrors(w, last.value, RowsOf(s', did))
    decreases |steps|
  {
    CleanRunShaped(w, s, steps);
    if steps == [] {
      assert s.log[|s.log|..] == [];
    } else {
      var mid := Do(w, s, steps[0]);
      StepKeepsAll(w, s, steps[0], did);
      var next := Follow(w, did, r, mid.log[|s.log|..]).value;
      NoResetTail(steps, did);
      LogIsFaithful(w, mid, steps[1..], did, next);
      FollowThrough(w, did, r, s.log, mid.log, Run(w, s, steps).log);
    }
  }

  /** The export since a kept rev never fails, and reaches the head from there. */
  lemma ExportSinceReaches(w: World, s: State, did: Did, rev: Rev)
    requires Inv(w, s) && rev in RowsOf(s, did).commits
    ensures var t := RowsOf(s, did);
            var car := RepoCar(s, did, Some(rev));
            car.Some? && Reached(w, HeadOf(t)) <= w.reach(t.commits[rev].cid) + car.value.blocks.Keys
  {
    RowsOk(w, s, did);
    HeadIsMax(RowsOf(s, did));
  }

  /**
    Incremental sync is complete: whoever held the blocks of an earlier head, and is given the
    blocks selected by since = that head's rev, holds every block of the current head.
   */
  lemma IncrementalSyncIsComplete(w: World, s: State, steps: seq<Step>, did: Did)
    requires WorldOk(w) && Inv(w, s) && CleanRun(w, s, steps) && NoReset(steps, did)
    requires HeadOf(RowsOf(s, did)).Some?
    ensures (forall i :: 0 <= i < |steps| ==> steps[i].Shaped())
    ensures var was := HeadOf(RowsOf(s, did)).value;
            var s' := Run(w, s, steps);
            var car := RepoCar(s', did, Some(was.rev));
            car.Some? && Reached(w, HeadOf(RowsOf(s', did))) <= w.reach(was.cid) + car.value.blocks.Keys
  {
    var t := RowsOf(s, did);
    LogIsFaithful(w, s, steps, did, Replica(HeadOf(t), HeadTree(w, t), Reached(w, HeadOf(t))));
    CleanRunKeepsInv(w, s, steps);
    HeadIsMax(t);
    ExportSinceReaches(w, Run(w, s, steps), did, HeadOf(t).value.rev);
  }
}
