/** A repo small enough to write down: a clean run of it, and a write that aborts half-way. */
module RepoExample {
  import opened Basics
  import opened RecordPath
  import opened WriteBatch
  import opened BatchLaws
  import opened DeferredIndex
  import opened RepoState
  import opened RepoInvariant
  import opened RepoSteps
  import opened RepoRejected
  import opened RepoStale
  import opened RepoRuns

  /** One account with an empty commit (blocks 0 and 1), and a commit (blocks 2 to 5) that may follow. */
  function SmallWorld(): World {
    World(c => if c == Cid(0) then Some(Signed("d", 1, Cid(1)))
               else if c == Cid(2) then Some(Signed("d", 2, Cid(3)))
               else None,
          c => if c == Cid(3) then map["a/x" := Cid(4), "a/z" := Cid(5)] else map[],
          c => if c == Cid(1) || c == Cid(3) then {c} else {},
          c => if c == Cid(0) then {Cid(0), Cid(1)} else if c == Cid(2) then {Cid(2), Cid(3), Cid(4), Cid(5)} else {},
          c => "",
          c => true)
  }

  function SmallState(): State {
    State(map["d" := Tables(map[1 := Commit(Cid(0), Cid(1))], map[], map[Cid(0) := 1, Cid(1) := 1])],
          map[Cid(0) := "", Cid(1) := ""], map[], None, [])
  }

  lemma SmallStateOk()
    ensures WorldOk(SmallWorld()) && Inv(SmallWorld(), SmallState())
    ensures HeadOf(RowsOf(SmallState(), "d")) == Some(Head(Cid(0), 1, Cid(1)))
  {
    var w := SmallWorld();
    var t := SmallState().rows["d"];
    assert 1 in t.commits;
    HeadIsMax(t);
    assert RepoCids(t, None) == {Cid(0), Cid(1)};
    forall c | w.signed(c).Some?
      ensures c in w.reach(c) && w.nodes(w.signed(c).value.data) <= w.reach(c)
      ensures w.tree(w.signed(c).value.data).Values <= w.reach(c)
    {
      assert w.tree(Cid(3)).Values == {Cid(4), Cid(5)} by {
        var m: Tree := map["a/x" := Cid(4), "a/z" := Cid(5)];
        assert m["a/x"] == Cid(4) && m["a/z"] == Cid(5);
      }
    }
  }

  const CREATED := [Op(Action.Create, "a", "x", Cid(4), None), Op(Action.Create, "a", "z", Cid(5), None)]
  const CREATED_OUTS := [TreeOut(true, "", [Cid(4)]), TreeOut(true, "", [Cid(5)])]
  const COMMIT := CommitOut(true, Cid(2), 2, Cid(3), [Cid(2), Cid(3)])

  /** The two creates, one after the other. */
  lemma CreatedBatch()
    ensures var p := RunOps(map[], Start(map[]), CREATED, CREATED_OUTS);
            && p.err.None? && p.batch.tree == map["a/x" := Cid(4), "a/z" := Cid(5)] && p.batch.puts == {Cid(4), Cid(5)}
            && LibraryOk(map[], Start(map[]), CREATED, CREATED_OUTS)
            && DeletesLast(CREATED) && AvoidsMinted({}, CREATED, CREATED_OUTS) && OpsJoinable(CREATED)
  {
    assert Path(CREATED[0].Named()) == "a/x" && Path(CREATED[1].Named()) == "a/z";
    var one := StepOp(map[], Start(map[]), CREATED[0], CREATED_OUTS[0]);
    assert CREATED[1..] == [CREATED[1]] && CREATED_OUTS[1..] == [CREATED_OUTS[1]];
    var two := StepOp(map[], one.batch, CREATED[1], CREATED_OUTS[1]);
    assert RunOps(map[], one.batch, CREATED[1..], CREATED_OUTS[1..]) == two;
    assert LibraryOk(map[], two.batch, [], []);
    assert LibraryOk(map[], one.batch, CREATED[1..], CREATED_OUTS[1..]);
  }

  lemma CommitIsOk()
    ensures CommitOk(SmallWorld(), "d", Handle(map["a/x" := Cid(4), "a/z" := Cid(5)], Some(Head(Cid(0), 1, Cid(1)))),
                     COMMIT)
  {
    var tree: Tree := map["a/x" := Cid(4), "a/z" := Cid(5)];
    assert tree["a/x"] == Cid(4) && tree["a/z"] == Cid(5);
    assert Cid(4) in tree.Values && Cid(5) in tree.Values;
    assert Cid(2) in ToSet(COMMIT.puts) && Cid(3) in ToSet(COMMIT.puts);
  }

  /** What is assumed of the library, and cleanness, can be met by a write that commits. */
  lemma CleanWriteExists()
    ensures WriteContract(SmallWorld(), SmallState(), "d", CREATED, CREATED_OUTS, COMMIT)
    ensures CleanWrite(SmallWorld(), SmallState(), "d", CREATED, CREATED_OUTS, COMMIT)
    ensures ApplyWrites(SmallWorld(), SmallState(), "d", CREATED, CREATED_OUTS, None, COMMIT).result.Ok?
  {
    var w, s := SmallWorld(), SmallState();
    SmallStateOk();
    OpensAtHead(w, s, "d");
    CreatedBatch();
    CommitIsOk();
    RowsOk(w, s, "d");
    AcceptedIsReady(w, "d", RowsOf(s, "d"), s.blocks.Keys, CREATED, CREATED_OUTS, COMMIT);
    FinishKeeps(w, s, "d", RunOps(map[], Start(map[]), CREATED, CREATED_OUTS).batch, COMMIT);
  }

  lemma OneStepRun(w: World, s: State, step: Step)
    requires step.Shaped() && Contract(w, s, step) && Clean(w, s, step)
    ensures CleanRun(w, s, [step])
  {
    assert [step][1..] == [];
    assert CleanRun(w, Do(w, s, step), []);
  }

  /** A clean run with that commit in it. */
  lemma CleanRunExists()
    ensures CleanRun(SmallWorld(), SmallState(), [Step.Write("d", CREATED, CREATED_OUTS, None, COMMIT)])
  {
    CleanWriteExists();
    OneStepRun(SmallWorld(), SmallState(), Step.Write("d", CREATED, CREATED_OUTS, None, COMMIT));
  }

  // ----- an aborted batch, and the write after it ------------------------------------------

  /** What there is to know about the small repo here. */
  ghost predicate Small(w: World, s: State) {
    var t := RowsOf(s, "d");
    && WorldOk(w) && Inv(w, s) && HeadTree(w, t) == map[] && t.revs.Keys == {Cid(0), Cid(1)}
    && CommitOk(w, "d", Handle(map["a/x" := Cid(4), "a/z" := Cid(5)], HeadOf(t)), COMMIT)
  }

  lemma ASmallRepo() returns (w: World, s: State)
    ensures Small(w, s)
  {
    w, s := SmallWorld(), SmallState();
    SmallStateOk();
    CommitIsOk();
  }

  /** A batch that creates a/x and deletes a/y, and a create of a/z after it. */
  lemma SmallScenario()
    returns (w: World, s: State, k: Key, rec: Cid, absent: Key, k': Key, rec': Cid, co: CommitOut)
    ensures Scenario(w, s, "d", k, rec, absent, k', rec', co) && k'.rkey != ""
    ensures rec !in RowsOf(s, "d").revs.Keys + {rec'} + ToSet(co.puts)
  {
    w, s := ASmallRepo();
    k, rec, absent, k', rec', co := SmallKeys(w, s);
    NotListed(RowsOf(s, "d").revs.Keys, co.puts);
  }

  lemma ThreeKeys() returns (k: Key, absent: Key, k': Key)
    ensures Joinable(k) && Joinable(absent) && Joinable(k') && k != absent && k != k' && k.rkey != "" && k'.rkey != ""
    ensures k == Key("a", "x") && k' == Key("a", "z")
  {
    k, absent, k' := Key("a", "x"), Key("a", "y"), Key("a", "z");
  }

  lemma SmallKeys(w: World, s: State)
    returns (k: Key, rec: Cid, absent: Key, k': Key, rec': Cid, co: CommitOut)
    requires Small(w, s)
    ensures Scenario(w, s, "d", k, rec, absent, k', rec', co) && k'.rkey != ""
    ensures rec == Cid(4) && rec' == Cid(5) && co.puts == [Cid(2), Cid(3)]
  {
    k, absent, k' := ThreeKeys();
    rec, rec', co := Cid(4), Cid(5), COMMIT;
    TwoRecords(HeadTree(w, RowsOf(s, "d")), k, k', rec, rec');
  }

  lemma NotListed(listed: set<Cid>, puts: seq<Cid>)
    requires listed == {Cid(0), Cid(1)} && puts == [Cid(2), Cid(3)]
    ensures Cid(4) !in listed + {Cid(5)} + ToSet(puts)
  {
    assert Cid(4) !in puts;
  }

  lemma TwoRecords(tree: Tree, k: Key, k': Key, rec: Cid, rec': Cid)
    requires tree == map[] && k == Key("a", "x") && k' == Key("a", "z") && rec == Cid(4) && rec' == Cid(5)
    ensures tree[Path(k) := rec][Path(k') := rec'] == map["a/x" := Cid(4), "a/z" := Cid(5)]
  {
    assert Path(k) == "a/x" && Path(k') == "a/z";
  }

  lemma TwoBatches(k: Key, rec: Cid, absent: Key, k': Key, rec': Cid)
    returns (bad: seq<Op>, badOuts: seq<TreeOut>, next: seq<Op>, nextOuts: seq<TreeOut>)
    requires k'.rkey != ""
    ensures CreateThenBadDelete(bad, badOuts, k, rec, absent) && CreateOne(next, nextOuts, k', rec')
  {
    bad := [Op(Action.Create, k.collection, k.rkey, rec, None),
            Op(Action.Delete, absent.collection, absent.rkey, rec, None)];
    badOuts := [TreeOut(true, "", [rec]), TreeOut(true, "", [])];
    next := [Op(Action.Create, k'.collection, k'.rkey, rec', None)];
    nextOuts := [TreeOut(true, "", [rec'])];
  }

  /**
    From a state of a clean run, a refused batch and an accepted one after which an export lacks a
    block of its head.
   */
  lemma BrokenExportExists()
    returns (w: World, s: State, bad: seq<Op>, badOuts: seq<TreeOut>,
             next: seq<Op>, nextOuts: seq<TreeOut>, co: CommitOut)
    ensures WorldOk(w) && Inv(w, s) && |bad| == |badOuts| && |next| == |nextOuts|
    ensures var first := ApplyWrites(w, s, "d", bad, badOuts, None, co);
            var r := ApplyWrites(w, first.state, "d", next, nextOuts, None, co);
            var car := RepoCar(r.state, "d", None);
            first.result.Err? && r.result.Ok? && car.Some? && !(w.reach(co.cid) <= car.value.blocks.Keys)
  {
    var k, rec, absent, k', rec';
    w, s, k, rec, absent, k', rec', co := SmallScenario();
    bad, badOuts, next, nextOuts := TwoBatches(k, rec, absent, k', rec');
    AbortThenCreateBreaksExport(w, s, "d", bad, badOuts, k, rec, absent, next, nextOuts, co, k', rec');
  }

  /** And the same two writes, after which no consumer that was at the head accepts the event. */
  lemma BrokenLogExists()
    returns (w: World, s: State, bad: seq<Op>, badOuts: seq<TreeOut>,
             next: seq<Op>, nextOuts: seq<TreeOut>, co: CommitOut)
    ensures WorldOk(w) && Inv(w, s) && |bad| == |badOuts| && |next| == |nextOuts|
    ensures var first := ApplyWrites(w, s, "d", bad, badOuts, None, co);
            first.result.Err? && Untold(w, first.state, "d", ApplyWrites(w, first.state, "d", next, nextOuts, None, co))
  {
    var k, rec, absent, k', rec';
    w, s, k, rec, absent, k', rec', co := SmallScenario();
    bad, badOuts, next, nextOuts := TwoBatches(k, rec, absent, k', rec');
    AbortThenCreateBreaksLog(w, s, "d", bad, badOuts, k, rec, absent, next, nextOuts, co, k', rec');
  }

  // ----- a CAR without its whole repo -----------------------------------------------------

  /** The small repo's CAR without the block of its tree, which the store still holds. */
  const PARTIAL := Car([Cid(0)], map[Cid(0) := ""])

  lemma PartialImportExists()
    ensures var r := ImportRepo(SmallWorld(), SmallState(), "d", PARTIAL, false);
            && r.result.Ok? && !AccountOk(SmallWorld(), "d", RowsOf(r.state, "d"), r.state.blocks.Keys)
  {
    SmallStateOk();
    PartialCarIsAccepted(SmallWorld(), SmallState(), "d", PARTIAL);
  }
}
