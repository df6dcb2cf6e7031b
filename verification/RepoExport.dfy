/** A full export imported into a cleared account is the account again. */
module RepoExport {
  import opened Basics
  import opened RecordPath
  import opened WriteBatch
  import opened RepoState
  import opened RepoInvariant
  import opened RepoSteps

  lemma IndexIsUnique(a: Index, b: Index, tree: Tree)
    requires IndexIs(a, tree) && IndexIs(b, tree)
    ensures a == b
  {
    forall k
      ensures k in a <==> k in b
      ensures k in a ==> a[k] == b[k]
    {
      if k in a || k in b {
        assert Get(a, k) == Get(b, k);
      }
    }
  }

  /** Every record below a data root converts to JSON. */
  ghost predicate Converts(w: World, data: Cid) {
    forall p :: p in w.tree(data) ==> w.converts(w.tree(data)[p])
  }

  /** The whole repo can be exported: every listed block, with the bytes its CID says. */
  lemma FullCar(w: World, s: State, did: Did)
    requires BlocksOk(w, s) && RowsSigned(w, did, RowsOf(s, did), s.blocks.Keys) && HeadOf(RowsOf(s, did)).Some?
    ensures var car := RepoCar(s, did, None);
            && car.Some? && car.value.roots == [HeadOf(RowsOf(s, did)).value.cid]
            && car.value.blocks.Keys == RowsOf(s, did).revs.Keys && CarOk(w, car.value)
  {
    assert RepoCids(RowsOf(s, did), None) == RowsOf(s, did).revs.Keys;
  }

  /** What is exported of an account in order is a complete CAR. */
  lemma ExportIsComplete(w: World, s: State, did: Did)
    requires WorldOk(w) && Inv(w, s) && HeadOf(RowsOf(s, did)).Some?
    requires forall p :: p in HeadTree(w, RowsOf(s, did)) ==> Importable(Cut(p))
    ensures var car := RepoCar(s, did, None);
            && car.Some?
            && car.value.roots == [HeadOf(RowsOf(s, did)).value.cid]
            && car.value.blocks.Keys == RowsOf(s, did).revs.Keys
            && CarOk(w, car.value) && CompleteCar(w, car.value)
  {
    var t := RowsOf(s, did);
    RowsOk(w, s, did);
    FullCar(w, s, did);
    HeadIsMax(t);
    OrderIsComplete(w, did, t, s.blocks.Keys, RepoCar(s, did, None).value);
  }

  lemma OrderIsComplete(w: World, did: Did, t: Tables, stored: set<Cid>, car: Car)
    requires AccountOk(w, did, t, stored) && HeadOf(t).Some?
    requires forall p :: p in HeadTree(w, t) ==> Importable(Cut(p))
    requires car.roots == [HeadOf(t).value.cid] && car.blocks.Keys == t.revs.Keys
    ensures CompleteCar(w, car)
  {
    HeadIsMax(t);
    assert RepoCids(t, None) == t.revs.Keys;
  }

  /** Where all that a commit reaches is stored, only a record that does not convert stops the walk. */
  lemma ReachIsWalked(w: World, root: Cid, stored: set<Cid>)
    requires WorldOk(w) && w.signed(root).Some? && w.reach(root) <= stored
    ensures var data := w.signed(root).value.data;
            && (Converts(w, data) ==> WalkOk(w, data, stored))
            && (WalkOk(w, data, stored) && (forall p :: p in w.tree(data) ==> Importable(Cut(p))) ==> Converts(w, data))
  {
    var tree := w.tree(w.signed(root).value.data);
    forall p | p in tree
      ensures tree[p] in stored
    {
      assert tree[p] in tree.Values;
    }
  }

  /** A complete CAR of the account is refused only when one of its records does not convert. */
  lemma ImportSucceeds(w: World, t: State, did: Did, car: Car)
    requires WorldOk(w) && |car.roots| == 1 && car.roots[0] in car.blocks && CompleteCar(w, car)
    requires w.signed(car.roots[0]).Some? && w.signed(car.roots[0]).value.did == did
    ensures var r := ImportRepo(w, t, did, car, false);
            var sc := w.signed(car.roots[0]).value;
            && (r.result.Ok? <==> Converts(w, sc.data))
            && car.blocks.Keys <= r.state.blocks.Keys
            && (r.result.Ok? ==> RowsOf(r.state, did) == ImportedRows(w, car.roots[0], sc, car))
  {
    assert w.reach(car.roots[0]) <= (car.blocks + t.blocks).Keys;
    ReachIsWalked(w, car.roots[0], (car.blocks + t.blocks).Keys);
  }

  /** The rows an import of the account's own export writes. */
  lemma RestoredRows(w: World, t: Tables, head: Head, sc: Signed, car: Car)
    requires HeadOf(t) == Some(head) && sc.rev == head.rev && sc.data == head.data
    requires car.blocks.Keys == t.revs.Keys
    requires IndexIs(t.records, w.tree(head.data))
    requires forall p :: p in w.tree(head.data) ==> '/' in p && Importable(Cut(p))
    ensures var again := ImportedRows(w, head.cid, sc, car);
            HeadOf(again) == Some(head) && again.records == t.records && again.revs.Keys == t.revs.Keys
  {
    var again := ImportedRows(w, head.cid, sc, car);
    assert again.commits == map[head.rev := Commit(head.cid, head.data)];
    assert head.rev in again.commits;
    HeadIsMax(again);
    ImportedIndexIs(w.tree(head.data));
    IndexIsUnique(again.records, t.records, w.tree(head.data));
  }

  /** Rows over the blocks of a CAR export that CAR, whatever state they are restored into. */
  lemma ExportedAgain(w: World, s: State, did: Did, car: Car)
    requires HeadOf(RowsOf(s, did)).Some? && car.roots == [HeadOf(RowsOf(s, did)).value.cid]
    requires RowsOf(s, did).revs.Keys == car.blocks.Keys <= s.blocks.Keys
    requires CarOk(w, car) && BlocksOk(w, s)
    ensures RepoCar(s, did, None) == Some(car)
  {
    var t := RowsOf(s, did);
    assert RepoCids(t, None) == car.blocks.Keys;
    assert (map c | c in RepoCids(t, None) :: s.blocks[c]) == car.blocks;
  }

  /** The head's own block is in the export, and its records are the index. */
  lemma HeadIsExported(w: World, s: State, did: Did)
    requires WorldOk(w) && Inv(w, s) && HeadOf(RowsOf(s, did)).Some?
    ensures var t := RowsOf(s, did);
            HeadOf(t).value.cid in t.revs && IndexIs(t.records, w.tree(HeadOf(t).value.data))
  {
    RowsOk(w, s, did);
    HeadIsSigned(w, s, did);
    var t := RowsOf(s, did);
    assert HeadOf(t).value.cid in RepoCids(t, None);
  }

  /**
    Export then import is the identity. The full CAR of an account in a state of a clean run,
    imported over any other state (the account cleared, the block store even empty), is accepted
    exactly when every record converts to JSON, and then restores head, record index and block
    set; it can be exported again unchanged; and the invariant, incremental sync with it, holds
    from there on.
   */
  lemma ExportThenImport(w: World, s: State, t: State, did: Did)
    requires WorldOk(w) && Inv(w, s) && Inv(w, t) && HeadOf(RowsOf(s, did)).Some?
    requires forall p :: p in HeadTree(w, RowsOf(s, did)) ==> Importable(Cut(p))
    ensures var car := RepoCar(s, did, None);
            car.Some? &&
            var r := ImportRepo(w, t, did, car.value, false);
            && Inv(w, r.state)
            && (r.result.Ok? <==> Converts(w, HeadOf(RowsOf(s, did)).value.data))
            && (r.result.Ok? ==>
                  && HeadOf(RowsOf(r.state, did)) == HeadOf(RowsOf(s, did))
                  && RowsOf(r.state, did).records == RowsOf(s, did).records
                  && RowsOf(r.state, did).revs.Keys == RowsOf(s, did).revs.Keys
                  && RepoCar(r.state, did, None) == car)
  {
    var head := HeadOf(RowsOf(s, did)).value;
    ExportIsComplete(w, s, did);
    HeadIsSigned(w, s, did);
    HeadIsExported(w, s, did);
    var car := RepoCar(s, did, None).value;
    var sc := w.signed(head.cid).value;
    RestoredRows(w, RowsOf(s, did), head, sc, car);
    ImportSucceeds(w, t, did, car);
    ImportKeepsInv(w, t, did, car, false);
    if ImportRepo(w, t, did, car, false).result.Ok? {
      ExportedAgain(w, ImportRepo(w, t, did, car, false).state, did, car);
    }
  }

  // ----- when an import or an export is refused -------------------------------------------

  /** A tree block or an indexed record is missing, or a record does not convert. */
  ghost predicate WalkStops(w: World, data: Cid, stored: set<Cid>) {
    || (exists c :: c in w.nodes(data) && c !in stored)
    || (exists p :: p in w.tree(data) && Importable(Cut(p))
          && (w.tree(data)[p] !in stored || !w.converts(w.tree(data)[p])))
  }

  lemma WalkStopsExactlyWhen(w: World, data: Cid, stored: set<Cid>)
    ensures WalkStops(w, data, stored) <==> !WalkOk(w, data, stored)
  {
  }

  /** What stops an import, in the order it is looked at. */
  ghost predicate ImportStops(w: World, did: Did, car: Car, broken: bool, stored: set<Cid>, fault: Fault) {
    if |car.roots| != 1 then fault == BadRoots
    else if broken then fault == CarBroken
    else if car.roots[0] !in stored || w.signed(car.roots[0]).None? then fault == OpenFailed
    else if w.signed(car.roots[0]).value.did != did then fault == WrongDid
    else fault == WalkFailed && WalkStops(w, w.signed(car.roots[0]).value.data, stored)
  }

  lemma StopsOnce(w: World, s: State, did: Did, car: Car, broken: bool, stored: set<Cid>, fault: Fault)
    requires stored == (car.blocks + s.blocks).Keys
    ensures ImportRepo(w, s, did, car, broken).result == Err(fault) <==> ImportStops(w, did, car, broken, stored, fault)
  {
    if |car.roots| == 1 && w.signed(car.roots[0]).Some? {
      WalkStopsExactlyWhen(w, w.signed(car.roots[0]).value.data, stored);
    }
  }

  lemma FailedImportAdds(w: World, s: State, did: Did, car: Car, broken: bool)
    requires ImportRepo(w, s, did, car, broken).result.Err?
    ensures ImportRepo(w, s, did, car, broken).state
         == if |car.roots| == 1 then s.(blocks := car.blocks + s.blocks) else s
  {
  }

  /**
    An import fails exactly when the CAR has not one root, is broken, has no commit of this account
    at its root, or when a block of its tree or a record is missing or does not convert. Failed, it
    has at most added the blocks of the CAR, which it has exactly when there was one root.
   */
  lemma ImportFailsExactlyWhen(w: World, s: State, did: Did, car: Car, broken: bool, fault: Fault)
    ensures var r := ImportRepo(w, s, did, car, broken);
            && (r.result == Err(fault) <==>
                  ImportStops(w, did, car, broken, s.blocks.Keys + car.blocks.Keys, fault))
            && (r.result.Err? ==>
                  r.state == if |car.roots| == 1 then s.(blocks := car.blocks + s.blocks) else s)
  {
    assert (car.blocks + s.blocks).Keys == s.blocks.Keys + car.blocks.Keys;
    StopsOnce(w, s, did, car, broken, s.blocks.Keys + car.blocks.Keys, fault);
    if ImportRepo(w, s, did, car, broken).result.Err? {
      FailedImportAdds(w, s, did, car, broken);
    }
  }

  /** Rows with the one commit of a CAR, and its blocks at that commit's rev. */
  ghost predicate CarRows(w: World, car: Car, t: Tables) {
    |car.roots| == 1 && w.signed(car.roots[0]).Some? &&
    var sc := w.signed(car.roots[0]).value;
    && t.commits == map[sc.rev := Commit(car.roots[0], sc.data)]
    && t.revs.Keys == car.blocks.Keys && (forall c :: c in t.revs ==> t.revs[c] == sc.rev)
  }

  /** One account's rows replaced and its handle dropped, and no other account moved. */
  ghost predicate OnlyReplaced(s: State, after: State, did: Did) {
    && did !in after.handles
    && (forall d :: d != did ==> Get(after.rows, d) == Get(s.rows, d))
    && (forall d :: d != did ==> Get(after.handles, d) == Get(s.handles, d))
  }

  lemma RowsReplaced(s: State, stored: State, did: Did, t: Tables)
    requires stored.rows == s.rows && stored.handles == s.handles
    ensures OnlyReplaced(s, Replaced(stored, did, t), did) && RowsOf(Replaced(stored, did, t), did) == t
  {
  }

  /** An import that does not fail puts the CAR in place of the account's rows. */
  lemma ImportReplaces(w: World, s: State, did: Did, car: Car, broken: bool)
    requires ImportRepo(w, s, did, car, broken).result.Ok?
    ensures var after := ImportRepo(w, s, did, car, broken).state;
            OnlyReplaced(s, after, did) && CarRows(w, car, RowsOf(after, did))
  {
    ImportOutcome(w, s, did, car, broken);
    RowsReplaced(s, s.(blocks := car.blocks + s.blocks), did,
                 ImportedRows(w, car.roots[0], w.signed(car.roots[0]).value, car));
  }

  /** An export fails exactly when there is no commit, or a block it selects is not stored; it holds what it selects. */
  lemma ExportFailsExactlyWhen(s: State, did: Did, since: Option<Rev>)
    ensures var t := RowsOf(s, did);
            var car := RepoCar(s, did, since);
            && (car.None? <==>
                  || t.commits == map[]
                  || exists c :: c in t.revs && (since.None? || t.revs[c] > since.value) && c !in s.blocks)
            && (car.Some? ==>
                  forall c ::
                    Get(car.value.blocks, c)
                    == if c in t.revs && (since.None? || t.revs[c] > since.value) then Get(s.blocks, c) else None)
  {
    HeadIsMax(RowsOf(s, did));
    assert forall c :: c in RepoCids(RowsOf(s, did), since)
                  <==> c in RowsOf(s, did).revs && (since.None? || RowsOf(s, did).revs[c] > since.value);
  }
}
