/**
  Paging of an account's blobs. Here the cursor is taken from the extra row that was read to see
  whether there is a next page, and the next page starts beyond it.
 */
module BlobPaging {
  import opened Basics

  /** A row of the blobs table; creation stamps are TIDs, of which only the order matters. */
  datatype Blob = Blob(cid: string, created: nat)

  datatype Page = Page(cids: seq<string>, next: Option<nat>)

  /** The account's rows, ORDER BY created_at; the clock never gives out a stamp twice. */
  ghost predicate Ordered(rows: seq<Blob>) {
    forall i, j :: 0 <= i < j < |rows| ==> rows[i].created < rows[j].created
  }

  /** WHERE created_at > the stamp, when one is given. */
  function Beyond(rows: seq<Blob>, stamp: Option<nat>): seq<Blob>
    decreases |rows|
  {
    if rows == [] then []
    else (if stamp.None? || rows[0].created > stamp.value then [rows[0]] else []) + Beyond(rows[1..], stamp)
  }

  function Cids(rows: seq<Blob>): (cids: seq<string>)
    ensures |cids| == |rows| && forall i :: 0 <= i < |rows| ==> cids[i] == rows[i].cid
  {
    seq(|rows|, i requires 0 <= i < |rows| => rows[i].cid)
  }

  function PageOf(rows: seq<Blob>, since: Option<nat>, cursor: Option<nat>, limit: nat): Page {
    var found := Beyond(Beyond(rows, since), cursor);
    if |found| > limit then Page(Cids(found[..limit]), Some(found[limit].created)) else Page(Cids(found), None)
  }

  /** The pages of a table that does not change, by cursor. */
  function Pages(rows: seq<Blob>, since: Option<nat>, limit: nat): Option<nat> -> Page {
    cursor => PageOf(rows, since, cursor, limit)
  }

  /** Following cursors, for at most `fuel` pages. */
  function Walk(pages: Option<nat> -> Page, cursor: Option<nat>, fuel: nat): seq<string>
    decreases fuel
  {
    if fuel == 0 then []
    else
      var page := pages(cursor);
      page.cids + if page.next.None? then [] else Walk(pages, page.next, fuel - 1)
  }

  lemma {:induction false} BeyondNothing(rows: seq<Blob>)
    ensures Beyond(rows, None) == rows
    decreases |rows|
  {
    if rows != [] {
      BeyondNothing(rows[1..]);
    }
  }

  lemma {:induction false} BeyondAll(rows: seq<Blob>, stamp: nat)
    requires forall i :: 0 <= i < |rows| ==> rows[i].created > stamp
    ensures Beyond(rows, Some(stamp)) == rows
    decreases |rows|
  {
    if rows != [] {
      BeyondAll(rows[1..], stamp);
    }
  }

  /** The rows beyond the n-th row's stamp are the rows after it. */
  lemma {:induction false} BeyondRow(rows: seq<Blob>, n: nat)
    requires Ordered(rows) && n < |rows|
    ensures Beyond(rows, Some(rows[n].created)) == rows[n + 1..]
    decreases |rows|
  {
    if n == 0 {
      BeyondAll(rows[1..], rows[0].created);
    } else {
      BeyondRow(rows[1..], n - 1);
      assert rows[1..][n..] == rows[n + 1..];
    }
  }

  /** Filtering twice by stamps is filtering once by the later one. */
  lemma {:induction false} BeyondBoth(rows: seq<Blob>, since: Option<nat>, stamp: nat)
    requires since.Some? ==> since.value <= stamp
    ensures Beyond(Beyond(rows, since), Some(stamp)) == Beyond(rows, Some(stamp))
    decreases |rows|
  {
    if rows != [] {
      BeyondBoth(rows[1..], since, stamp);
      var tail := Beyond(rows[1..], since);
      if since.None? || rows[0].created > since.value {
        assert ([rows[0]] + tail)[1..] == tail;
      } else {
        assert [] + tail == tail;
      }
    }
  }

  lemma {:induction false} BeyondKeepsOrder(rows: seq<Blob>, stamp: Option<nat>)
    requires Ordered(rows)
    ensures Ordered(Beyond(rows, stamp))
    ensures forall i :: 0 <= i < |Beyond(rows, stamp)| ==>
              (stamp.Some? ==> Beyond(rows, stamp)[i].created > stamp.value)
    ensures rows != [] ==>
              forall i :: 0 <= i < |Beyond(rows, stamp)| ==> Beyond(rows, stamp)[i].created >= rows[0].created
    decreases |rows|
  {
    if rows != [] {
      BeyondKeepsOrder(rows[1..], stamp);
    }
  }

  /** The rows a walk gives out: `limit` of them, then one is passed over, and so on. */
  function Given(rows: seq<Blob>, limit: nat): seq<Blob>
    decreases |rows|
  {
    if |rows| <= limit then rows else rows[..limit] + Given(rows[limit + 1..], limit)
  }

  lemma CidsConcat(a: seq<Blob>, b: seq<Blob>)
    ensures Cids(a + b) == Cids(a) + Cids(b)
  {
  }

  /** The cursor under which the walk goes on at the n-th row found. */
  function CursorAt(found: seq<Blob>, n: nat): Option<nat>
    requires n <= |found|
  {
    if n == 0 then None else Some(found[n - 1].created)
  }

  lemma FoundFrom(rows: seq<Blob>, since: Option<nat>, n: nat)
    requires Ordered(rows) && n <= |Beyond(rows, since)|
    ensures var found := Beyond(rows, since); Beyond(found, CursorAt(found, n)) == found[n..]
  {
    var found := Beyond(rows, since);
    BeyondKeepsOrder(rows, since);
    if n == 0 {
      BeyondNothing(found);
    } else {
      BeyondRow(found, n - 1);
    }
  }

  /** The page that starts at the n-th row found. */
  function PageFrom(found: seq<Blob>, n: nat, limit: nat): Page
    requires n <= |found|
  {
    if |found| - n > limit then Page(Cids(found[n..][..limit]), CursorAt(found, n + limit + 1))
    else Page(Cids(found[n..]), None)
  }

  lemma PageAt(rows: seq<Blob>, since: Option<nat>, found: seq<Blob>, n: nat, limit: nat)
    requires Ordered(rows) && found == Beyond(rows, since) && n <= |found|
    ensures Pages(rows, since, limit)(CursorAt(found, n)) == PageFrom(found, n, limit)
  {
    FoundFrom(rows, since, n);
    if |found| - n > limit {
      assert found[n..][limit] == found[n + limit];
    }
  }

  lemma GivenOnce(left: seq<Blob>, limit: nat)
    ensures Cids(Given(left, limit)) ==
            if |left| > limit then Cids(left[..limit]) + Cids(Given(left[limit + 1..], limit)) else Cids(left)
  {
    if |left| > limit {
      CidsConcat(left[..limit], Given(left[limit + 1..], limit));
    }
  }

  lemma DropTwice(found: seq<Blob>, a: nat, b: nat)
    requires a + b <= |found|
    ensures found[a..][b..] == found[a + b..]
  {
  }

  lemma WalkPage(pages: Option<nat> -> Page, cursor: Option<nat>, fuel: nat, cids: seq<string>, next: Option<nat>)
    requires fuel > 0 && pages(cursor) == Page(cids, next)
    ensures Walk(pages, cursor, fuel) == if next.None? then cids else cids + Walk(pages, next, fuel - 1)
  {
    assert cids + [] == cids;
  }

  ghost predicate PagesOf(pages: Option<nat> -> Page, found: seq<Blob>, limit: nat) {
    forall m {:trigger PageFrom(found, m, limit)} ::
      0 <= m <= |found| ==> pages(CursorAt(found, m)) == PageFrom(found, m, limit)
  }

  lemma OnePage(pages: Option<nat> -> Page, found: seq<Blob>, n: nat, limit: nat, fuel: nat)
    requires PagesOf(pages, found, limit) && n <= |found| && fuel > 0
    ensures |found| - n <= limit ==> Walk(pages, CursorAt(found, n), fuel) == Cids(found[n..])
    ensures |found| - n > limit ==>
              Walk(pages, CursorAt(found, n), fuel)
              == Cids(found[n..][..limit]) + Walk(pages, CursorAt(found, n + limit + 1), fuel - 1)
  {
    var page := PageFrom(found, n, limit);
    assert pages(CursorAt(found, n)) == page;
    WalkPage(pages, CursorAt(found, n), fuel, page.cids, page.next);
  }

  lemma GivenFrom(found: seq<Blob>, n: nat, limit: nat)
    requires n <= |found|
    ensures |found| - n <= limit ==> Cids(Given(found[n..], limit)) == Cids(found[n..])
    ensures |found| - n > limit ==>
              Cids(Given(found[n..], limit)) == Cids(found[n..][..limit]) + Cids(Given(found[n + limit + 1..], limit))
  {
    GivenOnce(found[n..], limit);
    if |found| - n > limit {
      DropTwice(found, n, limit + 1);
    }
  }

  lemma {:induction false} WalkFromRow(pages: Option<nat> -> Page, found: seq<Blob>, n: nat, limit: nat, fuel: nat)
    requires PagesOf(pages, found, limit) && n <= |found| && fuel > |found| - n
    ensures Walk(pages, CursorAt(found, n), fuel) == Cids(Given(found[n..], limit))
    decreases fuel
  {
    OnePage(pages, found, n, limit, fuel);
    GivenFrom(found, n, limit);
    if |found| - n > limit {
      WalkFromRow(pages, found, n + limit + 1, limit, fuel - 1);
    }
  }

  /** The i-th row is given out unless its position is limit modulo limit + 1. */
  lemma {:induction false} GivenAt(rows: seq<Blob>, limit: nat, i: nat)
    requires i < |rows|
    ensures i % (limit + 1) == limit ==> forall b :: b in Given(rows, limit) && Ordered(rows) ==> b != rows[i]
    ensures i % (limit + 1) != limit ==> rows[i] in Given(rows, limit)
    decreases |rows|
  {
    if |rows| <= limit {
      SmallMod(i, limit + 1);
    } else if i <= limit {
      SmallMod(i, limit + 1);
      if i < limit {
        assert rows[..limit][i] == rows[i];
      } else if Ordered(rows) {
        GivenIsFrom(rows[limit + 1..], limit);
      }
    } else {
      ModStep(i, limit + 1);
      GivenAt(rows[limit + 1..], limit, i - limit - 1);
      assert rows[limit + 1..][i - limit - 1] == rows[i];
      if Ordered(rows) {
        assert Ordered(rows[limit + 1..]);
      }
    }
  }

  lemma {:induction false} GivenIsFrom(rows: seq<Blob>, limit: nat)
    ensures forall b :: b in Given(rows, limit) ==> b in rows
    decreases |rows|
  {
    if |rows| > limit {
      GivenIsFrom(rows[limit + 1..], limit);
    }
  }

  lemma SmallMod(i: nat, m: nat)
    requires i < m
    ensures i % m == i
  {
  }

  lemma ModStep(i: nat, m: nat)
    requires 1 <= m <= i
    ensures i % m == (i - m) % m
  {
    var q, r := (i - m) / m, (i - m) % m;
    assert i - m == q * m + r;
    assert (q + 1) * m == q * m + m;
    RemainderIs(i, m, q + 1, r);
  }

  lemma RemainderIs(i: nat, m: nat, q: nat, r: nat)
    requires r < m && i == q * m + r
    ensures i % m == r
  {
    var q', r' := i / m, i % m;
    assert i == q' * m + r';
    if q' > q {
      Multiple(q' - q, m);
    } else if q' < q {
      Multiple(q - q', m);
    }
  }

  lemma Multiple(k: nat, m: nat)
    requires k >= 1
    ensures k * m >= m
  {
    assert k * m == (k - 1) * m + m;
  }

  /**
    What a walk over a fixed table returns: the CIDs of every row since the given stamp, in
    order, except those at positions limit, 2 * limit + 1, ...: positions i with
    i mod (limit + 1) = limit.
   */
  lemma WalkSkipsRows(rows: seq<Blob>, since: Option<nat>, limit: nat, fuel: nat)
    requires Ordered(rows) && limit >= 1 && fuel > |Beyond(rows, since)|
    ensures var found := Beyond(rows, since);
            && Walk(Pages(rows, since, limit), None, fuel) == Cids(Given(found, limit))
            && forall i :: 0 <= i < |found| ==> (found[i] in Given(found, limit) <==> i % (limit + 1) != limit)
  {
    var found := Beyond(rows, since);
    assert found[0..] == found;
    forall m | 0 <= m <= |found|
      ensures Pages(rows, since, limit)(CursorAt(found, m)) == PageFrom(found, m, limit)
    {
      PageAt(rows, since, found, m, limit);
    }
    WalkFromRow(Pages(rows, since, limit), found, 0, limit, fuel);
    BeyondKeepsOrder(rows, since);
    forall i | 0 <= i < |found|
      ensures found[i] in Given(found, limit) <==> i % (limit + 1) != limit
    {
      GivenAt(found, limit, i);
    }
  }

  /** So a walk is complete exactly when one page is enough. */
  lemma WalkIsCompleteExactlyWhen(rows: seq<Blob>, since: Option<nat>, limit: nat, fuel: nat)
    requires Ordered(rows) && limit >= 1 && fuel > |Beyond(rows, since)|
    ensures Walk(Pages(rows, since, limit), None, fuel) == Cids(Beyond(rows, since)) <==> |Beyond(rows, since)| <= limit
  {
    var found := Beyond(rows, since);
    WalkSkipsRows(rows, since, limit, fuel);
    if |found| > limit {
      GivenIsShorter(found[limit + 1..], limit);
    }
  }

  lemma {:induction false} GivenIsShorter(rows: seq<Blob>, limit: nat)
    ensures |Given(rows, limit)| <= |rows|
    decreases |rows|
  {
    if |rows| > limit {
      GivenIsShorter(rows[limit + 1..], limit);
    }
  }

  /** The rows the query gives back: one more than the limit at most. */
  function Scanned(found: seq<Blob>, limit: nat): seq<Blob> {
    if |found| > limit + 1 then found[..limit + 1] else found
  }

  /** The page cut from the rows scanned: the cursor is the stamp of the last of them. */
  lemma PageFromScan(found: seq<Blob>, limit: nat)
    ensures var scanned := Scanned(found, limit);
            if |found| > limit then
              |scanned| == limit + 1 && Cids(scanned)[..limit] == Cids(found[..limit]) && scanned[limit] == found[limit]
            else scanned == found
  {
  }

  /** The page as it is read: the stamp kept is that of the last row scanned. */
  method List(rows: seq<Blob>, since: Option<nat>, cursor: Option<nat>, limit: nat)
    returns (cids: seq<string>, next: Option<nat>)
    ensures Page(cids, next) == PageOf(rows, since, cursor, limit)
  {
    var found := Beyond(Beyond(rows, since), cursor);
    var lastCreated: nat;
    cids, lastCreated := ReadCids(Scanned(found, limit));
    next := None;
    PageFromScan(found, limit);
    if |cids| > limit {
      cids := cids[..limit];
      next := Some(lastCreated);
    }
  }

  method ReadCids(scanned: seq<Blob>) returns (cids: seq<string>, lastCreated: nat)
    ensures cids == Cids(scanned)
    ensures scanned != [] ==> lastCreated == scanned[|scanned| - 1].created
  {
    cids := [];
    lastCreated := 0;
    for i := 0 to |scanned|
      invariant cids == Cids(scanned[..i])
      invariant i > 0 ==> lastCreated == scanned[i - 1].created
    {
      CidsConcat(scanned[..i], [scanned[i]]);
      assert scanned[..i + 1] == scanned[..i] + [scanned[i]];
      cids := cids + [scanned[i].cid];
      lastCreated := scanned[i].created;
    }
    assert scanned[..|scanned|] == scanned;
  }
}
