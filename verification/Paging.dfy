/** Text compared byte by byte, as SQLite compares it. */
module TextOrder {
  predicate Less(a: string, b: string) {
    if b == "" then false
    else if a == "" then true
    else a[0] < b[0] || (a[0] == b[0] && Less(a[1..], b[1..]))
  }

  lemma {:induction false} Total(a: string, b: string)
    ensures Less(a, b) || a == b || Less(b, a)
    ensures !(Less(a, b) && Less(b, a)) && !Less(a, a)
    decreases |a|
  {
    if a != "" && b != "" {
      Total(a[1..], b[1..]);
      assert a == [a[0]] + a[1..] && b == [b[0]] + b[1..];
    }
    if a != "" {
      Total(a[1..], a[1..]);
    }
  }

  /** The two texts agree up to i, and there a ends or has the smaller character. */
  ghost predicate PartsAt(a: string, b: string, i: int) {
    0 <= i <= |a| && i < |b| && a[..i] == b[..i] && (i < |a| ==> a[i] < b[i])
  }

  lemma PartsOneOn(a: string, b: string, i: int)
    requires a != "" && b != "" && a[0] == b[0]
    ensures PartsAt(a, b, i + 1) <==> PartsAt(a[1..], b[1..], i)
  {
    if 0 <= i < |a| && i < |b| - 1 {
      assert a[..i + 1] == [a[0]] + a[1..][..i] && b[..i + 1] == [b[0]] + b[1..][..i];
      assert a[1..][..i] == a[..i + 1][1..] && b[1..][..i] == b[..i + 1][1..];
    }
  }

  lemma StartAlike(a: string, b: string)
    ensures forall i :: PartsAt(a, b, i) && i > 0 ==> a != "" && a[0] == b[0]
  {
    forall i | PartsAt(a, b, i) && i > 0
      ensures a != "" && a[0] == b[0]
    {
      assert a[..i][0] == b[..i][0];
    }
  }

  /** The first difference decides, and a proper prefix comes first. */
  lemma {:induction false} FirstDifferenceDecides(a: string, b: string)
    ensures Less(a, b) <==> exists i :: PartsAt(a, b, i)
    decreases |a|
  {
    if a == "" || b == "" || a[0] != b[0] {
      assert Less(a, b) <==> PartsAt(a, b, 0);
      StartAlike(a, b);
    } else {
      FirstDifferenceDecides(a[1..], b[1..]);
      if i :| PartsAt(a[1..], b[1..], i) {
        PartsOneOn(a, b, i);
      }
      if i :| PartsAt(a, b, i) {
        PartsOneOn(a, b, i - 1);
      }
    }
  }

  lemma {:induction false} Transitive(a: string, b: string, c: string)
    requires Less(a, b) && Less(b, c)
    ensures Less(a, c)
    decreases |a|
  {
    if a != "" && a[0] == b[0] && b[0] == c[0] {
      Transitive(a[1..], b[1..], c[1..]);
    }
  }
}

/** Keyset paging: the cursor is the last key of the page before. */
module Paging {
  import opened Basics
  import opened TextOrder

  datatype Order = Ascending | Descending

  predicate Before(o: Order, a: string, b: string) {
    if o.Ascending? then Less(a, b) else Less(b, a)
  }

  lemma BeforeIsOrder(o: Order, a: string, b: string, c: string)
    ensures Before(o, a, b) || a == b || Before(o, b, a)
    ensures !(Before(o, a, b) && Before(o, b, a)) && !Before(o, a, a)
    ensures Before(o, a, b) && Before(o, b, c) ==> Before(o, a, c)
  {
    Total(a, b);
    Total(a, a);
    if Less(a, b) && Less(b, c) {
      Transitive(a, b, c);
    }
    if Less(b, a) && Less(c, b) {
      Transitive(c, b, a);
    }
  }

  ghost predicate Sorted(o: Order, s: seq<string>) {
    forall i, j :: 0 <= i < j < |s| ==> Before(o, s[i], s[j])
  }

  ghost predicate IsFirst(o: Order, keys: set<string>, k: string) {
    k in keys && forall x :: x in keys && x != k ==> Before(o, k, x)
  }

  lemma {:induction false} HasFirst(o: Order, keys: set<string>)
    requires keys != {}
    ensures exists k :: IsFirst(o, keys, k)
  {
    var k :| k in keys;
    if keys == {k} {
      assert IsFirst(o, keys, k);
    } else {
      HasFirst(o, keys - {k});
      var f :| IsFirst(o, keys - {k}, f);
      OneMoreKey(o, keys, k, f);
    }
  }

  lemma OneMoreKey(o: Order, keys: set<string>, k: string, f: string)
    requires k in keys && IsFirst(o, keys - {k}, f)
    ensures IsFirst(o, keys, if Before(o, k, f) then k else f)
  {
    BeforeIsOrder(o, k, f, f);
    forall x | x in keys && x != k && x != f
      ensures Before(o, f, x)
      ensures Before(o, k, f) ==> Before(o, k, x)
    {
      assert x in keys - {k};
      BeforeIsOrder(o, k, f, x);
    }
  }

  lemma FirstIsUnique(o: Order, keys: set<string>)
    ensures forall k, k' :: IsFirst(o, keys, k) && IsFirst(o, keys, k') ==> k == k'
  {
    forall k, k' | IsFirst(o, keys, k) && IsFirst(o, keys, k')
      ensures k == k'
    {
      BeforeIsOrder(o, k, k', k);
    }
  }

  function First(o: Order, keys: set<string>): (k: string)
    requires keys != {}
    ensures IsFirst(o, keys, k)
  {
    HasFirst(o, keys);
    FirstIsUnique(o, keys);
    assert forall k :: (k in keys && forall x :: x in keys && x != k ==> Before(o, k, x)) <==> IsFirst(o, keys, k);
    var k :| k in keys && forall x :: x in keys && x != k ==> Before(o, k, x);
    k
  }

  /** ORDER BY key. */
  function InOrder(o: Order, keys: set<string>): (s: seq<string>)
    ensures |s| == |keys| && forall k :: k in s <==> k in keys
  {
    if keys == {} then []
    else
      var k := First(o, keys);
      [k] + InOrder(o, keys - {k})
  }

  lemma {:induction false} InOrderIsSorted(o: Order, keys: set<string>)
    ensures Sorted(o, InOrder(o, keys))
  {
    if keys != {} {
      var k := First(o, keys);
      var rest := InOrder(o, keys - {k});
      InOrderIsSorted(o, keys - {k});
      forall i | 0 <= i < |rest|
        ensures Before(o, k, rest[i])
      {
        assert rest[i] in rest;
      }
    }
  }

  /** WHERE key > cursor (or < cursor); the empty cursor selects everything. */
  function Beyond(o: Order, keys: set<string>, cursor: string): set<string> {
    set k | k in keys && (cursor != "" ==> Before(o, cursor, k))
  }

  datatype Page = Page(items: seq<string>, next: Option<string>)

  /** One row more than the limit is asked for; if it comes, there is a next page. */
  function PageOf(o: Order, keys: set<string>, cursor: string, limit: nat): Page
    requires limit >= 1
  {
    var rows := InOrder(o, Beyond(o, keys, cursor));
    if |rows| > limit then Page(rows[..limit], Some(rows[limit - 1])) else Page(rows, None)
  }

  datatype Walk = Walk(items: seq<string>, pages: nat, ended: bool)

  /** Following cursors; the table may be another one at every request. */
  function WalkFrom(o: Order, tables: seq<set<string>>, cursor: string, limit: nat): Walk
    requires limit >= 1
    decreases |tables|
  {
    if tables == [] then Walk([], 0, false)
    else
      var page := PageOf(o, tables[0], cursor, limit);
      if page.next.None? then Walk(page.items, 1, true)
      else
        var rest := WalkFrom(o, tables[1..], page.next.value, limit);
        Walk(page.items + rest.items, 1 + rest.pages, rest.ended)
  }

  ghost predicate Named(tables: seq<set<string>>) {
    forall i :: 0 <= i < |tables| ==> "" !in tables[i]
  }

  lemma PageFacts(o: Order, keys: set<string>, cursor: string, limit: nat)
    requires limit >= 1
    ensures var page := PageOf(o, keys, cursor, limit);
            && Sorted(o, page.items) && |page.items| <= limit
            && (forall k :: k in page.items ==> k in Beyond(o, keys, cursor))
            && (page.next.None? ==> forall k :: k in Beyond(o, keys, cursor) ==> k in page.items)
            && (page.next.Some? ==>
                  && |page.items| == limit && page.next.value == page.items[limit - 1] && page.next.value in keys
                  && forall k :: k in Beyond(o, keys, cursor) && k !in page.items ==> Before(o, page.next.value, k))
  {
    var rows := InOrder(o, Beyond(o, keys, cursor));
    InOrderIsSorted(o, Beyond(o, keys, cursor));
    if |rows| > limit {
      assert rows[limit - 1] in rows;
      forall k | k in Beyond(o, keys, cursor) && k !in rows[..limit]
        ensures Before(o, rows[limit - 1], k)
      {
        var i :| 0 <= i < |rows| && rows[i] == k;
        assert i >= limit by {
          assert forall j :: 0 <= j < limit ==> rows[j] in rows[..limit];
        }
      }
    }
  }

  /** One text comes before the other: they differ first where it is smaller, or it is the shorter. */
  ghost predicate Precedes(a: string, b: string) {
    exists i :: PartsAt(a, b, i)
  }

  lemma BeforePrecedes(o: Order, a: string, b: string)
    requires Before(o, a, b)
    ensures if o.Ascending? then Precedes(a, b) else Precedes(b, a)
  {
    FirstDifferenceDecides(a, b);
    FirstDifferenceDecides(b, a);
  }

  /** Which way a page runs, by the characters of its keys, and on which side of the cursor it lies. */
  lemma PageRuns(o: Order, keys: set<string>, cursor: string, limit: nat, i: nat)
    requires limit >= 1 && i < |PageOf(o, keys, cursor, limit).items|
    ensures var items := PageOf(o, keys, cursor, limit).items;
            && (cursor != "" ==> if o.Ascending? then Precedes(cursor, items[i]) else Precedes(items[i], cursor))
            && forall j :: i < j < |items| ==>
                 if o.Ascending? then Precedes(items[i], items[j]) else Precedes(items[j], items[i])
  {
    PageFacts(o, keys, cursor, limit);
    var items := PageOf(o, keys, cursor, limit).items;
    assert items[i] in Beyond(o, keys, cursor);
    if cursor != "" {
      BeforePrecedes(o, cursor, items[i]);
    }
    forall j | i < j < |items|
      ensures if o.Ascending? then Precedes(items[i], items[j]) else Precedes(items[j], items[i])
    {
      BeforePrecedes(o, items[i], items[j]);
    }
  }

  /** No key comes twice: the keys of a walk are in strict order, and beyond where it started. */
  lemma {:induction false} WalkNeverRepeats(o: Order, tables: seq<set<string>>, cursor: string, limit: nat)
    requires limit >= 1 && Named(tables)
    ensures Sorted(o, WalkFrom(o, tables, cursor, limit).items)
    ensures cursor != "" ==> forall i :: 0 <= i < |WalkFrom(o, tables, cursor, limit).items| ==>
              Before(o, cursor, WalkFrom(o, tables, cursor, limit).items[i])
    decreases |tables|
  {
    if tables != [] {
      var page := PageOf(o, tables[0], cursor, limit);
      PageFacts(o, tables[0], cursor, limit);
      forall i | 0 <= i < |page.items|
        ensures cursor != "" ==> Before(o, cursor, page.items[i])
      {
        assert page.items[i] in page.items;
      }
      if page.next.Some? {
        var last := page.next.value;
        WalkNeverRepeats(o, tables[1..], last, limit);
        var rest := WalkFrom(o, tables[1..], last, limit).items;
        forall i, j | 0 <= i < limit && 0 <= j < |rest|
          ensures Before(o, page.items[i], rest[j])
        {
          BeforeIsOrder(o, page.items[i], last, rest[j]);
        }
        forall j | 0 <= j < |rest| && cursor != ""
          ensures Before(o, cursor, rest[j])
        {
          BeforeIsOrder(o, cursor, last, rest[j]);
        }
      }
    }
  }

  /** The row is there at each of the first n requests. */
  ghost predicate Throughout(tables: seq<set<string>>, n: nat, k: string) {
    n <= |tables| && forall i :: 0 <= i < n ==> k in tables[i]
  }

  lemma ThroughoutTail(tables: seq<set<string>>, n: nat, k: string)
    requires Throughout(tables, n + 1, k)
    ensures k in tables[0] && Throughout(tables[1..], n, k)
  {
    forall i | 0 <= i < n
      ensures k in tables[1..][i]
    {
      assert tables[1..][i] == tables[i + 1];
    }
  }

  /** A walk that ended returned every row that was there at each of its requests. */
  lemma {:induction false} WalkIsComplete(o: Order, tables: seq<set<string>>, cursor: string, limit: nat, k: string)
    requires limit >= 1 && Named(tables)
    requires WalkFrom(o, tables, cursor, limit).ended
    requires Throughout(tables, WalkFrom(o, tables, cursor, limit).pages, k)
    requires cursor != "" ==> Before(o, cursor, k)
    ensures k in WalkFrom(o, tables, cursor, limit).items
    decreases |tables|
  {
    var page := PageOf(o, tables[0], cursor, limit);
    PageFacts(o, tables[0], cursor, limit);
    ThroughoutTail(tables, WalkFrom(o, tables, cursor, limit).pages - 1, k);
    if page.next.Some? && k !in page.items {
      assert Named(tables[1..]);
      WalkIsComplete(o, tables[1..], page.next.value, limit, k);
    }
  }

  /** Every key of a walk was in the table one of its requests saw. */
  lemma {:induction false} WalkIsSound(o: Order, tables: seq<set<string>>, cursor: string, limit: nat, k: string)
    requires limit >= 1 && k in WalkFrom(o, tables, cursor, limit).items
    ensures exists i :: 0 <= i < |tables| && k in tables[i]
    decreases |tables|
  {
    var page := PageOf(o, tables[0], cursor, limit);
    PageFacts(o, tables[0], cursor, limit);
    if k in page.items {
      assert k in tables[0];
    } else {
      WalkIsSound(o, tables[1..], page.next.value, limit, k);
      var i :| 0 <= i < |tables[1..]| && k in tables[1..][i];
      assert k in tables[i + 1];
    }
  }

  // ----- a table that does not change -----------------------------------------------------

  lemma {:induction false} SortedIsUnique(o: Order, a: seq<string>, b: seq<string>)
    requires Sorted(o, a) && Sorted(o, b) && forall k :: k in a <==> k in b
    ensures a == b
    decreases |a|
  {
    if a == [] {
      if b != [] {
        HasMember(b);
      }
    } else {
      assert a[0] in a;
      var i :| 0 <= i < |b| && b[i] == a[0];
      assert b[0] in b;
      var j :| 0 <= j < |a| && a[j] == b[0];
      BeforeIsOrder(o, a[0], b[0], a[0]);
      assert a[0] == b[0];
      forall k
        ensures k in a[1..] <==> k in b[1..]
      {
        SortedTail(o, a, k);
        SortedTail(o, b, k);
      }
      SortedIsUnique(o, a[1..], b[1..]);
      assert a == [a[0]] + a[1..] && b == [b[0]] + b[1..];
    }
  }

  lemma HasMember(s: seq<string>)
    requires s != []
    ensures exists k :: k in s
  {
    assert s[0] in s;
  }

  lemma SortedTail(o: Order, s: seq<string>, k: string)
    requires Sorted(o, s) && s != []
    ensures k in s[1..] <==> k in s && k != s[0]
  {
    BeforeIsOrder(o, s[0], s[0], s[0]);
    if k in s && k != s[0] {
      var i :| 0 <= i < |s| && s[i] == k;
      assert s[1..][i - 1] == k;
    }
  }

  lemma RowsAfter(o: Order, rows: seq<string>, n: nat, k: string)
    requires Sorted(o, rows) && n < |rows|
    ensures k in rows[n + 1..] <==> k in rows && Before(o, rows[n], k)
  {
    if k in rows && Before(o, rows[n], k) {
      var i :| 0 <= i < |rows| && rows[i] == k;
      BeforeIsOrder(o, rows[n], rows[i], rows[n]);
      assert rows[n + 1..][i - n - 1] == k;
    }
  }

  /** The rows beyond a cursor, in order. */
  ghost predicate RowsAre(o: Order, keys: set<string>, cursor: string, rows: seq<string>) {
    Sorted(o, rows) && forall k :: k in rows <==> k in Beyond(o, keys, cursor)
  }

  lemma PageOfRows(o: Order, keys: set<string>, cursor: string, limit: nat, rows: seq<string>)
    requires limit >= 1 && RowsAre(o, keys, cursor, rows)
    ensures PageOf(o, keys, cursor, limit)
         == if |rows| > limit then Page(rows[..limit], Some(rows[limit - 1])) else Page(rows, None)
  {
    InOrderIsSorted(o, Beyond(o, keys, cursor));
    SortedIsUnique(o, rows, InOrder(o, Beyond(o, keys, cursor)));
  }

  /** The rows beyond the n-th are the rows after it. */
  lemma RowsBeyond(o: Order, keys: set<string>, cursor: string, rows: seq<string>, n: nat)
    requires "" !in keys && n < |rows| && RowsAre(o, keys, cursor, rows)
    ensures RowsAre(o, keys, rows[n], rows[n + 1..]) && rows[n] != ""
  {
    assert rows[n] in rows;
    forall k
      ensures k in rows[n + 1..] <==> k in Beyond(o, keys, rows[n])
    {
      RowsAfter(o, rows, n, k);
      BeforeIsOrder(o, cursor, rows[n], k);
    }
  }

  /** The pages it takes to return n rows. */
  function PagesFor(n: nat, limit: nat): nat
    requires limit >= 1
  {
    if n <= limit then 1 else 1 + PagesFor(n - limit, limit)
  }

  /** At least one page, and otherwise n / limit rounded up. */
  lemma {:induction false} PagesForIsCeiling(n: nat, limit: nat)
    requires limit >= 1
    ensures n == 0 ==> PagesFor(n, limit) == 1
    ensures n > 0 ==> (PagesFor(n, limit) - 1) * limit < n <= PagesFor(n, limit) * limit
    decreases n
  {
    if n > limit {
      PagesForIsCeiling(n - limit, limit);
      var p := PagesFor(n - limit, limit);
      assert (p - 1) * limit + limit == p * limit;
      assert p * limit + limit == (p + 1) * limit;
    }
  }

  ghost predicate AllAre(tables: seq<set<string>>, keys: set<string>) {
    forall i :: 0 <= i < |tables| ==> tables[i] == keys
  }

  /** A list of rows cut into pages. */
  function Chunked(rows: seq<string>, limit: nat): Walk
    requires limit >= 1
    decreases |rows|
  {
    if |rows| <= limit then Walk(rows, 1, true)
    else
      var rest := Chunked(rows[limit..], limit);
      Walk(rows[..limit] + rest.items, 1 + rest.pages, rest.ended)
  }

  lemma {:induction false} ChunkedIsAll(rows: seq<string>, limit: nat)
    requires limit >= 1
    ensures Chunked(rows, limit) == Walk(rows, PagesFor(|rows|, limit), true)
    decreases |rows|
  {
    if |rows| > limit {
      ChunkedIsAll(rows[limit..], limit);
      assert rows[..limit] + rows[limit..] == rows;
    }
  }

  lemma {:induction false} WalkIsChunked(o: Order, keys: set<string>, cursor: string, limit: nat,
                                         tables: seq<set<string>>, rows: seq<string>)
    requires limit >= 1 && "" !in keys && AllAre(tables, keys)
    requires RowsAre(o, keys, cursor, rows) && |tables| >= Chunked(rows, limit).pages
    ensures WalkFrom(o, tables, cursor, limit) == Chunked(rows, limit)
    decreases |tables|
  {
    ChunkedIsAll(rows, limit);
    assert tables[0] == keys;
    PageOfRows(o, keys, cursor, limit, rows);
    if |rows| > limit {
      RowsBeyond(o, keys, cursor, rows, limit - 1);
      WalkIsChunked(o, keys, rows[limit - 1], limit, tables[1..], rows[limit..]);
    }
  }

  /** On a fixed table a walk returns every row once, in order, in exactly that many pages. */
  lemma {:induction false} FixedWalk(o: Order, keys: set<string>, limit: nat, tables: seq<set<string>>)
    requires limit >= 1 && "" !in keys && AllAre(tables, keys) && |tables| >= PagesFor(|keys|, limit)
    ensures WalkFrom(o, tables, "", limit) == Walk(InOrder(o, keys), PagesFor(|keys|, limit), true)
  {
    var rows := InOrder(o, keys);
    assert Beyond(o, keys, "") == keys;
    InOrderIsSorted(o, keys);
    ChunkedIsAll(rows, limit);
    WalkIsChunked(o, keys, "", limit, tables, rows);
  }

  /** The page as it is read: row by row, then cut to the limit. */
  method ListPage(o: Order, keys: set<string>, cursor: string, limit: nat)
    returns (items: seq<string>, next: Option<string>)
    requires limit >= 1
    ensures Page(items, next) == PageOf(o, keys, cursor, limit)
  {
    var selected := InOrder(o, Beyond(o, keys, cursor));
    var rows := if |selected| > limit + 1 then selected[..limit + 1] else selected;
    items := [];
    for i := 0 to |rows|
      invariant items == rows[..i]
    {
      items := items + [rows[i]];
    }
    next := None;
    if |items| > limit {
      items := items[..limit];
      next := Some(items[|items| - 1]);
    }
  }
}
