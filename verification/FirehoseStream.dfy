/**
  What a subscriber's stream is, over every interleaving: its replay, then what its channel had
  room for, and exactly when that is everything.
 */
module FirehoseStream {
  import opened Firehose

  /** The largest number seen so far, starting from m. */
  function RunMax(stream: seq<Frame>, m: int): int
    decreases |stream|
  {
    if stream == [] then m
    else
      var last := |stream| - 1;
      Max(RunMax(stream[..last], m), stream[last].n)
  }

  /** A consumer that keeps only the frames whose number is above every earlier one. */
  function Keep(stream: seq<Frame>, m: int): seq<Frame>
    decreases |stream|
  {
    if stream == [] then []
    else
      var last := |stream| - 1;
      Keep(stream[..last], m) + if stream[last].n > RunMax(stream[..last], m) then [stream[last]] else []
  }

  function Max(a: int, b: int): int {
    if a < b then b else a
  }

  ghost predicate Ordered(s: seq<Frame>) {
    forall i, j :: 0 <= i < j < |s| ==> s[i].n < s[j].n
  }

  ghost predicate AllBelow(s: seq<Frame>, n: int) {
    forall i :: 0 <= i < |s| ==> s[i].n < n
  }

  lemma OneMore(stream: seq<Frame>, f: Frame, m: int)
    ensures RunMax(stream + [f], m) == Max(RunMax(stream, m), f.n)
    ensures Keep(stream + [f], m) == Keep(stream, m) + if f.n > RunMax(stream, m) then [f] else []
  {
    assert (stream + [f])[..|stream|] == stream;
  }

  lemma AboveAppend(s: seq<Frame>, f: Frame, n: int)
    ensures Above(s + [f], n) == Above(s, n) + if f.n > n then [f] else []
  {
    assert (s + [f])[..|s|] == s;
  }

  lemma Assoc(a: seq<Frame>, b: seq<Frame>, c: seq<Frame>)
    ensures a + (b + c) == a + b + c
  {
  }

  lemma NothingMore(s: seq<Frame>)
    ensures s + [] == s
  {
  }

  // ----- the deduplicating consumer -------------------------------------------------------

  /** Numbers below n do not raise the running maximum to n. */
  lemma {:induction false} RunMaxBelow(seen: seq<Frame>, s: seq<Frame>, m: int, n: int)
    requires AllBelow(s, n)
    ensures RunMax(seen + s, m) >= n <==> RunMax(seen, m) >= n
    decreases |s|
  {
    if s == [] {
      assert seen + s == seen;
    } else {
      var before, f := s[..|s| - 1], s[|s| - 1];
      RunMaxBelow(seen, before, m, n);
      OneMore(seen + before, f, m);
      assert seen + s == seen + before + [f];
    }
  }

  lemma KeepOneMore(seen: seq<Frame>, s: seq<Frame>, f: Frame, m: int)
    requires AllBelow(s, f.n) && Keep(seen + s, m) == Keep(seen, m) + Above(s, RunMax(seen, m))
    ensures Keep(seen + (s + [f]), m) == Keep(seen, m) + Above(s + [f], RunMax(seen, m))
  {
    RunMaxBelow(seen, s, m, f.n);
    Assoc(seen, s, [f]);
    OneMore(seen + s, f, m);
    AboveAppend(s, f, RunMax(seen, m));
    Assoc(Keep(seen, m), Above(s, RunMax(seen, m)), if f.n > RunMax(seen, m) then [f] else []);
  }

  /** Fed an ordered sequence, the consumer keeps what is above all it has seen. */
  lemma {:induction false} KeepOrdered(seen: seq<Frame>, s: seq<Frame>, m: int)
    requires Ordered(s)
    ensures Keep(seen + s, m) == Keep(seen, m) + Above(s, RunMax(seen, m))
    decreases |s|
  {
    if s == [] {
      NothingMore(seen);
      NothingMore(Keep(seen, m));
    } else {
      var before, f := s[..|s| - 1], s[|s| - 1];
      assert s == before + [f];
      KeepOrdered(seen, before, m);
      KeepOneMore(seen, before, f, m);
    }
  }

  lemma {:induction false} RunMaxFrom(m: int, s: seq<Frame>, hi: int)
    requires forall i :: 0 <= i < |s| ==> m < s[i].n <= hi
    ensures m <= RunMax(s, m) <= Max(m, hi)
    ensures forall i :: 0 <= i < |s| ==> s[i].n <= RunMax(s, m)
    decreases |s|
  {
    if s != [] {
      RunMaxFrom(m, s[..|s| - 1], hi);
    }
  }

  // ----- stretches of the table -----------------------------------------------------------

  lemma {:induction false} BetweenOrdered(table: seq<Frame>, lo: int, hi: int)
    requires Ordered(table)
    ensures Ordered(Between(table, lo, hi))
    ensures forall i :: 0 <= i < |Between(table, lo, hi)| ==> lo < Between(table, lo, hi)[i].n <= hi
    ensures table != [] ==>
              forall i :: 0 <= i < |Between(table, lo, hi)| ==> Between(table, lo, hi)[i].n <= table[|table| - 1].n
    decreases |table|
  {
    if table != [] {
      BetweenOrdered(table[..|table| - 1], lo, hi);
    }
  }

  lemma {:induction false} BetweenHas(table: seq<Frame>, lo: int, hi: int, f: Frame)
    ensures f in Between(table, lo, hi) <==> f in table && lo < f.n <= hi
    decreases |table|
  {
    if table != [] {
      var last := |table| - 1;
      BetweenHas(table[..last], lo, hi, f);
      assert table == table[..last] + [table[last]];
    }
  }

  lemma {:induction false} AboveBetween(table: seq<Frame>, lo: int, hi: int, n: int)
    ensures Above(Between(table, lo, hi), n) == Between(table, Max(lo, n), hi)
    decreases |table|
  {
    if table != [] {
      var last := |table| - 1;
      AboveBetween(table[..last], lo, hi, n);
      AboveAppend(Between(table[..last], lo, hi), table[last], n);
      NothingMore(Between(table[..last], lo, hi));
    }
  }

  lemma {:induction false} AboveAll(s: seq<Frame>, n: int)
    requires forall i :: 0 <= i < |s| ==> s[i].n > n
    ensures Above(s, n) == s
    decreases |s|
  {
    if s != [] {
      AboveAll(s[..|s| - 1], n);
    }
  }

  lemma AboveWithoutMore(s: seq<Frame>, f: Frame, dropped: set<Frame>, n: int)
    requires Above(Without(s, dropped), n) == Without(Above(s, n), dropped)
    ensures Above(Without(s + [f], dropped), n) == Without(Above(s + [f], n), dropped)
  {
    WithoutAppend(s, f, dropped);
    AboveAppend(s, f, n);
    AboveAppend(Without(s, dropped), f, n);
    WithoutAppend(Above(s, n), f, dropped);
    NothingMore(Without(s, dropped));
    NothingMore(Above(s, n));
  }

  lemma {:induction false} AboveWithout(s: seq<Frame>, dropped: set<Frame>, n: int)
    ensures Above(Without(s, dropped), n) == Without(Above(s, n), dropped)
    decreases |s|
  {
    if s != [] {
      var before := s[..|s| - 1];
      assert s == before + [s[|s| - 1]];
      AboveWithout(before, dropped, n);
      AboveWithoutMore(before, s[|s| - 1], dropped, n);
    }
  }

  lemma {:induction false} WithoutOrdered(s: seq<Frame>, dropped: set<Frame>)
    requires Ordered(s)
    ensures Ordered(Without(s, dropped)) && |Without(s, dropped)| <= |s|
    ensures s != [] ==> forall i :: 0 <= i < |Without(s, dropped)| ==> Without(s, dropped)[i].n <= s[|s| - 1].n
    decreases |s|
  {
    if s != [] {
      WithoutOrdered(s[..|s| - 1], dropped);
    }
  }

  lemma {:induction false} WithoutHas(s: seq<Frame>, dropped: set<Frame>, f: Frame)
    ensures f in Without(s, dropped) <==> f in s && f !in dropped
    decreases |s|
  {
    if s != [] {
      WithoutHas(s[..|s| - 1], dropped, f);
      assert s == s[..|s| - 1] + [s[|s| - 1]];
    }
  }

  lemma {:induction false} WithoutNone(s: seq<Frame>, dropped: set<Frame>)
    requires forall i :: 0 <= i < |s| ==> s[i] !in dropped
    ensures Without(s, dropped) == s
    decreases |s|
  {
    if s != [] {
      WithoutNone(s[..|s| - 1], dropped);
    }
  }

  lemma {:induction false} WithoutCount(s: seq<Frame>, dropped: set<Frame>, f: Frame)
    ensures multiset(Without(s, dropped))[f] == if f in dropped then 0 else multiset(s)[f]
    decreases |s|
  {
    if s != [] {
      var before, g := s[..|s| - 1], s[|s| - 1];
      WithoutCount(before, dropped, f);
      assert s == before + [g];
      CountTogether(before, [g], f);
      CountTogether(Without(before, dropped), if g in dropped then [] else [g], f);
    }
  }

  /** Two stretches with the same rows in them. */
  lemma {:induction false} BetweenSame(table: seq<Frame>, lo: int, hi: int, lo': int, hi': int)
    requires forall i :: 0 <= i < |table| ==> (lo < table[i].n <= hi <==> lo' < table[i].n <= hi')
    ensures Between(table, lo, hi) == Between(table, lo', hi')
    decreases |table|
  {
    if table != [] {
      BetweenSame(table[..|table| - 1], lo, hi, lo', hi');
    }
  }

  lemma SplitOneMore(t: seq<Frame>, f: Frame, a: int, b: int, c: int)
    requires (forall i :: 0 <= i < |t| ==> t[i].n < f.n) && a <= b
    requires Between(t, a, b) + Between(t, b, c) == Between(t, a, Max(b, c))
    ensures Between(t + [f], a, b) + Between(t + [f], b, c) == Between(t + [f], a, Max(b, c))
  {
    BetweenAppend(t, f, a, b);
    BetweenAppend(t, f, b, c);
    BetweenAppend(t, f, a, Max(b, c));
    if f.n <= b {
      BetweenEmpty(t, b, c);
    }
    Assoc(Between(t, a, b), Between(t, b, c), [f]);
  }

  lemma {:induction false} BetweenSplit(table: seq<Frame>, a: int, b: int, c: int)
    requires Ordered(table) && a <= b
    ensures Between(table, a, b) + Between(table, b, c) == Between(table, a, Max(b, c))
    decreases |table|
  {
    if table != [] {
      var before, f := table[..|table| - 1], table[|table| - 1];
      BetweenSplit(before, a, b, c);
      assert table == before + [f];
      SplitOneMore(before, f, a, b, c);
    }
  }

  lemma {:induction false} BetweenEmpty(table: seq<Frame>, lo: int, hi: int)
    requires hi <= lo || forall i :: 0 <= i < |table| ==> table[i].n <= lo
    ensures Between(table, lo, hi) == []
    decreases |table|
  {
    if table != [] {
      BetweenEmpty(table[..|table| - 1], lo, hi);
    }
  }

  /** A row is in a stretch once, and only if its number is. */
  lemma {:induction false} CountBetween(table: seq<Frame>, lo: int, hi: int, f: Frame)
    requires Ordered(table)
    ensures multiset(Between(table, lo, hi))[f] == if f in table && lo < f.n <= hi then 1 else 0
    decreases |table|
  {
    if table != [] {
      var before, g := table[..|table| - 1], table[|table| - 1];
      CountBetween(before, lo, hi, f);
      assert table == before + [g] && g !in before;
      CountOneMore(before, g, lo, hi, f);
    }
  }

  lemma CountOneMore(t: seq<Frame>, g: Frame, lo: int, hi: int, f: Frame)
    requires g !in t && multiset(Between(t, lo, hi))[f] == if f in t && lo < f.n <= hi then 1 else 0
    ensures multiset(Between(t + [g], lo, hi))[f] == if f in t + [g] && lo < f.n <= hi then 1 else 0
  {
    BetweenAppend(t, g, lo, hi);
    CountTogether(Between(t, lo, hi), if lo < g.n <= hi then [g] else [], f);
    assert f in t + [g] <==> f in t || f == g;
  }

  lemma CountTogether(a: seq<Frame>, b: seq<Frame>, f: Frame)
    ensures multiset(a + b)[f] == multiset(a)[f] + multiset(b)[f]
  {
  }

  // ----- the part of a replay that was sent -----------------------------------------------

  /** The number of the last row of the replay that was sent, or the cursor. */
  function Reached(cursor: int, sub: Sub): int {
    RunMax(sub.sent, cursor)
  }

  lemma LastIsMax(s: seq<Frame>, m: int)
    requires Ordered(s) && forall i :: 0 <= i < |s| ==> s[i].n > m
    ensures RunMax(s, m) == if s == [] then m else s[|s| - 1].n
  {
    if s != [] {
      RunMaxFrom(m, s, s[|s| - 1].n);
    }
  }

  /** A prefix that ends at the last number up to m is the part up to m. */
  lemma FrontIs(front: seq<Frame>, back: seq<Frame>, s: seq<Frame>, m: int)
    requires s <= front + back && Ordered(front + back) && s != [] && s[|s| - 1].n == m
    requires forall i :: 0 <= i < |front| ==> front[i].n <= m
    requires forall i :: 0 <= i < |back| ==> back[i].n > m
    ensures s == front
  {
    var all := front + back;
    assert all[|s| - 1] == s[|s| - 1];
    forall i | 0 <= i < |all|
      ensures all[i].n <= m <==> i < |front|
    {
      assert all[i] == if i < |front| then front[i] else back[i - |front|];
    }
    assert |s| < |all| ==> all[|s|].n > m;
  }

  lemma SentNotEmpty(table: seq<Frame>, cursor: int, upto: int, sent: seq<Frame>, m: int)
    requires Ordered(table) && sent <= Between(table, cursor, upto) && sent != [] && m == sent[|sent| - 1].n
    ensures cursor < m <= upto && sent == Between(table, cursor, m)
  {
    var replay := Between(table, cursor, upto);
    BetweenOrdered(table, cursor, upto);
    assert sent[|sent| - 1] == replay[|sent| - 1];
    BetweenSplit(table, cursor, m, upto);
    BetweenOrdered(table, cursor, m);
    BetweenOrdered(table, m, upto);
    FrontIs(Between(table, cursor, m), Between(table, m, upto), sent, m);
  }

  /** What was sent of a replay is the stretch up to the last number sent. */
  lemma SentIsBetween(table: seq<Frame>, cursor: int, upto: int, sent: seq<Frame>)
    requires Ordered(table) && sent <= Between(table, cursor, upto)
    ensures var m := RunMax(sent, cursor);
            sent == Between(table, cursor, m) && cursor <= m <= Max(cursor, upto)
  {
    if sent == [] {
      BetweenEmpty(table, cursor, cursor);
    } else {
      BetweenOrdered(table, cursor, upto);
      LastIsMax(sent, cursor);
      SentNotEmpty(table, cursor, upto, sent, sent[|sent| - 1].n);
    }
  }

  /** After a whole replay every number up to its end that is above the cursor has been seen. */
  lemma NoneUnseen(table: seq<Frame>, cursor: int, upto: int, i: nat)
    requires Ordered(table) && i < |table| && cursor < table[i].n <= upto
    ensures table[i].n <= RunMax(Between(table, cursor, upto), cursor)
  {
    var replay := Between(table, cursor, upto);
    BetweenOrdered(table, cursor, upto);
    RunMaxFrom(cursor, replay, upto);
    BetweenHas(table, cursor, upto, table[i]);
    var j :| 0 <= j < |replay| && replay[j] == table[i];
  }

  // ----- replay, then tail, deduplicated --------------------------------------------------

  lemma KeepAll(s: seq<Frame>, m: int)
    requires Ordered(s) && forall i :: 0 <= i < |s| ==> s[i].n > m
    ensures Keep(s, m) == s
  {
    KeepOrdered([], s, m);
    assert [] + s == s;
    AboveAll(s, m);
  }

  /** Of the tail is kept what is above all that was seen. */
  lemma KeepTail(table: seq<Frame>, seen: seq<Frame>, m: int, since: int, top: int, dropped: set<Frame>)
    requires Ordered(table)
    ensures Keep(seen + Without(Between(table, since, top), dropped), m)
         == Keep(seen, m) + Without(Between(table, Max(since, RunMax(seen, m)), top), dropped)
  {
    var tail := Between(table, since, top);
    BetweenOrdered(table, since, top);
    WithoutOrdered(tail, dropped);
    KeepOrdered(seen, Without(tail, dropped), m);
    AboveWithout(tail, dropped, RunMax(seen, m));
    AboveBetween(table, since, top, RunMax(seen, m));
  }

  /** What was sent of the replay, then the tail: kept is what was sent, and what was received above it. */
  lemma KeepStream(table: seq<Frame>, cursor: int, upto: int, sent: seq<Frame>, since: int, top: int,
                   dropped: set<Frame>)
    requires Ordered(table) && sent <= Between(table, cursor, upto)
    ensures Keep(sent + Without(Between(table, since, top), dropped), cursor)
         == sent + Without(Between(table, Max(since, RunMax(sent, cursor)), top), dropped)
  {
    BetweenOrdered(table, cursor, upto);
    KeepAll(sent, cursor);
    KeepTail(table, sent, cursor, since, top, dropped);
  }

  /** No row lies between what was sent and the registration, nor between the two and the end of the replay. */
  ghost predicate NoGap(table: seq<Frame>, reached: int, since: int, upto: int, top: int) {
    forall i :: 0 <= i < |table| ==> !(reached < table[i].n <= since) && !(Max(reached, top) < table[i].n <= upto)
  }

  /** What was received is everything above the last number sent. */
  lemma ReceivedIsRest(table: seq<Frame>, m: int, since: int, upto: int, top: int, dropped: set<Frame>)
    requires NoGap(table, m, since, upto, top) && since <= upto && forall f :: f in dropped ==> f.n <= m
    ensures Without(Between(table, Max(since, m), top), dropped) == Between(table, m, Max(upto, top))
  {
    var rest := Between(table, Max(since, m), top);
    BetweenSame(table, Max(since, m), top, m, Max(upto, top));
    forall i | 0 <= i < |rest|
      ensures rest[i] !in dropped
    {
      BetweenHas(table, Max(since, m), top, rest[i]);
    }
    WithoutNone(rest, dropped);
  }

  lemma SameMembers(a: seq<Frame>, b: seq<Frame>, f: Frame)
    requires a == b
    ensures f in a <==> f in b
  {
  }

  /** It is so exactly when there is no gap and nothing above that number was dropped. */
  lemma ReceivedIsRestExactlyWhen(table: seq<Frame>, m: int, since: int, upto: int, top: int, dropped: set<Frame>)
    requires since <= upto && forall f :: f in dropped ==> f in table && f.n <= top
    ensures Without(Between(table, Max(since, m), top), dropped) == Between(table, m, Max(upto, top))
       <==> NoGap(table, m, since, upto, top) && forall f :: f in dropped ==> f.n <= m
  {
    var rest := Between(table, Max(since, m), top);
    var all := Between(table, m, Max(upto, top));
    if Without(rest, dropped) == all {
      forall f | f in table && m < f.n <= Max(upto, top)
        ensures Max(since, m) < f.n <= top && f !in dropped
      {
        SameMembers(Without(rest, dropped), all, f);
        WithoutHas(rest, dropped, f);
        BetweenHas(table, Max(since, m), top, f);
        BetweenHas(table, m, Max(upto, top), f);
      }
      forall i | 0 <= i < |table|
        ensures !(m < table[i].n <= since) && !(Max(m, top) < table[i].n <= upto)
      {
        assert table[i] in table;
      }
    } else if NoGap(table, m, since, upto, top) && forall f :: f in dropped ==> f.n <= m {
      ReceivedIsRest(table, m, since, upto, top, dropped);
      assert false;
    }
  }

  lemma SameFront(a: seq<Frame>, b: seq<Frame>, c: seq<Frame>)
    ensures a + b == a + c <==> b == c
  {
    if a + b == a + c {
      assert b == (a + b)[|a|..] && c == (a + c)[|a|..];
    }
  }

  /** All rows above the cursor, cut at the last number sent. */
  lemma SentThenRest(table: seq<Frame>, cursor: int, upto: int, sent: seq<Frame>, hi: int)
    requires Ordered(table) && sent <= Between(table, cursor, upto) && upto <= hi
    ensures Between(table, cursor, hi) == sent + Between(table, RunMax(sent, cursor), hi)
  {
    var m := RunMax(sent, cursor);
    SentIsBetween(table, cursor, upto, sent);
    BetweenSplit(table, cursor, m, hi);
    if hi < m {
      BetweenEmpty(table, cursor, hi);
      BetweenEmpty(table, cursor, m);
    }
  }

  /** What was sent, and what was received above it, is everything above the cursor: exactly when. */
  lemma KeptIsAll(table: seq<Frame>, cursor: int, upto: int, sent: seq<Frame>, since: int, top: int,
                  dropped: set<Frame>)
    requires Ordered(table) && sent <= Between(table, cursor, upto) && since <= upto
    requires forall f :: f in dropped ==> f in table && f.n <= top
    ensures var m := RunMax(sent, cursor);
            sent + Without(Between(table, Max(since, m), top), dropped) == Between(table, cursor, Max(upto, top))
            <==> NoGap(table, m, since, upto, top) && forall f :: f in dropped ==> f.n <= m
  {
    var m := RunMax(sent, cursor);
    var hi := Max(upto, top);
    SentThenRest(table, cursor, upto, sent, hi);
    SameFront(sent, Without(Between(table, Max(since, m), top), dropped), Between(table, m, hi));
    ReceivedIsRestExactlyWhen(table, m, since, upto, top, dropped);
  }

  // ----- the main results -----------------------------------------------------------------

  /** A subscription whose replay has ended, well or not. */
  predicate Streams(h: Hub, id: nat) {
    id in h.subs && h.subs[id].phase.Live?
  }

  lemma StreamsFine(h: Hub, steps: seq<Step>, id: nat)
    requires Initial(h) && EnabledRun(h, steps) && Streams(Run(h, steps), id)
    ensures var h' := Run(h, steps);
            TableOk(h'.table, h'.seqNo) && SubOk(h'.subs[id], h'.table, h'.seqNo)
  {
    RunKeepsInv(h, steps);
  }

  /** The frames of a stream, each in its place. */
  ghost predicate InPlace(cursor: int, sub: Sub, table: seq<Frame>, seqNo: int) {
    var replay := Between(table, cursor, sub.upto);
    var tail := Between(table, sub.since, Top(sub, seqNo));
    && sub.since <= sub.upto <= seqNo
    && sub.sent <= replay && (!sub.failed ==> sub.sent == replay)
    && sub.out + sub.live == sub.sent + Without(tail, sub.dropped)
    && (!sub.failed && sub.dropped == {} ==> sub.out + sub.live == replay + tail)
    && (sub.open ==> tail == Above(table, sub.since))
  }

  /**
    A subscriber's stream. Over every interleaving, what was sent to the reader and what waits in
    its channel are together the part of the replay that was sent, a prefix of the persisted frames
    with cursor < seq <= upto, in order, then those with since < seq that found room, in order (up
    to cleanup, if the subscription was closed). With nothing failed and nothing dropped there is
    no gap.
   */
  lemma StreamHasNoGaps(h: Hub, steps: seq<Step>, id: nat)
    requires Initial(h) && EnabledRun(h, steps) && Streams(Run(h, steps), id)
    ensures var h' := Run(h, steps);
            InPlace(h'.subs[id].cursor, h'.subs[id], h'.table, h'.seqNo)
  {
    var sub := Run(h, steps).subs[id];
    StreamsFine(h, steps, id);
    WithoutNothing(Between(Run(h, steps).table, sub.since, Top(sub, Run(h, steps).seqNo)));
    AboveIsBetween(Run(h, steps).table, sub.since, Run(h, steps).seqNo);
  }

  /** The frames kept above a cursor, and when they are all. */
  ghost predicate ExactStream(cursor: int, sub: Sub, table: seq<Frame>, seqNo: int) {
    var top := Top(sub, seqNo);
    var reached := Reached(cursor, sub);
    var all := Between(table, cursor, Max(sub.upto, top));
    var kept := Keep(sub.out + sub.live, cursor);
    && kept == sub.sent + Without(Between(table, Max(sub.since, reached), top), sub.dropped)
    && (kept == all <==>
          NoGap(table, reached, sub.since, sub.upto, top) && forall f :: f in sub.dropped ==> f.n <= reached)
    && (!sub.failed ==> (kept == all <==> forall f :: f in sub.dropped ==> f.n <= Max(cursor, sub.upto)))
    && (sub.open ==>
          && all == Above(table, cursor)
          && (NoGap(table, reached, sub.since, sub.upto, top)
              <==> forall i :: 0 <= i < |table| ==> !(reached < table[i].n <= sub.since)))
  }

  /**
    Exactly when the stream is complete, for every subscription that is live, its replay failed or
    not. Keeping only rising numbers gives every persisted frame above the cursor, once and in
    order, if and only if no row lies between the last number replayed and the registration, and
    no frame above that number was dropped. (A closed subscription must also have received its
    tail up to the replay query, where the replay stopped short of it.) When the replay did not
    fail, that is: no frame numbered above both the cursor and the replay query was dropped.
   */
  lemma DeduplicatedStreamIsExact(h: Hub, steps: seq<Step>, id: nat)
    requires Initial(h) && EnabledRun(h, steps) && Streams(Run(h, steps), id)
    ensures var sub := Run(h, steps).subs[id];
            ExactStream(sub.cursor, sub, Run(h, steps).table, Run(h, steps).seqNo)
  {
    StreamsFine(h, steps, id);
    SubIsExact(Run(h, steps).subs[id], Run(h, steps).table, Run(h, steps).seqNo);
  }

  lemma SubIsExact(sub: Sub, table: seq<Frame>, seqNo: int)
    requires TableOk(table, seqNo) && SubOk(sub, table, seqNo) && sub.phase.Live?
    ensures ExactStream(sub.cursor, sub, table, seqNo)
  {
    var top := Top(sub, seqNo);
    KeepStream(table, sub.cursor, sub.upto, sub.sent, sub.since, top, sub.dropped);
    KeptIsAll(table, sub.cursor, sub.upto, sub.sent, sub.since, top, sub.dropped);
    if !sub.failed {
      WholeReplay(sub, table, seqNo);
    }
    AboveIsBetween(table, sub.cursor, seqNo);
  }

  /** A replay that did not fail leaves no gap. */
  lemma WholeReplay(sub: Sub, table: seq<Frame>, seqNo: int)
    requires TableOk(table, seqNo) && SubOk(sub, table, seqNo) && sub.phase.Live? && !sub.failed
    ensures NoGap(table, Reached(sub.cursor, sub), sub.since, sub.upto, Top(sub, seqNo))
    ensures (forall f :: f in sub.dropped ==> f.n <= Reached(sub.cursor, sub))
       <==> forall f :: f in sub.dropped ==> f.n <= Max(sub.cursor, sub.upto)
  {
    SentIsBetween(table, sub.cursor, sub.upto, sub.sent);
    forall i | 0 <= i < |table| && sub.cursor < table[i].n <= sub.upto
      ensures table[i].n <= Reached(sub.cursor, sub)
    {
      NoneUnseen(table, sub.cursor, sub.upto, i);
    }
    forall f | f in sub.dropped
      ensures f.n <= Reached(sub.cursor, sub) <==> f.n <= Max(sub.cursor, sub.upto)
    {
      var i :| 0 <= i < |table| && table[i] == f;
    }
  }

  /** How often each frame comes: once from the replay, once from the channel, so twice at most. */
  lemma DuplicatesAreExact(h: Hub, steps: seq<Step>, id: nat, f: Frame)
    requires Initial(h) && EnabledRun(h, steps) && Streams(Run(h, steps), id)
    ensures var h' := Run(h, steps);
            var sub := h'.subs[id];
            var replayed := f in h'.table && sub.cursor < f.n <= Reached(sub.cursor, sub);
            var received := f in h'.table && sub.since < f.n <= Top(sub, h'.seqNo) && f !in sub.dropped;
            && multiset(sub.out + sub.live)[f] == (if replayed then 1 else 0) + (if received then 1 else 0)
            && (!sub.failed ==> (replayed <==> f in h'.table && sub.cursor < f.n <= sub.upto))
  {
    StreamsFine(h, steps, id);
    CountInSub(Run(h, steps).subs[id], Run(h, steps).table, Run(h, steps).seqNo, f);
  }

  lemma CountInSub(sub: Sub, table: seq<Frame>, seqNo: int, f: Frame)
    requires Ordered(table) && SubOk(sub, table, seqNo) && sub.phase.Live?
    ensures var replayed := f in table && sub.cursor < f.n <= Reached(sub.cursor, sub);
            var received := f in table && sub.since < f.n <= Top(sub, seqNo) && f !in sub.dropped;
            && multiset(sub.out + sub.live)[f] == (if replayed then 1 else 0) + (if received then 1 else 0)
            && (!sub.failed ==> (replayed <==> f in table && sub.cursor < f.n <= sub.upto))
  {
    SentIsBetween(table, sub.cursor, sub.upto, sub.sent);
    CountTogether(sub.sent, Received(sub, table, seqNo), f);
    CountBetween(table, sub.cursor, Reached(sub.cursor, sub), f);
    CountReceived(table, sub.since, Top(sub, seqNo), sub.dropped, f);
    BetweenHas(table, sub.cursor, Reached(sub.cursor, sub), f);
    BetweenHas(table, sub.cursor, sub.upto, f);
  }

  lemma CountReceived(table: seq<Frame>, lo: int, hi: int, dropped: set<Frame>, f: Frame)
    requires Ordered(table)
    ensures multiset(Without(Between(table, lo, hi), dropped))[f]
         == if f in table && lo < f.n <= hi && f !in dropped then 1 else 0
  {
    CountBetween(table, lo, hi, f);
    WithoutCount(Between(table, lo, hi), dropped, f);
  }

  // ----- what becomes of a dropped frame --------------------------------------------------

  /** A subscription only ever holds frames that have been numbered. */
  ghost predicate Numbered(h: Hub) {
    && TableOk(h.table, h.seqNo) && (forall id :: id in h.subs ==> id <= h.id)
    && forall id, f :: id in h.subs && (f in h.subs[id].out || f in h.subs[id].live || f in h.subs[id].pending) ==>
         f.n <= h.seqNo
  }

  lemma {:induction false} AboveIsInTable(table: seq<Frame>, cursor: int, f: Frame)
    requires f in Above(table, cursor)
    ensures f in table
    decreases |table|
  {
    var last := |table| - 1;
    if f in Above(table[..last], cursor) {
      AboveIsInTable(table[..last], cursor, f);
    }
  }

  lemma StepKeepsNumbered(h: Hub, step: Step)
    requires Numbered(h) && Enabled(h, step)
    ensures Numbered(Do(h, step)) && h.seqNo <= Do(h, step).seqNo
  {
    var h' := Do(h, step);
    forall id, f | id in h'.subs && (f in h'.subs[id].out || f in h'.subs[id].live || f in h'.subs[id].pending)
      ensures f.n <= h'.seqNo
    {
      if step.Query? && step.id == id && f in h'.subs[id].pending && f !in h.subs[id].pending {
        AboveIsInTable(h.table, h.subs[id].cursor, f);
      }
    }
  }

  /** A subscription past its replay query that holds a frame nowhere. */
  predicate Misses(sub: Sub, f: Frame) {
    !sub.phase.Registered? && f !in sub.out && f !in sub.live && f !in sub.pending
  }

  /** Past its replay query, a subscription that has missed a frame never gets it. */
  lemma {:induction false} MissedForGood(h: Hub, steps: seq<Step>, id: nat, f: Frame)
    requires Numbered(h) && EnabledRun(h, steps)
    requires id in h.subs && Misses(h.subs[id], f) && f.n <= h.seqNo
    ensures id in Run(h, steps).subs && Misses(Run(h, steps).subs[id], f)
    decreases |steps|
  {
    if steps != [] {
      StepKeepsNumbered(h, steps[0]);
      StepMisses(h, steps[0], id, f);
      MissedForGood(Do(h, steps[0]), steps[1..], id, f);
    }
  }

  lemma StepMisses(h: Hub, step: Step, id: nat, f: Frame)
    requires Enabled(h, step) && id in h.subs && Misses(h.subs[id], f) && f.n <= h.seqNo && id <= h.id
    ensures Misses(Do(h, step).subs[id], f)
  {
  }

  /** A frame was dropped; `early` says that the replay query was still to come. */
  ghost predicate Marked(h: Hub, id: nat, f: Frame, cursor: int, early: bool) {
    && id in h.subs && id <= h.id && f.n <= h.seqNo && h.subs[id].cursor == cursor && f in h.subs[id].dropped
    && (if early then h.subs[id].phase.Registered? || f.n <= h.subs[id].upto
        else !h.subs[id].phase.Registered? && h.subs[id].upto < f.n)
  }

  lemma StepKeepsMark(h: Hub, step: Step, id: nat, f: Frame, cursor: int, early: bool)
    requires Enabled(h, step) && Marked(h, id, f, cursor, early)
    ensures Marked(Do(h, step), id, f, cursor, early)
  {
  }

  lemma {:induction false} RunKeepsMark(h: Hub, steps: seq<Step>, id: nat, f: Frame, cursor: int, early: bool)
    requires EnabledRun(h, steps) && Marked(h, id, f, cursor, early)
    ensures Marked(Run(h, steps), id, f, cursor, early)
    decreases |steps|
  {
    if steps != [] {
      StepKeepsMark(h, steps[0], id, f, cursor, early);
      RunKeepsMark(Do(h, steps[0]), steps[1..], id, f, cursor, early);
    }
  }

  /** A dropped frame is in the stream exactly when the part of the replay that was sent brings it. */
  lemma DroppedIsReplayed(sub: Sub, table: seq<Frame>, seqNo: int, f: Frame)
    requires Ordered(table) && SubOk(sub, table, seqNo) && sub.phase.Live? && f in sub.dropped
    ensures f in sub.out + sub.live <==> sub.cursor < f.n <= Reached(sub.cursor, sub)
    ensures Reached(sub.cursor, sub) <= Max(sub.cursor, sub.upto)
    ensures !sub.failed ==> (f in sub.out + sub.live <==> sub.cursor < f.n <= sub.upto)
  {
    SentIsBetween(table, sub.cursor, sub.upto, sub.sent);
    WithoutHas(Between(table, sub.since, Top(sub, seqNo)), sub.dropped, f);
    BetweenHas(table, sub.cursor, Reached(sub.cursor, sub), f);
    BetweenHas(table, sub.cursor, sub.upto, f);
  }

  /**
    What becomes of a frame published while the channel is full: it is persisted, and then, over
    every interleaving that follows, it reaches the reader exactly when the drop came before the
    replay query and the frame is above the cursor and in the part of the replay that was sent,
    which is all of it unless the replay failed. After a later drop it never does.
   */
  lemma OverflowLosesFrame(h: Hub, id: nat, body: string, steps: seq<Step>)
    requires Inv(h) && id in h.subs && h.subs[id].open && |h.subs[id].live| == CAPACITY
    requires EnabledRun(DoPublish(h, body, Persisted), steps)
    ensures var f := Frame(h.seqNo + 1, body);
            var h' := Run(DoPublish(h, body, Persisted), steps);
            && f in DoPublish(h, body, Persisted).table
            && id in h'.subs && f in h'.subs[id].dropped
            && (Streams(h', id) ==>
                  var early := h.subs[id].phase.Registered?;
                  var there := f in h'.subs[id].out + h'.subs[id].live;
                  && (there <==> early && h.subs[id].cursor < f.n <= Reached(h'.subs[id].cursor, h'.subs[id]))
                  && (!h'.subs[id].failed ==> (there <==> early && h.subs[id].cursor < f.n)))
  {
    var f := Frame(h.seqNo + 1, body);
    var h1 := DoPublish(h, body, Persisted);
    var early := h.subs[id].phase.Registered?;
    assert Marked(h1, id, f, h.subs[id].cursor, early);
    RunKeepsMark(h1, steps, id, f, h.subs[id].cursor, early);
    PublishKeepsInv(h, body, Persisted);
    RunKeepsInv(h1, steps);
    var h' := Run(h1, steps);
    if Streams(h', id) {
      DroppedIsReplayed(h'.subs[id], h'.table, h'.seqNo, f);
    }
  }

  // ----- a replay that fails --------------------------------------------------------------

  /** One persisted frame, and a subscriber from the start whose replay query fails. */
  lemma FailedQueryLosesFrame(f: Frame, h: Hub, steps: seq<Step>)
    requires f.n == 1 && h == Hub(1, 0, [f], map[]) && steps == [Subscribe(0), Query(1, false)]
    ensures Initial(h) && EnabledRun(h, steps) && Streams(Run(h, steps), 1)
    ensures var sub := Run(h, steps).subs[1];
            && sub.open && sub.dropped == {} && sub.out + sub.live == []
            && Above(Run(h, steps).table, sub.cursor) == [f]
  {
    var h1 := Do(h, steps[0]);
    assert steps[1..] == [steps[1]] && [steps[1]][1..] == [];
    assert Enabled(h1, steps[1]);
    var h2 := Do(h1, steps[1]);
    assert EnabledRun(h2, []) && EnabledRun(h1, steps[1..]);
    assert Run(h1, steps[1..]) == h2;
    AboveAll([f], 0);
  }
}
