/** When the token bucket must grant a request, and that a refused one costs nothing. */
module TokenGrants {
  import opened Basics
  import opened TokenBucket

  function Least(a: real, b: real): real {
    if a <= b then a else b
  }

  lemma Flow(a: real, b: real, c: real, r: real)
    requires a + b == c && r >= 0.0 && b >= 0.0
    ensures a * r + b * r == c * r && b * r >= 0.0
  {
    Distribute(a, b, r);
  }

  /** What a bucket holds later, told from what it holds now. */
  lemma TokensLater(l: Limits, b: Option<Bucket>, at: real, now: real)
    requires Sane(l) && at <= now
    ensures Tokens(l, b, now) == Least(l.burst, Tokens(l, b, at) + (now - at) * l.rate)
  {
    Flow(0.0, now - at, now - at, l.rate);
    if b.Some? {
      Flow(at - b.value.last, now - at, now - b.value.last, l.rate);
    }
  }

  lemma TokensNow(l: Limits, tokens: real, now: real)
    requires tokens <= l.burst
    ensures Tokens(l, Some(Bucket(tokens, now)), now) == tokens
  {
    NoTimePasses(l, Bucket(tokens, now));
  }

  lemma AtMostBurst(l: Limits, b: Option<Bucket>, now: real)
    ensures Tokens(l, b, now) <= l.burst
  {
  }

  // ----- when a request must be granted ---------------------------------------------------

  /** All calls are over by `at`, so a longer interval counts no more of them. */
  lemma {:induction false} CountedBy(l: Limits, calls: seq<Call>, key: string, s: real, at: real, now: real)
    requires Until(calls, at) && at <= now
    ensures Accepted(l, calls, key, s, now, false) == Accepted(l, calls, key, s, at, false)
    decreases |calls|
  {
    if calls != [] {
      CountedBy(l, calls[..|calls| - 1], key, s, at, now);
    }
  }

  /** What the last call leaves of a key's tokens at its own moment. */
  lemma LastTakes(l: Limits, calls: seq<Call>, key: string)
    requires Sane(l) && calls != []
    ensures var n := |calls| - 1;
            var at := calls[n].now;
            Tokens(l, Get(After(l, calls, false), key), at)
            == Tokens(l, Get(After(l, calls[..n], false), key), at)
               - (if Accepts(l, calls, n, false) && calls[n].key == key then 1.0 else 0.0)
  {
    var n := |calls| - 1;
    var at := calls[n].now;
    var held := Tokens(l, Get(After(l, calls[..n], false), key), at);
    AtMostBurst(l, Get(After(l, calls[..n], false), key), at);
    TokensNow(l, held, at);
    TokensNow(l, held - 1.0, at);
  }

  /** A full bucket, and what has flowed in since s. */
  function Due(l: Limits, s: real, now: real): real {
    l.burst + (now - s) * l.rate
  }

  lemma DueLater(l: Limits, s: real, at: real, now: real) returns (flow: real)
    requires Sane(l) && at <= now
    ensures flow == (now - at) * l.rate && flow >= 0.0 && Due(l, s, now) == Due(l, s, at) + flow
  {
    flow := (now - at) * l.rate;
    Flow(at - s, now - at, now - s, l.rate);
  }

  lemma DueNow(l: Limits, now: real)
    ensures Due(l, now, now) == l.burst
  {
    assert (now - now) * l.rate == 0.0;
  }

  /** The accepted requests since s make up for what is missing now. */
  ghost predicate Explains(l: Limits, calls: seq<Call>, key: string, s: real, now: real) {
    && s <= now
    && Accepted(l, calls, key, s, now, false) as real
       >= Due(l, s, now) - Tokens(l, Get(After(l, calls, false), key), now)
  }

  lemma FullExplains(l: Limits, calls: seq<Call>, key: string, now: real)
    requires Tokens(l, Get(After(l, calls, false), key), now) == l.burst
    ensures Explains(l, calls, key, now, now)
  {
    DueNow(l, now);
  }

  /** One call more, at its own moment. */
  lemma ExplainsCall(l: Limits, calls: seq<Call>, key: string, s: real)
    requires Sane(l) && calls != [] && Explains(l, calls[..|calls| - 1], key, s, calls[|calls| - 1].now)
    ensures Explains(l, calls, key, s, calls[|calls| - 1].now)
  {
    LastTakes(l, calls, key);
  }

  /** Some time more. */
  lemma ExplainsLater(l: Limits, calls: seq<Call>, key: string, s: real, at: real, now: real)
    requires Sane(l) && Until(calls, at) && at <= now && Explains(l, calls, key, s, at)
    requires Tokens(l, Get(After(l, calls, false), key), now) < l.burst
    ensures Explains(l, calls, key, s, now)
  {
    var b := Get(After(l, calls, false), key);
    var flow := DueLater(l, s, at, now);
    TokensLater(l, b, at, now);
    CountedBy(l, calls, key, s, at, now);
    assert Tokens(l, b, now) == Tokens(l, b, at) + flow;
  }

  /** Since some moment, whatever is missing from the bucket was taken by accepted requests. */
  lemma {:induction false} MissingWasTaken(l: Limits, calls: seq<Call>, key: string, now: real) returns (s: real)
    requires Sane(l) && Until(calls, now)
    ensures Explains(l, calls, key, s, now)
    decreases |calls|
  {
    AtMostBurst(l, Get(After(l, calls, false), key), now);
    if calls == [] || Tokens(l, Get(After(l, calls, false), key), now) == l.burst {
      s := now;
      FullExplains(l, calls, key, now);
    } else {
      var n := |calls| - 1;
      s := MissingWasTaken(l, calls[..n], key, calls[n].now);
      ExplainsCall(l, calls, key, s);
      ExplainsLater(l, calls, key, s, calls[n].now, now);
    }
  }

  /** The history leaves room for one more request now, back to any moment. */
  ghost predicate Affords(l: Limits, calls: seq<Call>, key: string, now: real, gc: bool) {
    forall s :: s <= now ==> (Accepted(l, calls, key, s, now, gc) + 1) as real <= Due(l, s, now)
  }

  lemma GrantedCounts(l: Limits, calls: seq<Call>, c: Call, s: real)
    requires c.Allow? && s <= c.now && Tokens(l, Get(After(l, calls, false), c.key), c.now) >= 1.0
    ensures Accepted(l, calls + [c], c.key, s, c.now, false) == Accepted(l, calls, c.key, s, c.now, false) + 1
  {
    assert (calls + [c])[..|calls|] == calls;
  }

  lemma BoundIsDue(l: Limits, calls: seq<Call>, key: string, s: real, now: real)
    requires Sane(l) && Monotone(calls) && s <= now
    ensures Accepted(l, calls, key, s, now, false) as real <= Due(l, s, now)
  {
    BoundWithoutGc(l, calls, key, s, now);
  }

  lemma GrantedAffords(l: Limits, calls: seq<Call>, c: Call)
    requires Sane(l) && Until(calls, c.now) && c.Allow?
    requires Tokens(l, Get(After(l, calls, false), c.key), c.now) >= 1.0
    ensures Affords(l, calls, c.key, c.now, false)
  {
    Push(l, calls, c, false);
    forall s | s <= c.now
      ensures (Accepted(l, calls, c.key, s, c.now, false) + 1) as real <= Due(l, s, c.now)
    {
      GrantedCounts(l, calls, c, s);
      BoundIsDue(l, calls + [c], c.key, s, c.now);
    }
  }

  lemma RefusedCannotAfford(l: Limits, calls: seq<Call>, key: string, now: real)
    requires Sane(l) && Until(calls, now) && Tokens(l, Get(After(l, calls, false), key), now) < 1.0
    ensures !Affords(l, calls, key, now, false)
  {
    var s := MissingWasTaken(l, calls, key, now);
    var due := Due(l, s, now);
    assert Accepted(l, calls, key, s, now, false) as real > due - 1.0;
  }

  lemma PrefixUntil(calls: seq<Call>, i: nat)
    requires i < |calls| && Monotone(calls)
    ensures Until(calls[..i], calls[i].now)
  {
  }

  /**
    When a request is granted, told from the history of acceptances alone: exactly when, back to
    every moment s, it and the requests of its key accepted since s are no more than a full bucket
    and what has flowed in since s.
   */
  lemma GrantedExactlyWhen(l: Limits, calls: seq<Call>, i: nat)
    requires Sane(l) && Monotone(calls) && i < |calls| && calls[i].Allow?
    ensures Accepts(l, calls, i, false) <==> Affords(l, calls[..i], calls[i].key, calls[i].now, false)
  {
    PrefixUntil(calls, i);
    if Accepts(l, calls, i, false) {
      GrantedAffords(l, calls[..i], calls[i]);
    } else {
      RefusedCannotAfford(l, calls[..i], calls[i].key, calls[i].now);
    }
  }

  lemma TransparentPrefix(l: Limits, calls: seq<Call>, i: nat)
    requires i <= |calls| && Transparent(l, calls)
    ensures Transparent(l, calls[..i])
  {
    forall j | 0 <= j < i
      ensures Accepts(l, calls[..i], j, true) == Accepts(l, calls[..i], j, false)
    {
      assert calls[..i][..j] == calls[..j];
      assert Accepts(l, calls, j, true) == Accepts(l, calls, j, false);
    }
  }

  /** The same with cleanups at any moments, where a bucket fills up within the idle time. */
  lemma GrantedWithCleanup(l: Limits, calls: seq<Call>, i: nat)
    requires Sane(l) && IDLE * l.rate >= l.burst && Monotone(calls) && i < |calls| && calls[i].Allow?
    ensures Accepts(l, calls, i, true) <==> Affords(l, calls[..i], calls[i].key, calls[i].now, true)
  {
    GcIsTransparent(l, calls);
    TransparentPrefix(l, calls, i);
    GrantedExactlyWhen(l, calls, i);
    forall s
      ensures Accepted(l, calls[..i], calls[i].key, s, calls[i].now, true)
           == Accepted(l, calls[..i], calls[i].key, s, calls[i].now, false)
    {
      TransparentCounts(l, calls[..i], calls[i].key, s, calls[i].now);
    }
  }

  // ----- a refused request costs nothing --------------------------------------------------

  /** The history without its i-th call. */
  function Skipping(calls: seq<Call>, i: nat): (rest: seq<Call>)
    requires i < |calls|
    ensures |rest| == |calls| - 1
  {
    calls[..i] + calls[i + 1..]
  }

  /** Two buckets that hold the same from now on. */
  ghost predicate SameFrom(l: Limits, a: Option<Bucket>, b: Option<Bucket>, now: real) {
    forall t :: t >= now ==> Tokens(l, a, t) == Tokens(l, b, t)
  }

  ghost predicate SameBuckets(l: Limits, a: Buckets, b: Buckets, now: real) {
    forall key :: SameFrom(l, Get(a, key), Get(b, key), now)
  }

  lemma SameSoon(l: Limits, a: Buckets, b: Buckets, at: real, now: real)
    requires SameBuckets(l, a, b, at) && at <= now
    ensures SameBuckets(l, a, b, now)
  {
    forall key
      ensures SameFrom(l, Get(a, key), Get(b, key), now)
    {
      assert SameFrom(l, Get(a, key), Get(b, key), at);
    }
  }

  /** A refused request leaves its bucket holding what it would have held. */
  lemma RefusedLeavesSame(l: Limits, items: Buckets, key: string, now: real)
    requires Sane(l) && !DoAllow(l, items, key, now).ok
    ensures SameBuckets(l, DoAllow(l, items, key, now).items, items, now)
  {
    var after := DoAllow(l, items, key, now).items;
    var b := Get(items, key);
    forall k
      ensures SameFrom(l, Get(after, k), Get(items, k), now)
    {
      if k == key {
        forall t | t >= now
          ensures Tokens(l, Get(after, key), t) == Tokens(l, b, t)
        {
          TokensLater(l, b, now, t);
          TokensLater(l, Get(after, key), now, t);
          AtMostBurst(l, b, now);
          TokensNow(l, Tokens(l, b, now), now);
        }
      }
    }
  }

  lemma SameAfterCall(l: Limits, a: Buckets, b: Buckets, key: string, now: real)
    requires SameBuckets(l, a, b, now)
    ensures DoAllow(l, a, key, now).ok == DoAllow(l, b, key, now).ok
    ensures SameBuckets(l, DoAllow(l, a, key, now).items, DoAllow(l, b, key, now).items, now)
  {
    assert SameFrom(l, Get(a, key), Get(b, key), now);
    forall k
      ensures SameFrom(l, Get(DoAllow(l, a, key, now).items, k), Get(DoAllow(l, b, key, now).items, k), now)
    {
      assert SameFrom(l, Get(a, k), Get(b, k), now);
    }
  }

  lemma SkippingLast(l: Limits, calls: seq<Call>)
    requires Sane(l) && calls != [] && calls[|calls| - 1].Allow? && !Accepts(l, calls, |calls| - 1, false)
    ensures var n := |calls| - 1;
            SameBuckets(l, After(l, calls, false), After(l, Skipping(calls, n), false), calls[n].now)
  {
    var n := |calls| - 1;
    assert Skipping(calls, n) == calls[..n];
    RefusedLeavesSame(l, After(l, calls[..n], false), calls[n].key, calls[n].now);
  }

  lemma SkippingFront(calls: seq<Call>, i: nat)
    requires i < |calls| - 1
    ensures var n := |calls| - 1;
            && calls[..n][..i] == calls[..i] && calls[..n][i] == calls[i]
            && Skipping(calls, i) == Skipping(calls[..n], i) + [calls[n]]
  {
  }

  lemma SameAfterEither(l: Limits, a: seq<Call>, b: seq<Call>, c: Call)
    requires SameBuckets(l, After(l, a, false), After(l, b, false), c.now)
    ensures SameBuckets(l, After(l, a + [c], false), After(l, b + [c], false), c.now)
  {
    Push(l, a, c, false);
    Push(l, b, c, false);
    if c.Allow? {
      SameAfterCall(l, After(l, a, false), After(l, b, false), c.key, c.now);
    }
  }

  /** After the refused call, the two histories go on alike. */
  lemma {:induction false} SkippingIsSame(l: Limits, calls: seq<Call>, i: nat, now: real)
    requires Sane(l) && Until(calls, now) && i < |calls| && calls[i].Allow? && !Accepts(l, calls, i, false)
    ensures SameBuckets(l, After(l, calls, false), After(l, Skipping(calls, i), false), now)
    decreases |calls|
  {
    var n := |calls| - 1;
    if i == n {
      SkippingLast(l, calls);
    } else {
      SkippingFront(calls, i);
      SkippingIsSame(l, calls[..n], i, calls[n].now);
      SameAfterEither(l, calls[..n], Skipping(calls[..n], i), calls[n]);
      assert calls == calls[..n] + [calls[n]];
    }
    SameSoon(l, After(l, calls, false), After(l, Skipping(calls, i), false), calls[n].now, now);
  }

  lemma SkippingMonotone(calls: seq<Call>, i: nat)
    requires i < |calls| && Monotone(calls)
    ensures Monotone(Skipping(calls, i))
  {
  }

  /** Leaving the i-th call out changes no other verdict. */
  ghost predicate Unnoticed(l: Limits, calls: seq<Call>, i: nat, gc: bool)
    requires i < |calls|
  {
    && (forall j :: 0 <= j < i ==> Accepts(l, Skipping(calls, i), j, gc) == Accepts(l, calls, j, gc))
    && (forall j :: i < j < |calls| ==> Accepts(l, Skipping(calls, i), j - 1, gc) == Accepts(l, calls, j, gc))
  }

  lemma EarlierSame(l: Limits, calls: seq<Call>, i: nat, j: nat, gc: bool)
    requires j < i < |calls|
    ensures Accepts(l, Skipping(calls, i), j, gc) == Accepts(l, calls, j, gc)
  {
    assert Skipping(calls, i)[..j] == calls[..j];
  }

  lemma LaterSame(l: Limits, calls: seq<Call>, i: nat, j: nat)
    requires Sane(l) && Monotone(calls) && i < j < |calls|
    requires calls[i].Allow? && !Accepts(l, calls, i, false)
    ensures Accepts(l, Skipping(calls, i), j - 1, false) == Accepts(l, calls, j, false)
  {
    assert Skipping(calls, i)[..j - 1] == Skipping(calls[..j], i);
    assert calls[..j][..i] == calls[..i];
    PrefixUntil(calls, j);
    SkippingIsSame(l, calls[..j], i, calls[j].now);
    if calls[j].Allow? {
      SameAfterCall(l, After(l, calls[..j], false), After(l, Skipping(calls[..j], i), false),
                    calls[j].key, calls[j].now);
    }
  }

  /** Without cleanup a refused request is free. */
  lemma RefusedIsFree(l: Limits, calls: seq<Call>, i: nat)
    requires Sane(l) && Monotone(calls) && i < |calls| && calls[i].Allow? && !Accepts(l, calls, i, false)
    ensures Unnoticed(l, calls, i, false)
  {
    forall j | 0 <= j < i
      ensures Accepts(l, Skipping(calls, i), j, false) == Accepts(l, calls, j, false)
    {
      EarlierSame(l, calls, i, j, false);
    }
    forall j | i < j < |calls|
      ensures Accepts(l, Skipping(calls, i), j - 1, false) == Accepts(l, calls, j, false)
    {
      LaterSame(l, calls, i, j);
    }
  }

  // ----- refused requests and cleanup -----------------------------------------------------

  /** With cleanup, no refused request of any history is noticed by the others. */
  ghost predicate RefusalsAreFree(l: Limits) {
    forall calls: seq<Call>, i ::
      Monotone(calls) && 0 <= i < |calls| && calls[i].Allow? && !Accepts(l, calls, i, true)
      ==> Unnoticed(l, calls, i, true)
  }

  lemma FreeWithCleanup(l: Limits, calls: seq<Call>, i: nat)
    requires Sane(l) && IDLE * l.rate >= l.burst && Monotone(calls)
    requires i < |calls| && calls[i].Allow? && !Accepts(l, calls, i, true)
    ensures Unnoticed(l, calls, i, true)
  {
    GcIsTransparent(l, calls);
    SkippingMonotone(calls, i);
    GcIsTransparent(l, Skipping(calls, i));
    assert Accepts(l, calls, i, true) == Accepts(l, calls, i, false);
    RefusedIsFree(l, calls, i);
    forall j | 0 <= j < |calls|
      ensures Accepts(l, calls, j, true) == Accepts(l, calls, j, false)
      ensures j < |calls| - 1 ==> Accepts(l, Skipping(calls, i), j, true) == Accepts(l, Skipping(calls, i), j, false)
    {
    }
  }

  /** How long after a bucket ran dry a refused request can keep it from a cleanup it was due for. */
  lemma Delay(l: Limits) returns (delay: real, flow: real)
    requires Sane(l) && IDLE * l.rate < l.burst && l.burst >= 1.0
    ensures delay > 0.0 && delay * l.rate == flow && 0.0 <= flow < 1.0 && IDLE * l.rate + flow < l.burst
    ensures l.rate == 0.0 ==> flow == 0.0
  {
    if l.rate == 0.0 {
      delay, flow := 1.0, 0.0;
    } else {
      flow := Least(0.5, (l.burst - IDLE * l.rate) / 2.0);
      delay := WaitFor(flow, l.rate);
      if delay == 0.0 {
        assert false;
      }
    }
  }

  /** A cleanup drops the bucket of the history without the late refused request, and keeps the other. */
  lemma RefusedKeepsBucket(l: Limits) returns (calls: seq<Call>, c: Call, sweep: Call)
    requires Sane(l) && IDLE * l.rate < l.burst && l.burst >= 1.0
    ensures c.Allow? && Until(calls + [c] + [sweep], sweep.now) && Until(calls + [sweep], sweep.now)
    ensures !Accepts(l, calls + [c], |calls|, true)
    ensures Held(l, calls + [sweep], true, sweep.now) == l.burst
    ensures 0.0 <= Held(l, calls + [c] + [sweep], true, sweep.now) < l.burst
    ensures l.rate == 0.0 ==> Held(l, calls + [c] + [sweep], true, sweep.now) < 1.0
  {
    var emptied, left;
    calls, emptied, left := Empty(l);
    var delay, flow := Delay(l);
    c := Allow("k", emptied + delay);
    sweep := Gc(emptied + delay + IDLE, 0);
    TokensAfter(l, Bucket(left, emptied), delay, flow);
    Push(l, calls, c, true);
    Push(l, calls + [c], sweep, true);
    Push(l, calls, sweep, true);
    assert (calls + [c])[..|calls|] == calls;
    assert Get(After(l, calls, true), "k") == Some(Bucket(left, emptied));
    assert Get(After(l, calls + [c], true), "k") == Some(Bucket(left + flow, c.now));
    TokensAfter(l, Bucket(left + flow, c.now), IDLE, IDLE * l.rate);
  }

  lemma SkippedRequest(calls: seq<Call>, c: Call, sweep: Call, tail: seq<Call>)
    ensures Skipping(calls + [c] + [sweep] + tail, |calls|) == calls + [sweep] + tail
  {
  }

  /** A refusal stays one however the history goes on. */
  lemma StillRefused(l: Limits, calls: seq<Call>, c: Call, more: seq<Call>)
    requires !Accepts(l, calls + [c], |calls|, true)
    ensures !Accepts(l, calls + [c] + more, |calls|, true)
  {
    assert (calls + [c] + more)[..|calls|] == calls == (calls + [c])[..|calls|];
  }

  /** Two histories, one of them the other without an earlier call, that end apart. */
  lemma NoticedAtTheEnd(l: Limits, all: seq<Call>, i: nat, rest: seq<Call>)
    requires i < |all| - 1 && rest == Skipping(all, i) && EndApart(l, all, true, rest, true)
    ensures !Unnoticed(l, all, i, true)
  {
    assert Accepts(l, Skipping(all, i), |all| - 2, true) != Accepts(l, all, |all| - 1, true);
  }

  lemma RefusalNoticed(l: Limits) returns (all: seq<Call>, i: nat)
    requires Sane(l) && IDLE * l.rate < l.burst && l.burst >= 1.0
    ensures Monotone(all) && i < |all| && all[i].Allow? && !Accepts(l, all, i, true) && !Unnoticed(l, all, i, true)
  {
    var calls, c, sweep := RefusedKeepsBucket(l);
    var tail := FullHoldsMore(l, calls + [c] + [sweep], true, calls + [sweep], true, sweep.now);
    all, i := calls + [c] + [sweep] + tail, |calls|;
    SkippedRequest(calls, c, sweep, tail);
    assert all == calls + [c] + ([sweep] + tail);
    StillRefused(l, calls, c, [sweep] + tail);
    NoticedAtTheEnd(l, all, i, calls + [sweep] + tail);
  }

  /**
    Refused requests are free in every history with cleanups exactly when a bucket fills up within
    the idle time, or can never grant a request at all: the condition under which cleanup itself
    is not noticed. Otherwise a refused request can keep its bucket from a cleanup.
   */
  lemma RefusalsAreFreeExactlyWhen(l: Limits)
    requires Sane(l)
    ensures RefusalsAreFree(l) <==> 600.0 * l.rate >= l.burst || l.burst < 1.0
  {
    if IDLE * l.rate >= l.burst {
      forall calls: seq<Call>, i | Monotone(calls) && 0 <= i < |calls| && calls[i].Allow? && !Accepts(l, calls, i, true)
        ensures Unnoticed(l, calls, i, true)
      {
        FreeWithCleanup(l, calls, i);
      }
    } else if l.burst >= 1.0 {
      var all, i := RefusalNoticed(l);
    } else {
      forall calls: seq<Call>, i | 0 <= i < |calls|
        ensures Unnoticed(l, calls, i, true)
      {
        NoneGranted(l, calls, i);
      }
    }
  }

  lemma NoneGranted(l: Limits, calls: seq<Call>, i: nat)
    requires l.burst < 1.0 && i < |calls|
    ensures Unnoticed(l, calls, i, true)
  {
  }

  /** The limiter the server configures: its verdicts from the history alone, and free refusals. */
  lemma ConfiguredLimiterGrants(calls: seq<Call>, i: nat)
    requires Monotone(calls) && i < |calls| && calls[i].Allow?
    ensures Accepts(Limits(5.0, 10.0), calls, i, true)
       <==> Affords(Limits(5.0, 10.0), calls[..i], calls[i].key, calls[i].now, true)
    ensures !Accepts(Limits(5.0, 10.0), calls, i, true) ==> Unnoticed(Limits(5.0, 10.0), calls, i, true)
  {
    var l := FiveAndTen();
    GrantedWithCleanup(l, calls, i);
    if !Accepts(l, calls, i, true) {
      FreeWithCleanup(l, calls, i);
    }
  }
}
