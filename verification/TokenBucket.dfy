/**
  The per-key token bucket of the HTTP server. Times are seconds and tokens are reals: rounding
  is not modelled, and time does not run backwards.
 */
module TokenBucket {
  import opened Basics

  datatype Limits = Limits(rate: real, burst: real)
  datatype Bucket = Bucket(tokens: real, last: real)
  type Buckets = map<string, Bucket>

  /** A request for a key, or a cleanup at some second of the minute. */
  datatype Call = Allow(key: string, now: real) | Gc(now: real, second: nat)

  datatype Verdict = Verdict(items: Buckets, ok: bool)

  const IDLE: real := 600.0   // ten minutes

  /** What a bucket holds when a call comes at `now`; an unknown key starts full. */
  function Tokens(l: Limits, b: Option<Bucket>, now: real): real {
    var held := if b.None? then l.burst else b.value.tokens + (now - b.value.last) * l.rate;
    if held > l.burst then l.burst else held
  }

  function AllowOne(l: Limits, b: Option<Bucket>, now: real): Bucket {
    var t := Tokens(l, b, now);
    Bucket(if t < 1.0 then t else t - 1.0, now)
  }

  function DoAllow(l: Limits, items: Buckets, key: string, now: real): Verdict {
    Verdict(items[key := AllowOne(l, Get(items, key), now)], Tokens(l, Get(items, key), now) >= 1.0)
  }

  /** Only in the first second of a minute: drop every bucket idle for more than ten minutes. */
  function DoGc(items: Buckets, now: real, second: nat): Buckets {
    if second % 60 != 0 then items
    else map k | k in items && now - items[k].last <= IDLE :: items[k]
  }

  /** The buckets after a history; `gc` says whether cleanups take effect. */
  function After(l: Limits, calls: seq<Call>, gc: bool): Buckets
    decreases |calls|
  {
    if calls == [] then map[]
    else
      var before := After(l, calls[..|calls| - 1], gc);
      match calls[|calls| - 1]
      case Allow(key, now) => DoAllow(l, before, key, now).items
      case Gc(now, second) => if gc then DoGc(before, now, second) else before
  }

  /** The verdict on the i-th call, which must be a request. */
  predicate Accepts(l: Limits, calls: seq<Call>, i: nat, gc: bool)
    requires i < |calls|
  {
    calls[i].Allow? && DoAllow(l, After(l, calls[..i], gc), calls[i].key, calls[i].now).ok
  }

  ghost predicate Monotone(calls: seq<Call>) {
    forall i, j :: 0 <= i <= j < |calls| ==> calls[i].now <= calls[j].now
  }

  /** Accepted requests for `key` with s <= time <= t. */
  function Accepted(l: Limits, calls: seq<Call>, key: string, s: real, t: real, gc: bool): nat
    decreases |calls|
  {
    if calls == [] then 0
    else
      var n := |calls| - 1;
      Accepted(l, calls[..n], key, s, t, gc) +
      if Accepts(l, calls, n, gc) && calls[n].key == key && s <= calls[n].now <= t then 1 else 0
  }

  predicate Sane(l: Limits) {
    l.rate >= 0.0 && l.burst >= 0.0
  }

  lemma Distribute(a: real, b: real, r: real)
    ensures a * r + b * r == (a + b) * r
  {
  }

  lemma Scale(a: real, b: real, r: real)
    requires a <= b && r >= 0.0
    ensures a * r <= b * r
  {
  }

  // ----- which buckets there are ----------------------------------------------------------

  /** A request of the key no more than ten minutes before now. */
  ghost predicate AskedLately(calls: seq<Call>, key: string, now: real) {
    exists j :: 0 <= j < |calls| && calls[j].Allow? && calls[j].key == key && now - calls[j].now <= 600.0
  }

  /** A bucket was last touched by some request of its key. */
  lemma {:induction false} BucketHasRequest(l: Limits, calls: seq<Call>, key: string) returns (j: nat)
    requires key in After(l, calls, true)
    ensures j < |calls| && calls[j].Allow? && calls[j].key == key && calls[j].now == After(l, calls, true)[key].last
    decreases |calls|
  {
    var n := |calls| - 1;
    if calls[n].Allow? && calls[n].key == key {
      j := n;
    } else {
      j := BucketHasRequest(l, calls[..n], key);
    }
  }

  /** A request leaves a bucket that no cleanup within ten minutes takes away. */
  lemma {:induction false} LateRequestIsKept(l: Limits, calls: seq<Call>, j: nat, now: real)
    requires Monotone(calls) && (forall c :: c in calls ==> c.now <= now)
    requires j < |calls| && calls[j].Allow? && now - calls[j].now <= 600.0
    ensures calls[j].key in After(l, calls, true) && After(l, calls, true)[calls[j].key].last >= calls[j].now
    decreases |calls|
  {
    var n := |calls| - 1;
    if j < n {
      LateRequestIsKept(l, calls[..n], j, calls[n].now);
    }
  }

  /**
    Which buckets a cleanup leaves, told from the history: in the first second of a minute exactly
    those of keys asked for in the last ten minutes, unchanged; in any other second all of them.
   */
  lemma CleanupLeaves(l: Limits, calls: seq<Call>, now: real, second: nat, key: string)
    requires Monotone(calls) && (forall c :: c in calls ==> c.now <= now)
    ensures var before := After(l, calls, true);
            var after := After(l, calls + [Gc(now, second)], true);
            && (second % 60 != 0 ==> after == before)
            && (second % 60 == 0 ==> (key in after <==> AskedLately(calls, key, now)))
            && (key in after ==> key in before && after[key] == before[key])
  {
    assert (calls + [Gc(now, second)])[..|calls|] == calls;
    if second % 60 == 0 {
      if key in After(l, calls, true) {
        var j := BucketHasRequest(l, calls, key);
      }
      if AskedLately(calls, key, now) {
        var j :| 0 <= j < |calls| && calls[j].Allow? && calls[j].key == key && now - calls[j].now <= 600.0;
        LateRequestIsKept(l, calls, j, now);
      }
    }
  }

  // ----- the bound ------------------------------------------------------------------------

  /** Tokens stay between nothing and the burst, and no bucket is from the future. */
  ghost predicate BucketOk(l: Limits, b: Bucket, now: real) {
    0.0 <= b.tokens <= l.burst && b.last <= now
  }

  /** What a bucket holds, once it is known how much has flowed in. */
  lemma TokensAfter(l: Limits, b: Bucket, wait: real, flow: real)
    requires wait * l.rate == flow
    ensures Tokens(l, Some(b), b.last + wait) == if b.tokens + flow > l.burst then l.burst else b.tokens + flow
  {
    var now := b.last + wait;
    assert now - b.last == wait;
    assert (now - b.last) * l.rate == flow;
  }

  lemma FlowsIn(wait: real, rate: real) returns (flow: real)
    requires wait >= 0.0 && rate >= 0.0
    ensures flow == wait * rate && flow >= 0.0
  {
    flow := wait * rate;
  }

  lemma AllowKeepsRange(l: Limits, b: Option<Bucket>, now: real)
    requires Sane(l) && (b.Some? ==> BucketOk(l, b.value, now))
    ensures BucketOk(l, AllowOne(l, b, now), now)
  {
    assert 0.0 <= Tokens(l, b, now) <= l.burst by {
      if b.Some? {
        var flow := FlowsIn(now - b.value.last, l.rate);
        TokensAfter(l, b.value, now - b.value.last, flow);
      }
    }
  }

  lemma {:induction false} TokensStayInRange(l: Limits, calls: seq<Call>, gc: bool, now: real)
    requires Sane(l) && Monotone(calls) && (calls != [] ==> calls[|calls| - 1].now <= now)
    ensures forall k :: k in After(l, calls, gc) ==> BucketOk(l, After(l, calls, gc)[k], now)
    decreases |calls|
  {
    if calls != [] {
      var n := |calls| - 1;
      TokensStayInRange(l, calls[..n], gc, calls[n].now);
      var before := After(l, calls[..n], gc);
      if calls[n].Allow? {
        AllowKeepsRange(l, Get(before, calls[n].key), calls[n].now);
      }
    }
  }

  function Elapsed(s: real, t: real): real {
    if t <= s then 0.0 else t - s
  }

  /**
    Where the tokens went: what was accepted since s, with what is left, is at most a full
    bucket and what has flowed in since s.
   */
  ghost predicate Budget(l: Limits, accepted: nat, b: Option<Bucket>, s: real) {
    if b.None? then accepted == 0
    else
      && accepted as real + b.value.tokens <= l.burst + Elapsed(s, b.value.last) * l.rate
      && (b.value.last < s ==> accepted == 0)
  }

  /** The budget in plain numbers: `before` had flowed in since s, `flow` more did, at most to the brim. */
  lemma Spend(burst: real, accepted: nat, tokens: real, before: real, flow: real)
    requires accepted as real + tokens <= burst + before
    ensures var held := if tokens + flow > burst then burst else tokens + flow;
            && accepted as real + held <= burst + (before + flow)
            && (held >= 1.0 ==> (accepted + 1) as real + (held - 1.0) <= burst + (before + flow))
  {
  }

  lemma BudgetStep(l: Limits, accepted: nat, b: Option<Bucket>, now: real, s: real)
    requires Sane(l) && Budget(l, accepted, b, s) && (b.Some? ==> BucketOk(l, b.value, now))
    ensures var ok := Tokens(l, b, now) >= 1.0;
            Budget(l, accepted + (if ok && s <= now then 1 else 0), Some(AllowOne(l, b, now)), s)
  {
    var since := FlowsIn(Elapsed(s, now), l.rate);
    if b.Some? {
      var wait := now - b.value.last;
      var flow := FlowsIn(wait, l.rate);
      TokensAfter(l, b.value, wait, flow);
      if b.value.last >= s {
        var before := FlowsIn(Elapsed(s, b.value.last), l.rate);
        FlowAdds(Elapsed(s, b.value.last), wait, Elapsed(s, now), l.rate);
        Spend(l.burst, accepted, b.value.tokens, before, flow);
      }
    }
  }

  lemma FlowAdds(a: real, b: real, c: real, r: real)
    requires a + b == c
    ensures a * r + b * r == c * r
  {
    Distribute(a, b, r);
  }

  lemma {:induction false} BudgetHolds(l: Limits, calls: seq<Call>, key: string, s: real, t: real)
    requires Sane(l) && Monotone(calls) && (forall c :: c in calls ==> c.now <= t)
    ensures Budget(l, Accepted(l, calls, key, s, t, false), Get(After(l, calls, false), key), s)
    decreases |calls|
  {
    if calls != [] {
      var n := |calls| - 1;
      BudgetHolds(l, calls[..n], key, s, t);
      TokensStayInRange(l, calls[..n], false, calls[n].now);
      if calls[n].Allow? && calls[n].key == key {
        BudgetStep(l, Accepted(l, calls[..n], key, s, t, false), Get(After(l, calls[..n], false), key),
                   calls[n].now, s);
      }
    }
  }

  /** Calls after t count for nothing, and leave what was accepted before. */
  lemma {:induction false} AcceptedUpTo(l: Limits, calls: seq<Call>, key: string, s: real, t: real, gc: bool)
    returns (n: nat)
    requires Monotone(calls)
    ensures n <= |calls| && (forall c :: c in calls[..n] ==> c.now <= t)
    ensures Accepted(l, calls, key, s, t, gc) == Accepted(l, calls[..n], key, s, t, gc)
    decreases |calls|
  {
    n := |calls|;
    assert calls[..n] == calls;
    if n > 0 && calls[n - 1].now > t {
      n := AcceptedUpTo(l, calls[..n - 1], key, s, t, gc);
      assert calls[..|calls| - 1][..n] == calls[..n];
    }
  }

  /** Without cleanup: at most burst + rate * (t - s) acceptances of a key in any interval [s, t]. */
  lemma BoundWithoutGc(l: Limits, calls: seq<Call>, key: string, s: real, t: real)
    requires Sane(l) && Monotone(calls) && s <= t
    ensures Accepted(l, calls, key, s, t, false) as real <= l.burst + (t - s) * l.rate
  {
    var n := AcceptedUpTo(l, calls, key, s, t, false);
    BudgetHolds(l, calls[..n], key, s, t);
    TokensStayInRange(l, calls[..n], false, t);
    BudgetBounds(l, Accepted(l, calls[..n], key, s, t, false), Get(After(l, calls[..n], false), key), s, t);
  }

  lemma BudgetBounds(l: Limits, accepted: nat, b: Option<Bucket>, s: real, t: real)
    requires Sane(l) && s <= t && Budget(l, accepted, b, s) && (b.Some? ==> BucketOk(l, b.value, t))
    ensures accepted as real <= l.burst + (t - s) * l.rate
  {
    if b.None? {
      Scale(0.0, t - s, l.rate);
    } else {
      Scale(Elapsed(s, b.value.last), t - s, l.rate);
    }
  }

  // ----- cleanup --------------------------------------------------------------------------

  /** A bucket with and without cleanup: the same, or dropped after it had time to fill up. */
  ghost predicate SameBucket(l: Limits, swept: Option<Bucket>, kept: Option<Bucket>, now: real) {
    swept == kept || (swept.None? && kept.Some? && now - kept.value.last >= IDLE)
  }

  /** When a bucket fills up within the idle time, the two give the same verdict and go on alike. */
  lemma SameTokens(l: Limits, swept: Option<Bucket>, kept: Option<Bucket>, now: real)
    requires Sane(l) && IDLE * l.rate >= l.burst
    requires SameBucket(l, swept, kept, now) && (kept.Some? ==> BucketOk(l, kept.value, now))
    ensures Tokens(l, swept, now) == Tokens(l, kept, now)
  {
    if swept != kept {
      var idle := now - kept.value.last;
      Scale(IDLE, idle, l.rate);
      assert l.burst <= IDLE * l.rate;
      assert IDLE * l.rate <= idle * l.rate;
      assert kept.value.tokens >= 0.0;
      assert kept.value.tokens + idle * l.rate >= l.burst;
    }
  }

  lemma {:induction false} GcKeepsBuckets(l: Limits, calls: seq<Call>, key: string, now: real)
    requires Sane(l) && IDLE * l.rate >= l.burst
    requires Monotone(calls) && (calls != [] ==> calls[|calls| - 1].now <= now)
    ensures SameBucket(l, Get(After(l, calls, true), key), Get(After(l, calls, false), key), now)
    decreases |calls|
  {
    if calls != [] {
      var n := |calls| - 1;
      var at := calls[n].now;
      GcKeepsBuckets(l, calls[..n], key, at);
      TokensStayInRange(l, calls[..n], false, at);
      if calls[n].Allow? && calls[n].key == key {
        SameTokens(l, Get(After(l, calls[..n], true), key), Get(After(l, calls[..n], false), key), at);
      }
    }
  }

  /** Every verdict is what it would be without cleanup. */
  ghost predicate Transparent(l: Limits, calls: seq<Call>) {
    forall i :: 0 <= i < |calls| ==> Accepts(l, calls, i, true) == Accepts(l, calls, i, false)
  }

  lemma GcIsTransparent(l: Limits, calls: seq<Call>)
    requires Sane(l) && IDLE * l.rate >= l.burst && Monotone(calls)
    ensures Transparent(l, calls)
  {
    forall i | 0 <= i < |calls| && calls[i].Allow?
      ensures Accepts(l, calls, i, true) == Accepts(l, calls, i, false)
    {
      GcKeepsBuckets(l, calls[..i], calls[i].key, calls[i].now);
      TokensStayInRange(l, calls[..i], false, calls[i].now);
      SameTokens(l, Get(After(l, calls[..i], true), calls[i].key), Get(After(l, calls[..i], false), calls[i].key),
                 calls[i].now);
    }
  }

  lemma {:induction false} TransparentCounts(l: Limits, calls: seq<Call>, key: string, s: real, t: real)
    requires Transparent(l, calls)
    ensures Accepted(l, calls, key, s, t, true) == Accepted(l, calls, key, s, t, false)
    decreases |calls|
  {
    if calls != [] {
      var n := |calls| - 1;
      forall i | 0 <= i < n
        ensures Accepts(l, calls[..n], i, true) == Accepts(l, calls[..n], i, false)
      {
        assert calls[..n][..i] == calls[..i];
        assert Accepts(l, calls, i, true) == Accepts(l, calls, i, false);
      }
      TransparentCounts(l, calls[..n], key, s, t);
    }
  }

  /**
    The bound, with cleanups at any moments: over any history whose times do not decrease, the
    requests of a key accepted in [s, t] number at most burst + rate * (t - s).
   */
  lemma BucketBound(l: Limits, calls: seq<Call>, key: string, s: real, t: real)
    requires Sane(l) && IDLE * l.rate >= l.burst && Monotone(calls) && s <= t
    ensures Accepted(l, calls, key, s, t, true) as real <= l.burst + (t - s) * l.rate
  {
    GcIsTransparent(l, calls);
    TransparentCounts(l, calls, key, s, t);
    BoundWithoutGc(l, calls, key, s, t);
  }

  // ----- the condition is needed ----------------------------------------------------------

  ghost predicate Until(calls: seq<Call>, now: real) {
    Monotone(calls) && (calls != [] ==> calls[|calls| - 1].now <= now)
  }

  lemma Push(l: Limits, calls: seq<Call>, c: Call, gc: bool)
    ensures After(l, calls + [c], gc) ==
            if c.Allow? then DoAllow(l, After(l, calls, gc), c.key, c.now).items
            else if gc then DoGc(After(l, calls, gc), c.now, c.second) else After(l, calls, gc)
    ensures Until(calls, c.now) ==> Until(calls + [c], c.now)
  {
    assert (calls + [c])[..|calls|] == calls;
  }

  /** What the one key's bucket would hold now, with and without cleanup. */
  function Held(l: Limits, calls: seq<Call>, gc: bool, now: real): real {
    Tokens(l, Get(After(l, calls, gc), "k"), now)
  }

  lemma NoTimePasses(l: Limits, b: Bucket)
    requires b.tokens <= l.burst
    ensures Tokens(l, Some(b), b.last) == b.tokens
  {
    assert (b.last - b.last) * l.rate == 0.0;
  }

  lemma TakeOne(l: Limits, calls: seq<Call>, now: real, gc: bool)
    requires Sane(l) && Until(calls, now) && Held(l, calls, gc, now) >= 1.0
    ensures var more := calls + [Allow("k", now)];
            && Until(more, now)
            && Get(After(l, more, gc), "k") == Some(Bucket(Held(l, calls, gc, now) - 1.0, now))
            && Held(l, more, gc, now) == Held(l, calls, gc, now) - 1.0
  {
    Push(l, calls, Allow("k", now), gc);
    NoTimePasses(l, Bucket(Held(l, calls, gc, now) - 1.0, now));
  }

  /** n requests at one moment. */
  function Requests(n: nat, now: real): seq<Call>
    decreases n
  {
    if n == 0 then [] else Requests(n - 1, now) + [Allow("k", now)]
  }

  lemma OneMoreRequest(calls: seq<Call>, n: nat, now: real)
    requires n > 0
    ensures calls + Requests(n, now) == (calls + Requests(n - 1, now)) + [Allow("k", now)]
  {
  }

  /** They take n tokens, where there are that many. */
  lemma {:induction false} Drain(l: Limits, calls: seq<Call>, now: real, n: nat, gc: bool)
    requires Sane(l) && Until(calls, now) && n as real <= Held(l, calls, gc, now)
    ensures var more := calls + Requests(n, now);
            && Until(more, now) && Held(l, more, gc, now) == Held(l, calls, gc, now) - n as real
            && (n > 0 ==> Get(After(l, more, gc), "k") == Some(Bucket(Held(l, calls, gc, now) - n as real, now)))
    decreases n
  {
    if n == 0 {
      assert calls + [] == calls;
    } else {
      Drain(l, calls, now, n - 1, gc);
      OneMoreRequest(calls, n, now);
      TakeOne(l, calls + Requests(n - 1, now), now, gc);
    }
  }

  /** The same requests take n tokens in two histories. */
  lemma DrainBoth(l: Limits, a: seq<Call>, gcA: bool, b: seq<Call>, gcB: bool, now: real, n: nat)
    returns (more: seq<Call>)
    requires Sane(l) && Until(a, now) && Until(b, now)
    requires n as real <= Held(l, a, gcA, now) && n as real <= Held(l, b, gcB, now)
    ensures Until(a + more, now) && Until(b + more, now)
    ensures Held(l, a + more, gcA, now) == Held(l, a, gcA, now) - n as real
    ensures Held(l, b + more, gcB, now) == Held(l, b, gcB, now) - n as real
    ensures n > 0 ==>
              && Get(After(l, a + more, gcA), "k") == Some(Bucket(Held(l, a, gcA, now) - n as real, now))
              && Get(After(l, b + more, gcB), "k") == Some(Bucket(Held(l, b, gcB, now) - n as real, now))
  {
    more := Requests(n, now);
    Drain(l, a, now, n, gcA);
    Drain(l, b, now, n, gcB);
  }

  /** The verdicts on the last calls of two histories differ. */
  ghost predicate EndApart(l: Limits, a: seq<Call>, gcA: bool, b: seq<Call>, gcB: bool) {
    a != [] && b != [] && Accepts(l, a, |a| - 1, gcA) != Accepts(l, b, |b| - 1, gcB)
  }

  /** One more request tells the two apart. */
  lemma TellApart(l: Limits, a: seq<Call>, gcA: bool, b: seq<Call>, gcB: bool, now: real)
    requires Until(a, now) && Until(b, now) && Held(l, b, gcB, now) >= 1.0 > Held(l, a, gcA, now)
    ensures var c := Allow("k", now);
            Monotone(a + [c]) && Monotone(b + [c]) && EndApart(l, a + [c], gcA, b + [c], gcB)
  {
    var c := Allow("k", now);
    assert (a + [c])[..|a|] == a && (b + [c])[..|b|] == b;
  }

  /** A history that leaves the bucket exactly empty, or short of one token if it never refills. */
  lemma Empty(l: Limits) returns (calls: seq<Call>, now: real, left: real)
    requires Sane(l) && l.burst >= 1.0
    ensures Until(calls, now) && 0.0 <= left < 1.0 && (l.rate > 0.0 ==> left == 0.0)
    ensures forall gc :: Get(After(l, calls, gc), "k") == Some(Bucket(left, now))
  {
    var full := l.burst.Floor;
    now := 0.0;
    left := l.burst - full as real;
    var drain := DrainBoth(l, [], true, [], false, 0.0, full);
    calls := [] + drain;
    if l.rate > 0.0 {
      var frac := left;
      now := WaitFor(1.0 - frac, l.rate);
      left := 0.0;
      var c := Allow("k", now);
      forall gc
        ensures Until(calls + [c], now)
        ensures Get(After(l, calls + [c], gc), "k") == Some(Bucket(0.0, now))
      {
        assert Get(After(l, calls, gc), "k") == Some(Bucket(frac, 0.0));
        TokensAfter(l, Bucket(frac, 0.0), now, 1.0 - frac);
        Push(l, calls, c, gc);
      }
      calls := calls + [c];
    }
  }

  /** How long (1 - tokens) takes to flow in. */
  lemma WaitFor(flow: real, rate: real) returns (wait: real)
    requires rate > 0.0 && flow >= 0.0
    ensures wait >= 0.0 && wait * rate == flow
  {
    wait := flow / rate;
  }

  /** An idle time just long enough to be cleaned up, too short to fill an empty bucket. */
  lemma Idle(l: Limits) returns (wait: real, flow: real)
    requires Sane(l) && IDLE * l.rate < l.burst
    ensures wait > IDLE && wait * l.rate == flow && 0.0 <= flow < l.burst
    ensures l.rate == 0.0 ==> flow == 0.0
  {
    if l.rate == 0.0 {
      wait, flow := IDLE + 1.0, 0.0;
    } else {
      var fill := WaitFor(l.burst, l.rate);
      assert fill > IDLE by {
        if fill <= IDLE {
          Scale(fill, IDLE, l.rate);
          assert false;
        }
      }
      wait, flow := (IDLE + fill) / 2.0, (IDLE * l.rate + l.burst) / 2.0;
      Distribute(IDLE / 2.0, fill / 2.0, l.rate);
    }
  }

  /** An idle bucket is swept in the first second of a minute. */
  lemma Sweep(l: Limits, calls: seq<Call>, b: Bucket, now: real) returns (more: seq<Call>)
    requires Until(calls, now) && now - b.last > IDLE
    requires forall gc :: Get(After(l, calls, gc), "k") == Some(b)
    ensures Until(more, now)
    ensures Get(After(l, more, true), "k") == None && Get(After(l, more, false), "k") == Some(b)
  {
    Push(l, calls, Gc(now, 0), true);
    Push(l, calls, Gc(now, 0), false);
    assert Get(After(l, calls, true), "k") == Some(b);
    more := calls + [Gc(now, 0)];
  }

  /** Both buckets are short of a token; wait until only the fuller one has it. */
  lemma WaitForToken(l: Limits, a: seq<Call>, gcA: bool, b: seq<Call>, gcB: bool, now: real, ahead: real, behind: real)
    returns (later: real)
    requires l.rate > 0.0 && l.burst >= 1.0 && behind < ahead < 1.0 && Until(a, now) && Until(b, now)
    requires Get(After(l, b, gcB), "k") == Some(Bucket(ahead, now))
    requires Get(After(l, a, gcA), "k") == Some(Bucket(behind, now))
    ensures Until(a, later) && Until(b, later) && Held(l, b, gcB, later) >= 1.0 > Held(l, a, gcA, later)
  {
    var wait := WaitFor(1.0 - ahead, l.rate);
    TokensAfter(l, Bucket(ahead, now), wait, 1.0 - ahead);
    TokensAfter(l, Bucket(behind, now), wait, 1.0 - ahead);
    later := now + wait;
  }

  /** The emptier bucket is short of a token; one more request, now or a little later, shows it. */
  lemma ShortTellsApart(l: Limits, a: seq<Call>, gcA: bool, b: seq<Call>, gcB: bool, now: real) returns (c: Call)
    requires Sane(l) && l.burst >= 1.0 && Until(a, now) && Until(b, now)
    requires Held(l, a, gcA, now) < 1.0 && Held(l, a, gcA, now) < Held(l, b, gcB, now)
    requires Held(l, b, gcB, now) < 1.0 ==>
               && l.rate > 0.0
               && Get(After(l, a, gcA), "k") == Some(Bucket(Held(l, a, gcA, now), now))
               && Get(After(l, b, gcB), "k") == Some(Bucket(Held(l, b, gcB, now), now))
    ensures Monotone(a + [c]) && Monotone(b + [c]) && EndApart(l, a + [c], gcA, b + [c], gcB)
  {
    var later := now;
    if Held(l, b, gcB, now) < 1.0 {
      later := WaitForToken(l, a, gcA, b, gcB, now, Held(l, b, gcB, now), Held(l, a, gcA, now));
    }
    TellApart(l, a, gcA, b, gcB, later);
    c := Allow("k", later);
  }

  lemma WholeTokens(tokens: real) returns (n: nat)
    requires tokens >= 0.0
    ensures n as real <= tokens < n as real + 1.0
  {
    n := tokens.Floor;
  }

  lemma DrainTellsApart(l: Limits, a: seq<Call>, gcA: bool, b: seq<Call>, gcB: bool, now: real)
    returns (drain: seq<Call>, c: Call)
    requires Sane(l) && l.burst >= 1.0 && Until(a, now) && Until(b, now)
    requires Held(l, b, gcB, now) == l.burst && 0.0 <= Held(l, a, gcA, now) < l.burst
    requires l.rate == 0.0 ==> Held(l, a, gcA, now) < 1.0
    ensures Monotone(a + drain + [c]) && Monotone(b + drain + [c])
    ensures EndApart(l, a + drain + [c], gcA, b + drain + [c], gcB)
  {
    var n := WholeTokens(Held(l, a, gcA, now));
    drain := DrainBoth(l, a, gcA, b, gcB, now, n);
    c := ShortTellsApart(l, a + drain, gcA, b + drain, gcB, now);
  }

  /** Of two buckets the full one holds strictly more; draining both shows it. */
  lemma FullHoldsMore(l: Limits, a: seq<Call>, gcA: bool, b: seq<Call>, gcB: bool, now: real) returns (tail: seq<Call>)
    requires Sane(l) && l.burst >= 1.0 && Until(a, now) && Until(b, now)
    requires Held(l, b, gcB, now) == l.burst && 0.0 <= Held(l, a, gcA, now) < l.burst
    requires l.rate == 0.0 ==> Held(l, a, gcA, now) < 1.0
    ensures tail != [] && Monotone(a + tail) && Monotone(b + tail) && EndApart(l, a + tail, gcA, b + tail, gcB)
  {
    var drain, c := DrainTellsApart(l, a, gcA, b, gcB, now);
    tail := drain + [c];
    SnocTail(a, drain, c);
    SnocTail(b, drain, c);
  }

  lemma SnocTail(a: seq<Call>, b: seq<Call>, c: Call)
    ensures a + (b + [c]) == a + b + [c]
  {
  }

  lemma SweepShows(l: Limits) returns (apart: seq<Call>)
    requires Sane(l) && l.burst >= 1.0 && IDLE * l.rate < l.burst
    ensures Monotone(apart) && !Transparent(l, apart)
  {
    var calls, emptied, left := Empty(l);
    var wait, flow := Idle(l);
    var now := emptied + wait;
    TokensAfter(l, Bucket(left, emptied), wait, flow);
    var swept := Sweep(l, calls, Bucket(left, emptied), now);
    var tail := FullHoldsMore(l, swept, false, swept, true, now);
    apart := swept + tail;
  }

  /**
    Cleanup is transparent for every history exactly when a bucket fills up within the idle time,
    or can never grant a request at all.
   */
  lemma TransparentExactlyWhen(l: Limits)
    requires Sane(l)
    ensures (forall calls :: Monotone(calls) ==> Transparent(l, calls))
       <==> 600.0 * l.rate >= l.burst || l.burst < 1.0
  {
    if IDLE * l.rate >= l.burst {
      forall calls | Monotone(calls)
        ensures Transparent(l, calls)
      {
        GcIsTransparent(l, calls);
      }
    } else if l.burst >= 1.0 {
      var apart := SweepShows(l);
    } else {
      forall calls | Monotone(calls)
        ensures Transparent(l, calls)
      {
        NeverGrants(l, calls);
      }
    }
  }

  lemma NeverGrants(l: Limits, calls: seq<Call>)
    requires l.burst < 1.0
    ensures Transparent(l, calls)
  {
  }

  /** The limiter the server configures: five a second, bursts of ten. */
  lemma ConfiguredLimiterIsBounded(calls: seq<Call>, key: string, s: real, t: real)
    requires Monotone(calls) && s <= t
    ensures Transparent(Limits(5.0, 10.0), calls)
    ensures Accepted(Limits(5.0, 10.0), calls, key, s, t, true) as real <= 10.0 + (t - s) * 5.0
  {
    var l := FiveAndTen();
    GcIsTransparent(l, calls);
    BucketBound(l, calls, key, s, t);
    SameFlow(t - s, l.rate, 5.0);
  }

  lemma FiveAndTen() returns (l: Limits)
    ensures l == Limits(5.0, 10.0) && Sane(l) && IDLE * l.rate >= l.burst
  {
    l := Limits(5.0, 10.0);
  }

  lemma SameFlow(wait: real, a: real, b: real)
    requires a == b
    ensures wait * a == wait * b
  {
  }

  // ----- the limiter as it is written -----------------------------------------------------

  class RateLimiter {
    const limits: Limits
    var items: Buckets

    constructor (rate: real, burst: real)
      ensures limits == Limits(rate, burst) && items == map[]
    {
      limits := Limits(rate, burst);
      items := map[];
    }

    method TryTake(key: string, now: real) returns (ok: bool)
      modifies this`items
      ensures Verdict(items, ok) == DoAllow(limits, old(items), key, now)
    {
      var b := if key in items then items[key] else Bucket(limits.burst, now);
      var elapsed := now - b.last;
      var tokens := b.tokens + elapsed * limits.rate;
      if tokens > limits.burst {
        tokens := limits.burst;
      }
      if tokens < 1.0 {
        items := items[key := Bucket(tokens, now)];
        return false;
      }
      items := items[key := Bucket(tokens - 1.0, now)];
      ok := true;
    }

    method Collect(now: real, second: nat)
      modifies this`items
      ensures items == DoGc(old(items), now, second)
    {
      if second % 60 != 0 {
        return;
      }
      var left := items.Keys;
      ghost var before := items;
      while left != {}
        invariant left <= before.Keys && items.Keys <= before.Keys && left <= items.Keys
        invariant forall k :: k in items ==> items[k] == before[k]
        invariant forall k :: k in before && k !in left ==> (k in items <==> now - before[k].last <= IDLE)
        decreases left
      {
        var k :| k in left;
        if now - items[k].last > IDLE {
          items := items - {k};
        }
        left := left - {k};
      }
    }
  }
}
