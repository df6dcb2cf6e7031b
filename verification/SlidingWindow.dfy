/** The per-key sliding window of the admin login. Times are nanoseconds since the epoch and do not run backwards. */
module SlidingWindow {
  datatype Limits = Limits(limit: int, window: int)
  datatype Call = Call(key: string, now: nat)
  datatype Verdict = Verdict(hits: map<string, seq<nat>>, ok: bool)

  /** The times after the cutoff, in order. */
  function Recent(times: seq<nat>, cutoff: int): seq<nat>
    decreases |times|
  {
    if times == [] then []
    else
      var last := |times| - 1;
      Recent(times[..last], cutoff) + if times[last] > cutoff then [times[last]] else []
  }

  function HitsOf(hits: map<string, seq<nat>>, key: string): seq<nat> {
    if key in hits then hits[key] else []
  }

  function DoAllow(l: Limits, hits: map<string, seq<nat>>, key: string, now: nat): Verdict {
    var keep := Recent(HitsOf(hits, key), now - l.window);
    if |keep| >= l.limit then Verdict(hits[key := keep], false)
    else Verdict(hits[key := keep + [now]], true)
  }

  function After(l: Limits, calls: seq<Call>): map<string, seq<nat>>
    decreases |calls|
  {
    if calls == [] then map[]
    else
      var last := |calls| - 1;
      DoAllow(l, After(l, calls[..last]), calls[last].key, calls[last].now).hits
  }

  /** The verdict on the i-th call of a history. */
  predicate Accepts(l: Limits, calls: seq<Call>, i: nat)
    requires i < |calls|
  {
    DoAllow(l, After(l, calls[..i]), calls[i].key, calls[i].now).ok
  }

  /** The times of the calls of a key that were accepted, in order. */
  function AcceptedTimes(l: Limits, calls: seq<Call>, key: string): seq<nat>
    decreases |calls|
  {
    if calls == [] then []
    else
      var last := |calls| - 1;
      AcceptedTimes(l, calls[..last], key) +
      if calls[last].key == key && Accepts(l, calls, last) then [calls[last].now] else []
  }

  /** How many times lie in the half-open interval (lo, hi]. */
  function CountIn(times: seq<nat>, lo: int, hi: int): nat
    decreases |times|
  {
    if times == [] then 0
    else
      var last := |times| - 1;
      CountIn(times[..last], lo, hi) + if lo < times[last] <= hi then 1 else 0
  }

  ghost predicate Monotone(calls: seq<Call>) {
    forall i, j :: 0 <= i <= j < |calls| ==> calls[i].now <= calls[j].now
  }

  lemma RecentAppend(times: seq<nat>, t: nat, cutoff: int)
    ensures Recent(times + [t], cutoff) == Recent(times, cutoff) + if t > cutoff then [t] else []
  {
    assert (times + [t])[..|times|] == times;
  }

  lemma {:induction false} RecentTwice(times: seq<nat>, c: int, d: int)
    requires c <= d
    ensures Recent(Recent(times, c), d) == Recent(times, d)
    decreases |times|
  {
    if times != [] {
      var last := |times| - 1;
      RecentTwice(times[..last], c, d);
      RecentAppend(Recent(times[..last], c), times[last], d);
      assert Recent(times[..last], c) + [] == Recent(times[..last], c);
    }
  }

  ghost predicate NoneAfter(times: seq<nat>, now: int) {
    forall i :: 0 <= i < |times| ==> times[i] <= now
  }

  /** A history whose times do not run backwards, up to now. */
  ghost predicate Until(calls: seq<Call>, now: int) {
    Monotone(calls) && (calls != [] ==> calls[|calls| - 1].now <= now)
  }

  lemma {:induction false} RecentCounts(times: seq<nat>, cutoff: int, hi: int)
    requires NoneAfter(times, hi)
    ensures |Recent(times, cutoff)| == CountIn(times, cutoff, hi)
    decreases |times|
  {
    if times != [] {
      RecentCounts(times[..|times| - 1], cutoff, hi);
    }
  }

  /** What was forgotten would not have been counted again: the stored hits stand for all of them. */
  lemma {:induction false} StoredStandsForAll(l: Limits, calls: seq<Call>, key: string, now: nat, cutoff: int)
    requires Until(calls, now) && cutoff >= now - l.window
    ensures Recent(HitsOf(After(l, calls), key), cutoff) == Recent(AcceptedTimes(l, calls, key), cutoff)
    decreases |calls|
  {
    if calls != [] {
      var last := |calls| - 1;
      StoredStandsForAll(l, calls[..last], key, now, cutoff);
      if calls[last].key == key {
        StoreStep(l, After(l, calls[..last]), key, calls[last].now, AcceptedTimes(l, calls[..last], key), cutoff);
      } else {
        NothingAdded(AcceptedTimes(l, calls[..last], key));
      }
    }
  }

  lemma NothingAdded(times: seq<nat>)
    ensures times + [] == times
  {
  }

  /** The hits a call leaves for its key. */
  function Entered(l: Limits, hits: seq<nat>, now: nat): seq<nat> {
    var keep := Recent(hits, now - l.window);
    if |keep| >= l.limit then keep else keep + [now]
  }

  lemma AllowEnters(l: Limits, hits: map<string, seq<nat>>, key: string, now: nat)
    ensures DoAllow(l, hits, key, now)
         == Verdict(hits[key := Entered(l, HitsOf(hits, key), now)],
                    |Recent(HitsOf(hits, key), now - l.window)| < l.limit)
  {
  }

  lemma EnteredRecent(l: Limits, hits: seq<nat>, now: nat, times: seq<nat>, cutoff: int)
    requires cutoff >= now - l.window && Recent(hits, cutoff) == Recent(times, cutoff)
    ensures Recent(Entered(l, hits, now), cutoff)
         == Recent(times + if |Recent(hits, now - l.window)| < l.limit then [now] else [], cutoff)
  {
    RecentTwice(hits, now - l.window, cutoff);
    RecentAppend(Recent(hits, now - l.window), now, cutoff);
    RecentAppend(times, now, cutoff);
    NothingAdded(times);
  }

  lemma StoreStep(l: Limits, hits: map<string, seq<nat>>, key: string, now: nat, times: seq<nat>, cutoff: int)
    requires cutoff >= now - l.window && Recent(HitsOf(hits, key), cutoff) == Recent(times, cutoff)
    ensures var v := DoAllow(l, hits, key, now);
            Recent(HitsOf(v.hits, key), cutoff) == Recent(times + if v.ok then [now] else [], cutoff)
  {
    AllowEnters(l, hits, key, now);
    EnteredRecent(l, HitsOf(hits, key), now, times, cutoff);
  }

  lemma {:induction false} AcceptedSoFar(l: Limits, calls: seq<Call>, key: string, now: nat)
    requires Until(calls, now)
    ensures NoneAfter(AcceptedTimes(l, calls, key), now)
    decreases |calls|
  {
    if calls != [] {
      AcceptedSoFar(l, calls[..|calls| - 1], key, now);
    }
  }

  lemma StoredCounts(l: Limits, calls: seq<Call>, key: string, now: nat)
    requires Until(calls, now)
    ensures |Recent(HitsOf(After(l, calls), key), now - l.window)|
         == CountIn(AcceptedTimes(l, calls, key), now - l.window, now)
  {
    StoredStandsForAll(l, calls, key, now, now - l.window);
    AcceptedSoFar(l, calls, key, now);
    RecentCounts(AcceptedTimes(l, calls, key), now - l.window, now);
  }

  lemma PrefixUntil(calls: seq<Call>, i: nat)
    requires i < |calls| && Monotone(calls)
    ensures Until(calls[..i], calls[i].now)
  {
  }

  /** The verdict on one more call of a key. */
  lemma ExactAt(l: Limits, calls: seq<Call>, key: string, now: nat)
    requires Until(calls, now)
    ensures DoAllow(l, After(l, calls), key, now).ok
       <==> CountIn(AcceptedTimes(l, calls, key), now - l.window, now) < l.limit
  {
    StoredCounts(l, calls, key, now);
    AllowEnters(l, After(l, calls), key, now);
  }

  /**
    The window is exact: a call is accepted exactly when fewer than `limit` accepted calls of its
    key lie in (now - window, now].
   */
  lemma WindowIsExact(l: Limits, calls: seq<Call>, i: nat)
    requires i < |calls| && Monotone(calls)
    ensures Accepts(l, calls, i)
       <==> CountIn(AcceptedTimes(l, calls[..i], calls[i].key), calls[i].now - l.window, calls[i].now) < l.limit
  {
    PrefixUntil(calls, i);
    ExactAt(l, calls[..i], calls[i].key, calls[i].now);
  }

  lemma {:induction false} CountNarrows(times: seq<nat>, lo: int, hi: int, lo': int, hi': int)
    requires lo' <= lo && forall i :: 0 <= i < |times| && lo < times[i] <= hi ==> times[i] <= hi'
    ensures CountIn(times, lo, hi) <= CountIn(times, lo', hi')
    decreases |times|
  {
    if times != [] {
      var last := |times| - 1;
      CountNarrows(times[..last], lo, hi, lo', hi');
    }
  }

  lemma CountAppend(times: seq<nat>, t: nat, lo: int, hi: int)
    ensures CountIn(times + [t], lo, hi) == CountIn(times, lo, hi) + if lo < t <= hi then 1 else 0
  {
    assert (times + [t])[..|times|] == times;
  }

  /** What was counted in the window bounds what is counted in an interval that ends later. */
  lemma WindowFits(l: Limits, before: seq<nat>, now: nat, start: int)
    requires CountIn(before, now - l.window, now) < l.limit && NoneAfter(before, now) && start < now <= start + l.window
    ensures CountIn(before, start, start + l.window) < l.limit
  {
    CountNarrows(before, start, start + l.window, now - l.window, now);
  }

  /** An acceptance in the interval saw fewer than `limit` others in it. */
  lemma AcceptanceFits(l: Limits, calls: seq<Call>, i: nat, start: int)
    requires i < |calls| && Monotone(calls) && Accepts(l, calls, i) && start < calls[i].now <= start + l.window
    ensures CountIn(AcceptedTimes(l, calls[..i], calls[i].key), start, start + l.window) < l.limit
  {
    PrefixUntil(calls, i);
    FitsNext(l, calls[..i], calls[i].key, calls[i].now, start);
  }

  lemma FitsNext(l: Limits, calls: seq<Call>, key: string, now: nat, start: int)
    requires Until(calls, now) && DoAllow(l, After(l, calls), key, now).ok && start < now <= start + l.window
    ensures CountIn(AcceptedTimes(l, calls, key), start, start + l.window) < l.limit
  {
    ExactAt(l, calls, key, now);
    AcceptedSoFar(l, calls, key, now);
    WindowFits(l, AcceptedTimes(l, calls, key), now, start);
  }

  /** No half-open interval as long as the window holds more than `limit` acceptances of a key. */
  lemma {:induction false} NoWindowHoldsMore(l: Limits, calls: seq<Call>, key: string, start: int)
    requires Monotone(calls)
    ensures CountIn(AcceptedTimes(l, calls, key), start, start + l.window) <= if l.limit < 0 then 0 else l.limit
    decreases |calls|
  {
    if calls != [] {
      var last := |calls| - 1;
      var before := AcceptedTimes(l, calls[..last], key);
      NoWindowHoldsMore(l, calls[..last], key, start);
      NothingAdded(before);
      CountAppend(before, calls[last].now, start, start + l.window);
      if calls[last].key == key && Accepts(l, calls, last) && start < calls[last].now <= start + l.window {
        AcceptanceFits(l, calls, last, start);
      }
    }
  }

  // ----- the limiter as it is written -----------------------------------------------------

  /** A slice: the first `len` elements of a backing array that may have room to spare. */
  datatype Slice = Slice(buf: array<nat>, len: nat)

  /**
    keep := s[:0], then append each time after the cutoff: the kept times are written over the
    front of the very array they are read from.
   */
  method Compact(s: Slice, cutoff: int) returns (keep: nat)
    requires s.len <= s.buf.Length
    modifies s.buf
    ensures keep <= s.len && s.buf[..keep] == Recent(old(s.buf[..s.len]), cutoff)
  {
    var buf := s.buf;
    ghost var was := buf[..];
    keep := 0;
    for i := 0 to s.len
      invariant keep <= i
      invariant buf[..keep] == Recent(was[..i], cutoff)
      invariant buf[i..] == was[i..]
    {
      var t := buf[i];
      assert t == buf[i..][0] == was[i];
      RecentAppend(was[..i], t, cutoff);
      assert was[..i + 1] == was[..i] + [t];
      if t > cutoff {
        buf[keep] := t;
        keep := keep + 1;
      }
      assert buf[i + 1..] == was[i..][1..];
    }
    assert was[..s.len] == old(s.buf[..s.len]);
  }

  /** append: in place when there is room, into a larger array otherwise. */
  method Append(s: Slice, t: nat) returns (r: Slice)
    requires s.len <= s.buf.Length
    modifies s.buf
    ensures r.len == s.len + 1 <= r.buf.Length && r.buf[..r.len] == old(s.buf[..s.len]) + [t]
    ensures r.buf == s.buf || fresh(r.buf)
  {
    if s.len < s.buf.Length {
      s.buf[s.len] := t;
      return Slice(s.buf, s.len + 1);
    }
    var buf := new nat[2 * s.len + 1];
    forall i | 0 <= i < s.len {
      buf[i] := s.buf[i];
    }
    buf[s.len] := t;
    r := Slice(buf, s.len + 1);
  }

  /** One key: forget the times out of the window, then add this one if there is room for it. */
  method Enter(l: Limits, s: Slice, now: nat) returns (r: Slice, ok: bool)
    requires s.len <= s.buf.Length
    modifies s.buf
    ensures r.len <= r.buf.Length && (r.buf == s.buf || fresh(r.buf))
    ensures r.buf[..r.len] == Entered(l, old(s.buf[..s.len]), now)
    ensures ok == (|Recent(old(s.buf[..s.len]), now - l.window)| < l.limit)
  {
    var keep := Compact(s, now - l.window);
    r := Slice(s.buf, keep);
    ok := keep < l.limit;
    if ok {
      r := Append(r, now);
    }
  }

  /** Every slice fits its array, and no two keys share one. */
  ghost predicate Apart(hits: map<string, Slice>) {
    && (forall k :: k in hits ==> hits[k].len <= hits[k].buf.Length)
    && (forall k, k' :: k in hits && k' in hits && k != k' ==> hits[k].buf != hits[k'].buf)
  }

  lemma ApartWith(hits: map<string, Slice>, key: string, s: Slice)
    requires Apart(hits) && s.len <= s.buf.Length && forall k :: k in hits && k != key ==> hits[k].buf != s.buf
    ensures Apart(hits[key := s])
  {
  }

  class RateLimiter {
    const limits: Limits
    var hits: map<string, Slice>

    ghost predicate Valid()
      reads this
    {
      Apart(hits)
    }

    ghost function Hits(): map<string, seq<nat>>
      requires Valid()
      reads this, set k | k in hits :: hits[k].buf
    {
      map k | k in hits :: hits[k].buf[..hits[k].len]
    }

    constructor (limit: int, window: int)
      ensures Valid() && limits == Limits(limit, window) && Hits() == map[]
    {
      limits := Limits(limit, window);
      hits := map[];
    }

    /** hits[key], the nil slice when there is none. */
    method Find(key: string) returns (s: Slice)
      requires Valid()
      ensures s.len <= s.buf.Length && s.buf[..s.len] == HitsOf(Hits(), key)
      ensures if key in hits then s == hits[key] else fresh(s.buf)
      ensures forall k :: k in hits && k != key ==> hits[k].buf != s.buf
    {
      if key in hits {
        return hits[key];
      }
      var none := new nat[0];
      s := Slice(none, 0);
    }

    /** hits[key] = s, where the other keys' slices are what they were. */
    method Store(key: string, s: Slice, ghost was: map<string, seq<nat>>)
      requires Valid() && s.len <= s.buf.Length && forall k :: k in hits && k != key ==> hits[k].buf != s.buf
      requires was.Keys == hits.Keys
      requires forall k :: k in hits && k != key ==> hits[k].buf[..hits[k].len] == was[k]
      modifies this`hits
      ensures Valid() && Hits() == was[key := s.buf[..s.len]]
    {
      ApartWith(hits, key, s);
      hits := hits[key := s];
      assert Hits() == was[key := s.buf[..s.len]];
    }

    method TryEnter(key: string, now: nat) returns (ok: bool)
      requires Valid()
      modifies this, if key in hits then {hits[key].buf} else {}
      ensures Valid() && Verdict(Hits(), ok) == DoAllow(limits, old(Hits()), key, now)
    {
      ghost var was := Hits();
      var slice := Find(key);
      var entered: Slice;
      entered, ok := Enter(limits, slice, now);
      assert forall k :: k in hits && k != key ==> hits[k].buf[..hits[k].len] == was[k];
      AllowEnters(limits, was, key, now);
      Store(key, entered, was);
    }
  }
}
