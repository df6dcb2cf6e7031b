/** What a record looks like on the other side, and what is where once a sync has run. */
module BridgeCopies {
  import opened Basics
  import opened RecordJson
  import opened Bridge
  import opened BridgeSettles

  // ----- a record on the other side -------------------------------------------------------

  /** One way down into a record. */
  datatype Step = Field(name: string) | Item(index: nat)

  /** What a record holds at a path, if the path leads anywhere. */
  function At(j: Json, path: seq<Step>): Option<Json>
    decreases |path|
  {
    if path == [] then Some(j)
    else
      match path[0]
      case Field(name) => if j.Obj? && name in j.fields then At(j.fields[name], path[1..]) else None
      case Item(i) => if j.Arr? && i < |j.xs| then At(j.xs[i], path[1..]) else None
  }

  /** The text is a reference into the repo of this DID. */
  predicate Refers(s: string, did: string, tail: string) {
    s == "at://" + did + "/" + tail
  }

  /**
    A place before and after: objects keep their keys and arrays their length, a string that is the
    value of an object's field and refers to the one DID refers to the same place under the other,
    and everything else is the same.
   */
  ghost predicate Carried(a: Json, b: Json, ofObject: bool, from: string, to: string) {
    match a
    case Obj(fields) => b.Obj? && b.fields.Keys == fields.Keys
    case Arr(xs) => b.Arr? && |b.xs| == |xs|
    case Str(s) =>
      && b.Str?
      && (forall tail :: ofObject && Refers(s, from, tail) ==> Refers(b.s, to, tail))
      && (!ofObject || (forall tail :: !Refers(s, from, tail)) ==> b.s == s)
    case _ => b == a
  }

  predicate EndsInField(path: seq<Step>) {
    path != [] && path[|path| - 1].Field?
  }

  lemma TextCarried(s: string, from: string, to: string)
    ensures Carried(Str(s), Str(RewriteText(s, Prefix(from), Prefix(to))), true, from, to)
  {
    var out := RewriteText(s, Prefix(from), Prefix(to));
    forall tail | Refers(s, from, tail)
      ensures Refers(out, to, tail)
    {
      assert s == Prefix(from) + tail && s[|Prefix(from)|..] == tail;
    }
    if Prefix(from) <= s {
      assert Refers(s, from, s[|Prefix(from)|..]);
    }
  }

  /** At every path, at every depth. */
  lemma {:induction false} RewriteAt(j: Json, path: seq<Step>, from: string, to: string)
    ensures var a, b := At(j, path), At(Rewrite(j, Prefix(from), Prefix(to)), path);
            (a.Some? <==> b.Some?) && (a.Some? ==> Carried(a.value, b.value, EndsInField(path), from, to))
    decreases |path|
  {
    if path != [] {
      match path[0]
      case Field(name) =>
        if j.Obj? && name in j.fields {
          if j.fields[name].Str? {
            TextCarried(j.fields[name].s, from, to);
          } else {
            RewriteAt(j.fields[name], path[1..], from, to);
          }
        }
      case Item(i) =>
        if j.Arr? && i < |j.xs| {
          RewriteAt(j.xs[i], path[1..], from, to);
        }
    }
  }

  /** A record as the program reads it: an object, or an empty one for null. */
  function AsObject(j: Json): Json {
    if j.Null? then Obj(map[]) else j
  }

  /** A published record, place by place: its local references point into the remote repo. */
  lemma PublishedAt(e: Env, j: Json, path: seq<Step>)
    ensures ToRemote(e, j).Some? <==> j.Obj? || j.Null?
    ensures ToRemote(e, j).Some? ==>
              var a, b := At(AsObject(j), path), At(ToRemote(e, j).value, path);
              && (a.Some? <==> b.Some?)
              && (a.Some? ==> Carried(a.value, b.value, EndsInField(path), e.localDid, e.remoteDid))
  {
    RewriteAt(AsObject(j), path, e.localDid, e.remoteDid);
  }

  /** An archived record, the other way round. */
  lemma ArchivedAt(e: Env, j: Json, path: seq<Step>)
    ensures ToLocal(e, j).Some? <==> j.Obj? || j.Null?
    ensures ToLocal(e, j).Some? ==>
              var a, b := At(AsObject(j), path), At(ToLocal(e, j).value, path);
              && (a.Some? <==> b.Some?)
              && (a.Some? ==> Carried(a.value, b.value, EndsInField(path), e.remoteDid, e.localDid))
  {
    RewriteAt(AsObject(j), path, e.remoteDid, e.localDid);
  }

  /** In particular a reference in a field of the record itself. */
  lemma FieldIsRedirected(e: Env, j: Json, name: string, tail: string)
    requires j.Obj? && name in j.fields
    ensures j.fields[name] == Str("at://" + e.localDid + "/" + tail) ==>
              && ToRemote(e, j).Some? && ToRemote(e, j).value.Obj? && name in ToRemote(e, j).value.fields
              && ToRemote(e, j).value.fields[name] == Str("at://" + e.remoteDid + "/" + tail)
    ensures j.fields[name] == Str("at://" + e.remoteDid + "/" + tail) ==>
              && ToLocal(e, j).Some? && ToLocal(e, j).value.Obj? && name in ToLocal(e, j).value.fields
              && ToLocal(e, j).value.fields[name] == Str("at://" + e.localDid + "/" + tail)
  {
    PublishedAt(e, j, []);
    ArchivedAt(e, j, []);
    PublishedAt(e, j, [Field(name)]);
    ArchivedAt(e, j, [Field(name)]);
    assert [Field(name)][1..] == [];
    assert At(j, [Field(name)]) == Some(j.fields[name]);
    assert Refers("at://" + e.localDid + "/" + tail, e.localDid, tail);
    assert Refers("at://" + e.remoteDid + "/" + tail, e.remoteDid, tail);
  }

  // ----- what archiving leaves ------------------------------------------------------------

  /** A remote record that is not archived yet, parses, and is taken by the local side. */
  ghost predicate Arrives(e: Env, s: Replicas, j: Json) {
    e.remoteCid(j) !in s.archived && (j.Obj? || j.Null?) && e.localTakes(ToLocal(e, j).value)
  }

  /** The i-th of a listing is archived: it arrives, and none before it that does has its CID. */
  ghost predicate Taken(e: Env, s: Replicas, posts: seq<Json>, i: nat) {
    && i < |posts| && Arrives(e, s, posts[i])
    && forall h :: 0 <= h < i && Arrives(e, s, posts[h]) ==> e.remoteCid(posts[h]) != e.remoteCid(posts[i])
  }

  function PostsOf(s: Replicas, order: seq<Rkey>): (posts: seq<Json>)
    requires ToSet(order) <= s.remotePosts.Keys
    ensures |posts| == |order|
  {
    seq(|order|, i requires 0 <= i < |order| => (assert order[i] in ToSet(order); s.remotePosts[order[i]]))
  }

  /** The rkeys of the posts that are archived. */
  ghost function TakenKeys(e: Env, s: Replicas, order: seq<Rkey>): (keys: set<Rkey>)
    requires ToSet(order) <= s.remotePosts.Keys
    ensures forall k :: k in keys ==> k in s.remotePosts && Arrives(e, s, s.remotePosts[k])
  {
    set i | 0 <= i < |order| && Taken(e, s, PostsOf(s, order), i) :: order[i]
  }

  /** What is archived, under the rkeys of the remote posts. */
  ghost function Copies(e: Env, s: Replicas, order: seq<Rkey>): map<Rkey, Json>
    requires ToSet(order) <= s.remotePosts.Keys
  {
    map k | k in TakenKeys(e, s, order) :: ToLocal(e, s.remotePosts[k]).value
  }

  ghost function TakenCids(e: Env, s: Replicas, order: seq<Rkey>): set<CidText>
    requires ToSet(order) <= s.remotePosts.Keys
  {
    set i | 0 <= i < |order| && Taken(e, s, PostsOf(s, order), i) :: e.remoteCid(PostsOf(s, order)[i])
  }

  /** Among those that arrive with a CID there is a first. */
  lemma {:induction false} FirstOfCid(e: Env, s: Replicas, posts: seq<Json>, h: nat) returns (i: nat)
    requires h < |posts| && Arrives(e, s, posts[h])
    ensures i <= h && Taken(e, s, posts, i) && e.remoteCid(posts[i]) == e.remoteCid(posts[h])
  {
    i := h;
    if g :| 0 <= g < h && Arrives(e, s, posts[g]) && e.remoteCid(posts[g]) == e.remoteCid(posts[h]) {
      i := FirstOfCid(e, s, posts, g);
    }
  }

  lemma TakenPrefix(e: Env, s: Replicas, order: seq<Rkey>)
    requires order != [] && ToSet(order) <= s.remotePosts.Keys
    ensures var n := |order| - 1;
            var post := PostsOf(s, order)[n];
            var last := Taken(e, s, PostsOf(s, order), n);
            && ToSet(order[..n]) <= s.remotePosts.Keys && order[n] in s.remotePosts && post == s.remotePosts[order[n]]
            && TakenKeys(e, s, order) == TakenKeys(e, s, order[..n]) + (if last then {order[n]} else {})
            && TakenCids(e, s, order) == TakenCids(e, s, order[..n]) + (if last then {e.remoteCid(post)} else {})
            && (last <==> Arrives(e, s, post) && e.remoteCid(post) !in TakenCids(e, s, order[..n]))
            && (last ==> order[n] !in TakenKeys(e, s, order[..n]))
  {
    var n := |order| - 1;
    assert ToSet(order[..n]) <= ToSet(order);
    var posts, before := PostsOf(s, order), PostsOf(s, order[..n]);
    forall i | 0 <= i < n
      ensures Taken(e, s, posts, i) <==> Taken(e, s, before, i)
    {
      assert forall h :: 0 <= h <= i ==> before[h] == posts[h];
    }
    if Arrives(e, s, posts[n]) && !Taken(e, s, posts, n) {
      var h :| 0 <= h < n && Arrives(e, s, posts[h]) && e.remoteCid(posts[h]) == e.remoteCid(posts[n]);
      var i := FirstOfCid(e, s, before, h);
      assert before[i] == posts[i];
    }
  }

  lemma CopiesPrefix(e: Env, s: Replicas, order: seq<Rkey>)
    requires order != [] && ToSet(order) <= s.remotePosts.Keys
    ensures var n := |order| - 1;
            && ToSet(order[..n]) <= s.remotePosts.Keys && order[n] in s.remotePosts
            && (if Taken(e, s, PostsOf(s, order), n) then
                  && order[n] !in Copies(e, s, order[..n]) && ToLocal(e, s.remotePosts[order[n]]).Some?
                  && Copies(e, s, order)
                     == Copies(e, s, order[..n])[order[n] := ToLocal(e, s.remotePosts[order[n]]).value]
                else Copies(e, s, order) == Copies(e, s, order[..n]))
  {
    TakenPrefix(e, s, order);
    var n := |order| - 1;
    var before, keys := TakenKeys(e, s, order[..n]), TakenKeys(e, s, order);
    if !Taken(e, s, PostsOf(s, order), n) {
      assert keys == before;
    }
  }

  /** The local posts after a loop that put these copies in place, the rows, and the count. */
  ghost predicate Archives(s: Replicas, copies: map<Rkey, Json>, cids: set<CidText>, c: Counted) {
    && c.state.localPosts == s.localPosts + copies && c.state.localSelf == s.localSelf
    && c.state.archived == s.archived + cids
    && c.count == |copies|
  }

  lemma OneMore(base: map<Rkey, Json>, copies: map<Rkey, Json>, k: Rkey, v: Json)
    ensures base + copies[k := v] == (base + copies)[k := v]
    ensures k !in copies ==> |copies[k := v]| == |copies| + 1
  {
    if k !in copies {
      assert copies[k := v].Keys == copies.Keys + {k};
      assert |copies[k := v].Keys| == |copies.Keys| + 1;
    }
  }

  lemma ArchivesOne(e: Env, s: Replicas, copies: map<Rkey, Json>, cids: set<CidText>, c: Counted, k: Rkey, post: Json)
    requires Archives(s, copies, cids, c) && k !in copies && Archivable(e, c.state, post)
    ensures var one := ArchivePost(e, c.state, k, post);
            Archives(s, copies[k := ToLocal(e, post).value], cids + {e.remoteCid(post)},
                     Counted(one.state, c.count + one.count))
  {
    OneMore(s.localPosts, copies, k, ToLocal(e, post).value);
    assert s.archived + cids + {e.remoteCid(post)} == s.archived + (cids + {e.remoteCid(post)});
  }

  lemma ArchiveTurn(e: Env, s: Replicas, copies: map<Rkey, Json>, cids: set<CidText>, c: Counted, k: Rkey, post: Json)
    requires Archives(s, copies, cids, c)
    requires Arrives(e, s, post) && e.remoteCid(post) !in cids ==> k !in copies
    ensures var one := ArchivePost(e, c.state, k, post);
            var next := Counted(one.state, c.count + one.count);
            if Arrives(e, s, post) && e.remoteCid(post) !in cids then
              Archives(s, copies[k := ToLocal(e, post).value], cids + {e.remoteCid(post)}, next)
            else next == c
  {
    assert Archivable(e, c.state, post) <==> Arrives(e, s, post) && e.remoteCid(post) !in cids;
    if Archivable(e, c.state, post) {
      ArchivesOne(e, s, copies, cids, c, k, post);
    }
  }

  lemma NothingArchived(e: Env, s: Replicas)
    ensures Archives(s, Copies(e, s, []), TakenCids(e, s, []), Counted(s, 0))
  {
    assert Copies(e, s, []) == map[] && TakenCids(e, s, []) == {};
    assert s.localPosts + map[] == s.localPosts && s.archived + {} == s.archived;
  }

  /** The last turn of the loop, against the turns before it. */
  lemma LastTurn(e: Env, s: Replicas, order: seq<Rkey>) returns (k: Rkey, post: Json)
    requires order != [] && ToSet(order) <= s.remotePosts.Keys
    ensures ToSet(order[..|order| - 1]) <= s.remotePosts.Keys
    ensures var rest := order[..|order| - 1];
            var before := ArchivePosts(e, s, rest);
            var one := ArchivePost(e, before.state, k, post);
            && ArchivePosts(e, s, order) == Counted(one.state, before.count + one.count)
            && (if Arrives(e, s, post) && e.remoteCid(post) !in TakenCids(e, s, rest) then
                  && k !in Copies(e, s, rest)
                  && Copies(e, s, order) == Copies(e, s, rest)[k := ToLocal(e, post).value]
                  && TakenCids(e, s, order) == TakenCids(e, s, rest) + {e.remoteCid(post)}
                else Copies(e, s, order) == Copies(e, s, rest) && TakenCids(e, s, order) == TakenCids(e, s, rest))
  {
    TakenPrefix(e, s, order);
    CopiesPrefix(e, s, order);
    k := order[|order| - 1];
    post := s.remotePosts[k];
  }

  /** Archiving the posts of a listing puts exactly the taken ones in place, each under its own rkey. */
  lemma {:induction false} ArchivePostsLeaves(e: Env, s: Replicas, order: seq<Rkey>)
    requires ToSet(order) <= s.remotePosts.Keys
    ensures Archives(s, Copies(e, s, order), TakenCids(e, s, order), ArchivePosts(e, s, order))
    decreases |order|
  {
    if order == [] {
      NothingArchived(e, s);
    } else {
      var rest := order[..|order| - 1];
      var k, post := LastTurn(e, s, order);
      ArchivePostsLeaves(e, s, rest);
      ArchiveTurn(e, s, Copies(e, s, rest), TakenCids(e, s, rest), ArchivePosts(e, s, rest), k, post);
    }
  }

  /** The remote profile is archived: it arrives, and no post archived before it has its CID. */
  ghost predicate SelfArrives(e: Env, s: Replicas, order: seq<Rkey>)
    requires ToSet(order) <= s.remotePosts.Keys
  {
    s.remoteSelf.Some? && Arrives(e, s, s.remoteSelf.value)
    && e.remoteCid(s.remoteSelf.value) !in TakenCids(e, s, order)
  }

  lemma SelfTurn(e: Env, s: Replicas, copies: map<Rkey, Json>, cids: set<CidText>, posts: Counted, goes: bool)
    requires Archives(s, copies, cids, posts) && posts.state.remoteSelf == s.remoteSelf
    requires goes <==>
               && s.remoteSelf.Some? && Arrives(e, s, s.remoteSelf.value)
               && e.remoteCid(s.remoteSelf.value) !in cids
    ensures var one := ArchiveSelf(e, posts.state);
            && one.state.localPosts == s.localPosts + copies
            && one.state.localSelf == (if goes then ToLocal(e, s.remoteSelf.value) else s.localSelf)
            && one.state.archived == s.archived + cids + (if goes then {e.remoteCid(s.remoteSelf.value)} else {})
            && posts.count + one.count == |copies| + (if goes then 1 else 0)
  {
    assert s.archived + cids + {} == s.archived + cids;
    assert s.remoteSelf.Some? ==> (Archivable(e, posts.state, s.remoteSelf.value) <==> goes);
  }

  /** What one archiving leaves in the local repo and in bridge_sync, and what it counts. */
  lemma ArchiveLeaves(e: Env, s: Replicas, order: seq<Rkey>)
    requires ToSet(order) == s.remotePosts.Keys
    ensures var c := Archive(e, s, order);
            var self := SelfArrives(e, s, order);
            && c.state.localPosts == s.localPosts + Copies(e, s, order)
            && c.state.localSelf == (if self then ToLocal(e, s.remoteSelf.value) else s.localSelf)
            && c.state.archived
               == s.archived + TakenCids(e, s, order) + (if self then {e.remoteCid(s.remoteSelf.value)} else {})
            && c.count == |Copies(e, s, order)| + (if self then 1 else 0)
  {
    ArchivePostsLeaves(e, s, order);
    SelfTurn(e, s, Copies(e, s, order), TakenCids(e, s, order), ArchivePosts(e, s, order), SelfArrives(e, s, order));
  }

  /** Remote posts that would be archived and share a CID are the same one. */
  ghost predicate RemoteCidsDiffer(e: Env, s: Replicas) {
    forall k, k' :: k in s.remotePosts && k' in s.remotePosts && k != k'
      && Arrives(e, s, s.remotePosts[k]) && Arrives(e, s, s.remotePosts[k'])
      ==> e.remoteCid(s.remotePosts[k]) != e.remoteCid(s.remotePosts[k'])
  }

  /** Where no two of them share a CID, every remote post that arrives is taken. */
  lemma AllAreTaken(e: Env, s: Replicas, order: seq<Rkey>, k: Rkey)
    requires ToSet(order) == s.remotePosts.Keys && RemoteCidsDiffer(e, s)
    requires k in s.remotePosts && Arrives(e, s, s.remotePosts[k])
    ensures k in TakenKeys(e, s, order)
  {
    assert k in ToSet(order);
    var h :| 0 <= h < |order| && order[h] == k;
    var i := FirstOfCid(e, s, PostsOf(s, order), h);
    assert PostsOf(s, order)[i] == s.remotePosts[order[i]];
    assert order[i] in ToSet(order) && order[i] == k;
  }

  ghost function Arrivals(e: Env, s: Replicas): set<Rkey> {
    set k | k in s.remotePosts && Arrives(e, s, s.remotePosts[k])
  }

  lemma CopiesAre(e: Env, s: Replicas, order: seq<Rkey>)
    requires ToSet(order) == s.remotePosts.Keys
    ensures Copies(e, s, order).Keys <= Arrivals(e, s)
    ensures forall k :: k in Copies(e, s, order) ==> Some(Copies(e, s, order)[k]) == ToLocal(e, s.remotePosts[k])
    ensures RemoteCidsDiffer(e, s) ==>
              Copies(e, s, order).Keys == Arrivals(e, s) && |Copies(e, s, order)| == |Arrivals(e, s)|
  {
    assert Copies(e, s, order).Keys == TakenKeys(e, s, order);
    if RemoteCidsDiffer(e, s) {
      forall k | k in Arrivals(e, s)
        ensures k in TakenKeys(e, s, order)
      {
        AllAreTaken(e, s, order, k);
      }
      assert TakenKeys(e, s, order) == Arrivals(e, s);
      assert |Copies(e, s, order)| == |Copies(e, s, order).Keys|;
    }
  }

  lemma PutOver(base: map<Rkey, Json>, copies: map<Rkey, Json>, k: Rkey)
    ensures Get(base + copies, k) == if k in copies then Some(copies[k]) else Get(base, k)
  {
  }

  /**
    The same, rkey by rkey. A local post stays what it was if its rkey is not that of a remote post,
    or if that post was archived before, does not parse or is refused. The others become the copies
    of the remote posts of their rkeys, and are counted, except that of posts with the same CID only
    the first listed is.
   */
  lemma ArchiveLeavesExactly(e: Env, s: Replicas, order: seq<Rkey>, k: Rkey)
    requires ToSet(order) == s.remotePosts.Keys
    ensures var c := Archive(e, s, order);
            && (k !in Arrivals(e, s) ==> Get(c.state.localPosts, k) == Get(s.localPosts, k))
            && (RemoteCidsDiffer(e, s) && k in Arrivals(e, s) ==>
                  Get(c.state.localPosts, k) == ToLocal(e, s.remotePosts[k]))
            && (RemoteCidsDiffer(e, s) ==> c.count == |Arrivals(e, s)| + (if SelfArrives(e, s, order) then 1 else 0))
  {
    ArchiveLeaves(e, s, order);
    CopiesAre(e, s, order);
    PutOver(s.localPosts, Copies(e, s, order), k);
  }

  // ----- what publishing leaves -----------------------------------------------------------

  /** A local record that is not published yet, parses, and is taken by the remote side. */
  ghost predicate Departs(e: Env, s: Replicas, j: Json) {
    e.localCid(j) !in s.published && (j.Obj? || j.Null?) && e.remoteTakes(ToRemote(e, j).value)
  }

  ghost function CidsOf(e: Env, posts: seq<Json>): set<CidText> {
    set j | j in posts :: e.localCid(j)
  }

  /** Of the posts that depart, the first of each CID, in order. */
  ghost function Sent(e: Env, s: Replicas, posts: seq<Json>): (sent: seq<Json>)
    ensures forall j :: j in sent ==> j in posts && Departs(e, s, j)
    decreases |posts|
  {
    if posts == [] then []
    else
      var last := posts[|posts| - 1];
      var before := Sent(e, s, posts[..|posts| - 1]);
      if Departs(e, s, last) && e.localCid(last) !in CidsOf(e, before) then before + [last] else before
  }

  /** They stand for all that depart, and no two share a CID. */
  lemma {:induction false} SentStandForAll(e: Env, s: Replicas, posts: seq<Json>)
    ensures forall j :: j in posts && Departs(e, s, j) ==> e.localCid(j) in CidsOf(e, Sent(e, s, posts))
    ensures |CidsOf(e, Sent(e, s, posts))| == |Sent(e, s, posts)|
    decreases |posts|
  {
    if posts != [] {
      var last := posts[|posts| - 1];
      var before := Sent(e, s, posts[..|posts| - 1]);
      SentStandForAll(e, s, posts[..|posts| - 1]);
      CidsAppend(e, before, last);
    }
  }

  lemma CidsAppend(e: Env, posts: seq<Json>, j: Json)
    ensures CidsOf(e, posts + [j]) == CidsOf(e, posts) + {e.localCid(j)}
  {
    forall c | c in CidsOf(e, posts)
      ensures c in CidsOf(e, posts + [j])
    {
      var x :| x in posts && e.localCid(x) == c;
      assert x in posts + [j];
    }
    assert j in posts + [j];
  }

  /** Records added to a repo under rkeys it did not have, beside all that was there. */
  ghost predicate Adds(before: map<Rkey, Json>, keys: seq<Rkey>, copies: seq<Json>, after: map<Rkey, Json>) {
    && |keys| == |copies| && (forall h, i :: 0 <= h < i < |keys| ==> keys[h] != keys[i])
    && (forall i :: 0 <= i < |keys| ==> keys[i] !in before)
    && after.Keys == before.Keys + ToSet(keys)
    && (forall k :: k in before ==> k in after && after[k] == before[k])
    && (forall i :: 0 <= i < |keys| ==> Get(after, keys[i]) == Some(copies[i]))
  }

  lemma AddsOne(before: map<Rkey, Json>, keys: seq<Rkey>, copies: seq<Json>, after: map<Rkey, Json>, k: Rkey, v: Json)
    requires Adds(before, keys, copies, after) && k !in after
    ensures Adds(before, keys + [k], copies + [v], after[k := v])
  {
    forall i | 0 <= i < |keys|
      ensures keys[i] in after && keys[i] != k
    {
      assert keys[i] in ToSet(keys);
    }
    assert ToSet(keys + [k]) == ToSet(keys) + {k};
  }

  ghost function Rewritten(e: Env, posts: seq<Json>): (copies: seq<Json>)
    requires forall j :: j in posts ==> ToRemote(e, j).Some?
    ensures |copies| == |posts|
  {
    seq(|posts|, i requires 0 <= i < |posts| => (assert posts[i] in posts; ToRemote(e, posts[i]).value))
  }

  /** The rows, the count and everything beside the posts after a loop that published these. */
  ghost predicate Publishes(e: Env, s: Replicas, sent: seq<Json>, c: Counted) {
    && c.state.published == s.published + CidsOf(e, sent) && c.count == |sent|
    && c.state.remoteSelf == s.remoteSelf && c.state.strays == s.strays
  }

  lemma PublishesOne(e: Env, s: Replicas, sent: seq<Json>, c: Counted, j: Json)
    requires Publishes(e, s, sent, c) && Publishable(e, c.state, j)
    ensures var one := PublishPost(e, c.state, j);
            Publishes(e, s, sent + [j], Counted(one.state, c.count + one.count))
  {
    CidsAppend(e, sent, j);
    assert s.published + CidsOf(e, sent) + {e.localCid(j)} == s.published + (CidsOf(e, sent) + {e.localCid(j)});
  }

  lemma PublishTurn(e: Env, s: Replicas, posts: seq<Json>) returns (before: Counted, last: Json, goes: bool)
    requires posts != []
    ensures var rest := posts[..|posts| - 1];
            && before == PublishPosts(e, s, rest) && last == posts[|posts| - 1]
            && goes == (Departs(e, s, last) && e.localCid(last) !in CidsOf(e, Sent(e, s, rest)))
            && Sent(e, s, posts) == (if goes then Sent(e, s, rest) + [last] else Sent(e, s, rest))
            && var one := PublishPost(e, before.state, last);
               PublishPosts(e, s, posts) == Counted(one.state, before.count + one.count)
  {
    last := posts[|posts| - 1];
    before := PublishPosts(e, s, posts[..|posts| - 1]);
    goes := Departs(e, s, last) && e.localCid(last) !in CidsOf(e, Sent(e, s, posts[..|posts| - 1]));
  }

  lemma GoesIsPublishable(e: Env, s: Replicas, sent: seq<Json>, c: Counted, j: Json)
    requires Publishes(e, s, sent, c)
    ensures Publishable(e, c.state, j) <==> Departs(e, s, j) && e.localCid(j) !in CidsOf(e, sent)
  {
  }

  lemma RewrittenAppend(e: Env, posts: seq<Json>, j: Json)
    requires (forall x :: x in posts ==> ToRemote(e, x).Some?) && ToRemote(e, j).Some?
    ensures Rewritten(e, posts + [j]) == Rewritten(e, posts) + [ToRemote(e, j).value]
  {
  }

  /** One more post sent, under one more new rkey. */
  lemma SendOne(e: Env, s: Replicas, sent: seq<Json>, keys: seq<Rkey>, c: Counted, j: Json) returns (more: seq<Rkey>)
    requires MintsNew(e) && Publishes(e, s, sent, c) && Publishable(e, c.state, j)
    requires (forall x :: x in sent ==> ToRemote(e, x).Some?)
    requires Adds(s.remotePosts, keys, Rewritten(e, sent), c.state.remotePosts)
    ensures var one := PublishPost(e, c.state, j);
            && Publishes(e, s, sent + [j], Counted(one.state, c.count + one.count))
            && Adds(s.remotePosts, more, Rewritten(e, sent + [j]), one.state.remotePosts)
  {
    var k := e.mint(c.state.remotePosts.Keys);
    PublishesOne(e, s, sent, c, j);
    RewrittenAppend(e, sent, j);
    AddsOne(s.remotePosts, keys, Rewritten(e, sent), c.state.remotePosts, k, ToRemote(e, j).value);
    more := keys + [k];
  }

  /** Publishing the posts of a listing adds exactly the copies of those sent, each under a new rkey. */
  lemma {:induction false} PublishPostsLeaves(e: Env, s: Replicas, posts: seq<Json>) returns (keys: seq<Rkey>)
    requires MintsNew(e)
    ensures var c := PublishPosts(e, s, posts);
            && Publishes(e, s, Sent(e, s, posts), c)
            && Adds(s.remotePosts, keys, Rewritten(e, Sent(e, s, posts)), c.state.remotePosts)
    decreases |posts|
  {
    if posts == [] {
      keys := [];
    } else {
      var rest := posts[..|posts| - 1];
      keys := PublishPostsLeaves(e, s, rest);
      var before, last, goes := PublishTurn(e, s, posts);
      GoesIsPublishable(e, s, Sent(e, s, rest), before, last);
      if goes {
        keys := SendOne(e, s, Sent(e, s, rest), keys, before, last);
      }
    }
  }

  /** The local profile is published: it departs, and no post published before it has its CID. */
  ghost predicate SelfDeparts(e: Env, s: Replicas, posts: seq<Json>) {
    s.localSelf.Some? && Departs(e, s, s.localSelf.value)
    && e.localCid(s.localSelf.value) !in CidsOf(e, Sent(e, s, posts))
  }

  /** What one publishing leaves on the remote side and in bridge_sync, and what it counts. */
  lemma PublishLeaves(e: Env, s: Replicas, order: seq<Rkey>) returns (keys: seq<Rkey>)
    requires ToSet(order) == s.localPosts.Keys && MintsNew(e)
    ensures var c := Publish(e, s, order);
            var sent := Sent(e, s, Listed(s.localPosts, order));
            var self := SelfDeparts(e, s, Listed(s.localPosts, order));
            && Adds(s.remotePosts, keys, Rewritten(e, sent), c.state.remotePosts)
            && c.state.remoteSelf == (if self then ToRemote(e, s.localSelf.value) else s.remoteSelf)
            && c.state.strays == s.strays + (if self then [ToRemote(e, s.localSelf.value).value] else [])
            && c.state.published
               == s.published + CidsOf(e, sent) + (if self then {e.localCid(s.localSelf.value)} else {})
            && c.count == |sent| + (if self then 1 else 0)
  {
    var posts := Listed(s.localPosts, order);
    keys := PublishPostsLeaves(e, s, posts);
    PublishPostsDoes(e, s, posts);
    if s.localSelf.Some? {
      GoesIsPublishable(e, s, Sent(e, s, posts), PublishPosts(e, s, posts), s.localSelf.value);
    }
  }
}
