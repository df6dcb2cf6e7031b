/** Record JSON and the rewriting of the DID in its at:// URIs. */
module RecordJson {
  import opened Basics

  datatype Json =
    | Null
    | Bool(b: bool)
    | Num(n: int)
    | Str(s: string)
    | Arr(xs: seq<Json>)
    | Obj(fields: map<string, Json>)

  /** A string field whose value starts with `from` has that prefix replaced, once. */
  function RewriteText(s: string, from: string, to: string): string {
    if from <= s then to + s[|from|..] else s
  }

  /** Only string values of objects are rewritten; strings inside arrays are left alone. */
  function Rewrite(j: Json, from: string, to: string): Json
    decreases j
  {
    match j
    case Obj(fields) =>
      Obj(map k | k in fields ::
        if fields[k].Str? then Str(RewriteText(fields[k].s, from, to)) else Rewrite(fields[k], from, to))
    case Arr(xs) => Arr(seq(|xs|, i requires 0 <= i < |xs| => Rewrite(xs[i], from, to)))
    case _ => j
  }

  /** parseRecord: an object, or null read as an empty one. */
  function Parse(j: Json): Option<Json> {
    match j
    case Obj(_) => Some(j)
    case Null => Some(Obj(map[]))
    case _ => None
  }

  lemma TextThereAndBack(s: string, a: string, b: string)
    ensures RewriteText(RewriteText(RewriteText(s, a, b), b, a), a, b) == RewriteText(s, a, b)
  {
    if a <= s {
      assert (b + s[|a|..])[|b|..] == s[|a|..];
      assert (a + s[|a|..])[|a|..] == s[|a|..];
    } else if b <= s {
      assert (a + s[|b|..])[|a|..] == s[|b|..];
      assert s == b + s[|b|..];
    }
  }

  /** There, back and there again is there: the law that lets the two directions settle. */
  lemma {:induction false} ThereAndBack(j: Json, a: string, b: string)
    ensures Rewrite(Rewrite(Rewrite(j, a, b), b, a), a, b) == Rewrite(j, a, b)
    decreases j
  {
    var once := Rewrite(j, a, b);
    var thrice := Rewrite(Rewrite(once, b, a), a, b);
    match j
    case Obj(fields) =>
      forall k | k in fields
        ensures thrice.fields[k] == once.fields[k]
      {
        if fields[k].Str? {
          TextThereAndBack(fields[k].s, a, b);
        } else {
          RewriteIsText(fields[k], a, b);
          RewriteIsText(once.fields[k], b, a);
          ThereAndBack(fields[k], a, b);
        }
      }
      assert thrice.fields == once.fields;
    case Arr(xs) =>
      forall i | 0 <= i < |xs|
        ensures thrice.xs[i] == once.xs[i]
      {
        ThereAndBack(xs[i], a, b);
      }
      assert thrice.xs == once.xs;
    case _ =>
  }

  lemma RewriteIsText(j: Json, a: string, b: string)
    ensures Rewrite(j, a, b).Str? <==> j.Str?
  {
  }
}

/** The bridge between the local repo and the linked account: publish, then archive. */
module Bridge {
  import opened Basics
  import opened RecordJson

  type Rkey = string
  type CidText = string

  /**
    What is fixed during a sync. CIDs are functions of content; each side may refuse a record,
    and refuses it every time.
   */
  datatype Env = Env(
    localDid: string, remoteDid: string,
    localCid: Json -> CidText, remoteCid: Json -> CidText,
    localTakes: Json -> bool, remoteTakes: Json -> bool,
    mint: set<Rkey> -> Rkey)

  /**
    Posts by rkey and the profile on both sides, the profile records created beside the remote
    profile, which nobody reads, and the rows of bridge_sync per direction.
   */
  datatype Replicas = Replicas(
    localPosts: map<Rkey, Json>, localSelf: Option<Json>,
    remotePosts: map<Rkey, Json>, remoteSelf: Option<Json>, strays: seq<Json>,
    published: set<CidText>, archived: set<CidText>)

  datatype Counted = Counted(state: Replicas, count: nat)

  function Prefix(did: string): string {
    "at://" + did + "/"
  }

  /** A local record as it is published, if it parses. */
  function ToRemote(e: Env, j: Json): Option<Json> {
    var rec := Parse(j);
    if rec.None? then None else Some(Rewrite(rec.value, Prefix(e.localDid), Prefix(e.remoteDid)))
  }

  /** A remote record as it is archived. */
  function ToLocal(e: Env, j: Json): Option<Json> {
    var rec := Parse(j);
    if rec.None? then None else Some(Rewrite(rec.value, Prefix(e.remoteDid), Prefix(e.localDid)))
  }

  /** A record that will be published if it is met, and not otherwise. */
  predicate Publishable(e: Env, s: Replicas, j: Json) {
    e.localCid(j) !in s.published && ToRemote(e, j).Some? && e.remoteTakes(ToRemote(e, j).value)
  }

  predicate Archivable(e: Env, s: Replicas, j: Json) {
    e.remoteCid(j) !in s.archived && ToLocal(e, j).Some? && e.localTakes(ToLocal(e, j).value)
  }

  function PublishPost(e: Env, s: Replicas, j: Json): Counted {
    if !Publishable(e, s, j) then Counted(s, 0)
    else
      Counted(s.(remotePosts := s.remotePosts[e.mint(s.remotePosts.Keys) := ToRemote(e, j).value],
                 published := s.published + {e.localCid(j)}), 1)
  }

  function PublishPosts(e: Env, s: Replicas, posts: seq<Json>): Counted
    decreases |posts|
  {
    if posts == [] then Counted(s, 0)
    else
      var before := PublishPosts(e, s, posts[..|posts| - 1]);
      var last := PublishPost(e, before.state, posts[|posts| - 1]);
      Counted(last.state, before.count + last.count)
  }

  /** The profile is first created as a new record like any other, then put in its place. */
  function PublishSelf(e: Env, s: Replicas): Counted {
    if s.localSelf.None? || !Publishable(e, s, s.localSelf.value) then Counted(s, 0)
    else
      Counted(s.(strays := s.strays + [ToRemote(e, s.localSelf.value).value],
                 remoteSelf := ToRemote(e, s.localSelf.value),
                 published := s.published + {e.localCid(s.localSelf.value)}), 1)
  }

  function Listed(posts: map<Rkey, Json>, order: seq<Rkey>): seq<Json>
    requires ToSet(order) == posts.Keys
  {
    seq(|order|, i requires 0 <= i < |order| => (assert order[i] in ToSet(order); posts[order[i]]))
  }

  /** publish: the local posts as listed, then the profile. */
  function Publish(e: Env, s: Replicas, order: seq<Rkey>): Counted
    requires ToSet(order) == s.localPosts.Keys
  {
    var posts := PublishPosts(e, s, Listed(s.localPosts, order));
    var self := PublishSelf(e, posts.state);
    Counted(self.state, posts.count + self.count)
  }

  function ArchivePost(e: Env, s: Replicas, rkey: Rkey, j: Json): Counted {
    if !Archivable(e, s, j) then Counted(s, 0)
    else
      Counted(s.(localPosts := s.localPosts[rkey := ToLocal(e, j).value],
                 archived := s.archived + {e.remoteCid(j)}), 1)
  }

  /** Archiving leaves the remote posts alone, so the listing stays what it was. */
  function ArchivePosts(e: Env, s: Replicas, order: seq<Rkey>): (c: Counted)
    requires ToSet(order) <= s.remotePosts.Keys
    ensures c.state.remotePosts == s.remotePosts && c.state.remoteSelf == s.remoteSelf
    ensures c.state.published == s.published
    ensures c.state.strays == s.strays
    decreases |order|
  {
    if order == [] then Counted(s, 0)
    else
      var n := |order| - 1;
      assert order[n] in ToSet(order) && ToSet(order[..n]) <= ToSet(order);
      var before := ArchivePosts(e, s, order[..n]);
      var last := ArchivePost(e, before.state, order[n], s.remotePosts[order[n]]);
      Counted(last.state, before.count + last.count)
  }

  function ArchiveSelf(e: Env, s: Replicas): Counted {
    if s.remoteSelf.None? || !Archivable(e, s, s.remoteSelf.value) then Counted(s, 0)
    else
      Counted(s.(localSelf := ToLocal(e, s.remoteSelf.value),
                 archived := s.archived + {e.remoteCid(s.remoteSelf.value)}), 1)
  }

  function Archive(e: Env, s: Replicas, order: seq<Rkey>): Counted
    requires ToSet(order) == s.remotePosts.Keys
  {
    var posts := ArchivePosts(e, s, order);
    var self := ArchiveSelf(e, posts.state);
    Counted(self.state, posts.count + self.count)
  }

  // ----- the service as it is written -----------------------------------------------------

  class Service {
    var localPosts: map<Rkey, Json>
    var localSelf: Option<Json>
    var remotePosts: map<Rkey, Json>
    var remoteSelf: Option<Json>
    var strays: seq<Json>
    var published: set<CidText>
    var archived: set<CidText>

    constructor (s: Replicas)
      ensures Current() == s
    {
      localPosts, localSelf := s.localPosts, s.localSelf;
      remotePosts, remoteSelf, strays := s.remotePosts, s.remoteSelf, s.strays;
      published, archived := s.published, s.archived;
    }

    function Current(): Replicas
      reads this
    {
      Replicas(localPosts, localSelf, remotePosts, remoteSelf, strays, published, archived)
    }

    method RunPublish(e: Env, order: seq<Rkey>) returns (count: nat)
      requires ToSet(order) == localPosts.Keys
      modifies this`remotePosts, this`remoteSelf, this`strays, this`published
      ensures Counted(Current(), count) == Publish(e, old(Current()), order)
    {
      ghost var s := Current();
      var all := Listed(localPosts, order);
      count := 0;
      for i := 0 to |all|
        invariant Counted(Current(), count) == PublishPosts(e, s, all[..i])
      {
        assert all[..i + 1][..i] == all[..i];
        if e.localCid(all[i]) in published {
          continue;
        }
        var rec := ToRemote(e, all[i]);
        if rec.None? || !e.remoteTakes(rec.value) {
          continue;
        }
        remotePosts := remotePosts[e.mint(remotePosts.Keys) := rec.value];
        published := published + {e.localCid(all[i])};
        count := count + 1;
      }
      assert all[..|all|] == all;
      if localSelf.Some? && e.localCid(localSelf.value) !in published {
        var rec := ToRemote(e, localSelf.value);
        if rec.Some? && e.remoteTakes(rec.value) {
          strays := strays + [rec.value];
          remoteSelf := rec;
          published := published + {e.localCid(localSelf.value)};
          count := count + 1;
        }
      }
    }

    method RunArchive(e: Env, order: seq<Rkey>) returns (count: nat)
      requires ToSet(order) == remotePosts.Keys
      modifies this`localPosts, this`localSelf, this`archived
      ensures Counted(Current(), count) == Archive(e, old(Current()), order)
    {
      ghost var s := Current();
      count := 0;
      for i := 0 to |order|
        invariant ToSet(order[..i]) <= ToSet(order)
        invariant Counted(Current(), count) == ArchivePosts(e, s, order[..i])
      {
        assert order[i] in ToSet(order);
        assert order[..i + 1][..i] == order[..i];
        var j := remotePosts[order[i]];
        if e.remoteCid(j) in archived {
          continue;
        }
        var rec := ToLocal(e, j);
        if rec.None? || !e.localTakes(rec.value) {
          continue;
        }
        localPosts := localPosts[order[i] := rec.value];
        archived := archived + {e.remoteCid(j)};
        count := count + 1;
      }
      assert order[..|order|] == order;
      if remoteSelf.Some? && e.remoteCid(remoteSelf.value) !in archived {
        var rec := ToLocal(e, remoteSelf.value);
        if rec.Some? && e.localTakes(rec.value) {
          localSelf := rec;
          archived := archived + {e.remoteCid(remoteSelf.value)};
          count := count + 1;
        }
      }
    }

    /** Both directions, publishing first; the listings are in whatever order each side gives. */
    method Sync(e: Env, localOrder: seq<Rkey>, remoteOrder: seq<Rkey>) returns (publishedCount: nat, archivedCount: nat)
      requires ToSet(localOrder) == localPosts.Keys
      requires ToSet(remoteOrder) == Publish(e, Current(), localOrder).state.remotePosts.Keys
      modifies this
      ensures publishedCount == Publish(e, old(Current()), localOrder).count
      ensures Counted(Current(), archivedCount) == Archive(e, Publish(e, old(Current()), localOrder).state, remoteOrder)
    {
      publishedCount := RunPublish(e, localOrder);
      archivedCount := RunArchive(e, remoteOrder);
    }
  }
}
