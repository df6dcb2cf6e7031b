/** The two-way sync settles: from any starting point the third run moves nothing. */
module BridgeSettles {
  import opened Basics
  import opened RecordJson
  import opened Bridge

  ghost predicate LocalHas(s: Replicas, j: Json) {
    j in s.localPosts.Values || s.localSelf == Some(j)
  }

  ghost predicate RemoteHas(s: Replicas, j: Json) {
    j in s.remotePosts.Values || s.remoteSelf == Some(j)
  }

  /** Nothing is left to publish, or to archive. */
  ghost predicate PublishQuiet(e: Env, s: Replicas) {
    forall j :: LocalHas(s, j) ==> !Publishable(e, s, j)
  }

  ghost predicate ArchiveQuiet(e: Env, s: Replicas) {
    forall j :: RemoteHas(s, j) ==> !Archivable(e, s, j)
  }

  /** Archived content is an object, and taking it to the other side and back changes nothing. */
  lemma EchoIsSame(e: Env, j: Json)
    requires ToLocal(e, j).Some?
    ensures var local := ToLocal(e, j).value;
            ToRemote(e, local).Some? && ToLocal(e, ToRemote(e, local).value) == Some(local)
  {
    ThereAndBack(Parse(j).value, Prefix(e.remoteDid), Prefix(e.localDid));
  }

  // ----- what one direction does ----------------------------------------------------------

  ghost predicate NewlyPublished(e: Env, s: Replicas, posts: seq<Json>, r: Json) {
    exists j :: j in posts && Publishable(e, s, j) && ToRemote(e, j) == Some(r)
  }

  lemma {:induction false} PublishPostsDoes(e: Env, s: Replicas, posts: seq<Json>)
    ensures var c := PublishPosts(e, s, posts);
            && c.state.localPosts == s.localPosts && c.state.localSelf == s.localSelf
            && c.state.archived == s.archived && c.state.remoteSelf == s.remoteSelf
            && s.published <= c.state.published
            && (forall j :: j in posts ==> !Publishable(e, c.state, j))
            && (forall r :: r in c.state.remotePosts.Values ==>
                  r in s.remotePosts.Values || NewlyPublished(e, s, posts, r))
            && ((forall j :: j in posts ==> !Publishable(e, s, j)) ==> c == Counted(s, 0))
            && (c.count == 0 ==> c.state == s)
    decreases |posts|
  {
    if posts != [] {
      var n := |posts| - 1;
      PublishPostsDoes(e, s, posts[..n]);
      assert posts == posts[..n] + [posts[n]];
      var before := PublishPosts(e, s, posts[..n]).state;
      var after := PublishPosts(e, s, posts).state;
      forall r | r in after.remotePosts.Values
        ensures r in s.remotePosts.Values || NewlyPublished(e, s, posts, r)
      {
        if r !in before.remotePosts.Values {
          assert Publishable(e, before, posts[n]) && ToRemote(e, posts[n]) == Some(r);
          assert Publishable(e, s, posts[n]);
        } else if NewlyPublished(e, s, posts[..n], r) {
          var j :| j in posts[..n] && Publishable(e, s, j) && ToRemote(e, j) == Some(r);
        }
      }
    }
  }

  lemma ListedIsAll(posts: map<Rkey, Json>, order: seq<Rkey>)
    requires ToSet(order) == posts.Keys
    ensures forall j :: j in Listed(posts, order) <==> j in posts.Values
  {
    forall j | j in posts.Values
      ensures j in Listed(posts, order)
    {
      var k :| k in posts && posts[k] == j;
      assert k in ToSet(order);
      var i :| 0 <= i < |order| && order[i] == k;
      assert Listed(posts, order)[i] == j;
    }
    forall j | j in Listed(posts, order)
      ensures j in posts.Values
    {
      var i :| 0 <= i < |order| && Listed(posts, order)[i] == j;
      assert order[i] in ToSet(order);
    }
  }

  lemma PublishDoes(e: Env, s: Replicas, order: seq<Rkey>)
    requires ToSet(order) == s.localPosts.Keys
    ensures var s' := Publish(e, s, order).state;
            && s'.localPosts == s.localPosts && s'.localSelf == s.localSelf && s'.archived == s.archived
            && PublishQuiet(e, s')
            && (forall r :: RemoteHas(s', r) ==>
                  RemoteHas(s, r) || exists j :: LocalHas(s, j) && Publishable(e, s, j) && ToRemote(e, j) == Some(r))
            && (PublishQuiet(e, s) <==> Publish(e, s, order).count == 0)
            && (PublishQuiet(e, s) <==> Publish(e, s, order) == Counted(s, 0))
  {
    var posts := Listed(s.localPosts, order);
    ListedIsAll(s.localPosts, order);
    PublishPostsDoes(e, s, posts);
    var mid := PublishPosts(e, s, posts).state;
    var s' := Publish(e, s, order).state;
    forall r | RemoteHas(s', r) && !RemoteHas(s, r)
      ensures exists j :: LocalHas(s, j) && Publishable(e, s, j) && ToRemote(e, j) == Some(r)
    {
      if r in s'.remotePosts.Values {
        assert NewlyPublished(e, s, posts, r);
        var j :| j in posts && Publishable(e, s, j) && ToRemote(e, j) == Some(r);
        assert LocalHas(s, j);
      } else {
        assert LocalHas(s, s.localSelf.value);
      }
    }
  }

  ghost predicate NewlyArchived(e: Env, s: Replicas, order: seq<Rkey>, j: Json) {
    exists k :: k in order && k in s.remotePosts
      && Archivable(e, s, s.remotePosts[k]) && ToLocal(e, s.remotePosts[k]) == Some(j)
  }

  lemma {:induction false} ArchivePostsDoes(e: Env, s: Replicas, order: seq<Rkey>)
    requires ToSet(order) <= s.remotePosts.Keys
    ensures var c := ArchivePosts(e, s, order);
            && c.state.localSelf == s.localSelf && s.archived <= c.state.archived
            && (forall k :: k in order ==> k in s.remotePosts && !Archivable(e, c.state, s.remotePosts[k]))
            && (forall j :: j in c.state.localPosts.Values ==>
                  j in s.localPosts.Values || NewlyArchived(e, s, order, j))
            && ((forall k :: k in order && k in s.remotePosts ==> !Archivable(e, s, s.remotePosts[k]))
                ==> c == Counted(s, 0))
            && (c.count == 0 ==> c.state == s)
    decreases |order|
  {
    if order != [] {
      var n := |order| - 1;
      assert order[n] in ToSet(order) && ToSet(order[..n]) <= ToSet(order);
      ArchivePostsDoes(e, s, order[..n]);
      assert order == order[..n] + [order[n]];
      var before := ArchivePosts(e, s, order[..n]).state;
      var after := ArchivePosts(e, s, order).state;
      forall j | j in after.localPosts.Values
        ensures j in s.localPosts.Values || NewlyArchived(e, s, order, j)
      {
        if j !in before.localPosts.Values {
          assert Archivable(e, before, s.remotePosts[order[n]]) && ToLocal(e, s.remotePosts[order[n]]) == Some(j);
          assert Archivable(e, s, s.remotePosts[order[n]]);
        } else if NewlyArchived(e, s, order[..n], j) {
          var k :| k in order[..n] && k in s.remotePosts && Archivable(e, s, s.remotePosts[k])
            && ToLocal(e, s.remotePosts[k]) == Some(j);
        }
      }
    }
  }

  lemma ArchiveDoes(e: Env, s: Replicas, order: seq<Rkey>)
    requires ToSet(order) == s.remotePosts.Keys
    ensures var s' := Archive(e, s, order).state;
            && s'.remotePosts == s.remotePosts && s'.remoteSelf == s.remoteSelf && s'.published == s.published
            && ArchiveQuiet(e, s')
            && (forall j :: LocalHas(s', j) ==>
                  LocalHas(s, j) || exists r :: RemoteHas(s, r) && Archivable(e, s, r) && ToLocal(e, r) == Some(j))
            && (ArchiveQuiet(e, s) <==> Archive(e, s, order).count == 0)
            && (ArchiveQuiet(e, s) <==> Archive(e, s, order) == Counted(s, 0))
  {
    ArchivePostsDoes(e, s, order);
    var mid := ArchivePosts(e, s, order).state;
    var s' := Archive(e, s, order).state;
    forall r | RemoteHas(s', r)
      ensures !Archivable(e, s', r)
    {
      if r in s.remotePosts.Values {
        var k :| k in s.remotePosts && s.remotePosts[k] == r;
        assert k in ToSet(order);
        assert !Archivable(e, mid, r);
      }
    }
    forall j | LocalHas(s', j) && !LocalHas(s, j)
      ensures exists r :: RemoteHas(s, r) && Archivable(e, s, r) && ToLocal(e, r) == Some(j)
    {
      if j in s'.localPosts.Values {
        assert NewlyArchived(e, s, order, j);
        var k :| k in order && k in s.remotePosts && Archivable(e, s, s.remotePosts[k])
          && ToLocal(e, s.remotePosts[k]) == Some(j);
        assert RemoteHas(s, s.remotePosts[k]);
      } else {
        assert RemoteHas(s, s.remoteSelf.value);
      }
    }
    if ArchiveQuiet(e, s) {
      forall k | k in order && k in s.remotePosts
        ensures !Archivable(e, s, s.remotePosts[k])
      {
        assert RemoteHas(s, s.remotePosts[k]);
      }
    }
  }

  // ----- the main result ------------------------------------------------------------------

  /** One sync: both directions, each listing its source in some order of its own. */
  ghost predicate Synced(e: Env, s: Replicas, published: nat, archived: nat, s': Replicas) {
    exists out, back ::
      && ToSet(out) == s.localPosts.Keys && ToSet(back) == Publish(e, s, out).state.remotePosts.Keys
      && published == Publish(e, s, out).count
      && Archive(e, Publish(e, s, out).state, back) == Counted(s', archived)
  }

  /** After publishing and archiving twice, everything on either side has been dealt with. */
  lemma TwoSyncsAreEnough(e: Env, s0: Replicas, o1: seq<Rkey>, o2: seq<Rkey>, o3: seq<Rkey>, o4: seq<Rkey>)
    requires ToSet(o1) == s0.localPosts.Keys
    requires ToSet(o2) == Publish(e, s0, o1).state.remotePosts.Keys
    requires var s2 := Archive(e, Publish(e, s0, o1).state, o2).state;
             && ToSet(o3) == s2.localPosts.Keys
             && ToSet(o4) == Publish(e, s2, o3).state.remotePosts.Keys
    ensures var s2 := Archive(e, Publish(e, s0, o1).state, o2).state;
            var s4 := Archive(e, Publish(e, s2, o3).state, o4).state;
            PublishQuiet(e, s4) && ArchiveQuiet(e, s4)
  {
    var s1 := Publish(e, s0, o1).state;
    var s2 := Archive(e, s1, o2).state;
    var s3 := Publish(e, s2, o3).state;
    var s4 := Archive(e, s3, o4).state;
    PublishDoes(e, s0, o1);
    ArchiveDoes(e, s1, o2);
    PublishDoes(e, s2, o3);
    ArchiveDoes(e, s3, o4);
    forall j | LocalHas(s4, j)
      ensures !Publishable(e, s4, j)
    {
      if LocalHas(s3, j) {
        assert !Publishable(e, s3, j);
      } else {
        // archived by the second sync, so published by it, so archived by the first: an echo, not new
        var r :| RemoteHas(s3, r) && Archivable(e, s3, r) && ToLocal(e, r) == Some(j);
        assert !RemoteHas(s2, r);
        var k :| LocalHas(s2, k) && Publishable(e, s2, k) && ToRemote(e, k) == Some(r);
        assert !LocalHas(s1, k);
        var first :| RemoteHas(s1, first) && Archivable(e, s1, first) && ToLocal(e, first) == Some(k);
        EchoIsSame(e, first);
      }
    }
  }

  /**
    Bridge sync settles. From any contents and any rows of bridge_sync, whatever either side
    refuses, the third sync publishes nothing and archives nothing, and changes nothing.
   */
  lemma ThirdSyncIsQuiet(e: Env, s0: Replicas, s2: Replicas, s4: Replicas, s6: Replicas,
                         p1: nat, a1: nat, p2: nat, a2: nat, p3: nat, a3: nat)
    requires Synced(e, s0, p1, a1, s2) && Synced(e, s2, p2, a2, s4) && Synced(e, s4, p3, a3, s6)
    ensures p3 == 0 && a3 == 0 && s6 == s4
  {
    var o1, o2 :| ToSet(o1) == s0.localPosts.Keys && ToSet(o2) == Publish(e, s0, o1).state.remotePosts.Keys
      && Archive(e, Publish(e, s0, o1).state, o2) == Counted(s2, a1);
    var o3, o4 :| ToSet(o3) == s2.localPosts.Keys && ToSet(o4) == Publish(e, s2, o3).state.remotePosts.Keys
      && Archive(e, Publish(e, s2, o3).state, o4) == Counted(s4, a2);
    var o5, o6 :| ToSet(o5) == s4.localPosts.Keys && ToSet(o6) == Publish(e, s4, o5).state.remotePosts.Keys
      && p3 == Publish(e, s4, o5).count && Archive(e, Publish(e, s4, o5).state, o6) == Counted(s6, a3);
    TwoSyncsAreEnough(e, s0, o1, o2, o3, o4);
    PublishDoes(e, s4, o5);
    ArchiveDoes(e, s4, o6);
  }

  // ----- when one sync is enough ----------------------------------------------------------

  /** A record the second sync would pass over: published already, or refused by the remote side. */
  predicate PassedOver(e: Env, s: Replicas, j: Json) {
    e.localCid(j) in s.published || (ToRemote(e, j).Some? && !e.remoteTakes(ToRemote(e, j).value))
  }

  /** The same the other way round. */
  predicate LeftAlone(e: Env, s: Replicas, r: Json) {
    e.remoteCid(r) in s.archived || (ToLocal(e, r).Some? && !e.localTakes(ToLocal(e, r).value))
  }

  lemma RewrittenIsObject(e: Env, j: Json)
    ensures ToLocal(e, j).Some? ==> ToRemote(e, ToLocal(e, j).value).Some?
    ensures ToRemote(e, j).Some? ==> ToLocal(e, ToRemote(e, j).value).Some?
  {
  }

  /** Archiving leaves something to publish exactly when it brought in something that is not passed over. */
  lemma NewIsPublishable(e: Env, s1: Replicas, o2: seq<Rkey>)
    requires ToSet(o2) == s1.remotePosts.Keys && PublishQuiet(e, s1)
    ensures var s2 := Archive(e, s1, o2).state;
            PublishQuiet(e, s2) <==> forall j :: LocalHas(s2, j) && !LocalHas(s1, j) ==> PassedOver(e, s2, j)
  {
    ArchiveDoes(e, s1, o2);
    var s2 := Archive(e, s1, o2).state;
    forall j | LocalHas(s2, j)
      ensures LocalHas(s1, j) ==> !Publishable(e, s2, j)
      ensures !LocalHas(s1, j) ==> (!Publishable(e, s2, j) <==> PassedOver(e, s2, j))
    {
      if LocalHas(s1, j) {
        assert !Publishable(e, s1, j);
      } else {
        var r :| RemoteHas(s1, r) && Archivable(e, s1, r) && ToLocal(e, r) == Some(j);
        RewrittenIsObject(e, r);
      }
    }
  }

  /** And the other way round. */
  lemma NewIsArchivable(e: Env, s2: Replicas, o3: seq<Rkey>)
    requires ToSet(o3) == s2.localPosts.Keys && ArchiveQuiet(e, s2)
    ensures var s3 := Publish(e, s2, o3).state;
            ArchiveQuiet(e, s3) <==> forall r :: RemoteHas(s3, r) && !RemoteHas(s2, r) ==> LeftAlone(e, s2, r)
  {
    PublishDoes(e, s2, o3);
    var s3 := Publish(e, s2, o3).state;
    forall r | RemoteHas(s3, r)
      ensures RemoteHas(s2, r) ==> !Archivable(e, s3, r)
      ensures !RemoteHas(s2, r) ==> (!Archivable(e, s3, r) <==> LeftAlone(e, s2, r))
    {
      if RemoteHas(s2, r) {
        assert !Archivable(e, s2, r);
      } else {
        var j :| LocalHas(s2, j) && Publishable(e, s2, j) && ToRemote(e, j) == Some(r);
        RewrittenIsObject(e, j);
      }
    }
  }

  /**
    When the second sync moves nothing. From any contents and any rows of bridge_sync, it publishes
    nothing exactly when every record the first one archived anew has its local CID among the
    published ones already, or is refused by the remote side when it is rewritten; and it archives
    nothing exactly when every record it published itself has its remote CID among the archived
    ones already, or is refused by the local side.
   */
  lemma SecondSyncIsQuietExactlyWhen(e: Env, s0: Replicas, s2: Replicas, s4: Replicas,
                                     p1: nat, a1: nat, p2: nat, a2: nat)
    requires Synced(e, s0, p1, a1, s2) && Synced(e, s2, p2, a2, s4)
    ensures p2 == 0 <==> forall j :: LocalHas(s2, j) && !LocalHas(s0, j) ==> PassedOver(e, s2, j)
    ensures a2 == 0 <==> forall r :: RemoteHas(s4, r) && !RemoteHas(s2, r) ==> LeftAlone(e, s2, r)
  {
    var o1, o2 :| ToSet(o1) == s0.localPosts.Keys && ToSet(o2) == Publish(e, s0, o1).state.remotePosts.Keys
      && Archive(e, Publish(e, s0, o1).state, o2) == Counted(s2, a1);
    var o3, o4 :| ToSet(o3) == s2.localPosts.Keys && ToSet(o4) == Publish(e, s2, o3).state.remotePosts.Keys
      && p2 == Publish(e, s2, o3).count && Archive(e, Publish(e, s2, o3).state, o4) == Counted(s4, a2);
    FirstThenPublish(e, s0, o1, o2, s2, o3);
    FirstThenArchive(e, Publish(e, s0, o1).state, o2, s2, o3, o4, s4);
  }

  lemma FirstThenPublish(e: Env, s0: Replicas, o1: seq<Rkey>, o2: seq<Rkey>, s2: Replicas, o3: seq<Rkey>)
    requires ToSet(o1) == s0.localPosts.Keys && ToSet(o2) == Publish(e, s0, o1).state.remotePosts.Keys
    requires s2 == Archive(e, Publish(e, s0, o1).state, o2).state && ToSet(o3) == s2.localPosts.Keys
    ensures Publish(e, s2, o3).count == 0 <==> forall j :: LocalHas(s2, j) && !LocalHas(s0, j) ==> PassedOver(e, s2, j)
  {
    PublishDoes(e, s0, o1);
    NewIsPublishable(e, Publish(e, s0, o1).state, o2);
    PublishDoes(e, s2, o3);
  }

  lemma FirstThenArchive(e: Env, s1: Replicas, o2: seq<Rkey>, s2: Replicas, o3: seq<Rkey>, o4: seq<Rkey>, s4: Replicas)
    requires ToSet(o2) == s1.remotePosts.Keys && s2 == Archive(e, s1, o2).state && ToSet(o3) == s2.localPosts.Keys
    requires ToSet(o4) == Publish(e, s2, o3).state.remotePosts.Keys
    requires s4 == Archive(e, Publish(e, s2, o3).state, o4).state
    ensures Archive(e, Publish(e, s2, o3).state, o4).count == 0
       <==> forall r :: RemoteHas(s4, r) && !RemoteHas(s2, r) ==> LeftAlone(e, s2, r)
  {
    ArchiveDoes(e, s1, o2);
    NewIsArchivable(e, s2, o3);
    ArchiveDoes(e, Publish(e, s2, o3).state, o4);
  }

  // ----- the second archiving, told from where the second sync starts ----------------------

  /** A minted rkey is one the repo does not have. */
  ghost predicate MintsNew(e: Env) {
    forall keys :: e.mint(keys) !in keys
  }

  /** Local records with the same CID are the same record. */
  ghost predicate CidsDiffer(e: Env, s: Replicas) {
    forall a, b :: LocalHas(s, a) && LocalHas(s, b) && e.localCid(a) == e.localCid(b) ==> a == b
  }

  /** Every post that can be published is there afterwards, beside what was there. */
  lemma {:induction false} PublishPostsBrings(e: Env, s: Replicas, posts: seq<Json>)
    requires MintsNew(e)
    requires forall a, b :: a in posts && b in posts && e.localCid(a) == e.localCid(b) ==> a == b
    ensures var s' := PublishPosts(e, s, posts).state;
            && (forall r :: r in s.remotePosts.Values ==> r in s'.remotePosts.Values)
            && (forall j :: j in posts && Publishable(e, s, j) ==> ToRemote(e, j).value in s'.remotePosts.Values)
            && (forall c :: c in s'.published && c !in s.published ==> exists j :: j in posts && e.localCid(j) == c)
    decreases |posts|
  {
    if posts != [] {
      var n := |posts| - 1;
      var last := posts[n];
      assert posts == posts[..n] + [last];
      PublishPostsBrings(e, s, posts[..n]);
      var before := PublishPosts(e, s, posts[..n]).state;
      PublishPostBrings(e, before, last);
      if Publishable(e, s, last) && !Publishable(e, before, last) {
        var j :| j in posts[..n] && e.localCid(j) == e.localCid(last);
        assert last in posts[..n];
      }
    }
  }

  lemma PublishPostBrings(e: Env, s: Replicas, j: Json)
    requires MintsNew(e)
    ensures var s' := PublishPost(e, s, j).state;
            && (forall r :: r in s.remotePosts.Values ==> r in s'.remotePosts.Values)
            && (Publishable(e, s, j) ==> ToRemote(e, j).value in s'.remotePosts.Values)
  {
    var s' := PublishPost(e, s, j).state;
    if Publishable(e, s, j) {
      var k := e.mint(s.remotePosts.Keys);
      assert s'.remotePosts[k] == ToRemote(e, j).value;
      forall r | r in s.remotePosts.Values
        ensures r in s'.remotePosts.Values
      {
        var x :| x in s.remotePosts && s.remotePosts[x] == r;
        assert s'.remotePosts[x] == r;
      }
    }
  }

  /** Publishing brings over everything that can be published. */
  lemma PublishBrings(e: Env, s: Replicas, order: seq<Rkey>, j: Json)
    requires ToSet(order) == s.localPosts.Keys && MintsNew(e) && CidsDiffer(e, s)
    requires LocalHas(s, j) && Publishable(e, s, j)
    ensures RemoteHas(Publish(e, s, order).state, ToRemote(e, j).value)
  {
    var posts := Listed(s.localPosts, order);
    ListedIsAll(s.localPosts, order);
    PublishPostsBrings(e, s, posts);
    PublishPostsDoes(e, s, posts);
    assert forall a :: a in posts ==> LocalHas(s, a);
  }

  /** Whatever can be published comes out as a record the next archiving leaves alone. */
  ghost predicate EchoesLeftAlone(e: Env, s: Replicas) {
    forall j :: LocalHas(s, j) && Publishable(e, s, j) ==> LeftAlone(e, s, ToRemote(e, j).value)
  }

  /** From a state with nothing left to archive: what publishing leaves to archive. */
  lemma PublishThenArchive(e: Env, s2: Replicas, o3: seq<Rkey>, o4: seq<Rkey>)
    requires ToSet(o3) == s2.localPosts.Keys && ArchiveQuiet(e, s2)
    requires ToSet(o4) == Publish(e, s2, o3).state.remotePosts.Keys
    ensures var a2 := Archive(e, Publish(e, s2, o3).state, o4).count;
            && (EchoesLeftAlone(e, s2) ==> a2 == 0)
            && (MintsNew(e) && CidsDiffer(e, s2) && a2 == 0 ==> EchoesLeftAlone(e, s2))
  {
    var s3 := Publish(e, s2, o3).state;
    NewIsArchivable(e, s2, o3);
    PublishDoes(e, s2, o3);
    ArchiveDoes(e, s3, o4);
    if MintsNew(e) && CidsDiffer(e, s2) && ArchiveQuiet(e, s3) {
      forall j | LocalHas(s2, j) && Publishable(e, s2, j)
        ensures LeftAlone(e, s2, ToRemote(e, j).value)
      {
        PublishBrings(e, s2, o3, j);
        RewrittenIsObject(e, j);
      }
    }
  }

  /**
    The second sync archives nothing if every record it is about to publish comes out as one whose
    remote CID is among the archived ones already, or which the local side refuses; and only if,
    when minted rkeys are new and no two local records share a CID.
   */
  lemma SecondArchiveIsQuietExactlyWhen(e: Env, s0: Replicas, s2: Replicas, s4: Replicas,
                                        p1: nat, a1: nat, p2: nat, a2: nat)
    requires Synced(e, s0, p1, a1, s2) && Synced(e, s2, p2, a2, s4)
    ensures EchoesLeftAlone(e, s2) ==> a2 == 0
    ensures MintsNew(e) && CidsDiffer(e, s2) ==> (a2 == 0 <==> EchoesLeftAlone(e, s2))
  {
    var o1, o2 :| ToSet(o1) == s0.localPosts.Keys && ToSet(o2) == Publish(e, s0, o1).state.remotePosts.Keys
      && Archive(e, Publish(e, s0, o1).state, o2) == Counted(s2, a1);
    var o3, o4 :| ToSet(o3) == s2.localPosts.Keys && ToSet(o4) == Publish(e, s2, o3).state.remotePosts.Keys
      && p2 == Publish(e, s2, o3).count && Archive(e, Publish(e, s2, o3).state, o4) == Counted(s4, a2);
    ArchiveDoes(e, Publish(e, s0, o1).state, o2);
    PublishThenArchive(e, s2, o3, o4);
  }

  /** A bridge over an empty local repo, with one remote post and nothing synced yet. */
  function OneRemotePost(k: Rkey, post: Json): Replicas {
    Replicas(map[], None, map[k := post], None, [], {}, {})
  }

  /**
    Two syncs can be needed. The first archives the post; the second publishes the archived copy
    back. When the copy rewrites to the post itself, the remote repo then holds it twice.
   */
  lemma SecondSyncEchoes(e: Env, k: Rkey, post: Json)
    requires post.Obj? && e.localTakes(ToLocal(e, post).value)
    requires ToRemote(e, ToLocal(e, post).value).Some? && e.remoteTakes(ToRemote(e, ToLocal(e, post).value).value)
    ensures var s0 := OneRemotePost(k, post);
            var first := Archive(e, s0, [k]);
            && Publish(e, s0, []) == Counted(s0, 0) && first.count == 1
            && ToSet([k]) == first.state.localPosts.Keys
            && var second := Publish(e, first.state, [k]);
               && second.count == 1
               && second.state.remotePosts == map[k := post][e.mint({k}) := ToRemote(e, ToLocal(e, post).value).value]
  {
    var s0 := OneRemotePost(k, post);
    assert ToSet<Rkey>([]) == s0.localPosts.Keys;
    assert ToSet([k]) == {k} == s0.remotePosts.Keys;
    var copy := ToLocal(e, post).value;
    assert [k][..0] == [];
    assert ArchivePosts(e, s0, []) == Counted(s0, 0);
    var s1 := ArchivePost(e, s0, k, post).state;
    assert ArchivePosts(e, s0, [k]) == Counted(s1, 1);
    assert s1.localPosts == map[k := copy];
    assert Listed(s1.localPosts, [k]) == [copy] && [copy][..0] == [];
    assert PublishPosts(e, s1, []) == Counted(s1, 0);
  }
}
