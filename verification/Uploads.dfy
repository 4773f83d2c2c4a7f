/** The database and the object store: what becomes of the files of internal/server/upload.go in
    every interleaving of uploads and corrections, under whichever address the files are served.
 */
module Uploads {
  import opened Prelude
  import opened ServiceHistory
  import opened Transactions
  import opened Interleavings
  import ObjectStorage

  // ---------------------------------------------------------------- the bucket beside the transactions

  datatype Site = Site(address: ObjectStorage.Address, bucket: string) {
    ghost predicate Sound() { address.Sound() && ObjectStorage.Plain(bucket) && '/' !in bucket }

    function Url(name: string): string { ObjectStorage.UrlOf(address.Spelled(), bucket, name) }

    predicate Misdirects() { ObjectStorage.Misdirects(address, bucket) }
  }

  /** The names in the bucket, and the URLs that `Delete` failed on. */
  datatype Holding = Holding(objects: set<string>, leaked: set<string>)

  /** `Delete`: `deleted` is what the bucket answers, and the name is whatever `ObjectName` makes of
      the URL. */
  function Removed(site: Site, h: Holding, url: string, deleted: bool): Holding {
    var name := ObjectStorage.ObjectName(site.bucket, url);
    if deleted && name.Some? then h.(objects := h.objects - {name.value}) else h.(leaked := h.leaked + {url})
  }

  function StoreStep(site: Site, h: Holding, s: State, e: Event): Holding
    requires Enabled(s, e)
  {
    match e
    case PutObject(_, _, _, _, name) => h.(objects := h.objects + {name})
    case RemoveOrphan(t, deleted) => Removed(site, h, s.txns[t].url, deleted)
    case _ => h
  }

  /** The bucket after a run. */
  function Bucket(site: Site, es: seq<Event>): Holding
    requires After(es).Some?
  {
    if es == [] then Holding({}, {})
    else StoreStep(site, Bucket(site, es[..|es| - 1]), After(es[..|es| - 1]).value, es[|es| - 1])
  }

  ghost predicate FromPut(site: Site, e: Event) {
    e.PutObject? ==> ObjectStorage.Plain(e.name) && e.file.url == site.Url(e.name)
  }

  /** Each file has the URL that `Put` returns for its name. */
  ghost predicate Served(site: Site, es: seq<Event>) {
    forall i :: 0 <= i < |es| ==> FromPut(site, es[i])
  }

  lemma SameUrl(site: Site, name: string, other: string)
    ensures site.Url(name) == site.Url(other) <==> name == other
  {
    ObjectStorage.UrlsAreDistinct(site.address.Spelled(), site.bucket, name, other);
  }

  // ---------------------------------------------------------------- the accounts

  ghost predicate Linked(db: Database, url: string) {
    exists r, f :: r in db.files && f in db.files[r] && f.url == url
  }

  /** The object a request has stored and not yet linked or removed. */
  ghost predicate Pending(s: State, t: Tid, url: string) {
    t in s.txns && match s.txns[t]
                   case Write(_, _, _, _, _, _) => false
                   case Upload(_, _, _, file, _) => file.url == url
                   case Orphan(orphan) => orphan == url
  }

  /** The bucket by URL. */
  datatype Books = Books(stored: set<string>, leaked: set<string>)

  function BooksOf(site: Site, h: Holding): Books {
    Books(set name | name in h.objects :: site.Url(name), h.leaked)
  }

  /** Everything linked is stored. */
  ghost predicate LinkedIsStored(s: State, b: Books) {
    forall url :: Linked(s.db, url) ==> url in b.stored && url !in b.leaked
  }

  /** What a request has in hand is stored and linked by nobody. */
  ghost predicate PendingIsStored(s: State, b: Books) {
    forall t, url {:trigger Pending(s, t, url)} :: Pending(s, t, url) ==>
      url in b.stored && url !in b.leaked && !Linked(s.db, url)
  }

  /** No two requests have the same object in hand. */
  ghost predicate PendingIsOwn(s: State) {
    forall t, u, url {:trigger Pending(s, t, url), Pending(s, u, url)} ::
      Pending(s, t, url) && Pending(s, u, url) ==> t == u
  }

  ghost predicate InHand(s: State, url: string) {
    exists t :: Pending(s, t, url)
  }

  /** Everything stored is linked, or in some request's hands, or an orphan whose Delete failed. */
  ghost predicate NothingIsLost(s: State, b: Books) {
    && b.leaked <= b.stored <= s.usedUrls
    && (forall url :: url in b.stored ==> url in b.leaked || Linked(s.db, url) || InHand(s, url))
  }

  ghost predicate Accounted(s: State, b: Books) {
    LinkedIsStored(s, b) && PendingIsStored(s, b) && PendingIsOwn(s) && NothingIsLost(s, b)
  }

  // ---------------------------------------------------------------- steps that leave the bucket alone

  /** Steps that store nothing, link nothing and remove nothing. */
  predicate LeavesObjects(e: Event) {
    !e.PutObject? && !e.CommitFile? && !e.RemoveOrphan?
  }

  lemma CopiesAreNoNewLinks(db: Database, db': Database, id: Id, copied: multiset<File>, url: string)
    requires id !in db.files && db'.files == db.files[id := copied]
    requires copied == multiset{} || exists r :: r in db.files && db.files[r] == copied
    ensures Linked(db', url) <==> Linked(db, url)
  {
    if Linked(db, url) {
      var r, f :| r in db.files && f in db.files[r] && f.url == url;
      assert r in db'.files && f in db'.files[r];
    }
    if Linked(db', url) {
      var r, f :| r in db'.files && f in db'.files[r] && f.url == url;
      if r == id { assert f in copied; }
    }
  }

  lemma SameLinks(s: State, e: Event, url: string)
    requires Isolated(s) && Enabled(s, e) && LeavesObjects(e)
    ensures Linked(Step(s, e).db, url) <==> Linked(s.db, url)
  {
    if e.CommitWrite? {
      assert StillTrue(s, e.t);
      var w := s.txns[e.t];
      CopiesAreNoNewLinks(s.db, Step(s, e).db, w.id,
                          if w.rev.Some? then FilesOf(s.db, w.rev.value.record) else multiset{}, url);
    } else {
      assert Step(s, e).db.files == s.db.files;
    }
  }

  lemma SamePending(s: State, e: Event, t: Tid, url: string)
    requires Enabled(s, e) && LeavesObjects(e)
    ensures Pending(Step(s, e), t, url) <==> Pending(s, t, url)
  {
  }

  /** Nothing that the accounts speak of has changed. */
  ghost predicate SameAccounts(s: State, s': State) {
    && s'.usedUrls == s.usedUrls
    && (forall url {:trigger Linked(s'.db, url)} :: Linked(s'.db, url) <==> Linked(s.db, url))
    && (forall t, url {:trigger Pending(s', t, url)} :: Pending(s', t, url) <==> Pending(s, t, url))
  }

  lemma LeavingIsSame(s: State, e: Event)
    requires Isolated(s) && Enabled(s, e) && LeavesObjects(e)
    ensures SameAccounts(s, Step(s, e))
  {
    forall url ensures Linked(Step(s, e).db, url) <==> Linked(s.db, url) { SameLinks(s, e, url); }
    forall t, url ensures Pending(Step(s, e), t, url) <==> Pending(s, t, url) { SamePending(s, e, t, url); }
  }

  lemma SameIsStillInHand(s: State, s': State, url: string)
    requires SameAccounts(s, s') && InHand(s, url)
    ensures InHand(s', url)
  {
    var t :| Pending(s, t, url);
    assert Pending(s', t, url);
  }

  lemma SameKeepsAccounts(s: State, s': State, b: Books)
    requires SameAccounts(s, s') && Accounted(s, b)
    ensures Accounted(s', b)
  {
    forall url | url in b.stored ensures url in b.leaked || Linked(s'.db, url) || InHand(s', url) {
      if InHand(s, url) { SameIsStillInHand(s, s', url); }
    }
  }

  // ---------------------------------------------------------------- storing, linking, removing

  lemma PutKeepsAccounts(s: State, b: Books, e: Event)
    requires Accounted(s, b) && Enabled(s, e) && e.PutObject?
    ensures Accounted(Step(s, e), b.(stored := b.stored + {e.file.url}))
  {
    var s' := Step(s, e);
    forall t, url ensures Pending(s', t, url) <==> if t == e.t then url == e.file.url else Pending(s, t, url) {}
    assert !Linked(s.db, e.file.url);
    forall url | url in b.stored + {e.file.url} ensures url in b.leaked || Linked(s'.db, url) || InHand(s', url) {
      if url == e.file.url {
        assert Pending(s', e.t, url);
      } else if InHand(s, url) {
        var t :| Pending(s, t, url);
        assert Pending(s', t, url);
      }
    }
  }

  lemma LinkAdds(s: State, e: Event, url: string)
    requires Isolated(s) && Enabled(s, e) && e.CommitFile?
    ensures Linked(Step(s, e).db, url) <==> Linked(s.db, url) || url == s.txns[e.t].file.url
  {
    assert StillTrue(s, e.t);
    var u, db, db' := s.txns[e.t], s.db, Step(s, e).db;
    assert db'.files == db.files[u.record := db.files[u.record] + multiset{u.file}];
    if Linked(db, url) {
      var r, f :| r in db.files && f in db.files[r] && f.url == url;
      assert r in db'.files && f in db'.files[r];
    }
    if url == u.file.url { assert u.record in db'.files && u.file in db'.files[u.record]; }
    if Linked(db', url) && url != u.file.url {
      var r, f :| r in db'.files && f in db'.files[r] && f.url == url;
      assert r in db.files && f in db.files[r];
    }
  }

  /** The request that ends has nothing in hand any more, the others have what they had. */
  lemma EndedHasNothing(s: State, e: Event, t: Tid, url: string)
    requires Enabled(s, e) && (e.CommitFile? || e.RemoveOrphan?)
    ensures Pending(Step(s, e), t, url) <==> t != e.t && Pending(s, t, url)
  {
  }

  lemma StillInHand(s: State, e: Event, url: string, mine: string)
    requires Enabled(s, e) && (e.CommitFile? || e.RemoveOrphan?)
    requires Pending(s, e.t, mine) && url != mine && InHand(s, url)
    ensures InHand(Step(s, e), url)
  {
    var t :| Pending(s, t, url);
    EndedHasNothing(s, e, t, url);
  }

  lemma LinkKeepsAccounts(s: State, b: Books, e: Event)
    requires Isolated(s) && Accounted(s, b) && Enabled(s, e) && e.CommitFile?
    ensures Accounted(Step(s, e), b)
  {
    var s', linked := Step(s, e), s.txns[e.t].file.url;
    forall url ensures Linked(s'.db, url) <==> Linked(s.db, url) || url == linked { LinkAdds(s, e, url); }
    assert Pending(s, e.t, linked);
    forall t, url ensures Pending(s', t, url) <==> t != e.t && Pending(s, t, url) { EndedHasNothing(s, e, t, url); }
    forall url | url in b.stored ensures url in b.leaked || Linked(s'.db, url) || InHand(s', url) {
      if InHand(s, url) && url != linked { StillInHand(s, e, url, linked); }
    }
  }

  /** The orphan has gone from the bucket, or its URL is noted as one that stays. */
  lemma RemovalKeepsAccounts(s: State, b: Books, b': Books, e: Event)
    requires Accounted(s, b) && Enabled(s, e) && e.RemoveOrphan?
    requires var orphan := s.txns[e.t].url;
      b' == b.(stored := b.stored - {orphan}) || b' == b.(leaked := b.leaked + {orphan})
    ensures Accounted(Step(s, e), b')
  {
    var s', orphan := Step(s, e), s.txns[e.t].url;
    assert Pending(s, e.t, orphan);
    forall t, url ensures Pending(s', t, url) <==> t != e.t && Pending(s, t, url) { EndedHasNothing(s, e, t, url); }
    assert s'.db == s.db;
    forall url | url in b'.stored ensures url in b'.leaked || Linked(s'.db, url) || InHand(s', url) {
      if InHand(s, url) && url != orphan { StillInHand(s, e, url, orphan); }
    }
  }

  // ---------------------------------------------------------------- the bucket and the books

  ghost predicate AllPlain(h: Holding) {
    forall name :: name in h.objects ==> ObjectStorage.Plain(name)
  }

  /** A deletion that is answered well takes away the object of its URL if and only if the address
      has no path. */
  lemma RemovalHits(site: Site, h: Holding, name: string)
    requires site.Sound() && ObjectStorage.Plain(name) && name in h.objects
    ensures name !in Removed(site, h, site.Url(name), true).objects <==> site.address.path == ""
    ensures site.address.path == "" ==>
      Removed(site, h, site.Url(name), true) == h.(objects := h.objects - {name})
    ensures site.address.path != "" && !site.Misdirects() ==>
      Removed(site, h, site.Url(name), true) == h.(leaked := h.leaked + {site.Url(name)})
  {
    ObjectStorage.WhatObjectNameFinds(site.address, site.bucket, name);
  }

  lemma BooksAfterPut(site: Site, h: Holding, name: string)
    ensures BooksOf(site, h.(objects := h.objects + {name}))
         == BooksOf(site, h).(stored := BooksOf(site, h).stored + {site.Url(name)})
  {
  }

  lemma BooksWithout(site: Site, h: Holding, name: string)
    requires name in h.objects
    ensures BooksOf(site, h.(objects := h.objects - {name})).stored == BooksOf(site, h).stored - {site.Url(name)}
  {
    forall other | other in h.objects ensures site.Url(name) == site.Url(other) <==> name == other {
      SameUrl(site, name, other);
    }
  }

  lemma BooksAfterRemoval(site: Site, h: Holding, url: string, deleted: bool)
    requires site.Sound() && !site.Misdirects() && AllPlain(h) && url in BooksOf(site, h).stored
    ensures var b, b' := BooksOf(site, h), BooksOf(site, Removed(site, h, url, deleted));
      b' == b.(stored := b.stored - {url}) || b' == b.(leaked := b.leaked + {url})
    ensures AllPlain(Removed(site, h, url, deleted))
  {
    var name :| name in h.objects && site.Url(name) == url;
    RemovalHits(site, h, name);
    BooksWithout(site, h, name);
  }

  // ---------------------------------------------------------------- whole runs

  ghost predicate AccountedAfter(site: Site, es: seq<Event>)
    requires After(es).Some?
  {
    Accounted(After(es).value, BooksOf(site, Bucket(site, es)))
  }

  lemma StepKeepsAccounts(site: Site, s: State, h: Holding, e: Event)
    requires site.Sound() && !site.Misdirects() && Isolated(s) && Enabled(s, e) && FromPut(site, e)
    requires AllPlain(h) && Accounted(s, BooksOf(site, h))
    ensures AllPlain(StoreStep(site, h, s, e)) && Accounted(Step(s, e), BooksOf(site, StoreStep(site, h, s, e)))
  {
    var b := BooksOf(site, h);
    if e.PutObject? {
      PutKeepsAccounts(s, b, e);
      BooksAfterPut(site, h, e.name);
    } else if e.CommitFile? {
      LinkKeepsAccounts(s, b, e);
    } else if e.RemoveOrphan? {
      assert Pending(s, e.t, s.txns[e.t].url);
      BooksAfterRemoval(site, h, s.txns[e.t].url, e.deleted);
      RemovalKeepsAccounts(s, b, BooksOf(site, StoreStep(site, h, s, e)), e);
    } else {
      LeavingIsSame(s, e);
      SameKeepsAccounts(s, Step(s, e), b);
    }
  }

  /** Unless the address misdirects deletions: in every interleaving each stored object is linked, in
      exactly one request's hands, or an orphan whose deletion failed, and nothing linked is missing. */
  lemma {:induction false} ObjectsAreAccounted(site: Site, es: seq<Event>)
    requires site.Sound() && !site.Misdirects() && After(es).Some? && Served(site, es)
    ensures AllPlain(Bucket(site, es)) && AccountedAfter(site, es)
  {
    if es == [] {
      assert forall url :: !Linked(EMPTY, url);
    } else {
      var before, e := es[..|es| - 1], es[|es| - 1];
      assert FromPut(site, e);
      assert Served(site, before) by {
        forall i | 0 <= i < |before| ensures FromPut(site, before[i]) { assert FromPut(site, es[i]); }
      }
      ObjectsAreAccounted(site, before);
      EveryInterleavingIsSerial(before);
      StepKeepsAccounts(site, After(before).value, Bucket(site, before), e);
    }
  }

  /** Every attachment URL in the database is that of a stored object; and once no upload is in
      flight, the bucket holds the linked objects, those whose deletion failed, and no other. */
  lemma DatabaseAndStoreAgree(site: Site, es: seq<Event>)
    requires site.Sound() && !site.Misdirects() && After(es).Some? && Served(site, es)
    ensures var s, h := After(es).value, Bucket(site, es);
      forall r, f :: r in s.db.files && f in s.db.files[r] ==> f.url in BooksOf(site, h).stored
    ensures var s, h := After(es).value, Bucket(site, es);
      (forall t :: t in s.txns ==> s.txns[t].Write?) ==>
        forall name :: name in h.objects <==> site.Url(name) in h.leaked || Linked(s.db, site.Url(name))
  {
    var s, h := After(es).value, Bucket(site, es);
    ObjectsAreAccounted(site, es);
    forall r, f | r in s.db.files && f in s.db.files[r] ensures f.url in BooksOf(site, h).stored {
      assert Linked(s.db, f.url);
    }
    if forall t :: t in s.txns ==> s.txns[t].Write? {
      forall name ensures name in h.objects <==> site.Url(name) in h.leaked || Linked(s.db, site.Url(name)) {
        if name in h.objects {
          assert site.Url(name) in BooksOf(site, h).stored && !InHand(s, site.Url(name));
        } else if site.Url(name) in BooksOf(site, h).stored {
          var other :| other in h.objects && site.Url(other) == site.Url(name);
          SameUrl(site, name, other);
        }
      }
    }
  }

  /** The object of a request that could not link it: it is in the bucket and nobody's, and a
      deletion that is answered well takes it away, and nothing else, if and only if the address has
      no path. */
  lemma OrphanIsRemoved(site: Site, es: seq<Event>, t: Tid) returns (name: string)
    requires site.Sound() && !site.Misdirects() && After(es).Some? && Served(site, es)
    requires t in After(es).value.txns && After(es).value.txns[t].Orphan?
    ensures var s, h := After(es).value, Bucket(site, es);
      var h' := StoreStep(site, h, s, RemoveOrphan(t, true));
      && site.Url(name) == s.txns[t].url && name in h.objects && !Linked(s.db, site.Url(name))
      && (h' == h.(objects := h.objects - {name}) <==> site.address.path == "")
      && (name !in h'.objects <==> site.address.path == "")
  {
    var s, h := After(es).value, Bucket(site, es);
    ObjectsAreAccounted(site, es);
    assert Pending(s, t, s.txns[t].url);
    name :| name in h.objects && site.Url(name) == s.txns[t].url;
    RemovalHits(site, h, name);
  }

  // ---------------------------------------------------------------- misdirected deletions

  ghost predicate OnlyWrites(s: State) {
    forall t :: t in s.txns ==> s.txns[t].Write?
  }

  lemma StaysWithoutUploads(site: Site, h: Holding, s: State, e: Event)
    requires Enabled(s, e) && OnlyWrites(s) && !e.PutObject?
    ensures OnlyWrites(Step(s, e)) && StoreStep(site, h, s, e) == h
  {
  }

  lemma ServedLonger(site: Site, es: seq<Event>, e: Event)
    requires Served(site, es) && FromPut(site, e)
    ensures Served(site, es + [e])
  {
    var all := es + [e];
    forall i | 0 <= i < |all| ensures FromPut(site, all[i]) {
      if i < |es| { assert FromPut(site, es[i]); }
    }
  }

  lemma UrlsOnlyGrow(s: State, e: Event)
    requires Enabled(s, e)
    ensures s.usedUrls <= Step(s, e).usedUrls
    ensures e.PutObject? ==> e.file.url in Step(s, e).usedUrls
  {
  }

  /** A run that has generated no URL has put nothing into the bucket. */
  lemma {:induction false} NothingPut(site: Site, es: seq<Event>)
    requires After(es).Some? && After(es).value.usedUrls == {}
    ensures Bucket(site, es) == Holding({}, {}) && Served(site, es) && OnlyWrites(After(es).value)
  {
    if es != [] {
      var before, e := es[..|es| - 1], es[|es| - 1];
      UrlsOnlyGrow(After(before).value, e);
      NothingPut(site, before);
      StaysWithoutUploads(site, Bucket(site, before), After(before).value, e);
      ServedLonger(site, before, e);
      assert before + [e] == es;
    }
  }

  lemma BucketOneMore(site: Site, es: seq<Event>, e: Event)
    requires After(es).Some? && Enabled(After(es).value, e)
    ensures After(es + [e]) == Some(Step(After(es).value, e))
    ensures Bucket(site, es + [e]) == StoreStep(site, Bucket(site, es), After(es).value, e)
    ensures Served(site, es) && FromPut(site, e) ==> Served(site, es + [e])
  {
    AfterOneMore(es, e);
    assert (es + [e])[..|es + [e]| - 1] == es;
    if Served(site, es) && FromPut(site, e) {
      ServedLonger(site, es, e);
    }
  }

  /** One record, no files, nothing in flight. */
  lemma OneRecord() returns (es: seq<Event>, s: State)
    ensures After(es) == Some(s) && s.txns == map[] && s.usedUrls == {}
    ensures 11 in s.db.records && s.db.records[11].workshop == 0 && s.db.files == map[11 := multiset{}]
  {
    var input := Input("A", 0, Entry(0, {}), false);
    var es0, s0 := OneBike();
    var es1, s1 := RunToMeasured(es0, s0, 1, input, 7);
    assert s1.db.files == map[];
    assert s1.txns - {1} == map[];
    es, s := InsertAndCommit(es1, s1, 1, 11);
  }

  /** An upload for that record that is stored and cannot be linked. */
  lemma UploadGivenUp(site: Site, es: seq<Event>, s: State, name: string) returns (es': seq<Event>, s': State)
    requires After(es) == Some(s) && s.txns == map[] && s.usedUrls == {} && ObjectStorage.Plain(name)
    requires 11 in s.db.records && s.db.records[11].workshop == 0
    ensures After(es') == Some(s') && s'.txns == map[2 := Orphan(site.Url(name))] && s'.db == s.db
    ensures Served(site, es') && Bucket(site, es') == Holding({name}, {})
  {
    NothingPut(site, es);
    var put := PutObject(2, 0, 11, File(site.Url(name), "photo", None, 0), name);
    BucketOneMore(site, es, put);
    var es1, s1 := es + [put], Step(s, put);
    assert Bucket(site, es1).objects == {name};
    BucketOneMore(site, es1, Abort(2));
    es', s' := es1 + [Abort(2)], Step(s1, Abort(2));
  }

  lemma LostObject(site: Site, es: seq<Event>, name: string)
    requires After(es).Some? && After(es).value.txns == map[] && Bucket(site, es) == Holding({name}, {})
    requires forall r :: r in After(es).value.db.files ==> After(es).value.db.files[r] == multiset{}
    ensures !AccountedAfter(site, es)
  {
    var s, b := After(es).value, BooksOf(site, Bucket(site, es));
    assert site.Url(name) in b.stored && !Linked(s.db, site.Url(name)) && !InHand(s, site.Url(name));
  }

  /** An upload that cannot be linked, under an address that misdirects: the deletion succeeds and
      the object stays, on no account. */
  lemma MisdirectedDeletionLosesObject(site: Site) returns (es: seq<Event>)
    requires site.Sound() && site.Misdirects()
    ensures After(es).Some? && Served(site, es) && !AccountedAfter(site, es)
    ensures Bucket(site, es) == Holding({"f.jpg"}, {}) && After(es).value.txns == map[]
  {
    var name := "f.jpg";
    var es0, s0 := OneRecord();
    var es1, s1 := UploadGivenUp(site, es0, s0, name);
    BucketOneMore(site, es1, RemoveOrphan(2, true));
    es := es1 + [RemoveOrphan(2, true)];
    ObjectStorage.WhatObjectNameFinds(site.address, site.bucket, name);
    LostObject(site, es, name);
  }

  /** The accounts hold over every run if and only if the address does not misdirect deletions. */
  lemma AccountsNeedTheAddress(site: Site)
    requires site.Sound()
    ensures (forall es :: After(es).Some? && Served(site, es) ==> AccountedAfter(site, es)) <==> !site.Misdirects()
  {
    if site.Misdirects() {
      var es := MisdirectedDeletionLosesObject(site);
      assert After(es).Some? && Served(site, es) && !AccountedAfter(site, es);
    } else {
      forall es | After(es).Some? && Served(site, es) ensures AccountedAfter(site, es) {
        ObjectsAreAccounted(site, es);
      }
    }
  }
}
