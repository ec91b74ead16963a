/** The referrers responses are exact: over any sequential run of blob uploads, manifest pushes and deletes, the
    response of a subject lists exactly the manifests pushed with that subject and not deleted since, each once and
    as last pushed, and every listed digest resolves. The deletes that break this are characterised exactly. */
module ReferrerLaws {
  import opened Types
  import opened Layout
  import opened LayoutLaws
  import opened Store
  import opened Manifests
  import opened Requests

  /** The last push of each manifest. */
  type Pushes = map<Digest, PutRequest>

  /** What a subject's list says about a pushed manifest: its media type, size and annotations, and the artifact type
      it gives itself, or else, for an image, the name of its config's media type. */
  predicate EntryOf(x: Descriptor, req: PutRequest) {
    && req.body.referrer.Some?
    && x.digest == req.digest && x.mediaType == req.mediaType && x.size == req.body.size && x.urls == []
    && (req.body.referrer.value.artifactType != "" ==> x.artifactType == req.body.referrer.value.artifactType)
    && (req.body.referrer.value.artifactType == "" ==>
          x.artifactType ==
          if MediaTypeImage(req.mediaType) && req.body.asImage.Some?
          then MediaTypeName(req.body.asImage.value.config.mediaType) else "")
    && x.created == req.body.referrer.value.created
    && x.tag == req.body.referrer.value.tag
    && x.subject == req.body.referrer.value.answered
    && x.other == req.body.referrer.value.other
  }

  lemma EntryMeaning(req: PutRequest)
    requires req.body.referrer.Some?
    ensures EntryOf(ReferrerEntry(req), req)
    ensures forall x :: EntryOf(x, req) ==> x == ReferrerEntry(req)
  {
  }

  function SubjectOf(req: PutRequest): Option<Digest> {
    if req.body.referrer.Some? then Some(req.body.referrer.value.subject) else None
  }

  /** Deleting a tag does not delete the manifest. */
  function NextLive(conf: ApiConfig, r: Repository, live: Pushes, q: Request): Pushes {
    match q
    case UploadBlob(_, _) => live
    case PutManifest(req, _) =>
      if Accepted(conf, r.blobs, req) && req.body.referrer.Some?
      then live[req.digest := req]
      else live
    case DeleteManifest(arg, _) => if arg.DigestRef? then live - {arg.digest} else live
  }

  /** The manifests with a subject that were pushed by `qs` and not deleted since. */
  function Live(conf: ApiConfig, codec: Codec, qs: seq<Request>): Pushes {
    if qs == [] then map[]
    else
      var init := qs[..|qs| - 1];
      NextLive(conf, RunRequests(conf, codec, init), Live(conf, codec, init), qs[|qs| - 1])
  }

  /* ---------- Invariant ---------- */

  /** `list` holds exactly the entries of the live manifests of `subject`, each once. */
  ghost predicate ListExact(list: seq<Descriptor>, live: Pushes, subject: Digest) {
    && UniqueDigests(list)
    && (forall x | x in list ::
          x.digest in live && SubjectOf(live[x.digest]) == Some(subject) && EntryOf(x, live[x.digest]))
    && (forall g | g in live && SubjectOf(live[g]) == Some(subject) :: Names(list, g))
  }

  /** Every subject's list is exact. */
  ghost predicate AllExact(r: Repository, live: Pushes) {
    forall s :: ListExact(ReferrersOf(r, s), live, s)
  }

  /** Every response is stored and decodes to a list, and is no manifest with a subject. */
  ghost predicate ResponsesStored(r: Repository) {
    forall s :: ResponseOf(r.index, s).Some? ==>
      var g := ResponseOf(r.index, s).value;
      g in r.blobs && r.blobs[g].asIndex.Some? && r.blobs[g].referrer.None?
  }

  /** A stored manifest with a subject that the index resolves. */
  ghost predicate Present(r: Repository, g: Digest) {
    g in r.blobs && r.blobs[g].referrer.Some? && Resolves(r.index, g)
  }

  ghost predicate LivePresent(r: Repository, live: Pushes) {
    forall g | g in live :: Present(r, g) && SubjectOf(live[g]) == Some(r.blobs[g].referrer.value.subject)
  }

  /** What holds of the repository whatever the lists contain. */
  ghost predicate Ready(content: map<Digest, Blob>, r: Repository, live: Pushes) {
    Valid(r.index) && BlobsMatch(content, r.blobs) && ResponsesStored(r) && LivePresent(r, live)
  }

  ghost predicate Sound(content: map<Digest, Blob>, r: Repository, live: Pushes) {
    Ready(content, r, live) && AllExact(r, live)
  }

  /* ---------- Lists ---------- */

  lemma WithReferrerMembers(list: seq<Descriptor>, entry: Descriptor)
    requires UniqueDigests(list)
    ensures UniqueDigests(WithReferrer(list, entry))
    ensures forall x :: x in WithReferrer(list, entry) <==> x == entry || (x in list && x.digest != entry.digest)
  {
    var mi := IndexFunc(list, HasDigest(entry.digest));
    var r := WithReferrer(list, entry);
    if mi >= 0 {
      assert r[mi] == entry;
      forall x | x in list && x.digest != entry.digest ensures x in r {
        var i :| 0 <= i < |list| && list[i] == x;
        assert r[i] == x;
      }
      forall x | x in r && x != entry ensures x in list && x.digest != entry.digest {
        var i :| 0 <= i < |r| && r[i] == x;
        assert list[i] == x;
      }
    } else {
      assert entry in r;
      forall i | 0 <= i < |list| ensures list[i].digest != entry.digest {
        assert !HasDigest(entry.digest)(list[i]);
      }
    }
  }

  /** A digest that is listed has its entry replaced in place, and a new one is listed last. */
  lemma WithReferrerOrder(list: seq<Descriptor>, entry: Descriptor)
    requires UniqueDigests(list)
    ensures var r := WithReferrer(list, entry);
            if Names(list, entry.digest)
            then |r| == |list| &&
                 forall i | 0 <= i < |list| :: r[i] == if list[i].digest == entry.digest then entry else list[i]
            else r == list + [entry]
  {
    NamesAt(list, entry.digest);
  }

  lemma WithReferrerExact(
      list: seq<Descriptor>, live: Pushes, subject: Digest, entry: Descriptor, req: PutRequest)
    requires ListExact(list, live, subject)
    requires EntryOf(entry, req) && SubjectOf(req) == Some(subject)
    ensures ListExact(WithReferrer(list, entry), live[req.digest := req], subject)
  {
    var after := live[req.digest := req];
    var r := WithReferrer(list, entry);
    WithReferrerMembers(list, entry);
    forall g | g in after && SubjectOf(after[g]) == Some(subject) ensures Names(r, g) {
      if g == req.digest {
        assert entry in r;
      } else {
        var x :| x in list && x.digest == g;
        assert x in r;
      }
    }
  }

  lemma WithoutReferrerExact(list: seq<Descriptor>, live: Pushes, subject: Digest, g: Digest)
    requires ListExact(list, live, subject)
    ensures ListExact(DeleteFunc(list, HasDigest(g)), live - {g}, subject)
  {
    DeleteFuncUnique(list, HasDigest(g));
    DeleteFuncNames(list, g);
  }

  /** A list is not touched by what happens to the manifests of other subjects. */
  lemma OtherListsExact(
      list: seq<Descriptor>, before: Pushes, after: Pushes, s: Digest, g: Digest)
    requires ListExact(list, before, s)
    requires forall h | h != g :: (h in before <==> h in after) && (h in before ==> before[h] == after[h])
    requires g in before ==> SubjectOf(before[g]) != Some(s)
    requires g in after ==> SubjectOf(after[g]) != Some(s)
    ensures ListExact(list, after, s)
  {
  }

  /** All lists are exact when that of the subject is and only manifest `g` of that subject changed. */
  lemma OneListChanged(a: Repository, b: Repository, before: Pushes, after: Pushes, subject: Digest, g: Digest)
    requires AllExact(a, before) && ListExact(ReferrersOf(b, subject), after, subject)
    requires forall s | s != subject :: ReferrersOf(b, s) == ReferrersOf(a, s)
    requires forall h | h != g :: (h in before <==> h in after) && (h in before ==> before[h] == after[h])
    requires g in before ==> SubjectOf(before[g]) == Some(subject)
    requires g in after ==> SubjectOf(after[g]) == Some(subject)
    ensures AllExact(b, after)
  {
    forall s ensures ListExact(ReferrersOf(b, s), after, s) {
      if s != subject {
        OtherListsExact(ReferrersOf(a, s), before, after, s, g);
      }
    }
  }

  lemma SameListsExact(a: Repository, b: Repository, live: Pushes)
    requires AllExact(a, live) && forall s :: ReferrersOf(b, s) == ReferrersOf(a, s)
    ensures AllExact(b, live)
  {
  }

  /* ---------- Reading responses ---------- */

  lemma ReferrersRead(r: Repository, s: Digest)
    requires ResponsesStored(r)
    ensures Readable(r, s) <==> ResponseOf(r.index, s).Some?
    ensures ResponseOf(r.index, s).Some? ==> r.blobs[ResponseOf(r.index, s).value].asIndex == Some(ReferrersOf(r, s))
    ensures ResponseOf(r.index, s).None? ==> ReferrersOf(r, s) == []
  {
  }

  /** The lists stay the same when the responses and their blobs do. */
  lemma SameLists(a: Repository, b: Repository)
    requires ResponsesStored(a)
    requires forall s :: ResponseOf(b.index, s) == ResponseOf(a.index, s)
    requires forall g | g in a.blobs :: g in b.blobs && b.blobs[g] == a.blobs[g]
    ensures ResponsesStored(b) && forall s :: ReferrersOf(b, s) == ReferrersOf(a, s)
  {
    forall s ensures ReferrersOf(b, s) == ReferrersOf(a, s) {
      ReferrersRead(a, s);
      ReferrersRead(b, s);
    }
  }

  /* ---------- Storing a response ---------- */

  ghost predicate PresentKept(r: Repository, n: Repository) {
    forall g | Present(r, g) :: Present(n, g) && n.blobs[g] == r.blobs[g]
  }

  lemma StoreResponseSound(
      codec: Codec, content: map<Digest, Blob>, r: Repository, live: Pushes, subject: Digest,
      list: seq<Descriptor>, now: int)
    requires Ready(content, r, live) && ListEncoded(codec, content, list)
    ensures var n := StoreResponse(codec, r, subject, list, now);
            && Ready(content, n, live) && PresentKept(r, n)
            && ReferrersOf(n, subject) == list
            && (forall s | s != subject :: ReferrersOf(n, s) == ReferrersOf(r, s))
  {
    var n := StoreResponse(codec, r, subject, list, now);
    StoreMatches(content, r.blobs, codec.hash(list), codec.encode(list).(mod := now));
    AddResponseRefines(r.index, ResponseDesc(codec, subject, list), list, now);
    assert ResponsesStored(n);
    ReferrersRead(n, subject);
    forall s | s != subject ensures ReferrersOf(n, s) == ReferrersOf(r, s) {
      ReferrersRead(r, s);
      ReferrersRead(n, s);
    }
    forall g | Present(r, g) ensures Present(n, g) && n.blobs[g] == r.blobs[g] {
      NotResponseBesides(r.index, subject, g);
    }
  }

  /* ---------- Steps ---------- */

  lemma UploadSound(content: map<Digest, Blob>, r: Repository, live: Pushes, g: Digest, b: Blob)
    requires Sound(content, r, live) && HasBody(content, g, b)
    ensures Sound(content, r.(blobs := StoreBlob(r.blobs, g, b)), live)
    ensures SameBody(StoreBlob(r.blobs, g, b)[g], b)
  {
    var n := r.(blobs := StoreBlob(r.blobs, g, b));
    StoreMatches(content, r.blobs, g, b);
    SameLists(r, n);
    SameListsExact(r, n, live);
  }

  lemma {:induction false} InsertTagsKeeps(idx: Index, req: PutRequest, tags: seq<Tag>, now: int)
    requires Valid(idx)
    ensures var r := InsertTags(idx, req, tags, now);
            && Valid(r)
            && (forall t :: ResolveTag(r, t) == if t in tags then Some(req.digest) else ResolveTag(idx, t))
            && (forall s :: ResponseOf(r, s) == ResponseOf(idx, s))
            && (forall g :: Resolves(r, g) <==> Resolves(idx, g) || (tags != [] && g == req.digest))
  {
    if tags != [] {
      var init := tags[..|tags| - 1];
      InsertTagsKeeps(idx, req, init, now);
      AddRefines(InsertTags(idx, req, init, now), PushedDesc(req, Some(tags[|tags| - 1])), ListedBy(req), now);
      assert forall t :: t in tags <==> t in init || t == tags[|tags| - 1];
    }
  }

  lemma InsertedKeeps(idx: Index, req: PutRequest, now: int)
    requires Valid(idx)
    ensures var r := Inserted(idx, req, now);
            && Valid(r)
            && (forall t :: ResolveTag(r, t) == if t in req.tags then Some(req.digest) else ResolveTag(idx, t))
            && (forall s :: ResponseOf(r, s) == ResponseOf(idx, s))
            && (forall g :: Resolves(r, g) <==> Resolves(idx, g) || g == req.digest)
  {
    if req.tags == [] {
      AddRefines(idx, PushedDesc(req, None), ListedBy(req), now);
    } else {
      InsertTagsKeeps(idx, req, req.tags, now);
    }
  }

  /** Storing the blob and the entries of a pushed manifest disturbs no response. */
  lemma PushedSound(content: map<Digest, Blob>, r: Repository, live: Pushes, req: PutRequest, now: int)
    requires Sound(content, r, live) && HasBody(content, req.digest, req.body)
    ensures var n := Pushed(r, req, now);
            Sound(content, n, live) && Resolves(n.index, req.digest) && req.digest in n.blobs &&
            SameBody(n.blobs[req.digest], req.body)
  {
    var stored := r.(blobs := StoreBlob(r.blobs, req.digest, req.body.(mod := now)));
    var n := Pushed(r, req, now);
    UploadSound(content, r, live, req.digest, req.body.(mod := now));
    InsertedKeeps(r.index, req, now);
    SameLists(stored, n);
    SameListsExact(stored, n, live);
  }

  lemma ReferrerAddedSound(
      codec: Codec, content: map<Digest, Blob>, r: Repository, live: Pushes, subject: Digest,
      entry: Descriptor, req: PutRequest, now: int)
    requires Sound(content, r, live) && Present(r, req.digest)
    requires r.blobs[req.digest].referrer.value.subject == subject
    requires EntryOf(entry, req) && SubjectOf(req) == Some(subject)
    requires ListEncoded(codec, content, WithReferrer(ReferrersOf(r, subject), entry))
    ensures Sound(content, ReferrerAdded(codec, r, subject, entry, now), live[req.digest := req])
  {
    var n := ReferrerAdded(codec, r, subject, entry, now);
    StoreResponseSound(codec, content, r, live, subject, WithReferrer(ReferrersOf(r, subject), entry), now);
    AddedLists(r, n, live, subject, entry, req);
    AddedReady(content, n, live, req);
  }

  lemma AddedLists(
      r: Repository, n: Repository, live: Pushes, subject: Digest, entry: Descriptor, req: PutRequest)
    requires AllExact(r, live) && EntryOf(entry, req) && SubjectOf(req) == Some(subject)
    requires req.digest in live ==> SubjectOf(live[req.digest]) == Some(subject)
    requires ReferrersOf(n, subject) == WithReferrer(ReferrersOf(r, subject), entry)
    requires forall s | s != subject :: ReferrersOf(n, s) == ReferrersOf(r, s)
    ensures AllExact(n, live[req.digest := req])
  {
    WithReferrerExact(ReferrersOf(r, subject), live, subject, entry, req);
    OneListChanged(r, n, live, live[req.digest := req], subject, req.digest);
  }

  lemma AddedReady(content: map<Digest, Blob>, n: Repository, live: Pushes, req: PutRequest)
    requires Ready(content, n, live) && Present(n, req.digest)
    requires SubjectOf(req) == Some(n.blobs[req.digest].referrer.value.subject)
    ensures Ready(content, n, live[req.digest := req])
  {
  }

  lemma PutSound(
      conf: ApiConfig, codec: Codec, content: map<Digest, Blob>, r: Repository, live: Pushes,
      req: PutRequest, now: int)
    requires conf.referrers && Sound(content, r, live)
    requires BodiesMatch(conf, codec, content, r, PutManifest(req, now))
    ensures Sound(content, AfterPut(conf, codec, r, req, now), NextLive(conf, r, live, PutManifest(req, now)))
  {
    if Accepted(conf, r.blobs, req) {
      PushedSound(content, r, live, req, now);
      if req.body.referrer.Some? {
        EntryMeaning(req);
        ReferrerAddedSound(codec, content, Pushed(r, req, now), live, req.body.referrer.value.subject,
                           ReferrerEntry(req), req, now);
      }
    }
  }

  /** After unlisting manifest `g` every list is exact for the remaining live manifests. */
  lemma ReferrerRemovedSound(
      codec: Codec, content: map<Digest, Blob>, r: Repository, live: Pushes, subject: Digest, g: Digest,
      now: int)
    requires Sound(content, r, live)
    requires g in live ==> SubjectOf(live[g]) == Some(subject)
    requires Readable(r, subject) ==> ListEncoded(codec, content, DeleteFunc(ReferrersOf(r, subject), HasDigest(g)))
    ensures var n := ReferrerRemoved(codec, r, subject, g, now);
            Sound(content, n, live - {g}) && PresentKept(r, n)
  {
    var n := ReferrerRemoved(codec, r, subject, g, now);
    var list := ReferrersOf(r, subject);
    WithoutReferrerExact(list, live, subject, g);
    ReferrersRead(r, subject);
    if Readable(r, subject) {
      StoreResponseSound(codec, content, r, live, subject, DeleteFunc(list, HasDigest(g)), now);
    }
    OneListChanged(r, n, live, live - {g}, subject, g);
  }

  lemma UnlistedSound(
      conf: ApiConfig, codec: Codec, content: map<Digest, Blob>, r: Repository, live: Pushes, g: Digest,
      now: int)
    requires conf.referrers && Sound(content, r, live)
    requires UnlistedList(conf, r, g).Some? ==> ListEncoded(codec, content, UnlistedList(conf, r, g).value)
    ensures var n := Unlisted(conf, codec, r, g, now);
            && Sound(content, n, live - {g})
            && (Resolves(r.index, g) ==> Resolves(n.index, g))
  {
    if g in r.blobs && r.blobs[g].referrer.Some? {
      ReferrerRemovedSound(codec, content, r, live, r.blobs[g].referrer.value.subject, g, now);
      assert Resolves(r.index, g) ==> Present(r, g);
    } else {
      assert live - {g} == live;
    }
  }

  /* ---------- Deletes ---------- */

  /** If the digest is a response, that response lists nothing. */
  ghost predicate AnswersNothing(r: Repository, g: Digest) {
    forall s :: ResponseOf(r.index, s) == Some(g) ==> ReferrersOf(r, s) == []
  }

  /** Removing a digest that is not live keeps the lists exact if and only if it is no response that lists
      something; in that case everything else is kept as well. */
  lemma RemoveDigestExact(
      content: map<Digest, Blob>, r: Repository, live: Pushes, d: Descriptor, now: int)
    requires Sound(content, r, live) && d.tag.None? && d.digest !in live
    ensures var n := r.(index := AfterRemove(r.index, d, now));
            && Ready(content, n, live)
            && (AllExact(n, live) <==> AnswersNothing(r, d.digest))
  {
    var n := r.(index := AfterRemove(r.index, d, now));
    RmDigestRefines(r.index, d, now);
    assert ResponsesStored(n);
    forall s
      ensures ReferrersOf(n, s) == if ResponseOf(r.index, s) == Some(d.digest) then [] else ReferrersOf(r, s)
    {
      ReferrersRead(r, s);
      ReferrersRead(n, s);
    }
    if AnswersNothing(r, d.digest) {
      SameListsExact(r, n, live);
    } else {
      var s :| ResponseOf(r.index, s) == Some(d.digest) && ReferrersOf(r, s) != [];
      var x := ReferrersOf(r, s)[0];
      assert x in ReferrersOf(r, s);
      assert SubjectOf(live[x.digest]) == Some(s) && !Names([], x.digest);
      assert !ListExact(ReferrersOf(n, s), live, s);
    }
  }

  lemma RemoveTagSound(content: map<Digest, Blob>, r: Repository, live: Pushes, d: Descriptor, now: int)
    requires Sound(content, r, live) && d.tag.Some?
    ensures Sound(content, r.(index := AfterRemove(r.index, d, now)), live)
    ensures forall h :: Resolves(AfterRemove(r.index, d, now), h) <==> Resolves(r.index, h)
  {
    var n := r.(index := AfterRemove(r.index, d, now));
    RmTagRefines(r.index, d, now);
    SameLists(r, n);
    SameListsExact(r, n, live);
  }

  /** Whether a digest answers nothing is the same before and after the unlisting step. */
  lemma UnlistedAnswers(
      conf: ApiConfig, codec: Codec, content: map<Digest, Blob>, r: Repository, live: Pushes, g: Digest,
      now: int)
    requires conf.referrers && Sound(content, r, live)
    requires UnlistedList(conf, r, g).Some? ==> ListEncoded(codec, content, UnlistedList(conf, r, g).value)
    ensures AnswersNothing(Unlisted(conf, codec, r, g, now), g) <==> AnswersNothing(r, g)
  {
    var u := Unlisted(conf, codec, r, g, now);
    if g in r.blobs && r.blobs[g].referrer.Some? {
      UnlistedSound(conf, codec, content, r, live, g, now);
      var subject := r.blobs[g].referrer.value.subject;
      assert forall s :: ResponseOf(r.index, s) != Some(g);
      if Readable(r, subject) {
        var list := DeleteFunc(ReferrersOf(r, subject), HasDigest(g));
        StoreResponseSound(codec, content, r, live, subject, list, now);
        StoreMatches(content, r.blobs, codec.hash(list), codec.encode(list).(mod := now));
        assert u.blobs[g] == r.blobs[g];
      }
      assert forall s :: ResponseOf(u.index, s) != Some(g);
    }
  }

  /** The condition, on the state before it, under which a request leaves every list exact: it does not delete a
      response that lists something, nor a tag of a live manifest. */
  ghost predicate KeepsLists(r: Repository, live: Pushes, q: Request) {
    q.DeleteManifest? ==>
      match q.arg
      case DigestRef(g) => Resolves(r.index, g) ==> AnswersNothing(r, g)
      case TagRef(t) => ResolveTag(r.index, t).Some? ==> ResolveTag(r.index, t).value !in live
      case Unparsable => true
  }

  /** A delete by digest takes the manifest off its subject's list; all lists are exact afterwards if and only if
      the digest is not a current response with something in it. */
  lemma DeleteDigestExact(
      conf: ApiConfig, codec: Codec, content: map<Digest, Blob>, r: Repository, live: Pushes, g: Digest,
      now: int)
    requires conf.referrers && Sound(content, r, live)
    requires BodiesMatch(conf, codec, content, r, DeleteManifest(DigestRef(g), now))
    ensures var n := AfterDelete(conf, codec, r, DigestRef(g), now);
            && Ready(content, n, live - {g})
            && (AllExact(n, live - {g}) <==> (Resolves(r.index, g) ==> AnswersNothing(r, g)))
  {
    FindView(r.index, DigestRef(g));
    var found := Find(r.index, DigestRef(g));
    if found.Found? {
      UnlistedSound(conf, codec, content, r, live, g, now);
      UnlistedAnswers(conf, codec, content, r, live, g, now);
      RemoveDigestExact(content, Unlisted(conf, codec, r, g, now), live - {g}, found.desc, now);
    } else {
      assert live - {g} == live;
    }
  }

  /** Lists that are exact without `g` are exact with it if and only if it is not live. */
  lemma UnlistedExact(content: map<Digest, Blob>, r: Repository, live: Pushes, g: Digest)
    requires Sound(content, r, live - {g}) && (g in live ==> SubjectOf(live[g]).Some?)
    ensures AllExact(r, live) <==> g !in live
    ensures Sound(content, r, live) <==> g !in live
  {
    if g in live {
      var s := live[g].body.referrer.value.subject;
      assert ListExact(ReferrersOf(r, s), live - {g}, s);
      assert !Names(ReferrersOf(r, s), g);
      assert !ListExact(ReferrersOf(r, s), live, s);
    } else {
      assert live - {g} == live;
    }
  }

  lemma DeleteByTagSound(
      conf: ApiConfig, codec: Codec, content: map<Digest, Blob>, r: Repository, live: Pushes, t: Tag,
      g: Digest, now: int)
    requires conf.referrers && Sound(content, r, live)
    requires ResolveTag(r.index, t) == Some(g)
    requires BodiesMatch(conf, codec, content, r, DeleteManifest(TagRef(t), now))
    ensures var n := AfterDelete(conf, codec, r, TagRef(t), now);
            Resolves(n.index, g) && Sound(content, n, live - {g})
  {
    FindView(r.index, TagRef(t));
    var d := Find(r.index, TagRef(t)).desc;
    var u := Unlisted(conf, codec, r, g, now);
    assert Names(r.index.manifests, g);
    UnlistedSound(conf, codec, content, r, live, g, now);
    RemoveTagSound(content, u, live - {g}, d, now);
    assert AfterDelete(conf, codec, r, TagRef(t), now) == u.(index := AfterRemove(u.index, d, now));
  }

  /** A delete by tag removes the tag only, yet it also unlists the manifest: the lists stay exact if and only
      if the tag did not name a live manifest, while the digest keeps resolving in every case. */
  lemma DeleteByTag(
      conf: ApiConfig, codec: Codec, content: map<Digest, Blob>, r: Repository, live: Pushes, t: Tag,
      g: Digest, now: int)
    requires conf.referrers && Sound(content, r, live)
    requires ResolveTag(r.index, t) == Some(g)
    requires BodiesMatch(conf, codec, content, r, DeleteManifest(TagRef(t), now))
    ensures var n := AfterDelete(conf, codec, r, TagRef(t), now);
            && Resolves(n.index, g) && Sound(content, n, live - {g})
            && (AllExact(n, live) <==> g !in live)
            && (Sound(content, n, live) <==> g !in live)
  {
    DeleteByTagSound(conf, codec, content, r, live, t, g, now);
    UnlistedExact(content, AfterDelete(conf, codec, r, TagRef(t), now), live, g);
  }

  /** A delete leaves all lists exact if and only if it meets the condition. */
  lemma DeleteExact(
      conf: ApiConfig, codec: Codec, content: map<Digest, Blob>, r: Repository, live: Pushes,
      arg: Reference, now: int)
    requires conf.referrers && Sound(content, r, live)
    requires BodiesMatch(conf, codec, content, r, DeleteManifest(arg, now))
    ensures var q := DeleteManifest(arg, now);
            Sound(content, AfterDelete(conf, codec, r, arg, now), NextLive(conf, r, live, q)) <==>
            KeepsLists(r, live, q)
  {
    match arg
    case DigestRef(g) => DeleteDigestExact(conf, codec, content, r, live, g, now);
    case TagRef(t) =>
      FindView(r.index, arg);
      if ResolveTag(r.index, t).Some? {
        DeleteByTag(conf, codec, content, r, live, t, ResolveTag(r.index, t).value, now);
      }
    case Unparsable =>
  }

  /* ---------- Runs ---------- */

  /** After the requests `before`, the bodies of `q` are addressed by content, and it breaks no list. */
  ghost predicate RequestOk(
      conf: ApiConfig, codec: Codec, content: map<Digest, Blob>, before: seq<Request>, q: Request)
  {
    var r := RunRequests(conf, codec, before);
    BodiesMatch(conf, codec, content, r, q) && KeepsLists(r, Live(conf, codec, before), q)
  }

  ghost predicate RequestsOk(conf: ApiConfig, codec: Codec, content: map<Digest, Blob>, qs: seq<Request>) {
    forall i | 0 <= i < |qs| :: RequestOk(conf, codec, content, qs[..i], qs[i])
  }

  lemma RequestsOkSplit(conf: ApiConfig, codec: Codec, content: map<Digest, Blob>, qs: seq<Request>)
    requires qs != [] && RequestsOk(conf, codec, content, qs)
    ensures var init := qs[..|qs| - 1];
            RequestsOk(conf, codec, content, init) && RequestOk(conf, codec, content, init, qs[|qs| - 1])
  {
    var init := qs[..|qs| - 1];
    assert forall i | 0 <= i < |init| :: init[i] == qs[i] && init[..i] == qs[..i];
  }

  lemma {:induction false} RunSound(conf: ApiConfig, codec: Codec, content: map<Digest, Blob>, qs: seq<Request>)
    requires conf.referrers && RequestsOk(conf, codec, content, qs)
    ensures Sound(content, RunRequests(conf, codec, qs), Live(conf, codec, qs))
  {
    if qs != [] {
      var init := qs[..|qs| - 1];
      RequestsOkSplit(conf, codec, content, qs);
      RunSound(conf, codec, content, init);
      var r, live := RunRequests(conf, codec, init), Live(conf, codec, init);
      match qs[|qs| - 1]
      case UploadBlob(g, b) => UploadSound(content, r, live, g, b);
      case PutManifest(req, now) => PutSound(conf, codec, content, r, live, req, now);
      case DeleteManifest(arg, now) => DeleteExact(conf, codec, content, r, live, arg, now);
    }
  }

  /** After every such run the response of each subject lists exactly the manifests pushed with that subject and
      not deleted since, each digest once and described as in its last push, and every listed digest resolves. */
  lemma ReferrersExact(
      conf: ApiConfig, codec: Codec, content: map<Digest, Blob>, qs: seq<Request>, subject: Digest)
    requires conf.referrers && RequestsOk(conf, codec, content, qs)
    ensures var r := RunRequests(conf, codec, qs);
            var live := Live(conf, codec, qs);
            var list := ReferrersOf(r, subject);
            && UniqueDigests(list)
            && (forall x: Descriptor :: x in list <==>
                  x.digest in live && SubjectOf(live[x.digest]) == Some(subject) && EntryOf(x, live[x.digest]))
            && (forall g | g in live && SubjectOf(live[g]) == Some(subject) :: Names(list, g))
            && (forall x | x in list :: Resolves(r.index, x.digest))
  {
    RunSound(conf, codec, content, qs);
    ListMeaning(content, RunRequests(conf, codec, qs), Live(conf, codec, qs), subject);
  }

  lemma ListMeaning(content: map<Digest, Blob>, r: Repository, live: Pushes, subject: Digest)
    requires Sound(content, r, live)
    ensures var list := ReferrersOf(r, subject);
            && UniqueDigests(list)
            && (forall x: Descriptor :: x in list <==>
                  x.digest in live && SubjectOf(live[x.digest]) == Some(subject) && EntryOf(x, live[x.digest]))
            && (forall g | g in live && SubjectOf(live[g]) == Some(subject) :: Names(list, g))
            && (forall x | x in list :: Resolves(r.index, x.digest))
  {
    var list := ReferrersOf(r, subject);
    assert ListExact(list, live, subject);
    forall x: Descriptor |
      x.digest in live && SubjectOf(live[x.digest]) == Some(subject) && EntryOf(x, live[x.digest])
      ensures x in list
    {
      var y :| y in list && y.digest == x.digest;
      EntryMeaning(live[x.digest]);
    }
  }
}
