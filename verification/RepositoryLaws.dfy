/** Whole runs of a repository: uploads, pushes, deletes by tag or digest and collections, in any order. In
    every state the index is valid, its history is faithful and every entry names a stored blob; so a
    collection never changes what any tag resolves to. With content addressing and consistent kinds, every tagged
    manifest also keeps everything that was checked when it was pushed. */
module RepositoryLaws {
  import opened Types
  import opened Layout
  import opened LayoutLaws
  import opened Store
  import opened Manifests
  import opened Requests
  import opened Gc
  import CollectionLaws
  import GcLaws
  import PushLaws
  import ReferrerLaws
  import RestartLaws

  datatype Action = Answer(q: Request) | Collect(policy: Policy, now: int)

  ghost predicate Step(conf: ApiConfig, codec: Codec, a: Repository, b: Repository, act: Action) {
    match act
    case Answer(q) => b == Serve(conf, codec, a, q)
    case Collect(policy, now) => Collected(policy, CutoffOf(policy, now), now, a, b)
  }

  ghost predicate IsRun(conf: ApiConfig, codec: Codec, run: seq<Repository>, acts: seq<Action>) {
    && |run| == |acts| + 1
    && run[0] == NEW_REPOSITORY
    && forall i | 0 <= i < |acts| :: Step(conf, codec, run[i], run[i + 1], acts[i])
  }

  ghost predicate EntriesStored(blobs: map<Digest, Blob>, idx: Index) {
    forall d | d in idx.manifests :: d.digest in blobs
  }

  ghost predicate Sound(blobs: map<Digest, Blob>, idx: Index) {
    Valid(idx) && Faithful(idx) && EntriesStored(blobs, idx)
  }

  /* ---------- Adds and removes ---------- */

  lemma AddSound(blobs: map<Digest, Blob>, idx: Index, desc: Descriptor, listed: seq<Descriptor>, now: int)
    requires Sound(blobs, idx) && SingleRole(desc) && desc.digest in blobs
    ensures Sound(blobs, AfterAdd(idx, desc, listed, now))
  {
    AddFaithful(idx, desc, listed, now);
    if desc.subject.Some? {
      AddResponseRefines(idx, desc, listed, now);
      MoveChildrenKeeps(idx, listed);
      RestartLaws.MoveChildrenEntries(idx, listed);
      PutResponseKeeps(MoveChildren(idx, listed).manifests, Stamp(desc, now));
    } else {
      AddRefines(idx, desc, listed, now);
      RestartLaws.AddEntryNames(idx, desc, listed, now);
      forall x | x in AfterAdd(idx, desc, listed, now).manifests ensures x.digest in blobs {
        if x != Stamp(desc, now) {
          assert RestartLaws.Kept(x, idx.manifests);
        }
      }
    }
  }

  lemma RemoveSound(blobs: map<Digest, Blob>, idx: Index, d: Descriptor, now: int)
    requires Sound(blobs, idx)
    ensures Sound(blobs, AfterRemove(idx, d, now))
  {
    RmFaithful(idx, d, now);
    if d.tag.Some? {
      RmTagRefines(idx, d, now);
      RmTagEntries(idx, d, now);
      forall x | x in AfterRemove(idx, d, now).manifests ensures x.digest in blobs {
        assert Names(AfterRemove(idx, d, now).manifests, x.digest);
      }
    } else {
      RmDigestRefines(idx, d, now);
    }
  }

  lemma MoreBlobs(blobs: map<Digest, Blob>, more: map<Digest, Blob>, idx: Index)
    requires Sound(blobs, idx) && blobs.Keys <= more.Keys
    ensures Sound(more, idx)
  {
  }

  /* ---------- Requests ---------- */

  lemma {:induction false} InsertTagsSound(
      blobs: map<Digest, Blob>, idx: Index, req: PutRequest, tags: seq<Tag>, now: int)
    requires Sound(blobs, idx) && req.digest in blobs
    ensures Sound(blobs, InsertTags(idx, req, tags, now))
  {
    if tags != [] {
      var init := tags[..|tags| - 1];
      InsertTagsSound(blobs, idx, req, init, now);
      AddSound(blobs, InsertTags(idx, req, init, now), PushedDesc(req, Some(tags[|tags| - 1])), ListedBy(req), now);
    }
  }

  lemma InsertedSound(blobs: map<Digest, Blob>, idx: Index, req: PutRequest, now: int)
    requires Sound(blobs, idx) && req.digest in blobs
    ensures Sound(blobs, Inserted(idx, req, now))
  {
    if req.tags == [] {
      AddSound(blobs, idx, PushedDesc(req, None), ListedBy(req), now);
    } else {
      InsertTagsSound(blobs, idx, req, req.tags, now);
    }
  }

  lemma StoreResponseSound(codec: Codec, r: Repository, subject: Digest, list: seq<Descriptor>, now: int)
    requires Sound(r.blobs, r.index)
    ensures var n := StoreResponse(codec, r, subject, list, now); Sound(n.blobs, n.index)
  {
    var blobs := StoreBlob(r.blobs, codec.hash(list), codec.encode(list).(mod := now));
    MoreBlobs(r.blobs, blobs, r.index);
    AddSound(blobs, r.index, ResponseDesc(codec, subject, list), list, now);
  }

  lemma PutSound(conf: ApiConfig, codec: Codec, r: Repository, req: PutRequest, now: int)
    requires Sound(r.blobs, r.index)
    ensures var n := AfterPut(conf, codec, r, req, now); Sound(n.blobs, n.index)
  {
    if Accepted(conf, r.blobs, req) {
      var blobs := StoreBlob(r.blobs, req.digest, req.body.(mod := now));
      MoreBlobs(r.blobs, blobs, r.index);
      InsertedSound(blobs, r.index, req, now);
      var stored := Repository(blobs, Inserted(r.index, req, now));
      if conf.referrers && req.body.referrer.Some? {
        var subject := req.body.referrer.value.subject;
        StoreResponseSound(codec, stored, subject, WithReferrer(ReferrersOf(stored, subject), ReferrerEntry(req)), now);
      }
    }
  }

  lemma DeleteSound(conf: ApiConfig, codec: Codec, r: Repository, arg: Reference, now: int)
    requires Sound(r.blobs, r.index)
    ensures var n := AfterDelete(conf, codec, r, arg, now); Sound(n.blobs, n.index)
  {
    var found := Find(r.index, arg);
    if found.Found? {
      var g := found.desc.digest;
      if conf.referrers && g in r.blobs && r.blobs[g].referrer.Some? {
        var subject := r.blobs[g].referrer.value.subject;
        StoreResponseSound(codec, r, subject, DeleteFunc(ReferrersOf(r, subject), HasDigest(g)), now);
      }
      var u := Unlisted(conf, codec, r, g, now);
      RemoveSound(u.blobs, u.index, found.desc, now);
    }
  }

  lemma CollectSound(policy: Policy, now: int, a: Repository, b: Repository)
    requires Sound(a.blobs, a.index) && Collected(policy, CutoffOf(policy, now), now, a, b)
    ensures Sound(b.blobs, b.index)
  {
    GcLaws.TagsSurvive(policy, CutoffOf(policy, now), now, a, b);
    GcLaws.EntriesStored(policy, CutoffOf(policy, now), now, a, b);
  }

  /** In every state of every run the index is valid, the history is faithful and each entry's blob is stored. */
  lemma {:induction false} RunSound(conf: ApiConfig, codec: Codec, run: seq<Repository>, acts: seq<Action>, i: nat)
    requires IsRun(conf, codec, run, acts) && i < |run|
    ensures Sound(run[i].blobs, run[i].index)
  {
    if i > 0 {
      RunSound(conf, codec, run, acts, i - 1);
      var a, b := run[i - 1], run[i];
      assert Step(conf, codec, a, b, acts[i - 1]);
      match acts[i - 1]
      case Answer(UploadBlob(g, blob)) => MoreBlobs(a.blobs, b.blobs, a.index);
      case Answer(PutManifest(req, now)) => PutSound(conf, codec, a, req, now);
      case Answer(DeleteManifest(arg, now)) => DeleteSound(conf, codec, a, arg, now);
      case Collect(policy, now) => CollectSound(policy, now, a, b);
    }
  }

  /** In every run, under every policy, a collection leaves every tag on its digest and its manifest stored. */
  lemma CollectionKeepsTags(
      conf: ApiConfig, codec: Codec, run: seq<Repository>, acts: seq<Action>, i: nat, t: Tag)
    requires IsRun(conf, codec, run, acts) && i < |acts| && acts[i].Collect?
    ensures ResolveTag(run[i + 1].index, t) == ResolveTag(run[i].index, t)
    ensures ResolveTag(run[i].index, t).Some? ==>
              var g := ResolveTag(run[i].index, t).value;
              g in run[i + 1].blobs && run[i + 1].blobs[g] == run[i].blobs[g]
  {
    var a, b, policy, now := run[i], run[i + 1], acts[i].policy, acts[i].now;
    RunSound(conf, codec, run, acts, i);
    RunSound(conf, codec, run, acts, i + 1);
    assert Step(conf, codec, a, b, acts[i]);
    GcLaws.TagsSurvive(policy, CutoffOf(policy, now), now, a, b);
    TagStored(a, t);
    TagStored(b, t);
  }

  lemma TagStored(r: Repository, t: Tag)
    requires EntriesStored(r.blobs, r.index)
    ensures ResolveTag(r.index, t).Some? ==> ResolveTag(r.index, t).value in r.blobs
  {
  }

  /* ---------- What one request means ---------- */

  lemma StoreResponseTags(codec: Codec, r: Repository, subject: Digest, list: seq<Descriptor>, now: int)
    requires Valid(r.index)
    ensures var n := StoreResponse(codec, r, subject, list, now);
            && Valid(n.index) && r.blobs.Keys <= n.blobs.Keys
            && (forall g | g in r.blobs :: n.blobs[g] == r.blobs[g])
            && (forall t :: ResolveTag(n.index, t) == ResolveTag(r.index, t))
  {
    AddResponseRefines(r.index, ResponseDesc(codec, subject, list), list, now);
  }

  /** An accepted push moves exactly its tags to its digest, stores its body and changes no stored blob, whether
      or not it has a subject; a rejected push changes nothing. */
  lemma PushMeaning(conf: ApiConfig, codec: Codec, r: Repository, req: PutRequest, now: int)
    requires Valid(r.index)
    ensures var n := AfterPut(conf, codec, r, req, now);
            if !Accepted(conf, r.blobs, req) then n == r
            else
              && Valid(n.index)
              && (forall t ::
                    ResolveTag(n.index, t) == if t in req.tags then Some(req.digest) else ResolveTag(r.index, t))
              && req.digest in n.blobs
              && (req.digest !in r.blobs ==> n.blobs[req.digest] == req.body.(mod := now))
              && (forall g | g in r.blobs :: g in n.blobs && n.blobs[g] == r.blobs[g])
  {
    if Accepted(conf, r.blobs, req) {
      ReferrerLaws.InsertedKeeps(r.index, req, now);
      var pushed := Pushed(r, req, now);
      if conf.referrers && req.body.referrer.Some? {
        var subject := req.body.referrer.value.subject;
        StoreResponseTags(codec, pushed, subject, WithReferrer(ReferrersOf(pushed, subject), ReferrerEntry(req)), now);
      }
    }
  }

  lemma UnlistedTags(conf: ApiConfig, codec: Codec, r: Repository, g: Digest, now: int)
    requires Valid(r.index)
    ensures var n := Unlisted(conf, codec, r, g, now);
            && Valid(n.index) && r.blobs.Keys <= n.blobs.Keys
            && (forall h | h in r.blobs :: n.blobs[h] == r.blobs[h])
            && (forall t :: ResolveTag(n.index, t) == ResolveTag(r.index, t))
  {
    if conf.referrers && g in r.blobs && r.blobs[g].referrer.Some? {
      var subject := r.blobs[g].referrer.value.subject;
      StoreResponseTags(codec, r, subject, DeleteFunc(ReferrersOf(r, subject), HasDigest(g)), now);
    }
  }

  /** A delete by tag drops that tag only. A delete by digest drops every tag of the digest and no other, and the
      digest no longer resolves. Neither deletes a blob, and a delete of what is not found changes nothing. */
  lemma DeleteMeaning(conf: ApiConfig, codec: Codec, r: Repository, arg: Reference, now: int)
    requires Valid(r.index)
    ensures var n := AfterDelete(conf, codec, r, arg, now);
            && (forall g | g in r.blobs :: g in n.blobs && n.blobs[g] == r.blobs[g])
            && match arg
               case TagRef(u) =>
                 forall t :: ResolveTag(n.index, t) == if t == u then None else ResolveTag(r.index, t)
               case DigestRef(g) =>
                 && !Resolves(n.index, g)
                 && (Resolves(r.index, g) ==>
                       forall t :: ResolveTag(n.index, t) == GcLaws.Without(ResolveTag(r.index, t), {g}))
                 && (!Resolves(r.index, g) ==> n == r)
               case Unparsable => n == r
  {
    FindView(r.index, arg);
    var found := Find(r.index, arg);
    if found.Found? {
      UnlistedTags(conf, codec, r, found.desc.digest, now);
      var u := Unlisted(conf, codec, r, found.desc.digest, now);
      if arg.TagRef? {
        RmTagRefines(u.index, found.desc, now);
      } else {
        RmDigestRefines(u.index, found.desc, now);
      }
    }
  }

  /* ---------- Tagged manifests stay complete ---------- */

  /** The manifest still passes the checks of a push: it decodes and, unless sparse content is allowed, what it names
      is stored. */
  predicate Complete(conf: ApiConfig, kinds: map<Digest, Kind>, blobs: map<Digest, Blob>, g: Digest) {
    && g in blobs && g in kinds && kinds[g].ManifestKind?
    && Accepted(conf, blobs, PutRequest(kinds[g].mediaType, g, blobs[g], []))
  }

  ghost predicate TagsComplete(conf: ApiConfig, kinds: map<Digest, Kind>, r: Repository) {
    forall t :: ResolveTag(r.index, t).Some? ==> Complete(conf, kinds, r.blobs, ResolveTag(r.index, t).value)
  }

  /** The descriptor says the true size of its content. */
  predicate Sized(content: map<Digest, Blob>, d: Descriptor) {
    d.digest in content && d.size == content[d.digest].size
  }

  ghost predicate AllSized(content: map<Digest, Blob>, ds: seq<Descriptor>) {
    forall d | d in ds :: Sized(content, d)
  }

  /** The entry says the media type of its kind and the true size; a response is an index without a subject that says
      the true size of everything it lists. */
  ghost predicate EntryRight(content: map<Digest, Blob>, kinds: map<Digest, Kind>, d: Descriptor) {
    && NamedManifest(kinds, d) && Sized(content, d)
    && (d.subject.Some? ==>
          && MediaTypeIndex(d.mediaType) && content[d.digest].referrer.None?
          && content[d.digest].asIndex.Some? && AllSized(content, content[d.digest].asIndex.value))
  }

  ghost predicate AllRight(content: map<Digest, Blob>, kinds: map<Digest, Kind>, ds: seq<Descriptor>) {
    forall d | d in ds :: EntryRight(content, kinds, d)
  }

  /** Blobs hold the content of their digests, and every entry is right about its content. */
  ghost predicate Kinded(content: map<Digest, Blob>, kinds: map<Digest, Kind>, r: Repository) {
    BlobsMatch(content, r.blobs) && AllRight(content, kinds, r.index.manifests)
  }

  lemma CompleteGrows(
      conf: ApiConfig, kinds: map<Digest, Kind>, blobs: map<Digest, Blob>, more: map<Digest, Blob>, g: Digest)
    requires Complete(conf, kinds, blobs, g)
    requires forall h | h in blobs :: h in more && more[h] == blobs[h]
    ensures Complete(conf, kinds, more, g)
  {
  }

  /** Tags stay complete when blobs are only added and every tag is an old one or names a complete manifest. */
  lemma TagsGrow(conf: ApiConfig, kinds: map<Digest, Kind>, a: Repository, b: Repository)
    requires TagsComplete(conf, kinds, a)
    requires forall h | h in a.blobs :: h in b.blobs && b.blobs[h] == a.blobs[h]
    requires forall t :: ResolveTag(b.index, t).Some? ==>
               ResolveTag(b.index, t) == ResolveTag(a.index, t) ||
               Complete(conf, kinds, b.blobs, ResolveTag(b.index, t).value)
    ensures TagsComplete(conf, kinds, b)
  {
    forall t | ResolveTag(b.index, t).Some? ensures Complete(conf, kinds, b.blobs, ResolveTag(b.index, t).value) {
      if ResolveTag(b.index, t) == ResolveTag(a.index, t) {
        CompleteGrows(conf, kinds, a.blobs, b.blobs, ResolveTag(b.index, t).value);
      }
    }
  }

  /* ---------- Entries stay right ---------- */

  lemma AddRight(
      content: map<Digest, Blob>, kinds: map<Digest, Kind>, idx: Index, desc: Descriptor, listed: seq<Descriptor>,
      now: int)
    requires Valid(idx) && SingleRole(desc)
    requires AllRight(content, kinds, idx.manifests) && EntryRight(content, kinds, desc)
    ensures var r := AfterAdd(idx, desc, listed, now); Valid(r) && AllRight(content, kinds, r.manifests)
  {
    if desc.subject.Some? {
      RestartLaws.ResponseEntries(idx, desc, listed, now);
    } else {
      AddRefines(idx, desc, listed, now);
      RestartLaws.AddEntryNames(idx, desc, listed, now);
      forall x | x in AfterAdd(idx, desc, listed, now).manifests ensures EntryRight(content, kinds, x) {
        if x != Stamp(desc, now) {
          KeptRight(content, kinds, idx.manifests, x);
        }
      }
    }
  }

  lemma KeptRight(content: map<Digest, Blob>, kinds: map<Digest, Kind>, ms: seq<Descriptor>, x: Descriptor)
    requires AllRight(content, kinds, ms) && RestartLaws.Kept(x, ms)
    ensures EntryRight(content, kinds, x)
  {
    var y :| y in ms && SameTarget(x, y);
    assert x == y.(tag := x.tag) by {
      assert x == x.(tag := None).(tag := x.tag);
    }
  }

  lemma {:induction false} InsertTagsRight(
      content: map<Digest, Blob>, kinds: map<Digest, Kind>, idx: Index, req: PutRequest, tags: seq<Tag>, now: int)
    requires Valid(idx) && AllRight(content, kinds, idx.manifests)
    requires RestartLaws.PushedAs(kinds, req) && HasBody(content, req.digest, req.body)
    ensures var r := InsertTags(idx, req, tags, now); Valid(r) && AllRight(content, kinds, r.manifests)
  {
    if tags != [] {
      var init := tags[..|tags| - 1];
      InsertTagsRight(content, kinds, idx, req, init, now);
      var d := PushedDesc(req, Some(tags[|tags| - 1]));
      AddRight(content, kinds, InsertTags(idx, req, init, now), d, ListedBy(req), now);
    }
  }

  lemma RemoveRight(content: map<Digest, Blob>, kinds: map<Digest, Kind>, idx: Index, d: Descriptor, now: int)
    requires AllRight(content, kinds, idx.manifests)
    ensures AllRight(content, kinds, AfterRemove(idx, d, now).manifests)
  {
    if d.tag.Some? {
      RmTagKept(idx, d, now);
      forall x | x in AfterRemove(idx, d, now).manifests ensures EntryRight(content, kinds, x) {
        KeptRight(content, kinds, idx.manifests, x);
      }
    }
  }

  lemma StoreResponseKinded(
      codec: Codec, content: map<Digest, Blob>, kinds: map<Digest, Kind>, r: Repository, subject: Digest,
      list: seq<Descriptor>, now: int)
    requires Valid(r.index) && Kinded(content, kinds, r) && ListEncoded(codec, content, list)
    requires codec.hash(list) in kinds && kinds[codec.hash(list)] == ManifestKind(OciIndex)
    requires AllSized(content, list)
    ensures Kinded(content, kinds, StoreResponse(codec, r, subject, list, now))
  {
    StoreMatches(content, r.blobs, codec.hash(list), codec.encode(list).(mod := now));
    AddRight(content, kinds, r.index, ResponseDesc(codec, subject, list), list, now);
  }

  /** The list of a subject says true sizes. */
  lemma ReferrersSized(content: map<Digest, Blob>, kinds: map<Digest, Kind>, r: Repository, subject: Digest)
    requires Kinded(content, kinds, r)
    ensures AllSized(content, ReferrersOf(r, subject))
  {
    var mi := IndexFunc(r.index.manifests, HasSubject(subject));
    if mi >= 0 {
      assert EntryRight(content, kinds, r.index.manifests[mi]);
    }
  }

  lemma WithReferrerSized(content: map<Digest, Blob>, list: seq<Descriptor>, entry: Descriptor)
    requires AllSized(content, list) && Sized(content, entry)
    ensures AllSized(content, WithReferrer(list, entry))
  {
  }

  /* ---------- Steps ---------- */

  lemma PutComplete(
      conf: ApiConfig, codec: Codec, content: map<Digest, Blob>, kinds: map<Digest, Kind>, r: Repository,
      req: PutRequest, now: int)
    requires Valid(r.index) && Kinded(content, kinds, r) && TagsComplete(conf, kinds, r)
    requires RestartLaws.RequestOk(conf, codec, content, kinds, r, PutManifest(req, now))
    ensures var n := AfterPut(conf, codec, r, req, now); Kinded(content, kinds, n) && TagsComplete(conf, kinds, n)
  {
    var n := AfterPut(conf, codec, r, req, now);
    PushMeaning(conf, codec, r, req, now);
    if Accepted(conf, r.blobs, req) {
      PutKinded(conf, codec, content, kinds, r, req, now);
      PushedComplete(conf, content, kinds, r.blobs, n.blobs, req);
      TagsGrow(conf, kinds, r, n);
    }
  }

  lemma PutKinded(
      conf: ApiConfig, codec: Codec, content: map<Digest, Blob>, kinds: map<Digest, Kind>, r: Repository,
      req: PutRequest, now: int)
    requires Valid(r.index) && Kinded(content, kinds, r) && Accepted(conf, r.blobs, req)
    requires RestartLaws.RequestOk(conf, codec, content, kinds, r, PutManifest(req, now))
    ensures Kinded(content, kinds, AfterPut(conf, codec, r, req, now))
    ensures Valid(Pushed(r, req, now).index) && Kinded(content, kinds, Pushed(r, req, now))
  {
    PushedKinded(content, kinds, r, req, now);
    if conf.referrers && req.body.referrer.Some? {
      var pushed := Pushed(r, req, now);
      var subject := req.body.referrer.value.subject;
      ReferrersSized(content, kinds, pushed, subject);
      ReferrerLaws.EntryMeaning(req);
      WithReferrerSized(content, ReferrersOf(pushed, subject), ReferrerEntry(req));
      StoreResponseKinded(codec, content, kinds, pushed, subject,
                          WithReferrer(ReferrersOf(pushed, subject), ReferrerEntry(req)), now);
    }
  }

  lemma PushedKinded(
      content: map<Digest, Blob>, kinds: map<Digest, Kind>, r: Repository, req: PutRequest, now: int)
    requires Valid(r.index) && Kinded(content, kinds, r)
    requires RestartLaws.PushedAs(kinds, req) && HasBody(content, req.digest, req.body)
    ensures Valid(Pushed(r, req, now).index) && Kinded(content, kinds, Pushed(r, req, now))
  {
    StoreMatches(content, r.blobs, req.digest, req.body.(mod := now));
    if req.tags == [] {
      AddRight(content, kinds, r.index, PushedDesc(req, None), ListedBy(req), now);
    } else {
      InsertTagsRight(content, kinds, r.index, req, req.tags, now);
    }
  }

  lemma PushedComplete(
      conf: ApiConfig, content: map<Digest, Blob>, kinds: map<Digest, Kind>, before: map<Digest, Blob>,
      blobs: map<Digest, Blob>, req: PutRequest)
    requires Accepted(conf, before, req) && RestartLaws.PushedAs(kinds, req)
    requires HasBody(content, req.digest, req.body) && BlobsMatch(content, blobs) && req.digest in blobs
    requires forall h | h in before :: h in blobs && blobs[h] == before[h]
    ensures Complete(conf, kinds, blobs, req.digest)
  {
    assert SameBody(blobs[req.digest], content[req.digest]);
  }

  lemma DeleteComplete(
      conf: ApiConfig, codec: Codec, content: map<Digest, Blob>, kinds: map<Digest, Kind>, r: Repository,
      arg: Reference, now: int)
    requires Valid(r.index) && Kinded(content, kinds, r) && TagsComplete(conf, kinds, r)
    requires RestartLaws.RequestOk(conf, codec, content, kinds, r, DeleteManifest(arg, now))
    ensures var n := AfterDelete(conf, codec, r, arg, now); Kinded(content, kinds, n) && TagsComplete(conf, kinds, n)
  {
    var n := AfterDelete(conf, codec, r, arg, now);
    var found := Find(r.index, arg);
    DeleteMeaning(conf, codec, r, arg, now);
    if found.Found? {
      var g := found.desc.digest;
      if UnlistedList(conf, r, g).Some? {
        ReferrersSized(content, kinds, r, r.blobs[g].referrer.value.subject);
        StoreResponseKinded(codec, content, kinds, r, r.blobs[g].referrer.value.subject,
                            UnlistedList(conf, r, g).value, now);
      }
      RemoveRight(content, kinds, Unlisted(conf, codec, r, g, now).index, found.desc, now);
    }
    TagsGrow(conf, kinds, r, n);
  }

  lemma RequestComplete(
      conf: ApiConfig, codec: Codec, content: map<Digest, Blob>, kinds: map<Digest, Kind>, r: Repository,
      q: Request)
    requires Valid(r.index) && Kinded(content, kinds, r) && TagsComplete(conf, kinds, r)
    requires RestartLaws.RequestOk(conf, codec, content, kinds, r, q)
    ensures var n := Serve(conf, codec, r, q); Kinded(content, kinds, n) && TagsComplete(conf, kinds, n)
  {
    match q
    case UploadBlob(g, blob) =>
      StoreMatches(content, r.blobs, g, blob);
      TagsGrow(conf, kinds, r, Serve(conf, codec, r, q));
    case PutManifest(req, now) => PutComplete(conf, codec, content, kinds, r, req, now);
    case DeleteManifest(arg, now) => DeleteComplete(conf, codec, content, kinds, r, arg, now);
  }

  /** What a complete manifest names is reached from it. */
  lemma NamedReached(s: Snapshot, kinds: map<Digest, Kind>, g: Digest, h: Digest)
    requires GcLaws.IsManifest(s, kinds, g) && h in s.blobs && CollectionLaws.Contains(s.blobs, kinds, g, h)
    ensures GcLaws.Reaches(s, kinds, g, h)
  {
    if CollectionLaws.Lists(s.blobs, kinds, g, h) {
      var y :| y in s.blobs[g].asIndex.value && y.digest == h;
      GcLaws.EdgesIff(s, GcLaws.SubjectsOf(s), g, kinds[g].mediaType, y);
    } else {
      assert h in Leaves(s, g, kinds[g].mediaType);
    }
  }

  lemma CollectComplete(
      conf: ApiConfig, content: map<Digest, Blob>, kinds: map<Digest, Kind>, policy: Policy, cutoff: Option<int>,
      now: int, a: Repository, b: Repository)
    requires ConsistentKinds(kinds, content, [])
    requires Valid(a.index) && Kinded(content, kinds, a) && TagsComplete(conf, kinds, a)
    requires Collected(policy, cutoff, now, a, b)
    ensures Kinded(content, kinds, b) && TagsComplete(conf, kinds, b)
  {
    var s := SnapshotOf(a, policy, cutoff);
    SnapshotConsistent(content, kinds, a, policy, cutoff);
    GcLaws.EntriesStored(policy, cutoff, now, a, b);
    GcLaws.TagsSurvive(policy, cutoff, now, a, b);
    GcLaws.TaggedContentSurvives(policy, cutoff, now, a, b, kinds);
    forall t | ResolveTag(b.index, t).Some? ensures Complete(conf, kinds, b.blobs, ResolveTag(b.index, t).value) {
      var g := ResolveTag(a.index, t).value;
      assert Complete(conf, kinds, a.blobs, g);
      TagKeepsWhatItNames(s, kinds, a.index, b.blobs, t, g);
      StillComplete(conf, kinds, s, b.blobs, g);
    }
  }

  lemma SnapshotConsistent(
      content: map<Digest, Blob>, kinds: map<Digest, Kind>, a: Repository, policy: Policy, cutoff: Option<int>)
    requires ConsistentKinds(kinds, content, []) && Kinded(content, kinds, a)
    ensures GcLaws.Consistent(SnapshotOf(a, policy, cutoff), kinds)
  {
  }

  /** `g` and everything it names is as stored in `left` as it was. */
  ghost predicate KeepsNamed(s: Snapshot, kinds: map<Digest, Kind>, left: map<Digest, Blob>, g: Digest)
    requires GcLaws.IsManifest(s, kinds, g)
  {
    && g in left && left[g] == s.blobs[g]
    && forall h | h in s.blobs && CollectionLaws.Contains(s.blobs, kinds, g, h) :: h in left
  }

  lemma TagKeepsWhatItNames(
      s: Snapshot, kinds: map<Digest, Kind>, idx: Index, left: map<Digest, Blob>, t: Tag, g: Digest)
    requires GcLaws.IsManifest(s, kinds, g) && ResolveTag(idx, t) == Some(g)
    requires forall u, h | GcLaws.TagReaches(s, kinds, idx, u, h) :: h in left && left[h] == s.blobs[h]
    ensures KeepsNamed(s, kinds, left, g)
  {
    assert GcLaws.TagReaches(s, kinds, idx, t, g);
    forall h | h in s.blobs && CollectionLaws.Contains(s.blobs, kinds, g, h) ensures h in left {
      NamedReached(s, kinds, g, h);
      assert GcLaws.TagReaches(s, kinds, idx, t, h);
    }
  }

  lemma StillComplete(
      conf: ApiConfig, kinds: map<Digest, Kind>, s: Snapshot, left: map<Digest, Blob>, g: Digest)
    requires Complete(conf, kinds, s.blobs, g) && KeepsNamed(s, kinds, left, g)
    ensures Complete(conf, kinds, left, g)
  {
    if KindImage(kinds, g) {
      var m := s.blobs[g].asImage.value;
      assert CollectionLaws.Uses(s.blobs, kinds, g, m.config.digest);
      forall d | d in m.layers ensures CollectionLaws.Uses(s.blobs, kinds, g, d.digest) {
      }
    } else {
      forall d | d in s.blobs[g].asIndex.value ensures CollectionLaws.Lists(s.blobs, kinds, g, d.digest) {
      }
    }
  }

  /* ---------- Runs ---------- */

  /** Bodies are addressed by content, and every digest is pushed under the media type of its kind. */
  ghost predicate KindedRun(
      conf: ApiConfig, codec: Codec, content: map<Digest, Blob>, kinds: map<Digest, Kind>, run: seq<Repository>,
      acts: seq<Action>)
    requires |run| == |acts| + 1
  {
    forall i | 0 <= i < |acts| && acts[i].Answer? ::
      RestartLaws.RequestOk(conf, codec, content, kinds, run[i], acts[i].q)
  }

  /** In every state of every run, across deletes and collections, every tagged manifest still passes the checks it
      was pushed under: it decodes and, unless sparse content is allowed, everything it names is stored. */
  lemma {:induction false} TaggedComplete(
      conf: ApiConfig, codec: Codec, content: map<Digest, Blob>, kinds: map<Digest, Kind>, run: seq<Repository>,
      acts: seq<Action>, i: nat)
    requires ConsistentKinds(kinds, content, [])
    requires IsRun(conf, codec, run, acts) && KindedRun(conf, codec, content, kinds, run, acts) && i < |run|
    ensures Kinded(content, kinds, run[i]) && TagsComplete(conf, kinds, run[i])
  {
    if i > 0 {
      var a, b := run[i - 1], run[i];
      TaggedComplete(conf, codec, content, kinds, run, acts, i - 1);
      RunSound(conf, codec, run, acts, i - 1);
      assert Step(conf, codec, a, b, acts[i - 1]);
      match acts[i - 1]
      case Answer(q) => RequestComplete(conf, codec, content, kinds, a, q);
      case Collect(policy, now) =>
        CollectComplete(conf, content, kinds, policy, CutoffOf(policy, now), now, a, b);
    }
  }

  /** In particular, unless sparse images are allowed, every tagged image has its config and every layer without an
      external source stored, in every state of every run. */
  lemma TaggedImageStored(
      conf: ApiConfig, codec: Codec, content: map<Digest, Blob>, kinds: map<Digest, Kind>, run: seq<Repository>,
      acts: seq<Action>, i: nat, t: Tag, g: Digest)
    requires !conf.sparseImage && ConsistentKinds(kinds, content, [])
    requires IsRun(conf, codec, run, acts) && KindedRun(conf, codec, content, kinds, run, acts) && i < |run|
    requires ResolveTag(run[i].index, t) == Some(g) && KindImage(kinds, g)
    ensures var blobs := run[i].blobs;
            && g in blobs && blobs[g].asImage.Some?
            && var m := blobs[g].asImage.value;
               && (m.config.urls == [] ==> m.config.digest in blobs)
               && forall d | d in m.layers && d.urls == [] && !d.mediaType.ForeignLayer? :: d.digest in blobs
  {
    TaggedComplete(conf, codec, content, kinds, run, acts, i);
  }

  /* ---------- What is served ---------- */

  lemma EntriesAgree(content: map<Digest, Blob>, kinds: map<Digest, Kind>, r: Repository, req: PutRequest)
    requires Kinded(content, kinds, r) && RestartLaws.PushedAs(kinds, req) && HasBody(content, req.digest, req.body)
    ensures PushLaws.Agree(r.index.manifests, req)
  {
    forall i | 0 <= i < |r.index.manifests| && r.index.manifests[i].digest == req.digest
      ensures r.index.manifests[i].mediaType == req.mediaType && r.index.manifests[i].size == req.body.size
    {
      assert EntryRight(content, kinds, r.index.manifests[i]);
    }
  }

  /** What a response lists agrees with a push of the same digest. */
  lemma ListedAgree(
      content: map<Digest, Blob>, kinds: map<Digest, Kind>, r: Repository, subject: Digest, req: PutRequest)
    requires ConsistentKinds(kinds, content, []) && Kinded(content, kinds, r)
    requires RestartLaws.PushedAs(kinds, req) && HasBody(content, req.digest, req.body)
    ensures PushLaws.Agree(ReferrersOf(r, subject), req)
  {
    var list := ReferrersOf(r, subject);
    var mi := IndexFunc(r.index.manifests, HasSubject(subject));
    ReferrersSized(content, kinds, r, subject);
    forall i | 0 <= i < |list| && list[i].digest == req.digest
      ensures list[i].mediaType == req.mediaType && list[i].size == req.body.size
    {
      assert mi >= 0 && EntryRight(content, kinds, r.index.manifests[mi]);
      assert list[i] in list && Sized(content, list[i]);
      assert NamedManifest(kinds, list[i]);
    }
  }

  lemma ResponseIsApart(
      conf: ApiConfig, codec: Codec, content: map<Digest, Blob>, kinds: map<Digest, Kind>, r: Repository,
      req: PutRequest, now: int)
    requires ConsistentKinds(kinds, content, []) && Valid(r.index) && Kinded(content, kinds, r)
    requires Accepted(conf, r.blobs, req)
    requires RestartLaws.RequestOk(conf, codec, content, kinds, r, PutManifest(req, now))
    ensures PushLaws.ResponseApart(conf, codec, r, req, now)
  {
    if conf.referrers && req.body.referrer.Some? {
      var subject := req.body.referrer.value.subject;
      PutKinded(conf, codec, content, kinds, r, req, now);
      ListedAgree(content, kinds, Pushed(r, req, now), subject, req);
      var mi := IndexFunc(r.index.manifests, HasSubject(subject));
      if mi >= 0 {
        assert EntryRight(content, kinds, r.index.manifests[mi]);
      }
    }
  }

  /** In every run, after every accepted push, lookups by its digest and by each of its tags find the media type and
      the size that were pushed. */
  lemma PushServed(
      conf: ApiConfig, codec: Codec, content: map<Digest, Blob>, kinds: map<Digest, Kind>, run: seq<Repository>,
      acts: seq<Action>, i: nat, req: PutRequest, now: int)
    requires ConsistentKinds(kinds, content, [])
    requires IsRun(conf, codec, run, acts) && KindedRun(conf, codec, content, kinds, run, acts) && i < |acts|
    requires acts[i] == Answer(PutManifest(req, now)) && Accepted(conf, run[i].blobs, req)
    ensures Serves(run[i + 1].index, DigestRef(req.digest), req)
    ensures forall t | t in req.tags :: Serves(run[i + 1].index, TagRef(t), req)
  {
    var r, n := run[i], run[i + 1];
    TaggedComplete(conf, codec, content, kinds, run, acts, i);
    RunSound(conf, codec, run, acts, i);
    assert Step(conf, codec, r, n, acts[i]);
    EntriesAgree(content, kinds, r, req);
    ResponseIsApart(conf, codec, content, kinds, r, req, now);
    PushLaws.PushedFound(conf, codec, r, req, now);
    forall t | t in req.tags ensures Serves(n.index, TagRef(t), req) {
      PushLaws.PushedTagFound(conf, codec, r, req, now, t);
      FindView(r.index, TagRef(t));
    }
  }

  /** The lookup finds the digest, the media type and the size of the push. */
  predicate Serves(idx: Index, arg: Reference, req: PutRequest) {
    var found := Find(idx, arg);
    found.Found? && found.desc.digest == req.digest && found.desc.mediaType == req.mediaType &&
    found.desc.size == req.body.size
  }

  /** In every state of every run a lookup by tag finds the media type of the digest's kind and the true size. */
  lemma TagServed(
      conf: ApiConfig, codec: Codec, content: map<Digest, Blob>, kinds: map<Digest, Kind>, run: seq<Repository>,
      acts: seq<Action>, i: nat, t: Tag)
    requires ConsistentKinds(kinds, content, [])
    requires IsRun(conf, codec, run, acts) && KindedRun(conf, codec, content, kinds, run, acts) && i < |run|
    ensures ResolveTag(run[i].index, t).Some? ==>
              var g := ResolveTag(run[i].index, t).value;
              var found := Find(run[i].index, TagRef(t));
              && found.Found? && found.desc.digest == g && g in content && g in kinds
              && kinds[g] == ManifestKind(found.desc.mediaType) && found.desc.size == content[g].size
  {
    TaggedComplete(conf, codec, content, kinds, run, acts, i);
    FindView(run[i].index, TagRef(t));
    var mi := IndexFunc(run[i].index.manifests, HasTag(t));
    if mi >= 0 {
      assert EntryRight(content, kinds, run[i].index.manifests[mi]);
    }
  }
}
