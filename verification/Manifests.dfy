/** Pushing and deleting manifests (manifest.go) and keeping the referrers responses (referrer.go). */
module Manifests {
  import opened Types
  import opened Layout
  import opened Store

  datatype ApiConfig = ApiConfig(referrers: bool, sparseImage: bool, sparseIndex: bool)

  /** How a referrers response is encoded: the digest of the encoded list, and the blob that holds it. */
  datatype Codec = Codec(hash: seq<Descriptor> -> Digest, encode: seq<Descriptor> -> Blob)

  /** A request to push a manifest: its media type, its digest, its body and its tags. */
  datatype PutRequest = PutRequest(mediaType: MediaType, digest: Digest, body: Blob, tags: seq<Tag>)

  /* ---------- Validation ---------- */

  predicate External(d: Descriptor) {
    d.mediaType.ForeignLayer? || d.urls != []
  }

  predicate ImageVerified(conf: ApiConfig, blobs: map<Digest, Blob>, m: Image) {
    || conf.sparseImage
    || ((m.config.urls == [] ==> m.config.digest in blobs) &&
        forall d | d in m.layers && !External(d) :: d.digest in blobs)
  }

  predicate IndexVerified(conf: ApiConfig, blobs: map<Digest, Blob>, listed: seq<Descriptor>) {
    conf.sparseIndex || forall d | d in listed :: d.digest in blobs
  }

  predicate Accepted(conf: ApiConfig, blobs: map<Digest, Blob>, req: PutRequest) {
    if MediaTypeImage(req.mediaType) then
      req.body.asImage.Some? && ImageVerified(conf, blobs, req.body.asImage.value)
    else if MediaTypeIndex(req.mediaType) then
      req.body.asIndex.Some? && IndexVerified(conf, blobs, req.body.asIndex.value)
    else false
  }

  method VerifyImage(conf: ApiConfig, store: BlobStore, m: Image) returns (missing: seq<Digest>)
    ensures missing == [] <==> ImageVerified(conf, store.blobs, m)
  {
    missing := [];
    if conf.sparseImage {
      return;
    }
    if m.config.urls == [] && m.config.digest !in store.blobs {
      missing := [m.config.digest];
    }
    for i := 0 to |m.layers|
      invariant missing == [] <==>
                (m.config.urls == [] ==> m.config.digest in store.blobs) &&
                forall d | d in m.layers[..i] && !External(d) :: d.digest in store.blobs
    {
      assert m.layers[..i + 1] == m.layers[..i] + [m.layers[i]];
      if External(m.layers[i]) {
        continue;
      }
      if m.layers[i].digest !in store.blobs {
        missing := missing + [m.layers[i].digest];
      }
    }
    assert m.layers[..|m.layers|] == m.layers;
  }

  method VerifyIndex(conf: ApiConfig, store: BlobStore, listed: seq<Descriptor>) returns (missing: seq<Digest>)
    ensures missing == [] <==> IndexVerified(conf, store.blobs, listed)
  {
    missing := [];
    if conf.sparseIndex {
      return;
    }
    for i := 0 to |listed|
      invariant missing == [] <==> forall d | d in listed[..i] :: d.digest in store.blobs
    {
      assert listed[..i + 1] == listed[..i] + [listed[i]];
      if listed[i].digest !in store.blobs {
        missing := missing + [listed[i].digest];
      }
    }
    assert listed[..|listed|] == listed;
  }

  /* ---------- Referrers responses ---------- */

  function ListOf(blobs: map<Digest, Blob>, response: Option<Descriptor>): seq<Descriptor> {
    if response.Some? && response.value.digest in blobs && blobs[response.value.digest].asIndex.Some?
    then blobs[response.value.digest].asIndex.value
    else []
  }

  /** The descriptors listed for a subject; nothing is listed when there is no readable response. */
  function ReferrersOf(r: Repository, subject: Digest): seq<Descriptor> {
    ListOf(r.blobs, GetResponse(r.index, subject))
  }

  /** The subject has a response that is stored and decodes. */
  predicate Readable(r: Repository, subject: Digest) {
    var response := GetResponse(r.index, subject);
    response.Some? && response.value.digest in r.blobs && r.blobs[response.value.digest].asIndex.Some?
  }

  function WithReferrer(list: seq<Descriptor>, desc: Descriptor): seq<Descriptor> {
    var mi := IndexFunc(list, HasDigest(desc.digest));
    if mi >= 0 then list[mi := desc] else list + [desc]
  }

  function ResponseDesc(codec: Codec, subject: Digest, list: seq<Descriptor>): Descriptor {
    Descriptor(OciIndex, codec.hash(list), codec.encode(list).size, "", [], None, None, Some(subject), map[])
  }

  /** Stores `list` as the response of `subject`; the list's own entries become children of the response. */
  function StoreResponse(codec: Codec, r: Repository, subject: Digest, list: seq<Descriptor>, now: int): Repository {
    Repository(
      StoreBlob(r.blobs, codec.hash(list), codec.encode(list).(mod := now)),
      AfterAdd(r.index, ResponseDesc(codec, subject, list), list, now))
  }

  function ReferrerAdded(codec: Codec, r: Repository, subject: Digest, desc: Descriptor, now: int): Repository {
    StoreResponse(codec, r, subject, WithReferrer(ReferrersOf(r, subject), desc), now)
  }

  function ReferrerRemoved(codec: Codec, r: Repository, subject: Digest, g: Digest, now: int): Repository {
    if !Readable(r, subject) then r
    else StoreResponse(codec, r, subject, DeleteFunc(ReferrersOf(r, subject), HasDigest(g)), now)
  }

  /* ---------- Push and delete as functions ---------- */

  /** The entry listed for a manifest with a subject, with its artifact type and annotations pulled up. */
  function ReferrerEntry(req: PutRequest): Descriptor
    requires req.body.referrer.Some?
  {
    var ref := req.body.referrer.value;
    var artifactType :=
      if MediaTypeImage(req.mediaType) && req.body.asImage.Some? && ref.artifactType == ""
      then MediaTypeName(req.body.asImage.value.config.mediaType)
      else ref.artifactType;
    Descriptor(req.mediaType, req.digest, req.body.size, artifactType, [],
               ref.created, ref.tag, ref.answered, ref.other)
  }

  function PushedDesc(req: PutRequest, tag: Option<Tag>): Descriptor {
    Descriptor(req.mediaType, req.digest, req.body.size, "", [], None, tag, None, map[])
  }

  /** The descriptors a pushed index lists. */
  function ListedBy(req: PutRequest): seq<Descriptor> {
    if MediaTypeIndex(req.mediaType) && req.body.asIndex.Some? then req.body.asIndex.value else []
  }

  function InsertTags(idx: Index, req: PutRequest, tags: seq<Tag>, now: int): Index {
    if tags == [] then idx
    else
      var before := InsertTags(idx, req, tags[..|tags| - 1], now);
      AfterAdd(before, PushedDesc(req, Some(tags[|tags| - 1])), ListedBy(req), now)
  }

  function Inserted(idx: Index, req: PutRequest, now: int): Index {
    if req.tags == [] then AfterAdd(idx, PushedDesc(req, None), ListedBy(req), now)
    else InsertTags(idx, req, req.tags, now)
  }

  /** The repository once the blob and the entries of an accepted push are stored. */
  function Pushed(r: Repository, req: PutRequest, now: int): Repository {
    Repository(StoreBlob(r.blobs, req.digest, req.body.(mod := now)), Inserted(r.index, req, now))
  }

  function AfterPut(conf: ApiConfig, codec: Codec, r: Repository, req: PutRequest, now: int): Repository {
    if !Accepted(conf, r.blobs, req) then r
    else
      var pushed := Pushed(r, req, now);
      if conf.referrers && req.body.referrer.Some?
      then ReferrerAdded(codec, pushed, req.body.referrer.value.subject, ReferrerEntry(req), now)
      else pushed
  }

  /** The repository after manifest `g` is taken off the list of its subject, if it has one. */
  function Unlisted(conf: ApiConfig, codec: Codec, r: Repository, g: Digest, now: int): Repository {
    if conf.referrers && g in r.blobs && r.blobs[g].referrer.Some?
    then ReferrerRemoved(codec, r, r.blobs[g].referrer.value.subject, g, now)
    else r
  }

  function AfterDelete(conf: ApiConfig, codec: Codec, r: Repository, arg: Reference, now: int): Repository {
    var found := Find(r.index, arg);
    if !found.Found? then r
    else
      var unlisted := Unlisted(conf, codec, r, found.desc.digest, now);
      unlisted.(index := AfterRemove(unlisted.index, found.desc, now))
  }

  /* ---------- Push and delete as they run ---------- */

  method ReferrerStore(
      store: BlobStore, index: LayoutIndex, codec: Codec, subject: Digest, list: seq<Descriptor>, now: int)
    modifies store, index
    ensures Repository(store.blobs, index.State()) ==
            StoreResponse(codec, old(Repository(store.blobs, index.State())), subject, list, now)
  {
    store.Create(codec.hash(list), codec.encode(list).(mod := now));
    index.AddDesc(ResponseDesc(codec, subject, list), list, now);
  }

  method ReferrerAdd(store: BlobStore, index: LayoutIndex, codec: Codec, subject: Digest, desc: Descriptor, now: int)
    modifies store, index
    ensures Repository(store.blobs, index.State()) ==
            ReferrerAdded(codec, old(Repository(store.blobs, index.State())), subject, desc, now)
  {
    var refResp := [];
    var mi := IndexFunc(index.manifests, HasSubject(subject));
    if mi >= 0 {
      var dOld := index.manifests[mi];
      if dOld.digest in store.blobs && store.blobs[dOld.digest].asIndex.Some? {
        refResp := store.blobs[dOld.digest].asIndex.value;
      }
    }
    var li := IndexFunc(refResp, HasDigest(desc.digest));
    if li >= 0 {
      refResp := refResp[li := desc];
    } else {
      refResp := refResp + [desc];
    }
    ReferrerStore(store, index, codec, subject, refResp, now);
  }

  method ReferrerDelete(store: BlobStore, index: LayoutIndex, codec: Codec, subject: Digest, g: Digest, now: int)
    modifies store, index
    ensures Repository(store.blobs, index.State()) ==
            ReferrerRemoved(codec, old(Repository(store.blobs, index.State())), subject, g, now)
  {
    var mi := IndexFunc(index.manifests, HasSubject(subject));
    if mi < 0 {
      return;
    }
    var dOld := index.manifests[mi];
    if dOld.digest !in store.blobs || store.blobs[dOld.digest].asIndex.None? {
      return;
    }
    var refResp := DeleteFunc(store.blobs[dOld.digest].asIndex.value, HasDigest(g));
    ReferrerStore(store, index, codec, subject, refResp, now);
  }

  method ManifestPut(
      conf: ApiConfig, codec: Codec, store: BlobStore, index: LayoutIndex, req: PutRequest, now: int)
    returns (created: bool)
    modifies store, index
    ensures Repository(store.blobs, index.State()) ==
            AfterPut(conf, codec, old(Repository(store.blobs, index.State())), req, now)
    ensures created == Accepted(conf, old(store.blobs), req)
  {
    if MediaTypeImage(req.mediaType) {
      if req.body.asImage.None? {
        return false;
      }
      var missing := VerifyImage(conf, store, req.body.asImage.value);
      if missing != [] {
        return false;
      }
    } else if MediaTypeIndex(req.mediaType) {
      if req.body.asIndex.None? {
        return false;
      }
      var missing := VerifyIndex(conf, store, req.body.asIndex.value);
      if missing != [] {
        return false;
      }
    } else {
      return false;
    }
    store.Create(req.digest, req.body.(mod := now));
    InsertEntries(index, req, now);
    if conf.referrers && req.body.referrer.Some? {
      ReferrerAdd(store, index, codec, req.body.referrer.value.subject, ReferrerEntry(req), now);
    }
    return true;
  }

  method InsertEntries(index: LayoutIndex, req: PutRequest, now: int)
    modifies index
    ensures index.State() == Inserted(old(index.State()), req, now)
  {
    if req.tags == [] {
      index.AddDesc(PushedDesc(req, None), ListedBy(req), now);
      return;
    }
    for i := 0 to |req.tags|
      invariant index.State() == InsertTags(old(index.State()), req, req.tags[..i], now)
    {
      assert req.tags[..i + 1][..i] == req.tags[..i];
      index.AddDesc(PushedDesc(req, Some(req.tags[i])), ListedBy(req), now);
    }
    assert req.tags[..|req.tags|] == req.tags;
  }

  method ManifestDelete(
      conf: ApiConfig, codec: Codec, store: BlobStore, index: LayoutIndex, arg: Reference, now: int)
    returns (accepted: bool)
    modifies store, index
    ensures Repository(store.blobs, index.State()) ==
            AfterDelete(conf, codec, old(Repository(store.blobs, index.State())), arg, now)
    ensures accepted == Find(old(index.State()), arg).Found?
  {
    var found := index.GetDesc(arg);
    if !found.Found? {
      return false;
    }
    var g := found.desc.digest;
    if conf.referrers && g in store.blobs && store.blobs[g].referrer.Some? {
      ReferrerDelete(store, index, codec, store.blobs[g].referrer.value.subject, g, now);
    }
    index.RmDesc(found.desc, now);
    return true;
  }
}
