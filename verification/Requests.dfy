/** Requests on a repository, runs of requests, and what content addressing says about the bodies in a run. */
module Requests {
  import opened Types
  import opened Layout
  import opened Store
  import opened Manifests

  datatype Request =
    | UploadBlob(digest: Digest, blob: Blob)
    | PutManifest(req: PutRequest, now: int)
    | DeleteManifest(arg: Reference, now: int)

  function Serve(conf: ApiConfig, codec: Codec, r: Repository, q: Request): Repository {
    match q
    case UploadBlob(g, b) => r.(blobs := StoreBlob(r.blobs, g, b))
    case PutManifest(req, now) => AfterPut(conf, codec, r, req, now)
    case DeleteManifest(arg, now) => AfterDelete(conf, codec, r, arg, now)
  }

  const NEW_REPOSITORY := Repository(map[], EMPTY)

  /** The state of a new repository after the requests `qs`. */
  function RunRequests(conf: ApiConfig, codec: Codec, qs: seq<Request>): Repository {
    if qs == [] then NEW_REPOSITORY
    else Serve(conf, codec, RunRequests(conf, codec, qs[..|qs| - 1]), qs[|qs| - 1])
  }

  lemma RunSnoc(conf: ApiConfig, codec: Codec, qs: seq<Request>, q: Request)
    ensures RunRequests(conf, codec, qs + [q]) == Serve(conf, codec, RunRequests(conf, codec, qs), q)
  {
    assert (qs + [q])[..|qs|] == qs;
  }

  lemma RunThree(conf: ApiConfig, codec: Codec, a: Request, b: Request, c: Request)
    ensures RunRequests(conf, codec, [a, b, c]) ==
            Serve(conf, codec, Serve(conf, codec, Serve(conf, codec, NEW_REPOSITORY, a), b), c)
  {
    RunSnoc(conf, codec, [], a);
    RunSnoc(conf, codec, [a], b);
    RunSnoc(conf, codec, [a, b], c);
    assert [] + [a] == [a] && [a] + [b] == [a, b] && [a, b] + [c] == [a, b, c];
  }

  /* ---------- Content addressing ---------- */

  /** The same bytes, whenever they were stored. */
  predicate SameBody(a: Blob, b: Blob) {
    a.asIndex == b.asIndex && a.asImage == b.asImage && a.referrer == b.referrer && a.size == b.size
  }

  predicate HasBody(content: map<Digest, Blob>, g: Digest, b: Blob) {
    g in content && SameBody(b, content[g])
  }

  predicate BlobsMatch(content: map<Digest, Blob>, blobs: map<Digest, Blob>) {
    forall g | g in blobs :: HasBody(content, g, blobs[g])
  }

  /** The encoded list has its own digest, decodes to the list, and names no subject. */
  predicate ListEncoded(codec: Codec, content: map<Digest, Blob>, list: seq<Descriptor>) {
    && HasBody(content, codec.hash(list), codec.encode(list))
    && codec.encode(list).asIndex == Some(list)
    && codec.encode(list).referrer == None
  }

  /** The list that is stored when manifest `g` is taken off its subject's response. */
  function UnlistedList(conf: ApiConfig, r: Repository, g: Digest): Option<seq<Descriptor>> {
    if conf.referrers && g in r.blobs && r.blobs[g].referrer.Some? && Readable(r, r.blobs[g].referrer.value.subject)
    then Some(DeleteFunc(ReferrersOf(r, r.blobs[g].referrer.value.subject), HasDigest(g)))
    else None
  }

  /** The list that a request stores as a referrers response, if it stores one. */
  function StoredList(conf: ApiConfig, r: Repository, q: Request): Option<seq<Descriptor>> {
    match q
    case UploadBlob(_, _) => None
    case PutManifest(req, now) =>
      if Accepted(conf, r.blobs, req) && conf.referrers && req.body.referrer.Some?
      then Some(WithReferrer(ReferrersOf(Pushed(r, req, now), req.body.referrer.value.subject), ReferrerEntry(req)))
      else None
    case DeleteManifest(arg, _) =>
      var found := Find(r.index, arg);
      if found.Found? then UnlistedList(conf, r, found.desc.digest) else None
  }

  /** Every body the request brings, and the response it makes the server store, is the content of its digest. */
  predicate BodiesMatch(conf: ApiConfig, codec: Codec, content: map<Digest, Blob>, r: Repository, q: Request) {
    && (q.UploadBlob? ==> HasBody(content, q.digest, q.blob))
    && (q.PutManifest? ==> HasBody(content, q.req.digest, q.req.body))
    && (StoredList(conf, r, q).Some? ==> ListEncoded(codec, content, StoredList(conf, r, q).value))
  }

  lemma StoreMatches(content: map<Digest, Blob>, blobs: map<Digest, Blob>, g: Digest, b: Blob)
    requires BlobsMatch(content, blobs) && HasBody(content, g, b)
    ensures var n := StoreBlob(blobs, g, b);
            && BlobsMatch(content, n) && SameBody(n[g], b)
            && blobs.Keys <= n.Keys && (forall h | h in blobs :: n[h] == blobs[h])
  {
  }
}
