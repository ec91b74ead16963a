/** A restart loses nothing: every digest that resolves after a run of pushes, with or without subjects, still
    resolves after the children were dropped and rebuilt from the saved entries. */
module RestartLaws {
  import opened Types
  import opened Layout
  import opened LayoutLaws
  import opened Store
  import opened Ingest
  import opened Manifests
  import opened Requests

  /** `T` holds everything listed by the stored indexes in it. */
  ghost predicate ListedClosed(blobs: map<Digest, Blob>, kinds: map<Digest, Kind>, T: set<Digest>) {
    forall g, y | g in T && KindIndex(kinds, g) && y in ListedIn(blobs, g) :: y.digest in T
  }

  ghost predicate Holds(T: set<Digest>, ds: seq<Descriptor>) {
    forall d | d in ds :: d.digest in T
  }

  /** The digest is in every closed set that holds the entries: an entry lists it, directly or nested. */
  ghost predicate ReachedFrom(blobs: map<Digest, Blob>, kinds: map<Digest, Kind>, ms: seq<Descriptor>, g: Digest) {
    forall T: set<Digest> | Holds(T, ms) && ListedClosed(blobs, kinds, T) :: g in T
  }

  /* ---------- The scan is exact ---------- */

  /** Every index seen so far waits in the queue or has everything it lists seen. */
  ghost predicate Scanned(
      blobs: map<Digest, Blob>, kinds: map<Digest, Kind>, queue: seq<Descriptor>, seen: set<Digest>)
  {
    forall g, y | g in seen && KindIndex(kinds, g) && y in ListedIn(blobs, g) ::
      y.digest in seen || exists x :: x in queue && x.digest == g
  }

  /** The children are the seen digests beyond `base`, each once. */
  ghost predicate ChildrenOf(base: set<Digest>, sc: Scan) {
    && UniqueDigests(sc.children)
    && (forall c | c in sc.children :: c.digest !in base && c.digest in sc.seen)
    && (forall g | g in sc.seen :: g in base || Names(sc.children, g))
  }

  ghost predicate QueueValid(kinds: map<Digest, Kind>, sc: Scan) {
    forall x | x in sc.queue :: NamedManifest(kinds, x) && MediaTypeIndex(x.mediaType) && x.digest in sc.seen
  }

  lemma {:induction false} AbsorbKeeps(kinds: map<Digest, Kind>, base: set<Digest>, sc: Scan, listed: seq<Descriptor>)
    requires base <= sc.seen && ChildrenOf(base, sc) && QueueValid(kinds, sc)
    requires forall d | d in listed :: NamedManifest(kinds, d)
    ensures var r := Absorb(sc, listed);
            && ChildrenOf(base, r) && QueueValid(kinds, r)
            && (forall x | x in sc.queue :: x in r.queue)
            && (forall g | g in r.seen && g !in sc.seen && KindIndex(kinds, g) ::
                  exists x :: x in r.queue && x.digest == g)
    decreases |listed|
  {
    if listed != [] {
      var d := listed[0];
      if d.digest in sc.seen {
        AbsorbKeeps(kinds, base, sc, listed[1..]);
      } else {
        var queue := if MediaTypeIndex(d.mediaType) then sc.queue + [d] else sc.queue;
        var next := Scan(queue, sc.seen + {d.digest}, sc.children + [d]);
        assert NamedManifest(kinds, d);
        assert forall c :: c in next.children <==> c in sc.children || c == d;
        assert forall x :: x in sc.queue ==> x in queue;
        forall i | 0 <= i < |sc.children| ensures sc.children[i].digest != d.digest {
          assert sc.children[i] in sc.children;
        }
        assert MediaTypeIndex(d.mediaType) ==> d in queue;
        AbsorbKeeps(kinds, base, next, listed[1..]);
        var r := Absorb(next, listed[1..]);
        assert KindIndex(kinds, d.digest) ==> d in r.queue;
      }
    }
  }

  lemma {:induction false} ScanKeeps(
      blobs: map<Digest, Blob>, kinds: map<Digest, Kind>, base: set<Digest>, sc: Scan)
    requires ConsistentKinds(kinds, blobs, [])
    requires base <= sc.seen && ChildrenOf(base, sc) && QueueValid(kinds, sc) &&
             Scanned(blobs, kinds, sc.queue, sc.seen)
    ensures var r := ScanFrom(blobs, sc);
            sc.seen <= r.seen && ChildrenOf(base, r) && ListedClosed(blobs, kinds, r.seen)
    decreases Universe(blobs) - sc.seen, |sc.queue|
  {
    if sc.queue != [] {
      var x := sc.queue[0];
      var popped := sc.(queue := sc.queue[1..]);
      var listed := ListedIn(blobs, x.digest);
      var next := Absorb(popped, listed);
      assert forall y :: y in sc.queue ==> y == x || y in popped.queue;
      assert forall y :: y in popped.queue ==> y in sc.queue;
      AbsorbKeeps(kinds, base, popped, listed);
      forall g, y | g in next.seen && KindIndex(kinds, g) && y in ListedIn(blobs, g)
        ensures y.digest in next.seen || exists z :: z in next.queue && z.digest == g
      {
      }
      ScanKeeps(blobs, kinds, base, next);
    }
  }

  /** Nothing is seen that is not listed from what was seen before. */
  lemma {:induction false} ScanSound(blobs: map<Digest, Blob>, kinds: map<Digest, Kind>, sc: Scan, T: set<Digest>)
    requires ConsistentKinds(kinds, blobs, [])
    requires QueueValid(kinds, sc) && sc.seen <= T && ListedClosed(blobs, kinds, T)
    ensures ScanFrom(blobs, sc).seen <= T
    decreases Universe(blobs) - sc.seen, |sc.queue|
  {
    if sc.queue != [] {
      var x := sc.queue[0];
      assert x in sc.queue;
      var popped := sc.(queue := sc.queue[1..]);
      var listed := ListedIn(blobs, x.digest);
      assert forall y :: y in popped.queue ==> y in sc.queue;
      AbsorbQueue(kinds, popped, listed);
      ScanSound(blobs, kinds, Absorb(popped, listed), T);
    }
  }

  lemma {:induction false} AbsorbQueue(kinds: map<Digest, Kind>, sc: Scan, listed: seq<Descriptor>)
    requires QueueValid(kinds, sc)
    requires forall d | d in listed :: NamedManifest(kinds, d)
    ensures QueueValid(kinds, Absorb(sc, listed))
    decreases |listed|
  {
    if listed != [] {
      var d := listed[0];
      assert NamedManifest(kinds, d);
      if d.digest in sc.seen {
        AbsorbQueue(kinds, sc, listed[1..]);
      } else {
        var queue := if MediaTypeIndex(d.mediaType) then sc.queue + [d] else sc.queue;
        AbsorbQueue(kinds, Scan(queue, sc.seen + {d.digest}, sc.children + [d]), listed[1..]);
      }
    }
  }

  /** Under consistent kinds a reloaded index resolves exactly the digests reached from the saved entries, and
      it is valid if the saved entries are. */
  lemma ReloadExact(r: Repository, kinds: map<Digest, Kind>)
    requires ConsistentKinds(kinds, r.blobs, r.index.manifests)
    requires ManifestsValid(r.index.manifests)
    ensures Valid(Reload(r).index)
    ensures forall g :: Resolves(Reload(r).index, g) <==> ReachedFrom(r.blobs, kinds, r.index.manifests, g)
  {
    var ms := r.index.manifests;
    var base := set d | d in ms :: d.digest;
    var start := Scan(IndexEntries(ms), base, []);
    var end := ScanFrom(r.blobs, start);
    assert ConsistentKinds(kinds, r.blobs, []);
    forall g, y | g in base && KindIndex(kinds, g) && y in ListedIn(r.blobs, g)
      ensures exists x :: x in start.queue && x.digest == g
    {
      var d :| d in ms && d.digest == g;
      assert NamedManifest(kinds, d);
      assert d in start.queue;
    }
    ScanKeeps(r.blobs, kinds, base, start);
    assert Reload(r).index.children == end.children;
    forall g ensures Resolves(Reload(r).index, g) <==> g in end.seen {
    }
    forall g | g in end.seen ensures ReachedFrom(r.blobs, kinds, ms, g) {
      forall T: set<Digest> | Holds(T, ms) && ListedClosed(r.blobs, kinds, T) ensures g in T {
        ScanSound(r.blobs, kinds, start, T);
      }
    }
    assert Holds(end.seen, ms);
  }

  /** Some stored index lists exactly this descriptor. */
  ghost predicate ListedSomewhere(blobs: map<Digest, Blob>, c: Descriptor) {
    exists g :: g in blobs && blobs[g].asIndex.Some? && c in blobs[g].asIndex.value
  }

  lemma {:induction false} AbsorbBrings(sc: Scan, listed: seq<Descriptor>)
    ensures forall c | c in Absorb(sc, listed).children :: c in sc.children || c in listed
    decreases |listed|
  {
    if listed != [] {
      var d := listed[0];
      var queue := if MediaTypeIndex(d.mediaType) then sc.queue + [d] else sc.queue;
      var next := if d.digest in sc.seen then sc else Scan(queue, sc.seen + {d.digest}, sc.children + [d]);
      AbsorbBrings(next, listed[1..]);
    }
  }

  lemma {:induction false} ScanBrings(blobs: map<Digest, Blob>, sc: Scan)
    ensures forall c | c in ScanFrom(blobs, sc).children :: c in sc.children || ListedSomewhere(blobs, c)
    decreases Universe(blobs) - sc.seen, |sc.queue|
  {
    if sc.queue != [] {
      var popped := sc.(queue := sc.queue[1..]);
      var listed := ListedIn(blobs, sc.queue[0].digest);
      AbsorbBrings(popped, listed);
      assert forall c | c in listed :: ListedSomewhere(blobs, c);
      ScanBrings(blobs, Absorb(popped, listed));
    }
  }

  /** A reload keeps the entries and the history, and every child it builds is a descriptor as a stored index has it. */
  lemma ReloadBrings(r: Repository)
    ensures Reload(r).blobs == r.blobs
    ensures Reload(r).index.manifests == r.index.manifests && Reload(r).index.history == r.index.history
    ensures forall c | c in Reload(r).index.children :: ListedSomewhere(r.blobs, c)
  {
    ScanBrings(r.blobs, Scan(IndexEntries(r.index.manifests), set d | d in r.index.manifests :: d.digest, []));
  }

  /* ---------- Runs of pushes ---------- */

  /** `T` holds everything listed by the indexes among the entries. */
  ghost predicate HoldsListed(blobs: map<Digest, Blob>, kinds: map<Digest, Kind>, T: set<Digest>, ms: seq<Descriptor>) {
    forall d, y | d in ms && KindIndex(kinds, d.digest) && y in ListedIn(blobs, d.digest) :: y.digest in T
  }

  /** An index among the entries lists the digest, directly or nested; it need not be an entry itself. */
  ghost predicate ListedFrom(blobs: map<Digest, Blob>, kinds: map<Digest, Kind>, ms: seq<Descriptor>, g: Digest) {
    forall T: set<Digest> | HoldsListed(blobs, kinds, T, ms) && ListedClosed(blobs, kinds, T) :: g in T
  }

  /** Every child of the index is listed from its entries. */
  ghost predicate Covered(r: Repository, kinds: map<Digest, Kind>) {
    forall c | c in r.index.children :: ListedFrom(r.blobs, kinds, r.index.manifests, c.digest)
  }

  /** The digest is pushed under the media type of its kind. */
  predicate PushedAs(kinds: map<Digest, Kind>, req: PutRequest) {
    req.digest in kinds && kinds[req.digest] == ManifestKind(req.mediaType)
  }

  /** Bodies are addressed by content, and every digest is pushed under the media type of its kind. */
  ghost predicate RequestOk(
      conf: ApiConfig, codec: Codec, content: map<Digest, Blob>, kinds: map<Digest, Kind>, r: Repository, q: Request)
  {
    && BodiesMatch(conf, codec, content, r, q)
    && (q.PutManifest? ==> PushedAs(kinds, q.req))
    && (StoredList(conf, r, q).Some? ==>
          var g := codec.hash(StoredList(conf, r, q).value); g in kinds && kinds[g] == ManifestKind(OciIndex))
  }

  ghost predicate Sound(r: Repository, content: map<Digest, Blob>, kinds: map<Digest, Kind>) {
    && Valid(r.index)
    && BlobsMatch(content, r.blobs)
    && AllNamed(kinds, r.index.manifests)
    && Covered(r, kinds)
  }

  /* ---------- One add ---------- */

  lemma {:induction false} MoveChildrenEntries(idx: Index, listed: seq<Descriptor>)
    ensures var r := MoveChildren(idx, listed);
            && (forall x | x in r.manifests :: x in idx.manifests)
            && (forall x | x in idx.manifests :: x in r.manifests || Names(listed, x.digest))
            && (forall c | c in r.children :: c in idx.children || c in listed)
    decreases |listed|
  {
    if listed != [] {
      MoveChildrenEntries(MoveChild(idx, listed[0]), listed[1..]);
      assert listed[0] in listed && forall y | y in listed[1..] :: y in listed;
      assert forall g :: Names(listed[1..], g) ==> Names(listed, g);
      assert Names(listed, listed[0].digest);
    }
  }

  /** But for its tag, `x` is an entry of `ms`. */
  ghost predicate Kept(x: Descriptor, ms: seq<Descriptor>) {
    exists y :: y in ms && SameTarget(x, y)
  }

  /** Untagging and putting an entry keeps the digest and media type of every entry it keeps. */
  lemma PutEntryNames(ms: seq<Descriptor>, d: Descriptor)
    requires ManifestsValid(ms) && SingleRole(d) && d.subject.None?
    ensures var r := PutEntry(Untag(ms, d), d);
            && (forall g :: Names(r, g) <==> Names(ms, g) || g == d.digest)
            && (forall x | x in r :: x == d || Kept(x, ms))
  {
    var bare := Untag(ms, d);
    UntagKeeps(ms, d);
    PutEntryKeeps(bare, d);
    PutEntryMembers(bare, d);
  }

  /** An add keeps the digest of every entry unless it is listed, and brings no child that is not listed. */
  lemma AddEntryNames(idx: Index, desc: Descriptor, listed: seq<Descriptor>, now: int)
    requires Valid(idx) && SingleRole(desc) && desc.subject.None?
    ensures var r := AfterAdd(idx, desc, listed, now);
            && Names(r.manifests, desc.digest)
            && (forall x | x in idx.manifests :: Names(r.manifests, x.digest) || Names(listed, x.digest))
            && (forall c | c in r.children :: c in idx.children || c in listed)
            && (forall x | x in r.manifests :: x == Stamp(desc, now) || Kept(x, idx.manifests))
  {
    var d := Stamp(desc, now);
    var r := AfterAdd(idx, desc, listed, now);
    var moved := MoveChildren(idx, listed);
    MoveChildrenKeeps(idx, listed);
    MoveChildrenEntries(idx, listed);
    PutEntryNames(moved.manifests, d);
    forall x | x in idx.manifests && !Names(listed, x.digest) ensures Names(r.manifests, x.digest) {
      assert x in moved.manifests && Names(moved.manifests, x.digest);
    }
    forall x | x in r.manifests && x != d ensures Kept(x, idx.manifests) {
      assert Kept(x, moved.manifests);
    }
  }

  lemma PutEntryMembers(ms: seq<Descriptor>, d: Descriptor)
    ensures forall x | x in PutEntry(ms, d) :: x in ms || x == d
  {
  }

  /** What an add does to the entries does not matter for the children, if every entry that disappears is listed,
      or listed nothing but what is listed. */
  lemma StillCovered(
      blobs: map<Digest, Blob>, kinds: map<Digest, Kind>, idx: Index, r: Index, d: Descriptor, listed: seq<Descriptor>)
    requires Covered(Repository(blobs, idx), kinds)
    requires Names(r.manifests, d.digest)
    requires listed == [] || (KindIndex(kinds, d.digest) && ListedIn(blobs, d.digest) == listed)
    requires forall x | x in idx.manifests ::
               Names(r.manifests, x.digest) || Names(listed, x.digest) ||
               forall y | y in ListedIn(blobs, x.digest) :: Names(listed, y.digest)
    requires forall c | c in r.children :: c in idx.children || c in listed
    ensures Covered(Repository(blobs, r), kinds)
  {
    forall c | c in r.children ensures ListedFrom(blobs, kinds, r.manifests, c.digest) {
      forall T: set<Digest> | HoldsListed(blobs, kinds, T, r.manifests) && ListedClosed(blobs, kinds, T)
        ensures c.digest in T
      {
        assert Holds(T, listed);
        assert HoldsListed(blobs, kinds, T, idx.manifests);
        if c in idx.children {
          assert ListedFrom(blobs, kinds, idx.manifests, c.digest);
        }
      }
    }
  }

  lemma AddCovered(
      blobs: map<Digest, Blob>, idx: Index, desc: Descriptor, listed: seq<Descriptor>, now: int,
      kinds: map<Digest, Kind>)
    requires Valid(idx) && SingleRole(desc) && desc.subject.None?
    requires AllNamed(kinds, idx.manifests) && NamedManifest(kinds, desc)
    requires listed == [] || (KindIndex(kinds, desc.digest) && ListedIn(blobs, desc.digest) == listed)
    requires Covered(Repository(blobs, idx), kinds)
    ensures var r := AfterAdd(idx, desc, listed, now);
            && Valid(r)
            && Covered(Repository(blobs, r), kinds)
            && AllNamed(kinds, r.manifests)
  {
    AddRefines(idx, desc, listed, now);
    AddEntryNames(idx, desc, listed, now);
    StillCovered(blobs, kinds, idx, AfterAdd(idx, desc, listed, now), desc, listed);
  }

  lemma {:induction false} InsertCovered(
      blobs: map<Digest, Blob>, idx: Index, req: PutRequest, tags: seq<Tag>, now: int, kinds: map<Digest, Kind>)
    requires Valid(idx)
    requires AllNamed(kinds, idx.manifests) && PushedAs(kinds, req)
    requires ListedBy(req) == [] || (KindIndex(kinds, req.digest) && ListedIn(blobs, req.digest) == ListedBy(req))
    requires Covered(Repository(blobs, idx), kinds)
    ensures var r := InsertTags(idx, req, tags, now);
            && Valid(r)
            && Covered(Repository(blobs, r), kinds)
            && AllNamed(kinds, r.manifests)
  {
    if tags != [] {
      var init := tags[..|tags| - 1];
      InsertCovered(blobs, idx, req, init, now, kinds);
      var before := InsertTags(idx, req, init, now);
      AddCovered(blobs, before, PushedDesc(req, Some(tags[|tags| - 1])), ListedBy(req), now, kinds);
    }
  }

  lemma StoreKeeps(r: Repository, g: Digest, b: Blob, content: map<Digest, Blob>, kinds: map<Digest, Kind>)
    requires Sound(r, content, kinds) && HasBody(content, g, b)
    ensures Sound(r.(blobs := StoreBlob(r.blobs, g, b)), content, kinds)
  {
    var blobs := StoreBlob(r.blobs, g, b);
    forall T: set<Digest> | ListedClosed(blobs, kinds, T) ensures ListedClosed(r.blobs, kinds, T) {
      forall h, y | h in T && KindIndex(kinds, h) && y in ListedIn(r.blobs, h) ensures y.digest in T {
        assert y in ListedIn(blobs, h);
      }
    }
    forall T: set<Digest> | HoldsListed(blobs, kinds, T, r.index.manifests)
      ensures HoldsListed(r.blobs, kinds, T, r.index.manifests)
    {
      forall d, y | d in r.index.manifests && KindIndex(kinds, d.digest) && y in ListedIn(r.blobs, d.digest)
        ensures y.digest in T
      {
        assert y in ListedIn(blobs, d.digest);
      }
    }
  }

  lemma PushedSound(
      r: Repository, req: PutRequest, now: int, content: map<Digest, Blob>, kinds: map<Digest, Kind>)
    requires Sound(r, content, kinds) && HasBody(content, req.digest, req.body)
    requires PushedAs(kinds, req)
    ensures Sound(Pushed(r, req, now), content, kinds)
  {
    StoreKeeps(r, req.digest, req.body.(mod := now), content, kinds);
    var blobs := StoreBlob(r.blobs, req.digest, req.body.(mod := now));
    assert ListedBy(req) == [] || ListedIn(blobs, req.digest) == ListedBy(req);
    if req.tags == [] {
      AddCovered(blobs, r.index, PushedDesc(req, None), ListedBy(req), now, kinds);
    } else {
      InsertCovered(blobs, r.index, req, req.tags, now, kinds);
    }
  }

  /* ---------- Storing a response ---------- */

  lemma ResponseEntries(idx: Index, desc: Descriptor, listed: seq<Descriptor>, now: int)
    requires Valid(idx) && SingleRole(desc) && desc.subject.Some?
    ensures var r := AfterAdd(idx, desc, listed, now);
            && Valid(r)
            && Stamp(desc, now) in r.manifests
            && (forall x | x in idx.manifests ::
                  x in r.manifests || Names(listed, x.digest) || x.subject == desc.subject)
            && (forall x | x in r.manifests :: x in idx.manifests || x == Stamp(desc, now))
            && (forall c | c in r.children :: c in idx.children || c in listed)
  {
    AddResponseRefines(idx, desc, listed, now);
    MoveChildrenKeeps(idx, listed);
    MoveChildrenEntries(idx, listed);
    PutResponseKeeps(MoveChildren(idx, listed).manifests, Stamp(desc, now));
  }

  /** What the replaced response listed is listed by the new one. */
  lemma OldResponseListed(r: Repository, blobs: map<Digest, Blob>, x: Descriptor, subject: Digest)
    requires Valid(r.index) && x in r.index.manifests && x.subject == Some(subject)
    requires x.digest in r.blobs ==> x.digest in blobs && blobs[x.digest] == r.blobs[x.digest]
    ensures x.digest in r.blobs ==> ListedIn(blobs, x.digest) == ReferrersOf(r, subject)
  {
    var i :| 0 <= i < |r.index.manifests| && r.index.manifests[i] == x;
    SubjectAt(r.index.manifests, i);
  }

  /** A response that still names every digest of the one it replaces keeps every child covered. */
  lemma StoreResponseCovered(
      codec: Codec, r: Repository, subject: Digest, list: seq<Descriptor>, now: int, content: map<Digest, Blob>,
      kinds: map<Digest, Kind>)
    requires Sound(r, content, kinds) && ListEncoded(codec, content, list)
    requires codec.hash(list) in kinds && kinds[codec.hash(list)] == ManifestKind(OciIndex)
    requires forall x | x in ReferrersOf(r, subject) :: Names(list, x.digest)
    ensures Sound(StoreResponse(codec, r, subject, list, now), content, kinds)
  {
    var g := codec.hash(list);
    var b := codec.encode(list).(mod := now);
    var blobs := StoreBlob(r.blobs, g, b);
    var desc := ResponseDesc(codec, subject, list);
    StoreKeeps(r, g, b, content, kinds);
    StoreMatches(content, r.blobs, g, b);
    ResponseEntries(r.index, desc, list, now);
    var n := AfterAdd(r.index, desc, list, now);
    assert Names(n.manifests, g);
    forall x | x in r.index.manifests
      ensures Names(n.manifests, x.digest) || Names(list, x.digest) ||
              forall y | y in ListedIn(blobs, x.digest) :: Names(list, y.digest)
    {
      if x.subject == Some(subject) {
        OldResponseListed(r, blobs, x, subject);
      }
    }
    StillCovered(blobs, kinds, r.index, n, desc, list);
  }

  lemma WithReferrerNames(list: seq<Descriptor>, entry: Descriptor)
    ensures forall x | x in list :: Names(WithReferrer(list, entry), x.digest)
  {
    var mi := IndexFunc(list, HasDigest(entry.digest));
    var r := WithReferrer(list, entry);
    forall x | x in list ensures Names(r, x.digest) {
      var i :| 0 <= i < |list| && list[i] == x;
      if i == mi {
        assert r[i] == entry;
      } else {
        assert r[i] == x;
      }
    }
  }

  lemma StepSound(
      conf: ApiConfig, codec: Codec, r: Repository, q: Request, content: map<Digest, Blob>, kinds: map<Digest, Kind>)
    requires Sound(r, content, kinds) && RequestOk(conf, codec, content, kinds, r, q) && !q.DeleteManifest?
    ensures Sound(Serve(conf, codec, r, q), content, kinds)
  {
    match q
    case UploadBlob(g, b) => StoreKeeps(r, g, b, content, kinds);
    case PutManifest(req, now) =>
      if Accepted(conf, r.blobs, req) {
        PushedSound(r, req, now, content, kinds);
        if conf.referrers && req.body.referrer.Some? {
          var n := Pushed(r, req, now);
          var subject := req.body.referrer.value.subject;
          WithReferrerNames(ReferrersOf(n, subject), ReferrerEntry(req));
          StoreResponseCovered(codec, n, subject, WithReferrer(ReferrersOf(n, subject), ReferrerEntry(req)), now,
                               content, kinds);
        }
      }
    case DeleteManifest(_, _) =>
  }

  /** Every request of the run is a push or an upload, with bodies and media types as they should be. */
  ghost predicate PushRun(
      conf: ApiConfig, codec: Codec, content: map<Digest, Blob>, kinds: map<Digest, Kind>, qs: seq<Request>)
  {
    forall i | 0 <= i < |qs| ::
      !qs[i].DeleteManifest? && RequestOk(conf, codec, content, kinds, RunRequests(conf, codec, qs[..i]), qs[i])
  }

  lemma PushRunSplit(
      conf: ApiConfig, codec: Codec, content: map<Digest, Blob>, kinds: map<Digest, Kind>, qs: seq<Request>)
    requires qs != [] && PushRun(conf, codec, content, kinds, qs)
    ensures var init := qs[..|qs| - 1];
            var q := qs[|qs| - 1];
            && PushRun(conf, codec, content, kinds, init)
            && !q.DeleteManifest? && RequestOk(conf, codec, content, kinds, RunRequests(conf, codec, init), q)
  {
    var init := qs[..|qs| - 1];
    assert forall i | 0 <= i < |init| :: init[i] == qs[i] && init[..i] == qs[..i];
  }

  lemma {:induction false} RunSound(
      conf: ApiConfig, codec: Codec, content: map<Digest, Blob>, kinds: map<Digest, Kind>, qs: seq<Request>)
    requires PushRun(conf, codec, content, kinds, qs)
    ensures Sound(RunRequests(conf, codec, qs), content, kinds)
  {
    if qs != [] {
      var init := qs[..|qs| - 1];
      PushRunSplit(conf, codec, content, kinds, qs);
      RunSound(conf, codec, content, kinds, init);
      StepSound(conf, codec, RunRequests(conf, codec, init), qs[|qs| - 1], content, kinds);
    }
  }

  lemma ListedReached(r: Repository, kinds: map<Digest, Kind>, g: Digest)
    requires ListedFrom(r.blobs, kinds, r.index.manifests, g)
    ensures ReachedFrom(r.blobs, kinds, r.index.manifests, g)
  {
  }

  /** After any run of pushes, with or without subjects, any sparse settings and even cyclic content, a restart keeps
      every tag on its digest, every response and every digest resolvable, and the reloaded index is valid. */
  lemma RestartKeeps(
      conf: ApiConfig, codec: Codec, content: map<Digest, Blob>, kinds: map<Digest, Kind>, qs: seq<Request>)
    requires ConsistentKinds(kinds, content, [])
    requires PushRun(conf, codec, content, kinds, qs)
    ensures var r := RunRequests(conf, codec, qs);
            && Valid(Reload(r).index)
            && (forall t :: ResolveTag(Reload(r).index, t) == ResolveTag(r.index, t))
            && (forall s :: ResponseOf(Reload(r).index, s) == ResponseOf(r.index, s))
            && (forall g :: Resolves(r.index, g) ==> Resolves(Reload(r).index, g))
  {
    var r := RunRequests(conf, codec, qs);
    RunSound(conf, codec, content, kinds, qs);
    ReloadExact(r, kinds);
    forall g | Resolves(r.index, g) ensures ReachedFrom(r.blobs, kinds, r.index.manifests, g) {
      if c :| c in r.index.children && c.digest == g {
        ListedReached(r, kinds, g);
      }
    }
  }

  /** A manifest pushed untagged, its index pushed after it, and the index deleted. */
  function OrphanRun(child: PutRequest, parent: PutRequest, now: int): seq<Request> {
    [PutManifest(child, now), PutManifest(parent, now), DeleteManifest(DigestRef(parent.digest), now)]
  }

  lemma OrphanSteps(conf: ApiConfig, codec: Codec, child: PutRequest, parent: PutRequest, now: int)
    ensures var r1 := AfterPut(conf, codec, NEW_REPOSITORY, child, now);
            var r2 := AfterPut(conf, codec, r1, parent, now);
            RunRequests(conf, codec, OrphanRun(child, parent, now)) ==
            AfterDelete(conf, codec, r2, DigestRef(parent.digest), now)
  {
    RunThree(conf, codec, PutManifest(child, now), PutManifest(parent, now),
             DeleteManifest(DigestRef(parent.digest), now));
  }

  lemma OnePlain(child: PutRequest, now: int)
    requires child.tags == []
    ensures Inserted(EMPTY, child, now) == Index([Stamp(PushedDesc(child, None), now)], [], map[])
  {
    MoveNothing(EMPTY, ListedBy(child));
  }

  lemma {:induction false} MoveNothing(idx: Index, listed: seq<Descriptor>)
    requires idx.manifests == []
    ensures MoveChildren(idx, listed) == idx
    decreases |listed|
  {
    if listed != [] {
      MoveNothing(idx, listed[1..]);
    }
  }

  lemma PlainMoved(child: Descriptor, parent: Descriptor, c: Descriptor, now: int)
    requires AnnotationsEmpty(child) && c.digest == child.digest != parent.digest
    requires AnnotationsEmpty(parent)
    ensures AfterAdd(Index([child], [], map[]), parent, [c], now) == Index([Stamp(parent, now)], [c], map[])
  {
    var idx := Index([child], [], map[]);
    assert PlainEntry(c.digest)(idx.manifests[0]);
    assert MoveChild(idx, c) == Index([], [c], map[]);
    assert [c][1..] == [];
    assert MoveChildren(idx, [c]) == MoveChildren(MoveChild(idx, c), []);
    assert [c][..0] == [];
  }

  /** Deletes break the property: the child of an index that is deleted still resolves until the restart, and not
      after it. ReloadExact says in general which digests a restart keeps. */
  lemma OrphanLost(conf: ApiConfig, codec: Codec, child: PutRequest, parent: PutRequest, c: Descriptor, now: int)
    requires child.tags == [] && parent.tags == []
    requires child.body.referrer.None? && parent.body.referrer.None?
    requires Accepted(conf, map[], child)
    requires Accepted(conf, StoreBlob(map[], child.digest, child.body.(mod := now)), parent)
    requires ListedBy(parent) == [c] && c.digest == child.digest != parent.digest
    ensures var r := RunRequests(conf, codec, OrphanRun(child, parent, now));
            Resolves(r.index, child.digest) && !Resolves(Reload(r).index, child.digest)
  {
    OrphanSteps(conf, codec, child, parent, now);
    OnePlain(child, now);
    PlainMoved(Stamp(PushedDesc(child, None), now), PushedDesc(parent, None), c, now);
    var r1 := AfterPut(conf, codec, NEW_REPOSITORY, child, now);
    var r2 := AfterPut(conf, codec, r1, parent, now);
    var p := Stamp(PushedDesc(parent, None), now);
    assert r2.index == Index([p], [c], map[]);
    OrphanDeleted(conf, codec, r2, p, c, now);
  }

  lemma OrphanDeleted(conf: ApiConfig, codec: Codec, r: Repository, p: Descriptor, c: Descriptor, now: int)
    requires r.index == Index([p], [c], map[]) && p.digest != c.digest
    requires p.digest in r.blobs ==> r.blobs[p.digest].referrer.None?
    ensures var n := AfterDelete(conf, codec, r, DigestRef(p.digest), now);
            Resolves(n.index, c.digest) && !Resolves(Reload(n).index, c.digest)
  {
    var n := AfterDelete(conf, codec, r, DigestRef(p.digest), now);
    assert HasDigest(p.digest)(r.index.manifests[0]);
    assert n.index.manifests == [] && c in n.index.children;
    assert IndexEntries(n.index.manifests) == [];
    assert LoadedChildren(n.blobs, n.index.manifests) == [];
  }
}
