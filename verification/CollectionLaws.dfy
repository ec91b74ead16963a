/** What a collection keeps, stated from the settings, the clock and the stored content alone: which entries hold
    their blob, what a kept manifest keeps, and which blobs, entries and children are left. */
module CollectionLaws {
  import opened Types
  import opened Layout
  import opened LayoutLaws
  import opened Store
  import opened Gc
  import opened GcLaws

  /* ---------- The rules ---------- */

  /** The grace period is enabled and the blob was stored within it. */
  predicate Recent(policy: Policy, now: int, blobs: map<Digest, Blob>, g: Digest) {
    g in blobs && policy.gracePeriod >= 0 && blobs[g].mod > now - policy.gracePeriod
  }

  /** The policy keeps this entry's blob by itself. */
  predicate HeldByPolicy(policy: Policy, now: int, blobs: map<Digest, Blob>, d: Descriptor) {
    var recent := Recent(policy, now, blobs, d.digest);
    var wanted := !policy.untagged || d.tag.Some? || recent;
    if d.subject.None? then wanted
    else if d.subject.value in blobs then !policy.referrersWithSubj && (!policy.referrersDangling || recent)
    else !policy.referrersDangling || wanted
  }

  /** The entry is a response that lives and dies with its stored subject. */
  predicate FollowsSubject(policy: Policy, now: int, blobs: map<Digest, Blob>, d: Descriptor) {
    && d.subject.Some? && d.subject.value in blobs
    && (policy.referrersWithSubj || (policy.referrersDangling && !Recent(policy, now, blobs, d.digest)))
  }

  predicate Readable(blobs: map<Digest, Blob>, kinds: map<Digest, Kind>, g: Digest) {
    && g in blobs && g in kinds && kinds[g].ManifestKind?
    && (KindIndex(kinds, g) ==> blobs[g].asIndex.Some?)
    && (KindImage(kinds, g) ==> blobs[g].asImage.Some?)
  }

  /** Manifest `g` is an index that lists `h`. */
  predicate Lists(blobs: map<Digest, Blob>, kinds: map<Digest, Kind>, g: Digest, h: Digest) {
    && g in blobs && KindIndex(kinds, g) && blobs[g].asIndex.Some?
    && exists d :: d in blobs[g].asIndex.value && d.digest == h
  }

  /** Manifest `g` is an image with config or layer `h`, with or without an external source. */
  predicate Uses(blobs: map<Digest, Blob>, kinds: map<Digest, Kind>, g: Digest, h: Digest) {
    && g in blobs && KindImage(kinds, g) && blobs[g].asImage.Some?
    && (blobs[g].asImage.value.config.digest == h || exists d :: d in blobs[g].asImage.value.layers && d.digest == h)
  }

  predicate Contains(blobs: map<Digest, Blob>, kinds: map<Digest, Kind>, g: Digest, h: Digest) {
    Lists(blobs, kinds, g, h) || Uses(blobs, kinds, g, h)
  }

  /** `T` holds the stored blobs of the entries that are held, with each manifest the stored content it names and,
      if it is readable, the stored response that follows it. */
  ghost predicate Keeps(policy: Policy, now: int, r: Repository, kinds: map<Digest, Kind>, T: set<Digest>) {
    && (forall d | d in r.index.manifests && HeldByPolicy(policy, now, r.blobs, d) && d.digest in r.blobs ::
          d.digest in T)
    && (forall g, h | g in T && Contains(r.blobs, kinds, g, h) && h in r.blobs :: h in T)
    && (forall d | d in r.index.manifests && FollowsSubject(policy, now, r.blobs, d) && d.digest in r.blobs &&
                   d.subject.value in T && Readable(r.blobs, kinds, d.subject.value) :: d.digest in T)
  }

  ghost predicate LeastKept(policy: Policy, now: int, r: Repository, kinds: map<Digest, Kind>, T: set<Digest>) {
    && T <= r.blobs.Keys
    && Keeps(policy, now, r, kinds, T)
    && forall U: set<Digest> | Keeps(policy, now, r, kinds, U) :: T <= U
  }

  ghost predicate Sensible(r: Repository, kinds: map<Digest, Kind>) {
    Valid(r.index) && ConsistentKinds(kinds, r.blobs, r.index.manifests)
  }

  /** What a collection at time `now` may leave. */
  ghost predicate Collection(policy: Policy, now: int, pre: Repository, post: Repository) {
    Collected(policy, CutoffOf(policy, now), now, pre, post)
  }

  /* ---------- The rules are those of the program ---------- */

  function SnapshotAt(policy: Policy, now: int, r: Repository): Snapshot {
    SnapshotOf(r, policy, CutoffOf(policy, now))
  }

  lemma RoleMeaning(policy: Policy, now: int, r: Repository, d: Descriptor)
    ensures RoleOf(SnapshotAt(policy, now, r), d) == Root <==> HeldByPolicy(policy, now, r.blobs, d)
    ensures RoleOf(SnapshotAt(policy, now, r), d) == Response <==> FollowsSubject(policy, now, r.blobs, d)
    ensures IsNew(SnapshotAt(policy, now, r), d.digest) <==> Recent(policy, now, r.blobs, d.digest)
  {
  }

  lemma LeavesIff(policy: Policy, now: int, r: Repository, kinds: map<Digest, Kind>, g: Digest, h: Digest)
    requires g in r.blobs && g in kinds && kinds[g].ManifestKind?
    ensures h in Leaves(SnapshotAt(policy, now, r), g, kinds[g].mediaType) <==> Uses(r.blobs, kinds, g, h)
  {
  }

  lemma ListsIff(policy: Policy, now: int, r: Repository, kinds: map<Digest, Kind>, g: Digest, h: Digest)
    requires g in r.blobs && g in kinds && kinds[g].ManifestKind?
    ensures (exists y :: ListedAs(SnapshotAt(policy, now, r), g, kinds[g].mediaType, y) && y.digest == h) <==>
            Lists(r.blobs, kinds, g, h)
  {
  }

  /** The entry that follows a subject is the one the walk goes on to. */
  lemma ResponseChosen(policy: Policy, now: int, r: Repository, d: Descriptor)
    requires Valid(r.index) && d in r.index.manifests && FollowsSubject(policy, now, r.blobs, d)
    ensures var subjects := SubjectsOf(SnapshotAt(policy, now, r));
            d.subject.value in subjects && subjects[d.subject.value] == d
  {
    var ms := r.index.manifests;
    RoleMeaning(policy, now, r, d);
    var x := SubjectsOf(SnapshotAt(policy, now, r))[d.subject.value];
    var i :| 0 <= i < |ms| && ms[i] == d;
    var j :| 0 <= j < |ms| && ms[j] == x;
    assert i == j;
  }

  lemma ClosedKeeps(policy: Policy, now: int, r: Repository, kinds: map<Digest, Kind>, T: set<Digest>)
    requires Valid(r.index) && Closed(SnapshotAt(policy, now, r), kinds, T)
    ensures Keeps(policy, now, r, kinds, T)
  {
    var s := SnapshotAt(policy, now, r);
    forall d | d in r.index.manifests && HeldByPolicy(policy, now, r.blobs, d) && d.digest in r.blobs
      ensures d.digest in T
    {
      RoleMeaning(policy, now, r, d);
    }
    forall g, h | g in T && Contains(r.blobs, kinds, g, h) && h in r.blobs ensures h in T {
      LeavesIff(policy, now, r, kinds, g, h);
      if Lists(r.blobs, kinds, g, h) {
        var y :| y in r.blobs[g].asIndex.value && y.digest == h;
        EdgesIff(s, SubjectsOf(s), g, kinds[g].mediaType, y);
      }
    }
    forall d | d in r.index.manifests && FollowsSubject(policy, now, r.blobs, d) && d.digest in r.blobs &&
               d.subject.value in T && Readable(r.blobs, kinds, d.subject.value)
      ensures d.digest in T
    {
      ResponseChosen(policy, now, r, d);
      EdgesIff(s, SubjectsOf(s), d.subject.value, kinds[d.subject.value].mediaType, d);
    }
  }

  lemma KeepsClosed(policy: Policy, now: int, r: Repository, kinds: map<Digest, Kind>, T: set<Digest>)
    requires Keeps(policy, now, r, kinds, T)
    ensures Closed(SnapshotAt(policy, now, r), kinds, T)
  {
    var s := SnapshotAt(policy, now, r);
    forall d | d in s.manifests && RoleOf(s, d) == Root && d.digest in s.blobs ensures d.digest in T {
      RoleMeaning(policy, now, r, d);
    }
    forall g, y | g in T && IsManifest(s, kinds, g) && y in Edges(s, SubjectsOf(s), g, kinds[g].mediaType)
      ensures y.digest in s.blobs ==> y.digest in T
    {
      EdgesIff(s, SubjectsOf(s), g, kinds[g].mediaType, y);
      if ListedAs(s, g, kinds[g].mediaType, y) {
        assert Lists(r.blobs, kinds, g, y.digest);
      } else {
        RoleMeaning(policy, now, r, y);
        assert Readable(r.blobs, kinds, g);
      }
    }
    forall g, h | g in T && IsManifest(s, kinds, g) && h in Leaves(s, g, kinds[g].mediaType)
      ensures h in s.blobs ==> h in T
    {
      LeavesIff(policy, now, r, kinds, g, h);
    }
  }

  /** The least kept set exists, and it is what the collection marks. */
  lemma MarkedLeast(policy: Policy, now: int, r: Repository, kinds: map<Digest, Kind>)
    requires Sensible(r, kinds)
    ensures LeastKept(policy, now, r, kinds, Marked(SnapshotAt(policy, now, r)))
  {
    var s := SnapshotAt(policy, now, r);
    MarkExact(s, kinds);
    ClosedKeeps(policy, now, r, kinds, Marked(s));
    forall U: set<Digest> | Keeps(policy, now, r, kinds, U) ensures Marked(s) <= U {
      KeepsClosed(policy, now, r, kinds, U);
    }
  }

  lemma LeastIsMarked(policy: Policy, now: int, r: Repository, kinds: map<Digest, Kind>, T: set<Digest>)
    requires Sensible(r, kinds) && LeastKept(policy, now, r, kinds, T)
    ensures T == Marked(SnapshotAt(policy, now, r))
  {
    MarkedLeast(policy, now, r, kinds);
  }

  /** A digest is noted when an entry names it or a marked index lists it. */
  lemma NotedIff(policy: Policy, now: int, r: Repository, kinds: map<Digest, Kind>, h: Digest)
    requires Sensible(r, kinds)
    ensures var s := SnapshotAt(policy, now, r);
            h in Mark(s).inIndex <==>
            Names(r.index.manifests, h) || exists g :: g in Marked(s) && Lists(r.blobs, kinds, g, h)
  {
    var s := SnapshotAt(policy, now, r);
    MarkExact(s, kinds);
    if IsTarget(s, kinds, Marked(s), h) {
      var g, y :| g in Marked(s) && IsManifest(s, kinds, g) &&
                  y in Edges(s, SubjectsOf(s), g, kinds[g].mediaType) && y.digest == h;
      EdgesIff(s, SubjectsOf(s), g, kinds[g].mediaType, y);
      if ListedAs(s, g, kinds[g].mediaType, y) {
        assert Lists(r.blobs, kinds, g, h);
      }
    }
    forall g | g in Marked(s) && Lists(r.blobs, kinds, g, h) ensures IsTarget(s, kinds, Marked(s), h) {
      var y :| y in r.blobs[g].asIndex.value && y.digest == h;
      EdgesIff(s, SubjectsOf(s), g, kinds[g].mediaType, y);
    }
  }

  /* ---------- What is left ---------- */

  ghost predicate BlobsLeft(policy: Policy, now: int, pre: Repository, post: Repository, T: set<Digest>) {
    && (forall g :: g in post.blobs <==>
          g in pre.blobs && (g in T || (Recent(policy, now, pre.blobs, g) && !Names(pre.index.manifests, g))))
    && (forall g | g in post.blobs :: post.blobs[g] == pre.blobs[g])
  }

  lemma BlobsExact(
      policy: Policy, now: int, pre: Repository, post: Repository, kinds: map<Digest, Kind>, T: set<Digest>)
    requires Sensible(pre, kinds) && Collection(policy, now, pre, post) && LeastKept(policy, now, pre, kinds, T)
    ensures BlobsLeft(policy, now, pre, post, T)
  {
    var s := SnapshotAt(policy, now, pre);
    LeastIsMarked(policy, now, pre, kinds, T);
    forall g | g in pre.blobs && g !in T
      ensures g in post.blobs <==> Recent(policy, now, pre.blobs, g) && !Names(pre.index.manifests, g)
    {
      NotedIff(policy, now, pre, kinds, g);
      if h :| h in T && Lists(pre.blobs, kinds, h, g) {
        assert Contains(pre.blobs, kinds, h, g);
        assert false;
      }
    }
  }

  /** An entry or child of this digest is removed. */
  lemma UnindexedIff(
      policy: Policy, now: int, pre: Repository, post: Repository, kinds: map<Digest, Kind>, T: set<Digest>,
      x: Descriptor)
    requires Sensible(pre, kinds) && Collection(policy, now, pre, post) && LeastKept(policy, now, pre, kinds, T)
    requires x in pre.index.manifests || x in pre.index.children
    ensures var s := SnapshotAt(policy, now, pre);
            x.digest in Unindexed(s, pre.index, Mark(s)) <==>
            if x.digest in pre.blobs then x.digest !in post.blobs
            else Names(pre.index.manifests, x.digest) || exists g :: g in T && Lists(pre.blobs, kinds, g, x.digest)
  {
    LeastIsMarked(policy, now, pre, kinds, T);
    NotedIff(policy, now, pre, kinds, x.digest);
    FoundIff(pre.index, x.digest);
  }

  /** Exactly what a collection leaves, for every policy and clock: the blobs of the least kept set, and recent blobs
      that no entry names; the entries of kept blobs; and the children whose blob is left, or was never stored and
      is named by no entry and no kept index. */
  lemma CollectionExact(
      policy: Policy, now: int, pre: Repository, post: Repository, kinds: map<Digest, Kind>, T: set<Digest>)
    requires Sensible(pre, kinds) && Collection(policy, now, pre, post) && LeastKept(policy, now, pre, kinds, T)
    ensures BlobsLeft(policy, now, pre, post, T)
    ensures forall d :: d in post.index.manifests <==> d in pre.index.manifests && d.digest in T
    ensures forall c :: c in post.index.children <==>
              && c in pre.index.children
              && if c.digest in pre.blobs then c.digest in post.blobs
                 else !Names(pre.index.manifests, c.digest) &&
                      forall g :: g in T ==> !Lists(pre.blobs, kinds, g, c.digest)
  {
    BlobsExact(policy, now, pre, post, kinds, T);
    CollectedIndex(policy, CutoffOf(policy, now), now, pre, post);
    forall d | d in pre.index.manifests ensures d in post.index.manifests <==> d.digest in T {
      UnindexedIff(policy, now, pre, post, kinds, T, d);
      assert Names(pre.index.manifests, d.digest);
    }
    forall c | c in pre.index.children
      ensures c in post.index.children <==>
              if c.digest in pre.blobs then c.digest in post.blobs
              else !Names(pre.index.manifests, c.digest) &&
                   forall g :: g in T ==> !Lists(pre.blobs, kinds, g, c.digest)
    {
      UnindexedIff(policy, now, pre, post, kinds, T, c);
    }
  }

  /** A collection that reports no change leaves the index exactly as it was. */
  lemma NoChangeReported(policy: Policy, now: int, pre: Repository, post: Repository)
    requires Collection(policy, now, pre, post) && !Unindexes(policy, CutoffOf(policy, now), pre)
    ensures post.index == pre.index
  {
    var s := SnapshotAt(policy, now, pre);
    var order :| Enumerates(order, Unindexed(s, pre.index, Mark(s))) && post.index == RemoveAll(pre.index, order, now);
    RemoveAllNothing(pre.index, order, now);
  }

  /* ---------- Which blobs go ---------- */

  /** Some entry naming `g` is held, or follows a kept subject that is a readable manifest. */
  ghost predicate KeptByEntry(
      policy: Policy, now: int, r: Repository, kinds: map<Digest, Kind>, T: set<Digest>, g: Digest)
  {
    exists d :: d in r.index.manifests && d.digest == g &&
                (HeldByPolicy(policy, now, r.blobs, d) ||
                 (FollowsSubject(policy, now, r.blobs, d) && d.subject.value in T &&
                  Readable(r.blobs, kinds, d.subject.value)))
  }

  /** A kept manifest lists `g`, or has it as its config or a layer. */
  ghost predicate KeptByManifest(r: Repository, kinds: map<Digest, Kind>, T: set<Digest>, g: Digest) {
    exists h :: h in T && Contains(r.blobs, kinds, h, g)
  }

  /** A stored blob is kept for a reason. */
  lemma KeptIff(policy: Policy, now: int, r: Repository, kinds: map<Digest, Kind>, T: set<Digest>, g: Digest)
    requires LeastKept(policy, now, r, kinds, T) && g in r.blobs
    ensures g in T <==> KeptByEntry(policy, now, r, kinds, T, g) || KeptByManifest(r, kinds, T, g)
  {
    if g in T && !KeptByEntry(policy, now, r, kinds, T, g) && !KeptByManifest(r, kinds, T, g) {
      assert Keeps(policy, now, r, kinds, T - {g});
      assert false;
    }
  }

  /** Exactly which blobs a collection deletes, old and recent: those that no entry keeps and no kept manifest names,
      unless the blob is recent and no entry names it. */
  lemma BlobDeletedIff(
      policy: Policy, now: int, pre: Repository, post: Repository, kinds: map<Digest, Kind>, T: set<Digest>, g: Digest)
    requires Sensible(pre, kinds) && Collection(policy, now, pre, post) && LeastKept(policy, now, pre, kinds, T)
    requires g in pre.blobs
    ensures g !in post.blobs <==>
            && !KeptByEntry(policy, now, pre, kinds, T, g)
            && !KeptByManifest(pre, kinds, T, g)
            && !(Recent(policy, now, pre.blobs, g) && !Names(pre.index.manifests, g))
  {
    BlobsExact(policy, now, pre, post, kinds, T);
    KeptIff(policy, now, pre, kinds, T, g);
  }

  /** With the grace period enabled, a blob stored within it that no entry names is kept. A blob stored before it goes
      unless an entry or a kept manifest keeps it. A negative grace period protects nothing. */
  lemma GraceMeaning(policy: Policy, now: int, pre: Repository, post: Repository, kinds: map<Digest, Kind>, g: Digest)
    requires Sensible(pre, kinds) && Collection(policy, now, pre, post) && g in pre.blobs
    ensures policy.gracePeriod >= 0 && pre.blobs[g].mod > now - policy.gracePeriod && !Names(pre.index.manifests, g) ==>
              g in post.blobs && post.blobs[g] == pre.blobs[g]
    ensures forall T | LeastKept(policy, now, pre, kinds, T) ::
              policy.gracePeriod < 0 || pre.blobs[g].mod <= now - policy.gracePeriod ==>
                (g in post.blobs <==>
                 KeptByEntry(policy, now, pre, kinds, T, g) || KeptByManifest(pre, kinds, T, g))
  {
    MarkedLeast(policy, now, pre, kinds);
    BlobsExact(policy, now, pre, post, kinds, Marked(SnapshotAt(policy, now, pre)));
    forall T | LeastKept(policy, now, pre, kinds, T)
      ensures g !in post.blobs <==>
              && !KeptByEntry(policy, now, pre, kinds, T, g)
              && !KeptByManifest(pre, kinds, T, g)
              && !(Recent(policy, now, pre.blobs, g) && !Names(pre.index.manifests, g))
    {
      BlobDeletedIff(policy, now, pre, post, kinds, T, g);
    }
  }

  /** A recent blob is deleted only if it is indexed, and every entry naming it is the response of a stored subject
      that is not kept as a readable manifest, while responses live with their subject. */
  lemma NewBlobsProtected(
      policy: Policy, now: int, pre: Repository, post: Repository, kinds: map<Digest, Kind>, T: set<Digest>, g: Digest)
    requires Sensible(pre, kinds) && Collection(policy, now, pre, post) && LeastKept(policy, now, pre, kinds, T)
    requires g in pre.blobs && policy.gracePeriod >= 0 && pre.blobs[g].mod > now - policy.gracePeriod
    requires g !in post.blobs
    ensures Names(pre.index.manifests, g)
    ensures forall d | d in pre.index.manifests && d.digest == g ::
              && policy.referrersWithSubj
              && d.subject.Some? && d.subject.value in pre.blobs
              && !(d.subject.value in T && Readable(pre.blobs, kinds, d.subject.value))
  {
    BlobDeletedIff(policy, now, pre, post, kinds, T, g);
  }

  lemma NothingMarked(s: Snapshot, d: Descriptor)
    requires s.manifests == [d] && RoleOf(s, d) == Response
    ensures Mark(s) == Marks({}, {d.digest})
  {
    RootStep(s, [d], 0);
    assert [d][..0] == [] && [d][..1] == [d];
  }

  /** Such a blob exists: the response of a stored subject that nothing keeps goes, however recent it is. */
  lemma RecentResponseDeleted(policy: Policy, now: int, pre: Repository, post: Repository, d: Descriptor)
    requires pre.index == Index([d], [], map[]) && policy.referrersWithSubj
    requires d.subject.Some? && d.subject.value in pre.blobs
    requires d.digest in pre.blobs && policy.gracePeriod >= 0 && pre.blobs[d.digest].mod > now - policy.gracePeriod
    requires Collection(policy, now, pre, post)
    ensures d.digest !in post.blobs && d !in post.index.manifests
  {
    var s := SnapshotAt(policy, now, pre);
    NothingMarked(s, d);
    assert d.digest in Swept(s, Mark(s));
    EntriesStored(policy, CutoffOf(policy, now), now, pre, post);
  }
}
