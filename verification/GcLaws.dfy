/** What a collection guarantees: the mark is exactly the least closed set over the content graph, a second
    collection changes nothing, and tags survive with everything they reach. */
module GcLaws {
  import opened Types
  import opened Layout
  import opened LayoutLaws
  import opened Store
  import opened Gc

  ghost predicate Consistent(s: Snapshot, kinds: map<Digest, Kind>) {
    ConsistentKinds(kinds, s.blobs, s.manifests)
  }

  predicate IsManifest(s: Snapshot, kinds: map<Digest, Kind>, g: Digest) {
    g in s.blobs && g in kinds && kinds[g].ManifestKind?
  }

  function SubjectsOf(s: Snapshot): map<Digest, Descriptor> {
    Subjects(s, s.manifests)
  }

  /** `T` holds the stored targets of every manifest in it. */
  ghost predicate EdgeClosed(s: Snapshot, kinds: map<Digest, Kind>, T: set<Digest>) {
    && (forall g, y | g in T && IsManifest(s, kinds, g) && y in Edges(s, SubjectsOf(s), g, kinds[g].mediaType) ::
          y.digest in s.blobs ==> y.digest in T)
    && (forall g, h | g in T && IsManifest(s, kinds, g) && h in Leaves(s, g, kinds[g].mediaType) ::
          h in s.blobs ==> h in T)
  }

  ghost predicate HoldsRoots(s: Snapshot, T: set<Digest>) {
    forall d | d in s.manifests && RoleOf(s, d) == Root && d.digest in s.blobs :: d.digest in T
  }

  ghost predicate Closed(s: Snapshot, kinds: map<Digest, Kind>, T: set<Digest>) {
    HoldsRoots(s, T) && EdgeClosed(s, kinds, T)
  }

  /** The least set of stored digests that holds the stored roots and is closed. */
  ghost predicate IsReachable(s: Snapshot, kinds: map<Digest, Kind>, T: set<Digest>) {
    && T <= s.blobs.Keys
    && Closed(s, kinds, T)
    && forall U: set<Digest> | Closed(s, kinds, U) :: T <= U
  }

  function Marked(s: Snapshot): set<Digest> {
    Mark(s).seen * s.blobs.Keys
  }

  /* ---------- The mark loop ---------- */

  /** Every walked manifest has its targets marked, or still on the stack, and noted. */
  ghost predicate Processed(s: Snapshot, kinds: map<Digest, Kind>, stack: seq<Descriptor>, m: Marks) {
    && (forall g, y | g in m.seen && IsManifest(s, kinds, g) && y in Edges(s, SubjectsOf(s), g, kinds[g].mediaType) ::
          y in stack || (y.digest in m.inIndex && (y.digest in s.blobs ==> y.digest in m.seen)))
    && (forall g, h | g in m.seen && IsManifest(s, kinds, g) && h in Leaves(s, g, kinds[g].mediaType) :: h in m.seen)
  }

  lemma EdgesNamed(s: Snapshot, kinds: map<Digest, Kind>, g: Digest, mt: MediaType)
    requires Consistent(s, kinds) && g in s.blobs && g in kinds && kinds[g] == ManifestKind(mt)
    ensures AllNamed(kinds, Edges(s, SubjectsOf(s), g, mt))
    ensures forall h | h in Leaves(s, g, mt) :: h in kinds && kinds[h] == LeafKind
  {
    forall h | h in Leaves(s, g, mt) ensures h in kinds && kinds[h] == LeafKind {
      var image := s.blobs[g].asImage.value;
      if h != image.config.digest {
        var d :| d in image.layers && d.digest == h;
        assert NamedLeaf(kinds, d);
      } else {
        assert NamedLeaf(kinds, image.config);
      }
    }
  }

  lemma {:induction false} MarkFromComplete(s: Snapshot, kinds: map<Digest, Kind>, stack: seq<Descriptor>, m: Marks)
    requires Consistent(s, kinds) && AllNamed(kinds, stack) && Processed(s, kinds, stack, m)
    ensures var r := MarkFrom(s, SubjectsOf(s), stack, m);
            && Processed(s, kinds, [], r)
            && m.seen <= r.seen && m.inIndex <= r.inIndex
            && forall d | d in stack :: d.digest in r.inIndex && (d.digest in s.blobs ==> d.digest in r.seen)
    decreases s.blobs.Keys - m.seen, |stack|
  {
    if stack != [] {
      var d := stack[|stack| - 1];
      var rest := stack[..|stack| - 1];
      assert d in stack && NamedManifest(kinds, d);
      var noted := m.(inIndex := m.inIndex + {d.digest});
      assert forall x | x in stack :: x in rest || x == d;
      if d.digest in m.seen || d.digest !in s.blobs {
        MarkFromComplete(s, kinds, rest, noted);
      } else {
        var pushed := rest + Edges(s, SubjectsOf(s), d.digest, d.mediaType);
        var walked := noted.(seen := m.seen + {d.digest} + Leaves(s, d.digest, d.mediaType));
        EdgesNamed(s, kinds, d.digest, d.mediaType);
        MarkFromComplete(s, kinds, pushed, walked);
      }
    }
  }

  /** Only what every closed set `U` holds is marked, and only roots, entries and edge targets `V` are noted. */
  lemma {:induction false} MarkFromSound(
      s: Snapshot, kinds: map<Digest, Kind>, stack: seq<Descriptor>, m: Marks, U: set<Digest>, V: set<Digest>)
    requires Consistent(s, kinds) && AllNamed(kinds, stack)
    requires EdgeClosed(s, kinds, U) && m.seen * s.blobs.Keys <= U && m.inIndex <= V
    requires forall d | d in stack :: d.digest in V && (d.digest in s.blobs ==> d.digest in U)
    requires forall g, y | g in U && IsManifest(s, kinds, g) && y in Edges(s, SubjectsOf(s), g, kinds[g].mediaType) ::
               y.digest in V
    ensures var r := MarkFrom(s, SubjectsOf(s), stack, m);
            r.seen * s.blobs.Keys <= U && r.inIndex <= V
    decreases s.blobs.Keys - m.seen, |stack|
  {
    if stack != [] {
      var d := stack[|stack| - 1];
      var rest := stack[..|stack| - 1];
      assert d in stack && NamedManifest(kinds, d);
      var noted := m.(inIndex := m.inIndex + {d.digest});
      if d.digest in m.seen || d.digest !in s.blobs {
        MarkFromSound(s, kinds, rest, noted, U, V);
      } else {
        var walked := noted.(seen := m.seen + {d.digest} + Leaves(s, d.digest, d.mediaType));
        EdgesNamed(s, kinds, d.digest, d.mediaType);
        MarkFromSound(s, kinds, rest + Edges(s, SubjectsOf(s), d.digest, d.mediaType), walked, U, V);
      }
    }
  }

  ghost predicate IsTarget(s: Snapshot, kinds: map<Digest, Kind>, T: set<Digest>, h: Digest) {
    exists g, y ::
      g in T && IsManifest(s, kinds, g) && y in Edges(s, SubjectsOf(s), g, kinds[g].mediaType) && y.digest == h
  }

  function Targets(s: Snapshot, kinds: map<Digest, Kind>, T: set<Digest>): set<Digest> {
    set g, y | g in T && IsManifest(s, kinds, g) && y in Edges(s, SubjectsOf(s), g, kinds[g].mediaType) :: y.digest
  }

  /** Under consistent kinds the stored digests that are marked are exactly the reachable ones, and the noted
      digests are exactly those of the entries and of the targets of reachable manifests. */
  lemma MarkExact(s: Snapshot, kinds: map<Digest, Kind>)
    requires Consistent(s, kinds)
    ensures IsReachable(s, kinds, Marked(s))
    ensures forall h :: h in Mark(s).inIndex <==> h in Digests(s.manifests) || IsTarget(s, kinds, Marked(s), h)
  {
    var start := Marks({}, Digests(s.manifests));
    var stack := Roots(s, s.manifests);
    var r := Mark(s);
    MarkFromComplete(s, kinds, stack, start);
    forall U: set<Digest> | Closed(s, kinds, U) ensures Marked(s) <= U {
      var V := Digests(s.manifests) + Targets(s, kinds, U);
      MarkFromSound(s, kinds, stack, start, U, V);
    }
    var T := Marked(s);
    var V := Digests(s.manifests) + Targets(s, kinds, T);
    MarkFromSound(s, kinds, stack, start, T, V);
  }

  /* ---------- Removing index entries ---------- */

  function InSet(R: set<Digest>): Descriptor -> bool {
    (d: Descriptor) => d.digest in R
  }

  lemma {:induction false} DeleteFuncTwice(ms: seq<Descriptor>, R: set<Digest>, g: Digest)
    ensures DeleteFunc(DeleteFunc(ms, InSet(R)), HasDigest(g)) == DeleteFunc(ms, InSet(R + {g}))
  {
    if ms != [] {
      var init := ms[..|ms| - 1];
      var last := ms[|ms| - 1];
      DeleteFuncTwice(init, R, g);
      var kept := DeleteFunc(init, InSet(R));
      if !InSet(R)(last) {
        assert (kept + [last])[..|kept|] == kept;
      }
    }
  }

  lemma {:induction false} DeleteFuncNothing(ms: seq<Descriptor>, p: Descriptor -> bool)
    requires forall d | d in ms :: !p(d)
    ensures DeleteFunc(ms, p) == ms
    ensures forall history, now :: RecordDeleted(history, ms, p, now) == history
  {
    if ms != [] {
      var init := ms[..|ms| - 1];
      assert ms[|ms| - 1] in ms && forall d | d in init :: d in ms;
      DeleteFuncNothing(init, p);
      assert ms == init + [ms[|ms| - 1]];
    }
  }

  function Members(order: seq<Digest>): set<Digest> {
    set g | g in order
  }

  lemma MembersSnoc(order: seq<Digest>)
    requires order != []
    ensures Members(order) == Members(order[..|order| - 1]) + {order[|order| - 1]}
  {
    assert order == order[..|order| - 1] + [order[|order| - 1]];
  }

  lemma {:induction false} RemoveAllFilters(idx: Index, order: seq<Digest>, now: int, R: set<Digest>)
    requires R == Members(order)
    ensures RemoveAll(idx, order, now).manifests == DeleteFunc(idx.manifests, InSet(R))
    ensures RemoveAll(idx, order, now).children == DeleteFunc(idx.children, InSet(R))
  {
    if order == [] {
      DeleteFuncNothing(idx.manifests, InSet(R));
      DeleteFuncNothing(idx.children, InSet(R));
    } else {
      var init := order[..|order| - 1];
      var last := order[|order| - 1];
      var before := Members(init);
      MembersSnoc(order);
      RemoveAllFilters(idx, init, now, before);
      DeleteFuncTwice(idx.manifests, before, last);
      DeleteFuncTwice(idx.children, before, last);
    }
  }

  lemma {:induction false} RemoveAllNothing(idx: Index, order: seq<Digest>, now: int)
    requires forall g | g in order :: !Resolves(idx, g)
    ensures RemoveAll(idx, order, now) == idx
  {
    if order != [] {
      var init := order[..|order| - 1];
      var last := order[|order| - 1];
      assert last in order && forall g | g in init :: g in order;
      RemoveAllNothing(idx, init, now);
      DeleteFuncNothing(idx.manifests, HasDigest(last));
      DeleteFuncNothing(idx.children, HasDigest(last));
    }
  }

  /** The entries left by a collection are the old ones minus the unindexed digests. */
  lemma CollectedIndex(policy: Policy, cutoff: Option<int>, now: int, pre: Repository, post: Repository)
    requires Collected(policy, cutoff, now, pre, post)
    ensures var s := SnapshotOf(pre, policy, cutoff);
            var R := Unindexed(s, pre.index, Mark(s));
            && post.index.manifests == DeleteFunc(pre.index.manifests, InSet(R))
            && post.index.children == DeleteFunc(pre.index.children, InSet(R))
  {
    var s := SnapshotOf(pre, policy, cutoff);
    var R := Unindexed(s, pre.index, Mark(s));
    var order :| Enumerates(order, R) && post.index == RemoveAll(pre.index, order, now);
    RemoveAllFilters(pre.index, order, now, R);
  }

  lemma MarkNotesEntries(s: Snapshot)
    ensures Digests(s.manifests) <= Mark(s).inIndex
  {
    MarkGrows(s, Roots(s, s.manifests), Marks({}, Digests(s.manifests)));
  }

  lemma {:induction false} MarkGrows(s: Snapshot, stack: seq<Descriptor>, m: Marks)
    ensures var r := MarkFrom(s, SubjectsOf(s), stack, m);
            && m.seen <= r.seen && m.inIndex <= r.inIndex
            && forall d | d in stack :: d.digest in s.blobs ==> d.digest in r.seen
    decreases s.blobs.Keys - m.seen, |stack|
  {
    if stack != [] {
      var d := stack[|stack| - 1];
      var rest := stack[..|stack| - 1];
      var noted := m.(inIndex := m.inIndex + {d.digest});
      assert forall x | x in stack :: x in rest || x == d;
      if d.digest in m.seen || d.digest !in s.blobs {
        MarkGrows(s, rest, noted);
      } else {
        MarkGrows(s, rest + Edges(s, SubjectsOf(s), d.digest, d.mediaType),
                  noted.(seen := m.seen + {d.digest} + Leaves(s, d.digest, d.mediaType)));
      }
    }
  }

  /** Every index entry left by a collection names a stored blob, and one that was marked. */
  lemma EntriesStored(policy: Policy, cutoff: Option<int>, now: int, pre: Repository, post: Repository)
    requires Collected(policy, cutoff, now, pre, post)
    ensures var s := SnapshotOf(pre, policy, cutoff);
            && Marked(s) <= post.blobs.Keys
            && forall d | d in post.index.manifests :: d in pre.index.manifests && d.digest in Marked(s)
  {
    var s := SnapshotOf(pre, policy, cutoff);
    var m := Mark(s);
    CollectedIndex(policy, cutoff, now, pre, post);
    MarkNotesEntries(s);
    forall d | d in post.index.manifests
      ensures d.digest in Marked(s)
    {
      FoundIff(pre.index, d.digest);
      assert d in pre.index.manifests && d.digest in m.inIndex;
    }
  }

  /* ---------- A second collection changes nothing ---------- */

  /** `after` is what a collection left of `before`: same settings, fewer blobs, all entries stored. */
  ghost predicate Shrunk(before: Snapshot, after: Snapshot, R: set<Digest>) {
    && after.policy == before.policy
    && after.cutoff == before.cutoff
    && after.blobs.Keys <= before.blobs.Keys
    && (forall g | g in after.blobs :: after.blobs[g] == before.blobs[g])
    && after.manifests == DeleteFunc(before.manifests, InSet(R))
    && (forall d | d in after.manifests :: d.digest in after.blobs)
  }

  lemma RoleStable(before: Snapshot, after: Snapshot, R: set<Digest>, d: Descriptor)
    requires Shrunk(before, after, R) && d in after.manifests
    ensures RoleOf(before, d) == Root ==> RoleOf(after, d) == Root
    ensures d.subject.Some? && d.subject.value in after.blobs ==> RoleOf(after, d) == RoleOf(before, d)
  {
  }

  /** If the response walked after a surviving subject is itself still listed, it is walked again. */
  lemma {:induction false} SubjectStable(
      before: Snapshot, after: Snapshot, R: set<Digest>, ms: seq<Descriptor>, u: Digest)
    requires Shrunk(before, after, R)
    requires forall d | d in DeleteFunc(ms, InSet(R)) :: d in after.manifests
    requires u in after.blobs
    requires u in Subjects(before, ms) && Subjects(before, ms)[u].digest !in R
    ensures var left := Subjects(after, DeleteFunc(ms, InSet(R)));
            u in left && left[u] == Subjects(before, ms)[u]
  {
    var init := ms[..|ms| - 1];
    var last := ms[|ms| - 1];
    var kept := DeleteFunc(init, InSet(R));
    var all := DeleteFunc(ms, InSet(R));
    assert last.digest !in R ==> all == kept + [last] && last in all;
    if last.digest !in R {
      assert all[..|all| - 1] == kept;
      assert forall d | d in kept :: d in all;
      RoleStable(before, after, R, last);
    }
    if !(RoleOf(before, last) == Response && last.subject == Some(u)) {
      SubjectStable(before, after, R, init, u);
    }
  }

  /** `after` is what a collection of `before` left, and everything marked then is still there. */
  ghost predicate Survives(before: Snapshot, after: Snapshot, R: set<Digest>, kinds: map<Digest, Kind>) {
    && Consistent(before, kinds)
    && Shrunk(before, after, R)
    && Marked(before) <= after.blobs.Keys
    && Marked(before) !! R
    && forall d | d in after.manifests :: d.digest in Marked(before)
  }

  predicate Parses(b: Blob, mt: MediaType) {
    && (MediaTypeIndex(mt) ==> b.asIndex.Some?)
    && (!MediaTypeIndex(mt) && MediaTypeImage(mt) ==> b.asImage.Some?)
  }

  predicate ListedAs(s: Snapshot, g: Digest, mt: MediaType, y: Descriptor)
    requires g in s.blobs
  {
    MediaTypeIndex(mt) && s.blobs[g].asIndex.Some? && y in s.blobs[g].asIndex.value
  }

  /** The edges of a manifest lead to what it lists and, if it is readable, to its response. */
  lemma EdgesIff(s: Snapshot, subjects: map<Digest, Descriptor>, g: Digest, mt: MediaType, y: Descriptor)
    requires g in s.blobs
    ensures y in Edges(s, subjects, g, mt) <==>
            ListedAs(s, g, mt, y) || (Parses(s.blobs[g], mt) && g in subjects && y == subjects[g])
  {
  }

  /** An edge of the second graph is an edge of the first, or leads to an entry that is still listed. */
  lemma EdgeBefore(
      before: Snapshot, after: Snapshot, R: set<Digest>, kinds: map<Digest, Kind>, g: Digest, y: Descriptor)
    requires Survives(before, after, R, kinds)
    requires g in Marked(before) && IsManifest(after, kinds, g)
    requires y in Edges(after, SubjectsOf(after), g, kinds[g].mediaType)
    ensures y in Edges(before, SubjectsOf(before), g, kinds[g].mediaType) || y in after.manifests
  {
    EdgesIff(before, SubjectsOf(before), g, kinds[g].mediaType, y);
    EdgesIff(after, SubjectsOf(after), g, kinds[g].mediaType, y);
  }

  lemma EdgeAfter(before: Snapshot, after: Snapshot, R: set<Digest>, kinds: map<Digest, Kind>, g: Digest, y: Descriptor)
    requires Survives(before, after, R, kinds)
    requires g in Marked(before) && IsManifest(before, kinds, g) && y.digest in Marked(before)
    requires y in Edges(before, SubjectsOf(before), g, kinds[g].mediaType)
    ensures y in Edges(after, SubjectsOf(after), g, kinds[g].mediaType)
  {
    EdgesIff(before, SubjectsOf(before), g, kinds[g].mediaType, y);
    EdgesIff(after, SubjectsOf(after), g, kinds[g].mediaType, y);
    if !ListedAs(before, g, kinds[g].mediaType, y) {
      SubjectStable(before, after, R, before.manifests, g);
    }
  }

  lemma ClosedAfter(before: Snapshot, after: Snapshot, R: set<Digest>, kinds: map<Digest, Kind>)
    requires Survives(before, after, R, kinds)
    ensures Closed(after, kinds, Marked(before))
  {
    var T := Marked(before);
    MarkExact(before, kinds);
    forall g, y | g in T && IsManifest(after, kinds, g) && y in Edges(after, SubjectsOf(after), g, kinds[g].mediaType)
      ensures y.digest in after.blobs ==> y.digest in T
    {
      EdgeBefore(before, after, R, kinds, g, y);
    }
  }

  lemma ClosedBefore(before: Snapshot, after: Snapshot, R: set<Digest>, kinds: map<Digest, Kind>, T: set<Digest>)
    requires Survives(before, after, R, kinds)
    requires Closed(after, kinds, T) && T <= Marked(before)
    ensures Closed(before, kinds, T)
  {
    MarkExact(before, kinds);
    forall g, y | g in T && IsManifest(before, kinds, g) &&
      y in Edges(before, SubjectsOf(before), g, kinds[g].mediaType)
      ensures y.digest in before.blobs ==> y.digest in T
    {
      if y.digest in before.blobs {
        EdgeAfter(before, after, R, kinds, g, y);
      }
    }
    forall d | d in before.manifests && RoleOf(before, d) == Root && d.digest in before.blobs
      ensures d.digest in T
    {
      assert d.digest in Marked(before);
      RoleStable(before, after, R, d);
    }
  }

  lemma ConsistentAfter(before: Snapshot, after: Snapshot, R: set<Digest>, kinds: map<Digest, Kind>)
    requires Survives(before, after, R, kinds)
    ensures Consistent(after, kinds)
  {
  }

  lemma SameReach(before: Snapshot, after: Snapshot, R: set<Digest>, kinds: map<Digest, Kind>)
    requires Survives(before, after, R, kinds)
    ensures Marked(after) == Marked(before)
    ensures Mark(after).inIndex <= Mark(before).inIndex
  {
    ConsistentAfter(before, after, R, kinds);
    MarkExact(before, kinds);
    MarkExact(after, kinds);
    ClosedAfter(before, after, R, kinds);
    ClosedBefore(before, after, R, kinds, Marked(after));
    forall h | IsTarget(after, kinds, Marked(after), h) ensures h in Mark(before).inIndex {
      var g, y :| g in Marked(after) && IsManifest(after, kinds, g) &&
                  y in Edges(after, SubjectsOf(after), g, kinds[g].mediaType) && y.digest == h;
      EdgeBefore(before, after, R, kinds, g, y);
      if y in Edges(before, SubjectsOf(before), g, kinds[g].mediaType) {
        assert IsTarget(before, kinds, Marked(before), h);
      }
    }
  }

  lemma CollectSurvives(
      policy: Policy, cutoff: Option<int>, now: int, pre: Repository, mid: Repository, kinds: map<Digest, Kind>)
    requires Consistent(SnapshotOf(pre, policy, cutoff), kinds)
    requires Collected(policy, cutoff, now, pre, mid)
    ensures var before := SnapshotOf(pre, policy, cutoff);
            Survives(before, SnapshotOf(mid, policy, cutoff), Unindexed(before, pre.index, Mark(before)), kinds)
  {
    CollectedIndex(policy, cutoff, now, pre, mid);
    EntriesStored(policy, cutoff, now, pre, mid);
  }

  /** A collection right after another, with the same settings and cutoff, deletes no blob and leaves the
      entries, the children and the history of the index as they are. */
  lemma CollectTwice(
      policy: Policy, cutoff: Option<int>, pre: Repository, mid: Repository, post: Repository, now1: int, now2: int,
      kinds: map<Digest, Kind>)
    requires Consistent(SnapshotOf(pre, policy, cutoff), kinds)
    requires Collected(policy, cutoff, now1, pre, mid)
    requires Collected(policy, cutoff, now2, mid, post)
    ensures post == mid
  {
    var s2 := SnapshotOf(mid, policy, cutoff);
    SecondSweepEmpty(policy, cutoff, pre, mid, now1, kinds);
    var order :| Enumerates(order, Unindexed(s2, mid.index, Mark(s2))) &&
      post.index == RemoveAll(mid.index, order, now2);
    RemoveAllNothing(mid.index, order, now2);
  }

  lemma SecondSweepEmpty(
      policy: Policy, cutoff: Option<int>, pre: Repository, mid: Repository, now: int, kinds: map<Digest, Kind>)
    requires Consistent(SnapshotOf(pre, policy, cutoff), kinds)
    requires Collected(policy, cutoff, now, pre, mid)
    ensures var s2 := SnapshotOf(mid, policy, cutoff);
            && Swept(s2, Mark(s2)) == {}
            && forall g | g in Unindexed(s2, mid.index, Mark(s2)) :: !Resolves(mid.index, g)
  {
    var s1 := SnapshotOf(pre, policy, cutoff);
    var s2 := SnapshotOf(mid, policy, cutoff);
    var R := Unindexed(s1, pre.index, Mark(s1));
    CollectedIndex(policy, cutoff, now, pre, mid);
    CollectSurvives(policy, cutoff, now, pre, mid, kinds);
    SameReach(s1, s2, R, kinds);
    forall g | g in mid.blobs ensures g !in Swept(s2, Mark(s2)) {
      if g in Mark(s1).seen {
        assert g in Marked(s1);
      }
    }
    forall g | g in Unindexed(s2, mid.index, Mark(s2)) ensures !Resolves(mid.index, g) {
      NotNamedAfter(pre.index, mid.index, R, g);
      FoundIff(pre.index, g);
    }
  }

  lemma NotNamedAfter(pre: Index, mid: Index, R: set<Digest>, g: Digest)
    requires mid.manifests == DeleteFunc(pre.manifests, InSet(R))
    requires mid.children == DeleteFunc(pre.children, InSet(R))
    ensures Resolves(mid, g) <==> Resolves(pre, g) && g !in R
  {
  }

  /* ---------- Tags ---------- */

  /** `h` is stored and lies in every closed set that holds `g`. */
  ghost predicate Reaches(s: Snapshot, kinds: map<Digest, Kind>, g: Digest, h: Digest) {
    h in s.blobs && forall T: set<Digest> | g in T && EdgeClosed(s, kinds, T) :: h in T
  }

  function Without(g: Option<Digest>, R: set<Digest>): Option<Digest> {
    if g.Some? && g.value in R then None else g
  }

  lemma {:induction false} RemoveAllView(idx: Index, order: seq<Digest>, now: int)
    requires Valid(idx)
    ensures Valid(RemoveAll(idx, order, now))
    ensures forall t :: ResolveTag(RemoveAll(idx, order, now), t) == Without(ResolveTag(idx, t), Members(order))
  {
    if order != [] {
      var init := order[..|order| - 1];
      RemoveAllView(idx, init, now);
      MembersSnoc(order);
      RmDigestRefines(RemoveAll(idx, init, now), Naming(order[|order| - 1]), now);
    }
  }

  lemma {:induction false} RemoveAllFaithful(idx: Index, order: seq<Digest>, now: int)
    requires Valid(idx) && Faithful(idx)
    ensures Faithful(RemoveAll(idx, order, now))
  {
    if order != [] {
      var init := order[..|order| - 1];
      RemoveAllView(idx, init, now);
      RemoveAllFaithful(idx, init, now);
      RmFaithful(RemoveAll(idx, init, now), Naming(order[|order| - 1]), now);
    }
  }

  /** The digest of a tag is marked when it is stored, and unindexed when it is not. */
  lemma TaggedFate(s: Snapshot, idx: Index, t: Tag)
    requires Valid(idx) && s.manifests == idx.manifests
    ensures var g := ResolveTag(idx, t);
            g.Some? ==>
              if g.value in s.blobs then g.value in Marked(s) && g.value !in Unindexed(s, idx, Mark(s))
              else g.value in Unindexed(s, idx, Mark(s))
  {
    var mi := IndexFunc(idx.manifests, HasTag(t));
    if mi >= 0 {
      var d := idx.manifests[mi];
      assert d in s.manifests && RoleOf(s, d) == Root && d.digest in Digests(s.manifests);
      MarkNotesEntries(s);
      MarkGrows(s, Roots(s, s.manifests), Marks({}, Digests(s.manifests)));
    }
  }

  /** A collection keeps the index valid and its history faithful. It keeps every tag whose manifest is stored,
      on the same digest, and drops every other tag. */
  lemma TagsSurvive(policy: Policy, cutoff: Option<int>, now: int, pre: Repository, post: Repository)
    requires Valid(pre.index)
    requires Collected(policy, cutoff, now, pre, post)
    ensures Valid(post.index) && (Faithful(pre.index) ==> Faithful(post.index))
    ensures forall t ::
              var g := ResolveTag(pre.index, t);
              ResolveTag(post.index, t) == if g.Some? && g.value in pre.blobs then g else None
  {
    var s := SnapshotOf(pre, policy, cutoff);
    var R := Unindexed(s, pre.index, Mark(s));
    var order :| Enumerates(order, R) && post.index == RemoveAll(pre.index, order, now);
    RemoveAllView(pre.index, order, now);
    if Faithful(pre.index) {
      RemoveAllFaithful(pre.index, order, now);
    }
    assert Members(order) == R;
    forall t
      ensures var g := ResolveTag(pre.index, t);
              ResolveTag(post.index, t) == if g.Some? && g.value in pre.blobs then g else None
    {
      TaggedFate(s, pre.index, t);
    }
  }

  /** The manifest of tag `t` is stored and reaches `h`. */
  ghost predicate TagReaches(s: Snapshot, kinds: map<Digest, Kind>, idx: Index, t: Tag, h: Digest) {
    var g := ResolveTag(idx, t);
    g.Some? && g.value in s.blobs && Reaches(s, kinds, g.value, h)
  }

  /** Under consistent kinds everything a stored tagged manifest reaches is still stored. */
  lemma TaggedContentSurvives(
      policy: Policy, cutoff: Option<int>, now: int, pre: Repository, post: Repository, kinds: map<Digest, Kind>)
    requires Valid(pre.index)
    requires Consistent(SnapshotOf(pre, policy, cutoff), kinds)
    requires Collected(policy, cutoff, now, pre, post)
    ensures forall t, h | TagReaches(SnapshotOf(pre, policy, cutoff), kinds, pre.index, t, h) ::
              h in post.blobs && post.blobs[h] == pre.blobs[h]
  {
    var s := SnapshotOf(pre, policy, cutoff);
    MarkExact(s, kinds);
    forall t, h | TagReaches(s, kinds, pre.index, t, h) ensures h in post.blobs && post.blobs[h] == pre.blobs[h] {
      TaggedFate(s, pre.index, t);
      assert h in Marked(s);
    }
  }

  /* ---------- Why consistent kinds matter ---------- */

  /** An old repository with two tagged images, where `b` is also a layer of `a`: since `a` is walked first, `b`
      is only noted as a layer, so its config `c` is deleted although `b` stays, tagged and complete before. */
  lemma MixedKindsLoseConfig(s: Snapshot, a: Descriptor, b: Descriptor, c: Digest)
    requires s.manifests == [b, a] && s.cutoff.Some?
    requires a.tag.Some? && b.tag.Some? && a.subject.None? && b.subject.None?
    requires MediaTypeImage(a.mediaType) && MediaTypeImage(b.mediaType)
    requires a.digest in s.blobs && b.digest in s.blobs && c in s.blobs
    requires s.blobs[a.digest].asImage.Some? && s.blobs[b.digest].asImage.Some?
    requires b.digest in Leaves(s, a.digest, a.mediaType)
    requires s.blobs[b.digest].asImage.value.config.digest == c
    requires c !in Leaves(s, a.digest, a.mediaType) && c != a.digest && c != b.digest
    requires s.blobs[c].mod <= s.cutoff.value
    ensures c in Swept(s, Mark(s)) && b.digest !in Swept(s, Mark(s))
  {
    var m0 := Marks({}, Digests(s.manifests));
    var m1 := Marks({a.digest} + Leaves(s, a.digest, a.mediaType), m0.inIndex + {a.digest});
    RootsOfTwo(s, a, b);
    assert [b, a][..1] == [b] && [b] + Edges(s, map[], a.digest, a.mediaType) == [b];
    assert m0.seen + {a.digest} + Leaves(s, a.digest, a.mediaType) == m1.seen;
    assert MarkFrom(s, map[], [b, a], m0) == MarkFrom(s, map[], [b], m1);
    assert MarkFrom(s, map[], [b], m1) == m1.(inIndex := m1.inIndex + {b.digest});
  }

  lemma RootsSnoc(s: Snapshot, ms: seq<Descriptor>, d: Descriptor)
    requires RoleOf(s, d) == Root
    ensures Roots(s, ms + [d]) == Roots(s, ms) + [d] && Subjects(s, ms + [d]) == Subjects(s, ms)
  {
    assert (ms + [d])[..|ms|] == ms;
  }

  lemma RootsOfTwo(s: Snapshot, a: Descriptor, b: Descriptor)
    requires RoleOf(s, a) == Root && RoleOf(s, b) == Root
    ensures Roots(s, [b, a]) == [b, a] && Subjects(s, [b, a]) == map[]
  {
    RootsSnoc(s, [], b);
    RootsSnoc(s, [b], a);
    assert [] + [b] == [b] && [b] + [a] == [b, a];
  }
}
