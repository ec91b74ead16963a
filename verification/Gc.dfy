/** Garbage collection of one repository (internal/store/store.go): choose the roots, mark what the manifests
    reach, sweep the blobs that were not marked and the index entries that lost their blob. */
module Gc {
  import opened Types
  import opened Layout
  import opened Store

  /** The collection settings. A negative grace period disables the protection of new blobs. */
  datatype Policy = Policy(untagged: bool, referrersDangling: bool, referrersWithSubj: bool, gracePeriod: int)

  /** What one collection reads: the settings, the cutoff, the stored blobs and the index entries. */
  datatype Snapshot = Snapshot(
    policy: Policy,
    cutoff: Option<int>,
    blobs: map<Digest, Blob>,
    manifests: seq<Descriptor>)

  function CutoffOf(policy: Policy, now: int): Option<int> {
    if policy.gracePeriod >= 0 then Some(now - policy.gracePeriod) else None
  }

  predicate IsNew(s: Snapshot, g: Digest) {
    g in s.blobs && s.cutoff.Some? && s.blobs[g].mod > s.cutoff.value
  }

  /* ---------- Roots ---------- */

  /** An entry is walked from, is walked only after its subject, or is not walked from at all. */
  datatype Role = Root | Response | Unwalked

  function RoleOf(s: Snapshot, d: Descriptor): Role {
    var base := if !s.policy.untagged || d.tag.Some? || IsNew(s, d.digest) then Root else Unwalked;
    if d.subject.None? then base
    else if s.policy.referrersWithSubj && d.subject.value in s.blobs then Response
    else if !s.policy.referrersDangling then Root
    else if d.subject.value in s.blobs then (if IsNew(s, d.digest) then Root else Response)
    else base
  }

  function Roots(s: Snapshot, ms: seq<Descriptor>): (r: seq<Descriptor>)
    ensures forall d :: d in r <==> d in ms && RoleOf(s, d) == Root
  {
    if ms == [] then []
    else
      var r := Roots(s, ms[..|ms| - 1]);
      var last := ms[|ms| - 1];
      if RoleOf(s, last) == Root then r + [last] else r
  }

  /** The response walked after each subject; a later entry for the same subject replaces an earlier one. */
  function Subjects(s: Snapshot, ms: seq<Descriptor>): (r: map<Digest, Descriptor>)
    ensures forall u :: u in r ==> r[u] in ms && r[u].subject == Some(u) && RoleOf(s, r[u]) == Response
    ensures forall d :: d in ms && RoleOf(s, d) == Response ==> d.subject.Some? && d.subject.value in r
  {
    if ms == [] then map[]
    else
      var r := Subjects(s, ms[..|ms| - 1]);
      var last := ms[|ms| - 1];
      if RoleOf(s, last) == Response then r[last.subject.value := last] else r
  }

  function Digests(ms: seq<Descriptor>): set<Digest> {
    set d | d in ms :: d.digest
  }

  /* ---------- Mark ---------- */

  /** The manifests pushed on the stack after walking blob `g` as a manifest of type `mt`. */
  function Edges(s: Snapshot, subjects: map<Digest, Descriptor>, g: Digest, mt: MediaType): seq<Descriptor>
    requires g in s.blobs
  {
    var response := if g in subjects then [subjects[g]] else [];
    if MediaTypeIndex(mt) then
      (if s.blobs[g].asIndex.None? then [] else s.blobs[g].asIndex.value + response)
    else if MediaTypeImage(mt) then
      (if s.blobs[g].asImage.None? then [] else response)
    else response
  }

  /** The configs and layers noted when walking blob `g` as a manifest of type `mt`. */
  function Leaves(s: Snapshot, g: Digest, mt: MediaType): set<Digest>
    requires g in s.blobs
  {
    if !MediaTypeIndex(mt) && MediaTypeImage(mt) && s.blobs[g].asImage.Some?
    then {s.blobs[g].asImage.value.config.digest} + Digests(s.blobs[g].asImage.value.layers)
    else {}
  }

  datatype Marks = Marks(seen: set<Digest>, inIndex: set<Digest>)

  function MarkFrom(s: Snapshot, subjects: map<Digest, Descriptor>, stack: seq<Descriptor>, m: Marks): Marks
    decreases s.blobs.Keys - m.seen, |stack|
  {
    if stack == [] then m
    else
      var d := stack[|stack| - 1];
      var rest := stack[..|stack| - 1];
      var noted := m.(inIndex := m.inIndex + {d.digest});
      if d.digest in m.seen || d.digest !in s.blobs then
        MarkFrom(s, subjects, rest, noted)
      else
        MarkFrom(s, subjects, rest + Edges(s, subjects, d.digest, d.mediaType),
                 noted.(seen := m.seen + {d.digest} + Leaves(s, d.digest, d.mediaType)))
  }

  function Mark(s: Snapshot): Marks {
    MarkFrom(s, Subjects(s, s.manifests), Roots(s, s.manifests), Marks({}, Digests(s.manifests)))
  }

  /* ---------- Sweep ---------- */

  predicate Condemned(s: Snapshot, m: Marks, g: Digest) {
    g !in m.seen && !(IsNew(s, g) && g !in m.inIndex)
  }

  function Swept(s: Snapshot, m: Marks): set<Digest> {
    set g | g in s.blobs && Condemned(s, m, g)
  }

  /** The digests whose index entries are removed: swept ones that resolve, and noted ones without a blob. */
  function Unindexed(s: Snapshot, idx: Index, m: Marks): set<Digest> {
    (set g | g in Swept(s, m) && Find(idx, DigestRef(g)).Found?) + (set g | g in m.inIndex && g !in s.blobs)
  }

  function Naming(g: Digest): Descriptor {
    Descriptor(OtherType(""), g, 0, "", [], None, None, None, map[])
  }

  function RemoveAll(idx: Index, order: seq<Digest>, now: int): Index {
    if order == [] then idx
    else AfterRemove(RemoveAll(idx, order[..|order| - 1], now), Naming(order[|order| - 1]), now)
  }

  function SnapshotOf(r: Repository, policy: Policy, cutoff: Option<int>): Snapshot {
    Snapshot(policy, cutoff, r.blobs, r.index.manifests)
  }

  /** One collection: what may be left of the repository `pre`. The order in which index entries are removed
      is that of a map iteration, so it is any order. */
  ghost predicate Collected(policy: Policy, cutoff: Option<int>, now: int, pre: Repository, post: Repository) {
    var s := SnapshotOf(pre, policy, cutoff);
    var m := Mark(s);
    && post.blobs == pre.blobs - Swept(s, m)
    && exists order :: Enumerates(order, Unindexed(s, pre.index, m)) && post.index == RemoveAll(pre.index, order, now)
  }

  predicate Unindexes(policy: Policy, cutoff: Option<int>, pre: Repository) {
    var s := SnapshotOf(pre, policy, cutoff);
    Unindexed(s, pre.index, Mark(s)) != {}
  }

  /* ---------- The collection as it runs ---------- */

  lemma RootStep(s: Snapshot, ms: seq<Descriptor>, i: nat)
    requires i < |ms|
    ensures Roots(s, ms[..i + 1]) == Roots(s, ms[..i]) + (if RoleOf(s, ms[i]) == Root then [ms[i]] else [])
    ensures Subjects(s, ms[..i + 1]) ==
            if RoleOf(s, ms[i]) == Response then Subjects(s, ms[..i])[ms[i].subject.value := ms[i]]
            else Subjects(s, ms[..i])
    ensures Digests(ms[..i + 1]) == Digests(ms[..i]) + {ms[i].digest}
  {
    var prefix := ms[..i + 1];
    assert prefix[..i] == ms[..i] && prefix == ms[..i] + [ms[i]];
  }

  /** Chooses the manifests to walk, the responses to walk after their subject, and notes every entry. */
  method ListRoots(store: BlobStore, policy: Policy, cutoff: Option<int>, entries: seq<Descriptor>)
    returns (manifests: seq<Descriptor>, subjects: map<Digest, Descriptor>, inIndex: set<Digest>)
    ensures var s := Snapshot(policy, cutoff, store.blobs, entries);
            manifests == Roots(s, entries) && subjects == Subjects(s, entries) && inIndex == Digests(entries)
  {
    ghost var s := Snapshot(policy, cutoff, store.blobs, entries);
    manifests, subjects, inIndex := [], map[], {};
    for i := 0 to |entries|
      invariant manifests == Roots(s, entries[..i])
      invariant subjects == Subjects(s, entries[..i])
      invariant inIndex == Digests(entries[..i])
    {
      var d := entries[i];
      RootStep(s, entries, i);
      inIndex := inIndex + {d.digest};
      var isNew := d.digest in store.blobs && cutoff.Some? && store.blobs[d.digest].mod > cutoff.value;
      // keep tagged entries, or every entry if untagged entries are not collected
      var keep := !policy.untagged || d.tag.Some?;
      if !keep && isNew {
        keep := true;
      }
      if d.subject.Some? {
        var u := d.subject.value;
        if policy.referrersWithSubj && u in store.blobs {
          subjects := subjects[u := d];
          keep := false;
        } else if !policy.referrersDangling {
          keep := true;
        } else if u in store.blobs {
          if isNew {
            keep := true;
          } else {
            subjects := subjects[u := d];
            keep := false;
          }
        }
      }
      if keep {
        manifests := manifests + [d];
      }
    }
    assert entries[..|entries|] == entries;
  }

  /** Walks the manifests from the tail of the list, noting every digest they name. */
  method MarkManifests(
      store: BlobStore, ghost s: Snapshot, subjects: map<Digest, Descriptor>, roots: seq<Descriptor>,
      entries: set<Digest>)
    returns (seen: set<Digest>, inIndex: set<Digest>)
    requires s.blobs == store.blobs
    ensures Marks(seen, inIndex) == MarkFrom(s, subjects, roots, Marks({}, entries))
  {
    var manifests := roots;
    seen, inIndex := {}, entries;
    while |manifests| > 0
      invariant MarkFrom(s, subjects, manifests, Marks(seen, inIndex)) ==
                MarkFrom(s, subjects, roots, Marks({}, entries))
      decreases store.blobs.Keys - seen, |manifests|
    {
      var d := manifests[|manifests| - 1];
      manifests := manifests[..|manifests| - 1];
      inIndex := inIndex + {d.digest};
      if d.digest in seen || d.digest !in store.blobs {
        continue;
      }
      ghost var before, rest := seen, manifests;
      var blob := store.blobs[d.digest];
      seen := seen + {d.digest};
      if MediaTypeIndex(d.mediaType) {
        if blob.asIndex.None? {
          assert rest + Edges(s, subjects, d.digest, d.mediaType) == manifests;
          assert before + {d.digest} + Leaves(s, d.digest, d.mediaType) == seen;
          continue;
        }
        manifests := manifests + blob.asIndex.value;
      } else if MediaTypeImage(d.mediaType) {
        if blob.asImage.None? {
          assert rest + Edges(s, subjects, d.digest, d.mediaType) == manifests;
          assert before + {d.digest} + Leaves(s, d.digest, d.mediaType) == seen;
          continue;
        }
        seen := seen + {blob.asImage.value.config.digest} + Digests(blob.asImage.value.layers);
      }
      if d.digest in subjects {
        manifests := manifests + [subjects[d.digest]];
      }
      assert rest + Edges(s, subjects, d.digest, d.mediaType) == manifests;
      assert before + {d.digest} + Leaves(s, d.digest, d.mediaType) == seen;
    }
  }

  lemma FoundIff(idx: Index, g: Digest)
    ensures Find(idx, DigestRef(g)).Found? <==> exists x :: (x in idx.manifests || x in idx.children) && x.digest == g
  {
    forall x | (x in idx.manifests || x in idx.children) && x.digest == g
      ensures Find(idx, DigestRef(g)).Found?
    {
      if x in idx.manifests {
        var i :| 0 <= i < |idx.manifests| && idx.manifests[i] == x;
        assert HasDigest(g)(idx.manifests[i]);
      } else {
        var i :| 0 <= i < |idx.children| && idx.children[i] == x;
        assert HasDigest(g)(idx.children[i]);
      }
    }
  }

  lemma RemoveAllSnoc(idx: Index, order: seq<Digest>, now: int, g: Digest)
    ensures RemoveAll(idx, order + [g], now) == AfterRemove(RemoveAll(idx, order, now), Naming(g), now)
    ensures forall h :: h in order + [g] <==> h in order || h == g
  {
    assert (order + [g])[..|order|] == order;
  }

  /** Removing other digests does not change whether a digest is found. */
  lemma {:induction false} RemoveAllFinds(idx: Index, order: seq<Digest>, now: int, g: Digest)
    requires g !in order
    ensures Find(RemoveAll(idx, order, now), DigestRef(g)).Found? <==> Find(idx, DigestRef(g)).Found?
  {
    if order != [] {
      var init := order[..|order| - 1];
      RemoveAllFinds(idx, init, now, g);
      FoundIff(RemoveAll(idx, init, now), g);
      FoundIff(RemoveAll(idx, order, now), g);
    }
  }

  /** The state of the sweep while the digests in `todo` are still to be looked at. */
  ghost predicate SweptSoFar(
      s: Snapshot, m: Marks, idx: Index, now: int, todo: set<Digest>, blobs: map<Digest, Blob>, index: Index,
      order: seq<Digest>)
  {
    && todo <= s.blobs.Keys
    && blobs == s.blobs - (Swept(s, m) - todo)
    && index == RemoveAll(idx, order, now)
    && forall g :: g in order <==> g in Swept(s, m) && g !in todo && Find(idx, DigestRef(g)).Found?
  }

  lemma SweepKeep(
      s: Snapshot, m: Marks, idx: Index, now: int, todo: set<Digest>, blobs: map<Digest, Blob>, index: Index,
      order: seq<Digest>, g: Digest)
    requires SweptSoFar(s, m, idx, now, todo, blobs, index, order)
    requires g in todo && !Condemned(s, m, g)
    ensures SweptSoFar(s, m, idx, now, todo - {g}, blobs, index, order)
  {
    assert Swept(s, m) - (todo - {g}) == Swept(s, m) - todo;
  }

  lemma SweepDrop(
      s: Snapshot, m: Marks, idx: Index, now: int, todo: set<Digest>, blobs: map<Digest, Blob>, index: Index,
      order: seq<Digest>, g: Digest)
    requires SweptSoFar(s, m, idx, now, todo, blobs, index, order)
    requires g in todo && Condemned(s, m, g)
    ensures if Find(index, DigestRef(g)).Found?
            then SweptSoFar(s, m, idx, now, todo - {g}, blobs - {g}, AfterRemove(index, Naming(g), now), order + [g])
            else SweptSoFar(s, m, idx, now, todo - {g}, blobs - {g}, index, order)
  {
    assert g in Swept(s, m) && g !in order;
    assert Swept(s, m) - (todo - {g}) == (Swept(s, m) - todo) + {g};
    RemoveAllFinds(idx, order, now, g);
    RemoveAllSnoc(idx, order, now, g);
  }

  /** Deletes the blobs that were not marked, with their index entries. */
  method SweepBlobs(
      store: BlobStore, index: LayoutIndex, ghost s: Snapshot, seen: set<Digest>, inIndex: set<Digest>,
      cutoff: Option<int>, now: int)
    returns (mod: bool, ghost order: seq<Digest>)
    requires s.blobs == store.blobs && s.cutoff == cutoff
    modifies store, index
    ensures SweptSoFar(s, Marks(seen, inIndex), old(index.State()), now, {}, store.blobs, index.State(), order)
    ensures mod <==> order != []
  {
    ghost var m := Marks(seen, inIndex);
    ghost var idx := index.State();
    mod, order := false, [];
    var all := store.blobs;
    var todo := all.Keys;
    assert Swept(s, m) - todo == {};
    while todo != {}
      invariant SweptSoFar(s, m, idx, now, todo, store.blobs, index.State(), order)
      invariant mod <==> order != []
      decreases todo
    {
      var g :| g in todo;
      ghost var left, was := todo, index.State();
      todo := todo - {g};
      if g in seen {
        SweepKeep(s, m, idx, now, left, store.blobs, was, order, g);
        continue;
      }
      if cutoff.Some? && all[g].mod > cutoff.value && g !in inIndex {
        SweepKeep(s, m, idx, now, left, store.blobs, was, order, g);
        continue;
      }
      SweepDrop(s, m, idx, now, left, store.blobs, was, order, g);
      if index.GetDesc(DigestRef(g)).Found? {
        mod := true;
        index.RmDesc(Naming(g), now);
        order := order + [g];
      }
      store.Delete(g);
    }
  }

  /** Removes the noted entries that never had a blob. */
  method SweepMissing(
      index: LayoutIndex, ghost idx: Index, blobExists: set<Digest>, inIndex: set<Digest>, now: int, mod0: bool,
      ghost order0: seq<Digest>)
    returns (mod: bool, ghost order: seq<Digest>)
    requires index.State() == RemoveAll(idx, order0, now) && (mod0 <==> order0 != [])
    modifies index
    ensures index.State() == RemoveAll(idx, order, now)
    ensures forall g :: g in order <==> g in order0 || (g in inIndex && g !in blobExists)
    ensures mod <==> order != []
  {
    mod, order := mod0, order0;
    var missing := inIndex;
    while missing != {}
      invariant missing <= inIndex
      invariant index.State() == RemoveAll(idx, order, now)
      invariant forall g :: g in order <==> g in order0 || (g in inIndex && g !in blobExists && g !in missing)
      invariant mod <==> order != []
      decreases missing
    {
      var g :| g in missing;
      missing := missing - {g};
      if g !in blobExists {
        mod := true;
        index.RmDesc(Naming(g), now);
        RemoveAllSnoc(idx, order, now, g);
        order := order + [g];
      }
    }
  }

  method Sweep(
      store: BlobStore, index: LayoutIndex, policy: Policy, cutoff: Option<int>, now: int,
      seen: set<Digest>, inIndex: set<Digest>)
    returns (mod: bool, ghost order: seq<Digest>)
    modifies store, index
    ensures Ended(policy, cutoff, now, old(Repository(store.blobs, index.State())),
                  Repository(store.blobs, index.State()), Marks(seen, inIndex), order)
    ensures mod <==> order != []
  {
    ghost var pre := Repository(store.blobs, index.State());
    var blobExists := store.blobs.Keys;
    mod, order := SweepBlobs(store, index, SnapshotOf(pre, policy, cutoff), seen, inIndex, cutoff, now);
    mod, order := SweepMissing(index, pre.index, blobExists, inIndex, now, mod, order);
  }

  ghost predicate Ended(
      policy: Policy, cutoff: Option<int>, now: int, pre: Repository, post: Repository, m: Marks, order: seq<Digest>)
  {
    var s := SnapshotOf(pre, policy, cutoff);
    && post.blobs == pre.blobs - Swept(s, m)
    && Enumerates(order, Unindexed(s, pre.index, m))
    && post.index == RemoveAll(pre.index, order, now)
  }

  lemma CollectedBy(
      policy: Policy, cutoff: Option<int>, now: int, pre: Repository, post: Repository, m: Marks, order: seq<Digest>)
    requires m == Mark(SnapshotOf(pre, policy, cutoff)) && Ended(policy, cutoff, now, pre, post, m, order)
    ensures Collected(policy, cutoff, now, pre, post)
    ensures order != [] <==> Unindexes(policy, cutoff, pre)
  {
    if order != [] {
      assert order[0] in order;
    }
  }

  method MarkRepository(store: BlobStore, policy: Policy, cutoff: Option<int>, entries: seq<Descriptor>)
    returns (seen: set<Digest>, inIndex: set<Digest>)
    ensures Marks(seen, inIndex) == Mark(Snapshot(policy, cutoff, store.blobs, entries))
  {
    ghost var s := Snapshot(policy, cutoff, store.blobs, entries);
    var manifests, subjects, noted := ListRoots(store, policy, cutoff, entries);
    seen, inIndex := MarkManifests(store, s, subjects, manifests, noted);
  }

  /** One collection of a repository whose requests are held back. */
  method RepoGarbageCollect(store: BlobStore, index: LayoutIndex, policy: Policy, now: int) returns (mod: bool)
    modifies store, index
    ensures Collected(policy, CutoffOf(policy, now), now,
                      old(Repository(store.blobs, index.State())), Repository(store.blobs, index.State()))
    ensures mod <==> Unindexes(policy, CutoffOf(policy, now), old(Repository(store.blobs, index.State())))
  {
    var cutoff := CutoffOf(policy, now);
    ghost var pre := Repository(store.blobs, index.State());
    var seen, inIndex := MarkRepository(store, policy, cutoff, index.manifests);
    ghost var order;
    mod, order := Sweep(store, index, policy, cutoff, now, seen, inIndex);
    CollectedBy(policy, cutoff, now, pre, Repository(store.blobs, index.State()), Marks(seen, inIndex), order);
  }
}
