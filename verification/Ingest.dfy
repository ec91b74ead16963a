/** Loading a persisted index (internal/store/store.go): the children are not saved, they are rebuilt by
    scanning the nested indexes from the top-level entries. */
module Ingest {
  import opened Types
  import opened Layout
  import opened LayoutLaws
  import opened Store

  datatype Scan = Scan(queue: seq<Descriptor>, seen: set<Digest>, children: seq<Descriptor>)

  /** Notes the entries of one nested index that were not seen before. */
  function Absorb(sc: Scan, listed: seq<Descriptor>): (r: Scan)
    ensures sc.seen <= r.seen && r.seen == sc.seen + (set d | d in listed :: d.digest)
    ensures r.seen == sc.seen ==> r == sc
    decreases |listed|
  {
    if listed == [] then sc
    else
      var d := listed[0];
      var next :=
        if d.digest in sc.seen then sc
        else
          var queue := if MediaTypeIndex(d.mediaType) then sc.queue + [d] else sc.queue;
          Scan(queue, sc.seen + {d.digest}, sc.children + [d]);
      Absorb(next, listed[1..])
  }

  function ListedIn(blobs: map<Digest, Blob>, g: Digest): seq<Descriptor> {
    if g in blobs && blobs[g].asIndex.Some? then blobs[g].asIndex.value else []
  }

  /** Every digest that some stored index lists. */
  function Universe(blobs: map<Digest, Blob>): set<Digest> {
    set g, d | g in blobs && d in ListedIn(blobs, g) :: d.digest
  }

  function ScanFrom(blobs: map<Digest, Blob>, sc: Scan): Scan
    decreases Universe(blobs) - sc.seen, |sc.queue|
  {
    if sc.queue == [] then sc
    else
      var next := Absorb(sc.(queue := sc.queue[1..]), ListedIn(blobs, sc.queue[0].digest));
      ScanFrom(blobs, next)
  }

  function IndexEntries(ms: seq<Descriptor>): (r: seq<Descriptor>)
    ensures forall d :: d in r <==> d in ms && MediaTypeIndex(d.mediaType)
  {
    if ms == [] then []
    else
      var init := IndexEntries(ms[..|ms| - 1]);
      var last := ms[|ms| - 1];
      if MediaTypeIndex(last.mediaType) then init + [last] else init
  }

  function LoadedChildren(blobs: map<Digest, Blob>, ms: seq<Descriptor>): seq<Descriptor> {
    ScanFrom(blobs, Scan(IndexEntries(ms), set d | d in ms :: d.digest, [])).children
  }

  /** The repository after a restart: only the entries and the history were saved. */
  function Reload(r: Repository): Repository {
    r.(index := r.index.(children := LoadedChildren(r.blobs, r.index.manifests)))
  }

  /** Notes the entries that were not seen before: all of them as children, and the indexes for scanning. */
  method NoteListed(index: LayoutIndex, queue: seq<Descriptor>, seen0: set<Digest>, listed: seq<Descriptor>)
    returns (scanChildren: seq<Descriptor>, seen: set<Digest>, ghost added: seq<Descriptor>)
    modifies index
    ensures Scan(scanChildren, seen, added) == Absorb(Scan(queue, seen0, []), listed)
    ensures index.manifests == old(index.manifests) && index.history == old(index.history)
    ensures Appended(old(index.childManifests), added, index.childManifests)
  {
    scanChildren, seen, added := queue, seen0, [];
    for j := 0 to |listed|
      invariant Absorb(Scan(scanChildren, seen, added), listed[j..]) == Absorb(Scan(queue, seen0, []), listed)
      invariant index.manifests == old(index.manifests) && index.history == old(index.history)
      invariant Appended(old(index.childManifests), added, index.childManifests)
    {
      var d := listed[j];
      AbsorbStep(Scan(scanChildren, seen, added), listed, j);
      if d.digest !in seen {
        index.AddChildren([d]);
        AppendMore(old(index.childManifests), added, [d]);
        added := added + [d];
        if MediaTypeIndex(d.mediaType) {
          scanChildren := scanChildren + [d];
        }
        seen := seen + {d.digest};
      }
    }
  }

  lemma AbsorbStep(sc: Scan, listed: seq<Descriptor>, j: nat)
    requires j < |listed|
    ensures Absorb(sc, listed[j..]) ==
            if listed[j].digest in sc.seen then Absorb(sc, listed[j + 1..])
            else Absorb(Scan(if MediaTypeIndex(listed[j].mediaType) then sc.queue + [listed[j]] else sc.queue,
                             sc.seen + {listed[j].digest}, sc.children + [listed[j]]), listed[j + 1..])
  {
    assert listed[j..][1..] == listed[j + 1..];
  }

  /** The children found so far are only carried along. */
  lemma {:induction false} AbsorbCarries(sc: Scan, listed: seq<Descriptor>, before: seq<Descriptor>)
    ensures var r := Absorb(sc, listed);
            Absorb(sc.(children := before + sc.children), listed) == r.(children := before + r.children)
    decreases |listed|
  {
    if listed != [] {
      var d := listed[0];
      if d.digest in sc.seen {
        AbsorbCarries(sc, listed[1..], before);
      } else {
        var queue := if MediaTypeIndex(d.mediaType) then sc.queue + [d] else sc.queue;
        assert before + sc.children + [d] == before + (sc.children + [d]);
        AbsorbCarries(Scan(queue, sc.seen + {d.digest}, sc.children + [d]), listed[1..], before);
      }
    }
  }

  method ListEntries(ms: seq<Descriptor>) returns (scanChildren: seq<Descriptor>, seen: set<Digest>)
    ensures scanChildren == IndexEntries(ms)
    ensures seen == set d | d in ms :: d.digest
  {
    seen, scanChildren := {}, [];
    for i := 0 to |ms|
      invariant seen == set d | d in ms[..i] :: d.digest
      invariant scanChildren == IndexEntries(ms[..i])
    {
      assert ms[..i + 1] == ms[..i] + [ms[i]];
      assert (ms[..i] + [ms[i]])[..i] == ms[..i];
      seen := seen + {ms[i].digest};
      if MediaTypeIndex(ms[i].mediaType) {
        scanChildren := scanChildren + [ms[i]];
      }
    }
    assert ms[..|ms|] == ms;
  }

  lemma ScanStep(blobs: map<Digest, Blob>, queue: seq<Descriptor>, seen: set<Digest>, found: seq<Descriptor>, r: Scan)
    requires queue != []
    requires r == Absorb(Scan(queue[1..], seen, []), ListedIn(blobs, queue[0].digest))
    ensures ScanFrom(blobs, Scan(queue, seen, found)) == ScanFrom(blobs, Scan(r.queue, r.seen, found + r.children))
  {
    AbsorbCarries(Scan(queue[1..], seen, []), ListedIn(blobs, queue[0].digest), found);
    assert found + [] == found;
  }

  /** Rebuilds the children of an index that was just read. */
  method LoadChildren(store: BlobStore, index: LayoutIndex)
    modifies index
    ensures index.State() ==
            old(index.State()).(
              children := old(index.childManifests) + LoadedChildren(store.blobs, old(index.manifests)))
  {
    var scanChildren, seen := ListEntries(index.manifests);
    ghost var found: seq<Descriptor> := [];
    ghost var start := Scan(scanChildren, seen, []);
    while |scanChildren| > 0
      invariant ScanFrom(store.blobs, Scan(scanChildren, seen, found)) == ScanFrom(store.blobs, start)
      invariant index.manifests == old(index.manifests) && index.history == old(index.history)
      invariant Appended(old(index.childManifests), found, index.childManifests)
      decreases Universe(store.blobs) - seen, |scanChildren|
    {
      var g := scanChildren[0].digest;
      ghost var queue, noted := scanChildren, seen;
      ghost var added: seq<Descriptor> := [];
      scanChildren := scanChildren[1..];
      if g in store.blobs && store.blobs[g].asIndex.Some? {
        scanChildren, seen, added := NoteListed(index, scanChildren, seen, store.blobs[g].asIndex.value);
      }
      ScanStep(store.blobs, queue, noted, found, Scan(scanChildren, seen, added));
      AppendMore(old(index.childManifests), found, added);
      found := found + added;
    }
  }

  ghost predicate Appended(before: seq<Descriptor>, found: seq<Descriptor>, all: seq<Descriptor>) {
    all == before + found
  }

  lemma AppendMore(before: seq<Descriptor>, found: seq<Descriptor>, added: seq<Descriptor>)
    ensures before + found + added == before + (found + added)
  {
  }

  /* ---------- Removing duplicates from a referrers list ---------- */

  /** The entries of `list` have distinct digests, all come from `before`, and cover every digest of it. */
  ghost predicate Deduplicated(before: seq<Descriptor>, list: seq<Descriptor>) {
    && UniqueDigests(list)
    && (forall x | x in list :: x in before)
    && (forall x | x in before :: Names(list, x.digest))
  }

  /** Drops repeated digests in place by moving the last entry into the gap; the first `n` entries are left. */
  method ReferrerListDedup(rl: array<Descriptor>) returns (n: nat)
    modifies rl
    ensures n <= rl.Length && Deduplicated(old(rl[..]), rl[..n])
  {
    ghost var before := rl[..];
    var seen: set<Digest> := {};
    var i := 0;
    n := rl.Length;
    assert rl[..n] == before;
    while i < n
      invariant 0 <= i <= n <= rl.Length
      invariant DedupState(before, rl[..n], i, seen)
      decreases n - i
    {
      ghost var was := rl[..n];
      DedupStep(before, was, i, seen);
      if rl[i].digest in seen {
        rl[i] := rl[n - 1];
        n := n - 1;
        assert rl[..n] == was[i := was[|was| - 1]][..|was| - 1];
        continue;
      }
      seen := seen + {rl[i].digest};
      i := i + 1;
    }
    assert rl[..n][..n] == rl[..n];
  }

  ghost predicate DedupState(before: seq<Descriptor>, list: seq<Descriptor>, i: nat, seen: set<Digest>) {
    && i <= |list|
    && UniqueDigests(list[..i])
    && (forall g :: g in seen <==> Names(list[..i], g))
    && (forall x | x in list :: x in before)
    && (forall x | x in before :: Names(list, x.digest))
  }

  lemma DedupStep(before: seq<Descriptor>, list: seq<Descriptor>, i: nat, seen: set<Digest>)
    requires i < |list| && DedupState(before, list, i, seen)
    ensures if list[i].digest in seen then DedupState(before, list[i := list[|list| - 1]][..|list| - 1], i, seen)
            else DedupState(before, list, i + 1, seen + {list[i].digest})
  {
    var last := |list| - 1;
    if list[i].digest in seen {
      var next := list[i := list[last]][..last];
      assert next[..i] == list[..i];
      forall x | x in list ensures Names(next, x.digest) {
        var j :| 0 <= j < |list| && list[j] == x;
        if j == i {
          var y :| y in list[..i] && y.digest == x.digest;
          assert y in next[..i];
        } else if j == last {
          assert next[i] == x;
        } else {
          assert next[j] == x;
        }
      }
    } else {
      assert list[..i + 1] == list[..i] + [list[i]];
      forall j | 0 <= j < i ensures list[j].digest != list[i].digest {
        assert list[..i][j] in list[..i];
      }
    }
  }
}
