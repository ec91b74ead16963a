/** What the index operations mean: under single-role descriptors the list surgery of AddDesc and RmDesc
    implements a map from tags to digests, a map from subjects to responses and a set of resolvable
    digests, and the history is a faithful log of the tags. */
module LayoutLaws {
  import opened Types
  import opened Layout

  /* ---------- Abstract view ---------- */

  function ResolveTag(idx: Index, t: Tag): Option<Digest> {
    var mi := IndexFunc(idx.manifests, HasTag(t));
    if mi >= 0 then Some(idx.manifests[mi].digest) else None
  }

  function ResponseOf(idx: Index, s: Digest): Option<Digest> {
    var mi := IndexFunc(idx.manifests, HasSubject(s));
    if mi >= 0 then Some(idx.manifests[mi].digest) else None
  }

  ghost predicate Names(s: seq<Descriptor>, g: Digest) {
    exists x :: x in s && x.digest == g
  }

  ghost predicate Tagged(ms: seq<Descriptor>, t: Tag, g: Digest) {
    exists x :: x in ms && x.tag == Some(t) && x.digest == g
  }

  ghost predicate Answers(ms: seq<Descriptor>, s: Digest, g: Digest) {
    exists x :: x in ms && x.subject == Some(s) && x.digest == g
  }

  ghost predicate Resolves(idx: Index, g: Digest) {
    Names(idx.manifests, g) || Names(idx.children, g)
  }

  /** The digest the log gives a tag: that of its last event, unless that event is a deletion. */
  function LastOf(history: map<Tag, seq<HistoryItem>>, t: Tag): Option<Digest> {
    var h := HistoryOf(history, t);
    if h == [] || h[|h| - 1].deleted then None else Some(h[|h| - 1].digest)
  }

  /* ---------- Invariant ---------- */

  /** Besides the creation time, at most one of tag and subject. */
  predicate SingleRole(d: Descriptor) {
    d.other == map[] && (d.tag.None? || d.subject.None?)
  }

  predicate AllSingleRole(ms: seq<Descriptor>) {
    forall i | 0 <= i < |ms| :: SingleRole(ms[i])
  }

  predicate UniqueTags(ms: seq<Descriptor>) {
    forall i, j | 0 <= i < |ms| && 0 <= j < |ms| && i != j :: ms[i].tag.Some? ==> ms[i].tag != ms[j].tag
  }

  predicate UniqueSubjects(ms: seq<Descriptor>) {
    forall i, j | 0 <= i < |ms| && 0 <= j < |ms| && i != j :: ms[i].subject.Some? ==> ms[i].subject != ms[j].subject
  }

  /** A plain entry is the only entry of its digest that is not a referrers response. */
  predicate PlainAlone(ms: seq<Descriptor>) {
    forall i, j | 0 <= i < |ms| && 0 <= j < |ms| && i != j ::
      AnnotationsEmpty(ms[i]) && ms[i].digest == ms[j].digest ==> ms[j].subject.Some?
  }

  predicate ManifestsValid(ms: seq<Descriptor>) {
    AllSingleRole(ms) && UniqueTags(ms) && UniqueSubjects(ms) && PlainAlone(ms)
  }

  predicate UniqueDigests(cs: seq<Descriptor>) {
    forall i, j | 0 <= i < |cs| && 0 <= j < |cs| && i != j :: cs[i].digest != cs[j].digest
  }

  predicate Disjoint(cs: seq<Descriptor>, ms: seq<Descriptor>) {
    forall c, m | c in cs && m in ms :: c.digest == m.digest ==> m.subject.Some?
  }

  predicate Valid(idx: Index) {
    ManifestsValid(idx.manifests) && UniqueDigests(idx.children) && Disjoint(idx.children, idx.manifests)
  }

  /** The log agrees with the index on every tag. */
  ghost predicate Faithful(idx: Index) {
    forall t: Tag :: LastOf(idx.history, t) == ResolveTag(idx, t)
  }

  /* ---------- Lookups ---------- */

  lemma TagAt(ms: seq<Descriptor>, i: nat)
    requires UniqueTags(ms) && i < |ms| && ms[i].tag.Some?
    ensures IndexFunc(ms, HasTag(ms[i].tag.value)) == i
  {
    assert HasTag(ms[i].tag.value)(ms[i]);
  }

  lemma SubjectAt(ms: seq<Descriptor>, i: nat)
    requires UniqueSubjects(ms) && i < |ms| && ms[i].subject.Some?
    ensures IndexFunc(ms, HasSubject(ms[i].subject.value)) == i
  {
    assert HasSubject(ms[i].subject.value)(ms[i]);
  }

  /** What a tag resolves to is the one digest it tags. */
  lemma TagView(idx: Index, t: Tag)
    requires UniqueTags(idx.manifests)
    ensures forall g :: ResolveTag(idx, t) == Some(g) <==> Tagged(idx.manifests, t, g)
  {
    forall x | x in idx.manifests && x.tag == Some(t) ensures ResolveTag(idx, t) == Some(x.digest) {
      var i :| 0 <= i < |idx.manifests| && idx.manifests[i] == x;
      TagAt(idx.manifests, i);
    }
  }

  lemma ResponseView(idx: Index, s: Digest)
    requires UniqueSubjects(idx.manifests)
    ensures forall g :: ResponseOf(idx, s) == Some(g) <==> Answers(idx.manifests, s, g)
  {
    forall x | x in idx.manifests && x.subject == Some(s) ensures ResponseOf(idx, s) == Some(x.digest) {
      var i :| 0 <= i < |idx.manifests| && idx.manifests[i] == x;
      SubjectAt(idx.manifests, i);
    }
  }

  /* ---------- List surgery keeps the invariant ---------- */

  lemma DeleteAtValid(ms: seq<Descriptor>, k: nat)
    requires ManifestsValid(ms) && k < |ms|
    ensures ManifestsValid(DeleteAt(ms, k))
    ensures forall x :: x in ms ==> x == ms[k] || x in DeleteAt(ms, k)
    ensures forall x :: x in DeleteAt(ms, k) ==> x in ms
  {
  }

  lemma UpdateAtValid(ms: seq<Descriptor>, k: nat, d: Descriptor)
    requires ManifestsValid(ms) && k < |ms| && SingleRole(d)
    requires forall i | 0 <= i < |ms| && i != k :: Compatible(ms[i], d)
    ensures ManifestsValid(ms[k := d])
    ensures forall x :: x in ms ==> x == ms[k] || x in ms[k := d]
    ensures d in ms[k := d]
    ensures forall x :: x in ms[k := d] ==> x in ms || x == d
  {
    var r := ms[k := d];
    assert r[k] == d;
    forall x | x in ms && x != ms[k]
      ensures x in r
    {
      var i :| 0 <= i < |ms| && ms[i] == x;
      assert r[i] == x;
    }
  }

  lemma AppendValid(ms: seq<Descriptor>, d: Descriptor)
    requires ManifestsValid(ms) && SingleRole(d)
    requires forall i | 0 <= i < |ms| :: Compatible(ms[i], d)
    ensures ManifestsValid(ms + [d])
  {
  }

  /** Two entries that may stand in one index. */
  predicate Compatible(x: Descriptor, d: Descriptor) {
    && (d.tag.Some? ==> x.tag != d.tag)
    && (d.subject.Some? ==> x.subject != d.subject)
    && (AnnotationsEmpty(d) && x.digest == d.digest ==> x.subject.Some?)
    && (AnnotationsEmpty(x) && x.digest == d.digest ==> d.subject.Some?)
  }

  /* ---------- Moving listed manifests to the children ---------- */

  /** Two states of the index that no lookup tells apart. */
  ghost predicate SameView(a: Index, b: Index) {
    && (forall t, g :: Tagged(a.manifests, t, g) <==> Tagged(b.manifests, t, g))
    && (forall s, g :: Answers(a.manifests, s, g) <==> Answers(b.manifests, s, g))
    && (forall g :: Resolves(a, g) <==> Resolves(b, g))
  }

  /** Deleting a plain entry leaves only referrers responses under its digest. */
  lemma PlainDeleted(ms: seq<Descriptor>, mi: nat)
    requires ManifestsValid(ms) && mi < |ms| && AnnotationsEmpty(ms[mi])
    ensures forall m | m in DeleteAt(ms, mi) && m.digest == ms[mi].digest :: m.subject.Some?
  {
    var r := DeleteAt(ms, mi);
    forall m | m in r && m.digest == ms[mi].digest ensures m.subject.Some? {
      var j :| 0 <= j < |r| && r[j] == m;
      assert ms[if j < mi then j else j + 1] == m;
    }
  }

  lemma MoveChildKeeps(idx: Index, child: Descriptor)
    requires Valid(idx)
    ensures Valid(MoveChild(idx, child)) && SameView(idx, MoveChild(idx, child))
    ensures MoveChild(idx, child).history == idx.history
  {
    var mi := IndexFunc(idx.manifests, PlainEntry(child.digest));
    if mi >= 0 {
      var r := MoveChild(idx, child);
      DeleteAtValid(idx.manifests, mi);
      PlainDeleted(idx.manifests, mi);
      ChildAppended(idx.children, child, idx.manifests, mi);
      assert Valid(r);
      MovedView(idx, r, idx.manifests[mi], child);
    }
  }

  lemma ChildAppended(cs: seq<Descriptor>, child: Descriptor, ms: seq<Descriptor>, mi: nat)
    requires UniqueDigests(cs) && Disjoint(cs, ms)
    requires mi < |ms| && ms[mi].digest == child.digest && ms[mi].subject.None?
    ensures UniqueDigests(cs + [child])
    ensures forall x :: x in cs + [child] <==> x in cs || x == child
  {
    assert ms[mi] in ms;
    forall i | 0 <= i < |cs| ensures cs[i].digest != child.digest {
      assert cs[i] in cs;
    }
  }

  lemma MovedView(idx: Index, r: Index, plain: Descriptor, child: Descriptor)
    requires plain in idx.manifests && AnnotationsEmpty(plain) && plain.digest == child.digest
    requires forall x :: x in idx.manifests ==> x == plain || x in r.manifests
    requires forall x :: x in r.manifests ==> x in idx.manifests
    requires forall x :: x in r.children <==> x in idx.children || x == child
    ensures SameView(idx, r)
  {
    assert child in r.children;
  }

  lemma {:induction false} MoveChildrenKeeps(idx: Index, listed: seq<Descriptor>)
    requires Valid(idx)
    ensures Valid(MoveChildren(idx, listed)) && SameView(idx, MoveChildren(idx, listed))
    ensures MoveChildren(idx, listed).history == idx.history
    decreases |listed|
  {
    if listed != [] {
      MoveChildKeeps(idx, listed[0]);
      MoveChildrenKeeps(MoveChild(idx, listed[0]), listed[1..]);
    }
  }

  /* ---------- Untagging ---------- */

  lemma {:induction false} UntagNone(ms: seq<Descriptor>, g: Digest, t: Tag, n: nat)
    requires n <= |ms|
    requires forall i | 0 <= i < n :: ms[i].tag != Some(t) || ms[i].digest == g
    ensures UntagBelow(ms, g, t, n) == ms
    decreases n
  {
    if n > 0 {
      UntagNone(ms, g, t, n - 1);
    }
  }

  lemma {:induction false} UntagHit(ms: seq<Descriptor>, g: Digest, t: Tag, k: nat, n: nat)
    requires UniqueTags(ms) && k < n <= |ms| && ms[k].tag == Some(t) && ms[k].digest != g
    ensures UntagBelow(ms, g, t, n) == UntagAt(ms, g, t, k)
    decreases n
  {
    if n - 1 == k {
      UntagNone(UntagAt(ms, g, t, k), g, t, k);
    } else {
      UntagHit(ms, g, t, k, n - 1);
    }
  }

  /** Two entries that differ in their tags at most. */
  predicate SameTarget(x: Descriptor, y: Descriptor) {
    x.(tag := None) == y.(tag := None)
  }

  /** Untagging takes tag `t` away from every digest but `g` and changes nothing else that a lookup sees. */
  lemma UntagKeeps(ms: seq<Descriptor>, d: Descriptor)
    requires ManifestsValid(ms)
    ensures ManifestsValid(Untag(ms, d))
    ensures forall t, g :: Tagged(Untag(ms, d), t, g) <==> Tagged(ms, t, g) && (d.tag == Some(t) ==> g == d.digest)
    ensures forall s, g :: Answers(Untag(ms, d), s, g) <==> Answers(ms, s, g)
    ensures forall g :: Names(Untag(ms, d), g) <==> Names(ms, g)
    ensures forall x :: x in Untag(ms, d) ==> exists y :: y in ms && SameTarget(x, y)
  {
    if d.tag.Some? {
      var t := d.tag.value;
      if k :| 0 <= k < |ms| && ms[k].tag == Some(t) && ms[k].digest != d.digest {
        UntagHit(ms, d.digest, t, k, |ms|);
        UntagAtKeeps(ms, d.digest, t, k);
      } else {
        UntagNone(ms, d.digest, t, |ms|);
      }
    }
  }

  lemma UntagAtKeeps(ms: seq<Descriptor>, g: Digest, t: Tag, k: nat)
    requires ManifestsValid(ms) && k < |ms| && ms[k].tag == Some(t) && ms[k].digest != g
    ensures ManifestsValid(UntagAt(ms, g, t, k))
    ensures forall u, h :: Tagged(UntagAt(ms, g, t, k), u, h) <==> Tagged(ms, u, h) && u != t
    ensures forall s, h :: Answers(UntagAt(ms, g, t, k), s, h) <==> Answers(ms, s, h)
    ensures forall h :: Names(UntagAt(ms, g, t, k), h) <==> Names(ms, h)
    ensures forall x :: x in UntagAt(ms, g, t, k) ==> exists y :: y in ms && SameTarget(x, y)
  {
    var r := UntagAt(ms, g, t, k);
    var other := IndexFunc(ms, OtherReference(ms[k].digest, t));
    forall x | x in ms && x.tag == Some(t) ensures x == ms[k] {
    }
    if other >= 0 {
      DeleteAtValid(ms, k);
      assert ms[other] in r;
      assert forall x :: x in r ==> x.tag != Some(t);
    } else {
      var bare := ms[k].(tag := None);
      assert forall i | 0 <= i < |ms| && i != k :: !OtherReference(ms[k].digest, t)(ms[i]);
      UpdateAtValid(ms, k, bare);
      assert forall x :: x in r ==> x.tag != Some(t);
    }
    forall x | x in r ensures exists y :: y in ms && SameTarget(x, y) {
      if x in ms {
        assert SameTarget(x, x);
      } else {
        assert SameTarget(x, ms[k]);
      }
    }
  }

  /* ---------- Adding ---------- */

  lemma PutEntryKeeps(ms: seq<Descriptor>, d: Descriptor)
    requires ManifestsValid(ms) && SingleRole(d) && d.subject.None?
    requires d.tag.Some? ==> forall g :: Tagged(ms, d.tag.value, g) ==> g == d.digest
    ensures ManifestsValid(PutEntry(ms, d))
    ensures forall t, g :: Tagged(PutEntry(ms, d), t, g) <==> Tagged(ms, t, g) || (d.tag == Some(t) && g == d.digest)
    ensures forall s, g :: Answers(PutEntry(ms, d), s, g) <==> Answers(ms, s, g)
    ensures forall g :: Names(PutEntry(ms, d), g) <==> Names(ms, g) || g == d.digest
    ensures forall x :: x in PutEntry(ms, d) && x.subject.None? && x.digest != d.digest ==> x in ms
  {
    var mi := IndexFunc(ms, CompatibleEntry(d));
    var r := PutEntry(ms, d);
    if mi < 0 {
      forall i | 0 <= i < |ms| ensures Compatible(ms[i], d) {
        assert !CompatibleEntry(d)(ms[i]);
        if d.tag.Some? && ms[i].tag == d.tag {
          assert Tagged(ms, d.tag.value, ms[i].digest);
        }
      }
      AppendValid(ms, d);
      assert d in r;
    } else if d.tag.Some? && AnnotationsEmpty(ms[mi]) {
      forall i | 0 <= i < |ms| && i != mi ensures Compatible(ms[i], d) {
        if ms[i].tag == d.tag {
          assert Tagged(ms, d.tag.value, ms[i].digest);
        }
      }
      UpdateAtValid(ms, mi, d);
    } else {
      assert ms[mi] in ms && ms[mi].digest == d.digest;
      assert d.tag.Some? ==> ms[mi].tag == d.tag;
    }
  }

  lemma PutResponseKeeps(ms: seq<Descriptor>, d: Descriptor)
    requires ManifestsValid(ms) && SingleRole(d) && d.subject.Some?
    ensures ManifestsValid(PutResponse(ms, d))
    ensures forall t, g :: Tagged(PutResponse(ms, d), t, g) <==> Tagged(ms, t, g)
    ensures forall s, g :: Answers(PutResponse(ms, d), s, g) <==>
                             if d.subject == Some(s) then g == d.digest else Answers(ms, s, g)
    ensures forall x :: x in PutResponse(ms, d) ==> x in ms || x == d
    ensures forall x :: x in ms && x.subject != d.subject ==> x in PutResponse(ms, d)
    ensures d in PutResponse(ms, d)
  {
    var s := d.subject.value;
    var mi := IndexFunc(ms, HasSubject(s));
    var r := PutResponse(ms, d);
    if mi < 0 {
      forall i | 0 <= i < |ms| ensures Compatible(ms[i], d) {
        assert !HasSubject(s)(ms[i]);
      }
      AppendValid(ms, d);
      assert d in r;
    } else {
      UpdateAtValid(ms, mi, d);
    }
    forall x | x in r && x.subject == Some(s) ensures x == d {
      var i :| 0 <= i < |r| && r[i] == x;
      var j :| 0 <= j < |r| && r[j] == d;
    }
  }

  lemma DeleteFuncNames(s: seq<Descriptor>, g: Digest)
    ensures forall h :: Names(DeleteFunc(s, HasDigest(g)), h) <==> Names(s, h) && h != g
  {
  }

  lemma DeleteFuncSnoc(a: seq<Descriptor>, x: Descriptor, p: Descriptor -> bool)
    ensures DeleteFunc(a + [x], p) == DeleteFunc(a, p) + if p(x) then [] else [x]
  {
    assert (a + [x])[..|a|] == a;
  }

  /** Deleting by a test works piece by piece, so what is left keeps its order. */
  lemma {:induction false} DeleteFuncConcat(a: seq<Descriptor>, b: seq<Descriptor>, p: Descriptor -> bool)
    ensures DeleteFunc(a + b, p) == DeleteFunc(a, p) + DeleteFunc(b, p)
    decreases |b|
  {
    if b == [] {
      assert a + b == a;
    } else {
      var init, x := b[..|b| - 1], b[|b| - 1];
      assert b == init + [x] && a + b == (a + init) + [x];
      DeleteFuncConcat(a, init, p);
      DeleteFuncSnoc(a + init, x, p);
      DeleteFuncSnoc(init, x, p);
    }
  }

  /** Deleting by a test keeps every pairwise property, since it keeps order and multiplicity. */
  lemma {:induction false} DeleteFuncValid(ms: seq<Descriptor>, p: Descriptor -> bool)
    requires ManifestsValid(ms)
    ensures ManifestsValid(DeleteFunc(ms, p))
  {
    if ms != [] {
      var init := ms[..|ms| - 1];
      DeleteFuncValid(init, p);
      var last := ms[|ms| - 1];
      forall x | x in init ensures Compatible(x, last) {
        var i :| 0 <= i < |init| && init[i] == x;
        assert ms[i] == x;
      }
      AppendValid(DeleteFunc(init, p), last);
    }
  }

  lemma {:induction false} DeleteFuncUnique(cs: seq<Descriptor>, p: Descriptor -> bool)
    requires UniqueDigests(cs)
    ensures UniqueDigests(DeleteFunc(cs, p))
  {
    if cs != [] {
      var init := cs[..|cs| - 1];
      DeleteFuncUnique(init, p);
      forall x | x in init ensures x.digest != cs[|cs| - 1].digest {
        var i :| 0 <= i < |init| && init[i] == x;
        assert cs[i] == x;
      }
    }
  }

  /** The parts of an add of a manifest, in terms of the entries themselves. */
  lemma AddEntries(idx: Index, desc: Descriptor, listed: seq<Descriptor>, now: int)
    requires Valid(idx) && SingleRole(desc) && desc.subject.None?
    ensures var r := AfterAdd(idx, desc, listed, now);
            && Valid(r)
            && (forall t, g :: Tagged(r.manifests, t, g) <==>
                  if desc.tag == Some(t) then g == desc.digest else Tagged(idx.manifests, t, g))
            && (forall s, g :: Answers(r.manifests, s, g) <==> Answers(idx.manifests, s, g))
            && (forall g :: Resolves(r, g) <==> Resolves(idx, g) || g == desc.digest)
  {
    var d := Stamp(desc, now);
    var moved := MoveChildren(idx, listed);
    MoveChildrenKeeps(idx, listed);
    UntagKeeps(moved.manifests, d);
    PutEntryKeeps(Untag(moved.manifests, d), d);
    DeleteFuncUnique(moved.children, HasDigest(d.digest));
    DeleteFuncNames(moved.children, d.digest);
  }

  lemma TagsFollow(idx: Index, r: Index, move: Option<Tag>, g: Digest, t: Tag)
    requires UniqueTags(idx.manifests) && UniqueTags(r.manifests)
    requires forall h :: Tagged(r.manifests, t, h) <==> if move == Some(t) then h == g else Tagged(idx.manifests, t, h)
    ensures ResolveTag(r, t) == if move == Some(t) then Some(g) else ResolveTag(idx, t)
  {
    TagView(idx, t);
    TagView(r, t);
    var was := ResolveTag(idx, t);
    var got := ResolveTag(r, t);
    assert got.Some? ==> Tagged(r.manifests, t, got.value);
    assert was.Some? ==> Tagged(idx.manifests, t, was.value);
  }

  lemma ResponsesFollow(idx: Index, r: Index, s: Digest)
    requires UniqueSubjects(idx.manifests) && UniqueSubjects(r.manifests)
    requires forall h :: Answers(r.manifests, s, h) <==> Answers(idx.manifests, s, h)
    ensures ResponseOf(r, s) == ResponseOf(idx, s)
  {
    ResponseView(idx, s);
    ResponseView(r, s);
    var was := ResponseOf(idx, s);
    var got := ResponseOf(r, s);
    assert got.Some? ==> Answers(r.manifests, s, got.value);
    assert was.Some? ==> Answers(idx.manifests, s, was.value);
  }

  /** A push of a manifest moves its own tag and no other, resolves its own digest in addition to what
      resolved before, and leaves every referrers response alone. */
  lemma AddRefines(idx: Index, desc: Descriptor, listed: seq<Descriptor>, now: int)
    requires Valid(idx) && SingleRole(desc) && desc.subject.None?
    ensures var r := AfterAdd(idx, desc, listed, now);
            && Valid(r)
            && (forall t :: ResolveTag(r, t) == if desc.tag == Some(t) then Some(desc.digest) else ResolveTag(idx, t))
            && (forall s :: ResponseOf(r, s) == ResponseOf(idx, s))
            && (forall g :: Resolves(r, g) <==> Resolves(idx, g) || g == desc.digest)
  {
    var r := AfterAdd(idx, desc, listed, now);
    AddEntries(idx, desc, listed, now);
    forall t
      ensures ResolveTag(r, t) == if desc.tag == Some(t) then Some(desc.digest) else ResolveTag(idx, t)
    {
      TagsFollow(idx, r, desc.tag, desc.digest, t);
    }
    forall s ensures ResponseOf(r, s) == ResponseOf(idx, s) {
      ResponsesFollow(idx, r, s);
    }
  }

  /** The digest is named by a child or by an entry that is not the response of subject `s`. */
  ghost predicate NamedBesides(idx: Index, s: Digest, g: Digest) {
    Names(idx.children, g) || exists x :: x in idx.manifests && x.digest == g && x.subject != Some(s)
  }

  lemma {:induction false} MoveChildrenBesides(idx: Index, listed: seq<Descriptor>, s: Digest, g: Digest)
    requires Valid(idx)
    ensures NamedBesides(MoveChildren(idx, listed), s, g) <==> NamedBesides(idx, s, g)
    decreases |listed|
  {
    if listed != [] {
      var child := listed[0];
      var r := MoveChild(idx, child);
      MoveChildKeeps(idx, child);
      var mi := IndexFunc(idx.manifests, PlainEntry(child.digest));
      if mi >= 0 {
        DeleteAtValid(idx.manifests, mi);
        assert child in r.children;
        assert forall x :: x in r.children <==> x in idx.children || x == child;
        assert idx.manifests[mi] in idx.manifests && idx.manifests[mi].subject != Some(s);
      }
      MoveChildrenBesides(r, listed[1..], s, g);
    }
  }

  /** Storing a referrers response changes the response of its own subject only, moves no tag, and loses at
      most the digest of the response it replaces. */
  lemma AddResponseRefines(idx: Index, desc: Descriptor, listed: seq<Descriptor>, now: int)
    requires Valid(idx) && SingleRole(desc) && desc.subject.Some?
    ensures var r := AfterAdd(idx, desc, listed, now);
            && Valid(r)
            && (forall t :: ResolveTag(r, t) == ResolveTag(idx, t))
            && (forall s ::
                  ResponseOf(r, s) == if desc.subject == Some(s) then Some(desc.digest) else ResponseOf(idx, s))
            && (forall g :: Resolves(r, g) <==> g == desc.digest || NamedBesides(idx, desc.subject.value, g))
            && r.history == idx.history
  {
    var d := Stamp(desc, now);
    var r := AfterAdd(idx, desc, listed, now);
    var moved := MoveChildren(idx, listed);
    MoveChildrenKeeps(idx, listed);
    PutResponseKeeps(moved.manifests, d);
    DeleteFuncUnique(moved.children, HasDigest(d.digest));
    DeleteFuncNames(moved.children, d.digest);
    forall t ensures ResolveTag(r, t) == ResolveTag(idx, t) {
      TagsFollow(idx, r, None, d.digest, t);
    }
    forall s ensures ResponseOf(r, s) == if desc.subject == Some(s) then Some(desc.digest) else ResponseOf(idx, s) {
      ResponseView(r, s);
      if desc.subject != Some(s) {
        ResponsesFollow(idx, r, s);
      } else {
        assert Answers(r.manifests, s, d.digest);
      }
    }
    forall g ensures Resolves(r, g) <==> g == desc.digest || NamedBesides(idx, desc.subject.value, g) {
      MoveChildrenBesides(idx, listed, desc.subject.value, g);
    }
  }

  /* ---------- Removing ---------- */

  lemma TagsDropped(idx: Index, r: Index, g: Digest, t: Tag, dropped: bool)
    requires UniqueTags(idx.manifests) && UniqueTags(r.manifests)
    requires forall h :: Tagged(r.manifests, t, h) <==> Tagged(idx.manifests, t, h) && !(dropped && h == g)
    ensures ResolveTag(r, t) == if dropped && ResolveTag(idx, t) == Some(g) then None else ResolveTag(idx, t)
  {
    TagView(idx, t);
    TagView(r, t);
    var was := ResolveTag(idx, t);
    var got := ResolveTag(r, t);
    assert got.Some? ==> Tagged(r.manifests, t, got.value);
    assert was.Some? ==> Tagged(idx.manifests, t, was.value);
  }

  lemma ResponsesDropped(idx: Index, r: Index, g: Digest, s: Digest)
    requires UniqueSubjects(idx.manifests) && UniqueSubjects(r.manifests)
    requires forall h :: Answers(r.manifests, s, h) <==> Answers(idx.manifests, s, h) && h != g
    ensures ResponseOf(r, s) == if ResponseOf(idx, s) == Some(g) then None else ResponseOf(idx, s)
  {
    ResponseView(idx, s);
    ResponseView(r, s);
    var was := ResponseOf(idx, s);
    var got := ResponseOf(r, s);
    assert got.Some? ==> Answers(r.manifests, s, got.value);
    assert was.Some? ==> Answers(idx.manifests, s, was.value);
  }

  lemma RmTagEntries(idx: Index, d: Descriptor, now: int)
    requires Valid(idx) && d.tag.Some?
    ensures var r := AfterRemove(idx, d, now);
            && ManifestsValid(r.manifests) && r.children == idx.children
            && (forall t, g :: Tagged(r.manifests, t, g) <==>
                  Tagged(idx.manifests, t, g) && !(d.tag == Some(t) && g == d.digest))
            && (forall s, g :: Answers(r.manifests, s, g) <==> Answers(idx.manifests, s, g))
            && (forall g :: Names(r.manifests, g) <==> Names(idx.manifests, g))
  {
    var r := AfterRemove(idx, d, now);
    var ms := idx.manifests;
    var p := TaggedEntry(d.digest, d.tag.value);
    var other := IndexFunc(ms, OtherReference(d.digest, d.tag.value));
    if other >= 0 {
      DeleteFuncValid(ms, p);
      assert ms[other] in r.manifests;
    } else {
      var mi := IndexFunc(ms, p);
      if mi >= 0 {
        assert forall i | 0 <= i < |ms| && i != mi :: !OtherReference(d.digest, d.tag.value)(ms[i]);
        UpdateAtValid(ms, mi, ms[mi].(tag := None));
        assert forall x :: x in r.manifests && x.tag == d.tag ==> x != ms[mi];
      }
    }
  }

  /** Removing a tag leaves every entry as it was, but for its tag. */
  lemma RmTagKept(idx: Index, d: Descriptor, now: int)
    requires d.tag.Some?
    ensures forall x | x in AfterRemove(idx, d, now).manifests :: exists y :: y in idx.manifests && SameTarget(x, y)
  {
    var r := AfterRemove(idx, d, now);
    forall x | x in r.manifests ensures exists y :: y in idx.manifests && SameTarget(x, y) {
      if x in idx.manifests {
        assert SameTarget(x, x);
      } else {
        var mi := IndexFunc(idx.manifests, TaggedEntry(d.digest, d.tag.value));
        assert idx.manifests[mi] in idx.manifests && SameTarget(x, idx.manifests[mi]);
      }
    }
  }

  /** Removing a tag drops that tag if it names this digest, and nothing else: the digest stays resolvable. */
  lemma RmTagRefines(idx: Index, d: Descriptor, now: int)
    requires Valid(idx) && d.tag.Some?
    ensures var r := AfterRemove(idx, d, now);
            && Valid(r)
            && (forall t :: ResolveTag(r, t) ==
                  if d.tag == Some(t) && ResolveTag(idx, t) == Some(d.digest) then None else ResolveTag(idx, t))
            && (forall s :: ResponseOf(r, s) == ResponseOf(idx, s))
            && (forall g :: Resolves(r, g) <==> Resolves(idx, g))
  {
    var r := AfterRemove(idx, d, now);
    RmTagEntries(idx, d, now);
    forall t
      ensures ResolveTag(r, t) ==
              if d.tag == Some(t) && ResolveTag(idx, t) == Some(d.digest) then None else ResolveTag(idx, t)
    {
      TagsDropped(idx, r, d.digest, t, d.tag == Some(t));
    }
    forall s ensures ResponseOf(r, s) == ResponseOf(idx, s) {
      ResponsesFollow(idx, r, s);
    }
  }

  /** Removing a digest drops the digest, every tag that named it and every response stored under it. */
  lemma RmDigestRefines(idx: Index, d: Descriptor, now: int)
    requires Valid(idx) && d.tag.None?
    ensures var r := AfterRemove(idx, d, now);
            && Valid(r)
            && (forall t ::
                  ResolveTag(r, t) == if ResolveTag(idx, t) == Some(d.digest) then None else ResolveTag(idx, t))
            && (forall s ::
                  ResponseOf(r, s) == if ResponseOf(idx, s) == Some(d.digest) then None else ResponseOf(idx, s))
            && (forall g :: Resolves(r, g) <==> Resolves(idx, g) && g != d.digest)
  {
    var r := AfterRemove(idx, d, now);
    var ms := idx.manifests;
    DeleteFuncValid(ms, HasDigest(d.digest));
    DeleteFuncUnique(idx.children, HasDigest(d.digest));
    DeleteFuncNames(ms, d.digest);
    DeleteFuncNames(idx.children, d.digest);
    forall t
      ensures ResolveTag(r, t) == if ResolveTag(idx, t) == Some(d.digest) then None else ResolveTag(idx, t)
    {
      TagsDropped(idx, r, d.digest, t, true);
    }
    forall s
      ensures ResponseOf(r, s) == if ResponseOf(idx, s) == Some(d.digest) then None else ResponseOf(idx, s)
    {
      ResponsesDropped(idx, r, d.digest, s);
    }
  }

  /* ---------- The history is a faithful log ---------- */

  /** Recording a batch of deletions clears exactly the tags of the deleted entries. */
  lemma {:induction false} RecordDeletedLast(
      history: map<Tag, seq<HistoryItem>>, ms: seq<Descriptor>, p: Descriptor -> bool, now: int, t: Tag)
    ensures LastOf(RecordDeleted(history, ms, p, now), t) ==
            if exists x :: x in ms && p(x) && x.tag == Some(t) then None else LastOf(history, t)
  {
    if ms != [] {
      RecordDeletedLast(history, ms[..|ms| - 1], p, now, t);
      assert forall x :: x in ms <==> x in ms[..|ms| - 1] || x == ms[|ms| - 1];
    }
  }

  lemma LoggedLast(history: map<Tag, seq<HistoryItem>>, d: Descriptor, del: bool, now: int, t: Tag)
    ensures LastOf(Logged(history, d, del, now), t) ==
            if d.tag != Some(t) then LastOf(history, t) else if del then None else Some(d.digest)
  {
  }

  lemma AddLogged(idx: Index, desc: Descriptor, listed: seq<Descriptor>, now: int, t: Tag)
    requires Valid(idx)
    ensures LastOf(AfterAdd(idx, desc, listed, now).history, t) ==
            if desc.subject.None? && desc.tag == Some(t) then Some(desc.digest) else LastOf(idx.history, t)
  {
    MoveChildrenKeeps(idx, listed);
    LoggedLast(idx.history, Stamp(desc, now), false, now, t);
  }

  lemma AddFaithful(idx: Index, desc: Descriptor, listed: seq<Descriptor>, now: int)
    requires Valid(idx) && SingleRole(desc) && Faithful(idx)
    ensures Faithful(AfterAdd(idx, desc, listed, now))
  {
    var r := AfterAdd(idx, desc, listed, now);
    if desc.subject.Some? {
      AddResponseRefines(idx, desc, listed, now);
    } else {
      AddRefines(idx, desc, listed, now);
    }
    forall t: Tag ensures LastOf(r.history, t) == ResolveTag(r, t) {
      AddLogged(idx, desc, listed, now, t);
      assert LastOf(idx.history, t) == ResolveTag(idx, t);
    }
  }

  lemma RmTagLogged(idx: Index, d: Descriptor, now: int, t: Tag)
    requires Valid(idx) && d.tag.Some?
    ensures LastOf(AfterRemove(idx, d, now).history, t) ==
            if d.tag == Some(t) && ResolveTag(idx, t) == Some(d.digest) then None else LastOf(idx.history, t)
  {
    var p := TaggedEntry(d.digest, d.tag.value);
    TagView(idx, t);
    assert (exists x :: x in idx.manifests && p(x) && x.tag == Some(t)) <==>
           d.tag == Some(t) && Tagged(idx.manifests, t, d.digest);
    if IndexFunc(idx.manifests, OtherReference(d.digest, d.tag.value)) >= 0 {
      RecordDeletedLast(idx.history, idx.manifests, p, now, t);
    } else {
      var mi := IndexFunc(idx.manifests, p);
      if mi >= 0 {
        LoggedLast(idx.history, idx.manifests[mi], true, now, t);
        assert idx.manifests[mi] in idx.manifests;
      }
    }
  }

  lemma RmDigestLogged(idx: Index, d: Descriptor, now: int, t: Tag)
    requires Valid(idx) && d.tag.None?
    ensures LastOf(AfterRemove(idx, d, now).history, t) ==
            if ResolveTag(idx, t) == Some(d.digest) then None else LastOf(idx.history, t)
  {
    var p := HasDigest(d.digest);
    TagView(idx, t);
    RecordDeletedLast(idx.history, idx.manifests, p, now, t);
    assert (exists x :: x in idx.manifests && p(x) && x.tag == Some(t)) <==> Tagged(idx.manifests, t, d.digest);
  }

  lemma RmFaithful(idx: Index, d: Descriptor, now: int)
    requires Valid(idx) && Faithful(idx)
    ensures Faithful(AfterRemove(idx, d, now))
  {
    var r := AfterRemove(idx, d, now);
    if d.tag.Some? {
      RmTagRefines(idx, d, now);
    } else {
      RmDigestRefines(idx, d, now);
    }
    forall t: Tag ensures LastOf(r.history, t) == ResolveTag(r, t) {
      assert LastOf(idx.history, t) == ResolveTag(idx, t);
      if d.tag.Some? {
        RmTagLogged(idx, d, now, t);
      } else {
        RmDigestLogged(idx, d, now, t);
      }
    }
  }

  /** Recording a batch of deletions appends one item for the deleted entry of a tag, and none otherwise. */
  lemma {:induction false} RecordDeletedItems(
      history: map<Tag, seq<HistoryItem>>, ms: seq<Descriptor>, p: Descriptor -> bool, now: int, t: Tag)
    requires UniqueTags(ms)
    ensures var h := HistoryOf(RecordDeleted(history, ms, p, now), t);
            && ((forall x | x in ms && x.tag == Some(t) :: !p(x)) ==> h == HistoryOf(history, t))
            && (forall x | x in ms && x.tag == Some(t) && p(x) :: h == HistoryOf(history, t) + [Deletion(x, now)])
  {
    if ms != [] {
      var init := ms[..|ms| - 1];
      var last := ms[|ms| - 1];
      RecordDeletedItems(history, init, p, now, t);
      assert forall x :: x in ms <==> x in init || x == last;
      forall x | x in init && x.tag == Some(t) ensures last.tag != Some(t) {
        var i :| 0 <= i < |init| && init[i] == x;
        assert ms[i] == x;
      }
    }
  }

  function Deletion(d: Descriptor, now: int): HistoryItem {
    HistoryItem(now, true, d.mediaType, d.digest, d.size)
  }

  /** The instant of a creation annotation; now if there is none, or it is no time or the zero time. */
  function CreationTime(created: Option<Created>, now: int): int {
    match created
    case Some(At(time)) => if time == 0 then now else time
    case Some(NotATime(_)) => now
    case None => now
  }

  /** The history only grows: an add appends one item to the history of its own tag, and nothing else. */
  lemma AddHistoryItem(idx: Index, desc: Descriptor, listed: seq<Descriptor>, now: int, t: Tag)
    requires Valid(idx)
    ensures HistoryOf(AfterAdd(idx, desc, listed, now).history, t) ==
            HistoryOf(idx.history, t) +
            if desc.tag == Some(t) && desc.subject.None?
            then [HistoryItem(CreationTime(desc.created, now), false, desc.mediaType, desc.digest, desc.size)]
            else []
  {
    MoveChildrenKeeps(idx, listed);
  }

  /** The entry of a tag is the only one with that tag. */
  lemma TagEntry(idx: Index, t: Tag)
    requires UniqueTags(idx.manifests)
    ensures var mi := IndexFunc(idx.manifests, HasTag(t));
            && (mi < 0 ==> ResolveTag(idx, t).None?)
            && (mi >= 0 ==> ResolveTag(idx, t) == Some(idx.manifests[mi].digest) && idx.manifests[mi] in idx.manifests)
            && forall x | x in idx.manifests && x.tag == Some(t) :: mi >= 0 && x == idx.manifests[mi]
  {
    forall x | x in idx.manifests && x.tag == Some(t)
      ensures IndexFunc(idx.manifests, HasTag(t)) >= 0 && x == idx.manifests[IndexFunc(idx.manifests, HasTag(t))]
    {
      var i :| 0 <= i < |idx.manifests| && idx.manifests[i] == x;
      TagAt(idx.manifests, i);
    }
  }

  /** The history of `t` gained the deletion of an entry of `ms` that names `g`. */
  ghost predicate LoggedDeletion(
      ms: seq<Descriptor>, g: Digest, t: Tag, before: seq<HistoryItem>, after: seq<HistoryItem>, now: int)
  {
    exists x :: x in ms && x.tag == Some(t) && x.digest == g && after == before + [Deletion(x, now)]
  }

  lemma RemoveTagItem(idx: Index, d: Descriptor, now: int, t: Tag)
    requires Valid(idx) && d.tag.Some?
    ensures var before := HistoryOf(idx.history, t);
            var after := HistoryOf(AfterRemove(idx, d, now).history, t);
            if d.tag == Some(t) && ResolveTag(idx, t) == Some(d.digest)
            then LoggedDeletion(idx.manifests, d.digest, t, before, after, now)
            else after == before
  {
    TagEntry(idx, t);
    RecordDeletedItems(idx.history, idx.manifests, TaggedEntry(d.digest, d.tag.value), now, t);
  }

  lemma RemoveDigestItem(idx: Index, d: Descriptor, now: int, t: Tag)
    requires Valid(idx) && d.tag.None?
    ensures var before := HistoryOf(idx.history, t);
            var after := HistoryOf(AfterRemove(idx, d, now).history, t);
            if ResolveTag(idx, t) == Some(d.digest)
            then LoggedDeletion(idx.manifests, d.digest, t, before, after, now)
            else after == before
  {
    TagEntry(idx, t);
    RecordDeletedItems(idx.history, idx.manifests, HasDigest(d.digest), now, t);
  }

  /** A removal appends one deletion to the history of each tag it drops, and nothing else. */
  lemma RemoveHistoryItem(idx: Index, d: Descriptor, now: int, t: Tag)
    requires Valid(idx)
    ensures var r := AfterRemove(idx, d, now);
            var before := HistoryOf(idx.history, t);
            var after := HistoryOf(r.history, t);
            if ResolveTag(r, t) == ResolveTag(idx, t) then after == before
            else LoggedDeletion(idx.manifests, d.digest, t, before, after, now)
  {
    if d.tag.Some? {
      RmTagRefines(idx, d, now);
      RemoveTagItem(idx, d, now, t);
    } else {
      RmDigestRefines(idx, d, now);
      RemoveDigestItem(idx, d, now, t);
    }
  }

  lemma PutNothing(ms: seq<Descriptor>, d: Descriptor, k: nat)
    requires PlainAlone(ms) && k < |ms| && ms[k].digest == d.digest
    requires if d.tag.Some? then ms[k].tag == d.tag && ms[k].subject.None? else true
    ensures PutEntry(ms, d) == ms
  {
    assert CompatibleEntry(d)(ms[k]);
  }

  /** Adding again what is already listed, under the same tag or untagged, leaves the entries as they are. */
  lemma ReAddKeeps(idx: Index, desc: Descriptor, now: int)
    requires Valid(idx) && desc.subject.None?
    requires if desc.tag.Some? then Tagged(idx.manifests, desc.tag.value, desc.digest)
             else Names(idx.manifests, desc.digest)
    ensures AfterAdd(idx, desc, [], now).manifests == idx.manifests
  {
    var d := Stamp(desc, now);
    var ms := idx.manifests;
    if desc.tag.Some? {
      var x :| x in ms && x.tag == desc.tag && x.digest == desc.digest;
      var k :| 0 <= k < |ms| && ms[k] == x;
      UntagNone(ms, d.digest, d.tag.value, |ms|);
      PutNothing(ms, d, k);
    } else {
      NamesAt(ms, desc.digest);
      PutNothing(ms, d, IndexFunc(ms, HasDigest(desc.digest)));
    }
  }

  /* ---------- Runs ---------- */

  datatype Operation =
    | Add(desc: Descriptor, listed: seq<Descriptor>, now: int)
    | Remove(desc: Descriptor, now: int)

  function Apply(idx: Index, op: Operation): Index {
    match op
    case Add(d, listed, now) => AfterAdd(idx, d, listed, now)
    case Remove(d, now) => AfterRemove(idx, d, now)
  }

  /** The index after the operations `ops`, starting from the empty index of a new repository. */
  function Run(ops: seq<Operation>): Index {
    if ops == [] then EMPTY else Apply(Run(ops[..|ops| - 1]), ops[|ops| - 1])
  }

  /** The specification of a run: a map of tags and a set of digests. */
  datatype View = View(tags: map<Tag, Digest>, digests: set<Digest>)

  function ApplyView(v: View, op: Operation): View {
    match op
    case Add(d, _, _) =>
      if d.subject.Some? then v
      else View(if d.tag.Some? then v.tags[d.tag.value := d.digest] else v.tags, v.digests + {d.digest})
    case Remove(d, _) =>
      if d.tag.Some? then
        v.(tags := if TagIn(v, d.tag.value) == Some(d.digest) then v.tags - {d.tag.value} else v.tags)
      else
        View(map t | t in v.tags && v.tags[t] != d.digest :: v.tags[t], v.digests - {d.digest})
  }

  function RunView(ops: seq<Operation>): View {
    if ops == [] then View(map[], {}) else ApplyView(RunView(ops[..|ops| - 1]), ops[|ops| - 1])
  }

  function TagIn(v: View, t: Tag): Option<Digest> {
    if t in v.tags then Some(v.tags[t]) else None
  }

  predicate RunSingleRole(ops: seq<Operation>) {
    forall i | 0 <= i < |ops| :: SingleRole(ops[i].desc)
  }

  lemma AddApplies(idx: Index, d: Descriptor, listed: seq<Descriptor>, now: int, v: View)
    requires Valid(idx) && Faithful(idx) && SingleRole(d)
    requires forall t :: ResolveTag(idx, t) == TagIn(v, t)
    ensures var r := AfterAdd(idx, d, listed, now);
            && Valid(r) && Faithful(r)
            && forall t :: ResolveTag(r, t) == TagIn(ApplyView(v, Add(d, listed, now)), t)
  {
    AddFaithful(idx, d, listed, now);
    if d.subject.Some? {
      AddResponseRefines(idx, d, listed, now);
    } else {
      AddRefines(idx, d, listed, now);
    }
  }

  lemma RemoveApplies(idx: Index, d: Descriptor, now: int, v: View)
    requires Valid(idx) && Faithful(idx)
    requires forall t :: ResolveTag(idx, t) == TagIn(v, t)
    ensures var r := AfterRemove(idx, d, now);
            && Valid(r) && Faithful(r)
            && forall t :: ResolveTag(r, t) == TagIn(ApplyView(v, Remove(d, now)), t)
  {
    RmFaithful(idx, d, now);
    if d.tag.Some? {
      RmTagRefines(idx, d, now);
    } else {
      RmDigestRefines(idx, d, now);
    }
  }

  /** After every run of single-role adds and removes the index is valid, its tags are those of the tag map,
      and a tag resolves to a digest exactly when its last history item is not a deletion and names it. */
  lemma {:induction false} RunRefines(ops: seq<Operation>)
    requires RunSingleRole(ops)
    ensures Valid(Run(ops)) && Faithful(Run(ops))
    ensures forall t :: ResolveTag(Run(ops), t) == TagIn(RunView(ops), t)
  {
    if ops != [] {
      RunRefines(ops[..|ops| - 1]);
      match ops[|ops| - 1]
      case Add(d, listed, now) => AddApplies(Run(ops[..|ops| - 1]), d, listed, now, RunView(ops[..|ops| - 1]));
      case Remove(d, now) => RemoveApplies(Run(ops[..|ops| - 1]), d, now, RunView(ops[..|ops| - 1]));
    }
  }

  /** A digest that is not the response of `s` resolves through something else. */
  lemma NotResponseBesides(idx: Index, s: Digest, g: Digest)
    requires Valid(idx) && ResponseOf(idx, s) != Some(g)
    ensures NamedBesides(idx, s, g) <==> Resolves(idx, g)
  {
    if x :| x in idx.manifests && x.digest == g && x.subject == Some(s) {
      ResponseView(idx, s);
      assert Answers(idx.manifests, s, g);
    }
  }

  predicate NeverResponse(ops: seq<Operation>, g: Digest) {
    forall i | 0 <= i < |ops| && ops[i].Add? && ops[i].desc.digest == g :: ops[i].desc.subject.None?
  }

  /** In every run, with referrers responses or not, GetDesc resolves a digest that is never added as a response
      exactly when the digest set holds it; and no response takes its place. */
  lemma {:induction false} RunResolves(ops: seq<Operation>, g: Digest)
    requires RunSingleRole(ops) && NeverResponse(ops, g)
    ensures Resolves(Run(ops), g) <==> g in RunView(ops).digests
    ensures forall s :: ResponseOf(Run(ops), s) != Some(g)
  {
    if ops != [] {
      var before := ops[..|ops| - 1];
      RunRefines(before);
      RunResolves(before, g);
      match ops[|ops| - 1]
      case Add(d, listed, now) =>
        if d.subject.Some? {
          AddResponseRefines(Run(before), d, listed, now);
          NotResponseBesides(Run(before), d.subject.value, g);
        } else {
          AddRefines(Run(before), d, listed, now);
        }
      case Remove(d, now) =>
        if d.tag.Some? {
          RmTagRefines(Run(before), d, now);
        } else {
          RmDigestRefines(Run(before), d, now);
        }
    }
  }

  /** Nothing but the media type, digest and size. */
  predicate Bare(d: Descriptor) {
    d.artifactType == "" && d.urls == [] && d.created.None? && d.tag.None? && d.subject.None? && d.other == map[]
  }

  /** `d` describes the same content as some descriptor of `ds`. */
  ghost predicate Describes(ds: seq<Descriptor>, d: Descriptor) {
    exists x :: x in ds && x.digest == d.digest && x.mediaType == d.mediaType && x.size == d.size
  }

  /** GetDesc answers from the abstract view: a tag with its entry, a digest with what an entry says about it, or
      else a child, stripped of everything that could be mistaken for a tag. */
  lemma FindView(idx: Index, arg: Reference)
    ensures var r := Find(idx, arg);
            match arg
            case TagRef(t) =>
              if ResolveTag(idx, t).Some?
              then r.Found? && r.desc in idx.manifests && r.desc.tag == Some(t) &&
                   Some(r.desc.digest) == ResolveTag(idx, t)
              else r == NotFound
            case DigestRef(g) =>
              if Resolves(idx, g)
              then r.Found? && r.desc.digest == g && Bare(r.desc) &&
                   Describes(if Names(idx.manifests, g) then idx.manifests else idx.children, r.desc)
              else r == NotFound
            case Unparsable => r == ParseFailed
  {
    if arg.DigestRef? {
      var mi := IndexFunc(idx.manifests, HasDigest(arg.digest));
      var ci := IndexFunc(idx.children, HasDigest(arg.digest));
      NamesAt(idx.manifests, arg.digest);
      NamesAt(idx.children, arg.digest);
      assert mi >= 0 ==> idx.manifests[mi] in idx.manifests;
      assert ci >= 0 ==> idx.children[ci] in idx.children;
    }
  }

  lemma NamesAt(ds: seq<Descriptor>, g: Digest)
    ensures Names(ds, g) <==> IndexFunc(ds, HasDigest(g)) >= 0
  {
    if x :| x in ds && x.digest == g {
      var i :| 0 <= i < |ds| && ds[i] == x;
      assert HasDigest(g)(ds[i]);
    }
  }

  /** Single role is needed: a tagged descriptor that is also a referrers response resolves by its tag
      although the history never mentions the tag. */
  lemma TaggedResponseNotLogged(d: Descriptor, now: int)
    requires d.tag.Some? && d.subject.Some?
    ensures var idx := AfterAdd(EMPTY, d, [], now);
            ResolveTag(idx, d.tag.value) == Some(d.digest) && LastOf(idx.history, d.tag.value) == None && !Faithful(idx)
  {
    var idx := AfterAdd(EMPTY, d, [], now);
    assert idx.manifests == [Stamp(d, now)];
    assert HasTag(d.tag.value)(idx.manifests[0]);
  }
}
