/** What a push puts into the index: which entry a lookup finds by each pushed tag, and by the digest. */
module PushLaws {
  import opened Types
  import opened Layout
  import opened LayoutLaws
  import opened Store
  import opened Manifests
  import opened Requests
  import RestartLaws
  import ReferrerLaws

  /** An entry as a push at time `now` makes it, under tag `t`. */
  predicate PushedEntry(x: Descriptor, req: PutRequest, t: Option<Tag>, now: int) {
    && x.mediaType == req.mediaType && x.digest == req.digest && x.size == req.body.size
    && x.artifactType == "" && x.urls == [] && x.other == map[]
    && x.created == Some(At(now)) && x.tag == t && x.subject.None?
  }

  lemma PushedMeaning(req: PutRequest, t: Option<Tag>, now: int)
    ensures PushedEntry(Stamp(PushedDesc(req, t), now), req, t, now)
    ensures forall x :: PushedEntry(x, req, t, now) ==> x == Stamp(PushedDesc(req, t), now)
  {
  }

  /** A descriptor that is not stamped gets the time of the add; a creation annotation it has is kept. */
  lemma StampMeaning(d: Descriptor, now: int)
    ensures var s := Stamp(d, now);
            && s.created == (if d.created.None? then Some(At(now)) else d.created)
            && s.(created := None) == d.(created := None)
  {
  }

  /* ---------- Entries that an add leaves alone ---------- */

  lemma {:induction false} MoveKeepsMarked(idx: Index, listed: seq<Descriptor>, x: Descriptor)
    requires x in idx.manifests && !AnnotationsEmpty(x)
    ensures x in MoveChildren(idx, listed).manifests
    decreases |listed|
  {
    if listed != [] {
      var mi := IndexFunc(idx.manifests, PlainEntry(listed[0].digest));
      if mi >= 0 {
        var i :| 0 <= i < |idx.manifests| && idx.manifests[i] == x;
        assert DeleteAt(idx.manifests, mi)[if i < mi then i else i - 1] == x;
      }
      MoveKeepsMarked(MoveChild(idx, listed[0]), listed[1..], x);
    }
  }

  lemma UntagAtLeaves(ms: seq<Descriptor>, g: Digest, t: Tag, k: nat, x: Descriptor)
    requires k < |ms| && x in ms && x != ms[k]
    ensures x in UntagAt(ms, g, t, k)
  {
    var i :| 0 <= i < |ms| && ms[i] == x;
    var r := UntagAt(ms, g, t, k);
    if |r| == |ms| {
      assert r[i] == x;
    } else {
      assert r[if i < k then i else i - 1] == x;
    }
  }

  lemma {:induction false} MoveMoves(idx: Index, listed: seq<Descriptor>)
    requires Valid(idx)
    ensures forall x | x in MoveChildren(idx, listed).manifests && AnnotationsEmpty(x) :: !Names(listed, x.digest)
    ensures forall x | x in MoveChildren(idx, listed).manifests :: x in idx.manifests
    decreases |listed|
  {
    if listed != [] {
      var c := listed[0];
      var next := MoveChild(idx, c);
      MoveChildKeeps(idx, c);
      MoveMoves(next, listed[1..]);
      RestartLaws.MoveChildrenEntries(idx, listed);
      PlainGone(idx, c);
      forall x | x in MoveChildren(idx, listed).manifests && AnnotationsEmpty(x) ensures !Names(listed, x.digest) {
        assert forall y | y in listed :: y == c || y in listed[1..];
        assert x in next.manifests;
      }
    }
  }

  lemma PlainGone(idx: Index, c: Descriptor)
    requires Valid(idx)
    ensures forall x | x in MoveChild(idx, c).manifests && AnnotationsEmpty(x) :: x.digest != c.digest
  {
    var mi := IndexFunc(idx.manifests, PlainEntry(c.digest));
    if mi >= 0 {
      PlainDeleted(idx.manifests, mi);
    } else {
      assert forall i | 0 <= i < |idx.manifests| :: !PlainEntry(c.digest)(idx.manifests[i]);
    }
  }

  /** After an untagged push of an index no plain entry but its own names a manifest that it lists: those entries have
      become children. */
  lemma ListedMoved(idx: Index, req: PutRequest, now: int)
    requires Valid(idx) && req.tags == []
    ensures var r := Inserted(idx, req, now);
            && (forall x | x in r.manifests && AnnotationsEmpty(x) && x.digest != req.digest ::
                  !Names(ListedBy(req), x.digest))
            && (forall x | x in idx.manifests && AnnotationsEmpty(x) && Names(ListedBy(req), x.digest) &&
                           x.digest != req.digest :: Names(r.children, x.digest))
  {
    var d := PushedDesc(req, None);
    var moved := MoveChildren(idx, ListedBy(req));
    var r := Inserted(idx, req, now);
    MoveMoves(idx, ListedBy(req));
    MoveChildrenKeeps(idx, ListedBy(req));
    RestartLaws.PutEntryMembers(moved.manifests, Stamp(d, now));
    AddRefines(idx, d, ListedBy(req), now);
    forall x | x in idx.manifests && AnnotationsEmpty(x) && Names(ListedBy(req), x.digest) && x.digest != req.digest
      ensures Names(r.children, x.digest)
    {
      PlainMovedIn(idx, ListedBy(req), x);
      DeleteFuncNames(moved.children, req.digest);
    }
  }

  lemma {:induction false} PlainMovedIn(idx: Index, listed: seq<Descriptor>, x: Descriptor)
    requires Valid(idx) && Names(listed, x.digest)
    requires (x in idx.manifests && AnnotationsEmpty(x)) || Names(idx.children, x.digest)
    ensures Names(MoveChildren(idx, listed).children, x.digest)
    decreases |listed|
  {
    var c := listed[0];
    var next := MoveChild(idx, c);
    var mi := IndexFunc(idx.manifests, PlainEntry(c.digest));
    MoveChildKeeps(idx, c);
    ChildrenStay(next, listed[1..], x.digest);
    if mi >= 0 {
      assert c in next.children && forall y | y in idx.children :: y in next.children;
    }
    if x in idx.manifests && AnnotationsEmpty(x) {
      var i :| 0 <= i < |idx.manifests| && idx.manifests[i] == x;
      if c.digest == x.digest {
        assert PlainEntry(c.digest)(idx.manifests[i]);
        assert Names(next.children, x.digest);
      } else {
        if mi >= 0 {
          assert DeleteAt(idx.manifests, mi)[if i < mi then i else i - 1] == x;
        }
        assert forall y | y in listed :: y == c || y in listed[1..];
        PlainMovedIn(next, listed[1..], x);
      }
    } else {
      assert Names(next.children, x.digest);
    }
  }

  lemma {:induction false} ChildrenStay(idx: Index, listed: seq<Descriptor>, g: Digest)
    ensures Names(idx.children, g) ==> Names(MoveChildren(idx, listed).children, g)
    decreases |listed|
  {
    if listed != [] {
      assert forall y | y in idx.children :: y in MoveChild(idx, listed[0]).children;
      ChildrenStay(MoveChild(idx, listed[0]), listed[1..], g);
    }
  }

  /** Untagging keeps every entry that does not have the tag, or has it for this digest. */
  lemma UntagLeaves(ms: seq<Descriptor>, d: Descriptor, x: Descriptor)
    requires ManifestsValid(ms) && x in ms && (d.tag.None? || x.tag != d.tag || x.digest == d.digest)
    ensures x in Untag(ms, d)
  {
    if d.tag.Some? {
      var t := d.tag.value;
      if k :| 0 <= k < |ms| && ms[k].tag == Some(t) && ms[k].digest != d.digest {
        UntagHit(ms, d.digest, t, k, |ms|);
        UntagAtLeaves(ms, d.digest, t, k, x);
      } else {
        UntagNone(ms, d.digest, t, |ms|);
      }
    }
  }

  lemma PutLeaves(ms: seq<Descriptor>, d: Descriptor, x: Descriptor)
    requires x in ms && !AnnotationsEmpty(x)
    ensures x in PutEntry(ms, d)
  {
    var mi := IndexFunc(ms, CompatibleEntry(d));
    var i :| 0 <= i < |ms| && ms[i] == x;
    if mi >= 0 {
      assert PutEntry(ms, d)[i] == x;
    } else {
      assert PutEntry(ms, d)[i] == x;
    }
  }

  /** An add keeps every tagged entry but that of its own tag for another digest. */
  lemma AddKeepsTagged(idx: Index, desc: Descriptor, listed: seq<Descriptor>, now: int, x: Descriptor)
    requires Valid(idx) && SingleRole(desc) && desc.subject.None?
    requires x in idx.manifests && x.tag.Some? && (x.tag != desc.tag || x.digest == desc.digest)
    ensures x in AfterAdd(idx, desc, listed, now).manifests
  {
    var d := Stamp(desc, now);
    var moved := MoveChildren(idx, listed);
    MoveChildrenKeeps(idx, listed);
    MoveKeepsMarked(idx, listed, x);
    UntagLeaves(moved.manifests, d, x);
    PutLeaves(Untag(moved.manifests, d), d, x);
  }

  /** A tag that is new for the digest gets the added descriptor as its entry. */
  lemma AddPutsTagged(idx: Index, desc: Descriptor, listed: seq<Descriptor>, now: int)
    requires Valid(idx) && SingleRole(desc) && desc.subject.None? && desc.tag.Some?
    requires ResolveTag(idx, desc.tag.value) != Some(desc.digest)
    ensures Stamp(desc, now) in AfterAdd(idx, desc, listed, now).manifests
  {
    var d := Stamp(desc, now);
    var t := d.tag.value;
    var moved := MoveChildren(idx, listed);
    MoveChildrenKeeps(idx, listed);
    UntagKeeps(moved.manifests, d);
    TagView(idx, t);
    var ms := Untag(moved.manifests, d);
    forall x | x in ms ensures x.tag != d.tag {
      if x.tag == d.tag {
        assert Tagged(ms, t, x.digest);
      }
    }
    PutsNew(ms, d);
  }

  lemma PutsNew(ms: seq<Descriptor>, d: Descriptor)
    requires d.tag.Some? && forall x | x in ms :: x.tag != d.tag
    ensures d in PutEntry(ms, d)
  {
    var mi := IndexFunc(ms, CompatibleEntry(d));
    if mi >= 0 {
      assert ms[mi] in ms;
      assert PutEntry(ms, d)[mi] == d;
    }
  }

  /* ---------- The entry of a pushed tag ---------- */

  /** Tag `t` has the entry of this push, or keeps the entry it had for the same digest. */
  ghost predicate TagEntered(before: Index, after: Index, req: PutRequest, t: Tag, now: int) {
    if ResolveTag(before, t) == Some(req.digest)
    then forall x | x in before.manifests && x.tag == Some(t) :: x in after.manifests
    else exists x :: x in after.manifests && PushedEntry(x, req, Some(t), now)
  }

  lemma TaggedDigest(idx: Index, x: Descriptor)
    requires UniqueTags(idx.manifests) && x in idx.manifests && x.tag.Some?
    ensures ResolveTag(idx, x.tag.value) == Some(x.digest)
  {
    TagView(idx, x.tag.value);
    assert Tagged(idx.manifests, x.tag.value, x.digest);
  }

  lemma {:induction false} InsertTagsEnter(idx: Index, req: PutRequest, tags: seq<Tag>, now: int, t: Tag)
    requires Valid(idx)
    ensures var r := InsertTags(idx, req, tags, now);
            && Valid(r)
            && (t in tags ==> TagEntered(idx, r, req, t, now))
            && (t !in tags ==> forall x | x in idx.manifests && x.tag == Some(t) :: x in r.manifests)
  {
    ReferrerLaws.InsertTagsKeeps(idx, req, tags, now);
    if tags != [] {
      var init, u := tags[..|tags| - 1], tags[|tags| - 1];
      var mid := InsertTags(idx, req, init, now);
      ReferrerLaws.InsertTagsKeeps(idx, req, init, now);
      InsertTagsEnter(idx, req, init, now, t);
      assert t in tags <==> t in init || t == u;
      LastTagEnters(idx, mid, req, u, now, t, t in init);
    }
  }

  lemma LastTagEnters(idx: Index, mid: Index, req: PutRequest, u: Tag, now: int, t: Tag, done: bool)
    requires Valid(idx) && Valid(mid)
    requires ResolveTag(mid, t) == if done then Some(req.digest) else ResolveTag(idx, t)
    requires if done then TagEntered(idx, mid, req, t, now)
             else forall x | x in idx.manifests && x.tag == Some(t) :: x in mid.manifests
    ensures var r := AfterAdd(mid, PushedDesc(req, Some(u)), ListedBy(req), now);
            if done || t == u then TagEntered(idx, r, req, t, now)
            else forall x | x in idx.manifests && x.tag == Some(t) :: x in r.manifests
  {
    var d := PushedDesc(req, Some(u));
    var r := AfterAdd(mid, d, ListedBy(req), now);
    forall x | x in mid.manifests && x.tag == Some(t) && (t != u || ResolveTag(mid, t) == Some(req.digest))
      ensures x in r.manifests
    {
      TaggedDigest(mid, x);
      AddKeepsTagged(mid, d, ListedBy(req), now, x);
    }
    if t == u && ResolveTag(mid, t) != Some(req.digest) {
      AddPutsTagged(mid, d, ListedBy(req), now);
      PushedMeaning(req, Some(t), now);
    }
  }

  lemma ResponseKeepsTagged(
      codec: Codec, r: Repository, subject: Digest, list: seq<Descriptor>, now: int, x: Descriptor)
    requires Valid(r.index) && x in r.index.manifests && x.tag.Some?
    ensures x in StoreResponse(codec, r, subject, list, now).index.manifests
  {
    var desc := ResponseDesc(codec, subject, list);
    assert SingleRole(x);
    MoveChildrenKeeps(r.index, list);
    MoveKeepsMarked(r.index, list, x);
    PutResponseKeeps(MoveChildren(r.index, list).manifests, Stamp(desc, now));
  }

  lemma PutEnters(conf: ApiConfig, codec: Codec, r: Repository, req: PutRequest, now: int, t: Tag)
    requires Valid(r.index) && Accepted(conf, r.blobs, req) && t in req.tags
    ensures TagEntered(r.index, AfterPut(conf, codec, r, req, now).index, req, t, now)
  {
    var p := Pushed(r, req, now);
    var n := AfterPut(conf, codec, r, req, now);
    InsertTagsEnter(r.index, req, req.tags, now, t);
    if conf.referrers && req.body.referrer.Some? {
      var subject := req.body.referrer.value.subject;
      var list := WithReferrer(ReferrersOf(p, subject), ReferrerEntry(req));
      forall x | x in p.index.manifests && x.tag.Some? ensures x in n.index.manifests {
        ResponseKeepsTagged(codec, p, subject, list, now, x);
      }
    }
  }

  lemma TagFinds(idx: Index, x: Descriptor)
    requires Valid(idx) && x in idx.manifests && x.tag.Some?
    ensures Find(idx, TagRef(x.tag.value)) == Found(x)
  {
    var i :| 0 <= i < |idx.manifests| && idx.manifests[i] == x;
    TagAt(idx.manifests, i);
  }

  /** After an accepted push, with or without a subject, a lookup by each pushed tag finds what the push names: its
      media type, digest and size, created now. Only a tag that already named the digest keeps its earlier entry. */
  lemma PushedTagFound(conf: ApiConfig, codec: Codec, r: Repository, req: PutRequest, now: int, t: Tag)
    requires Valid(r.index) && Accepted(conf, r.blobs, req) && t in req.tags
    ensures var found := Find(AfterPut(conf, codec, r, req, now).index, TagRef(t));
            && found.Found?
            && if ResolveTag(r.index, t) == Some(req.digest) then found == Find(r.index, TagRef(t))
               else PushedEntry(found.desc, req, Some(t), now)
  {
    var n := AfterPut(conf, codec, r, req, now);
    PutEnters(conf, codec, r, req, now, t);
    PutValid(conf, codec, r, req, now);
    if ResolveTag(r.index, t) == Some(req.digest) {
      FindView(r.index, TagRef(t));
      TagFinds(n.index, Find(r.index, TagRef(t)).desc);
    } else {
      var x :| x in n.index.manifests && PushedEntry(x, req, Some(t), now);
      TagFinds(n.index, x);
    }
  }

  lemma PutValid(conf: ApiConfig, codec: Codec, r: Repository, req: PutRequest, now: int)
    requires Valid(r.index) && Accepted(conf, r.blobs, req)
    ensures Valid(AfterPut(conf, codec, r, req, now).index)
  {
    ReferrerLaws.InsertedKeeps(r.index, req, now);
    if conf.referrers && req.body.referrer.Some? {
      var p := Pushed(r, req, now);
      var subject := req.body.referrer.value.subject;
      var list := WithReferrer(ReferrersOf(p, subject), ReferrerEntry(req));
      AddResponseRefines(p.index, ResponseDesc(codec, subject, list), list, now);
    }
  }

  /* ---------- The first entry of a digest ---------- */

  function FirstEntry(ms: seq<Descriptor>, g: Digest): Option<Descriptor> {
    var mi := IndexFunc(ms, HasDigest(g));
    if mi >= 0 then Some(ms[mi]) else None
  }

  lemma FirstIs(ms: seq<Descriptor>, g: Digest, i: nat)
    requires i < |ms| && ms[i].digest == g && forall j | 0 <= j < i :: ms[j].digest != g
    ensures FirstEntry(ms, g) == Some(ms[i])
  {
    assert HasDigest(g)(ms[i]);
    assert forall j | 0 <= j < i :: !HasDigest(g)(ms[j]);
  }

  lemma FirstNone(ms: seq<Descriptor>, g: Digest)
    requires forall i | 0 <= i < |ms| :: ms[i].digest != g
    ensures FirstEntry(ms, g) == None
  {
    assert forall i | 0 <= i < |ms| :: !HasDigest(g)(ms[i]);
  }

  lemma FirstAt(ms: seq<Descriptor>, g: Digest)
    ensures FirstEntry(ms, g).None? ==> forall i | 0 <= i < |ms| :: ms[i].digest != g
    ensures FirstEntry(ms, g).Some? ==>
              exists i :: 0 <= i < |ms| && FirstEntry(ms, g) == Some(ms[i]) && ms[i].digest == g &&
                          forall j | 0 <= j < i :: ms[j].digest != g
  {
    var mi := IndexFunc(ms, HasDigest(g));
    assert forall j | 0 <= j < |ms| :: HasDigest(g)(ms[j]) <==> ms[j].digest == g;
    if mi >= 0 {
      assert FirstEntry(ms, g) == Some(ms[mi]) && ms[mi].digest == g;
    }
  }

  /** Deleting or changing an entry of another digest does not change the first entry of this one. */
  lemma FirstOtherDeleted(ms: seq<Descriptor>, k: nat, g: Digest)
    requires k < |ms| && ms[k].digest != g
    ensures FirstEntry(DeleteAt(ms, k), g) == FirstEntry(ms, g)
  {
    FirstAt(ms, g);
    var r := DeleteAt(ms, k);
    if FirstEntry(ms, g).Some? {
      var i :| 0 <= i < |ms| && FirstEntry(ms, g) == Some(ms[i]) && ms[i].digest == g &&
               forall j | 0 <= j < i :: ms[j].digest != g;
      FirstIs(r, g, if i < k then i else i - 1);
    } else {
      FirstNone(r, g);
    }
  }

  lemma FirstOtherChanged(ms: seq<Descriptor>, k: nat, x: Descriptor, g: Digest)
    requires k < |ms| && ms[k].digest != g && x.digest != g
    ensures FirstEntry(ms[k := x], g) == FirstEntry(ms, g)
  {
    FirstAt(ms, g);
    if FirstEntry(ms, g).Some? {
      var i :| 0 <= i < |ms| && FirstEntry(ms, g) == Some(ms[i]) && ms[i].digest == g &&
               forall j | 0 <= j < i :: ms[j].digest != g;
      FirstIs(ms[k := x], g, i);
    } else {
      FirstNone(ms[k := x], g);
    }
  }

  lemma {:induction false} MoveKeepsFirst(idx: Index, listed: seq<Descriptor>, g: Digest)
    requires !Names(listed, g)
    ensures FirstEntry(MoveChildren(idx, listed).manifests, g) == FirstEntry(idx.manifests, g)
    decreases |listed|
  {
    if listed != [] {
      var mi := IndexFunc(idx.manifests, PlainEntry(listed[0].digest));
      assert listed[0] in listed && forall y | y in listed[1..] :: y in listed;
      if mi >= 0 {
        FirstOtherDeleted(idx.manifests, mi, g);
      }
      MoveKeepsFirst(MoveChild(idx, listed[0]), listed[1..], g);
    }
  }

  lemma UntagAtKeepsFirst(ms: seq<Descriptor>, g: Digest, t: Tag, k: nat)
    requires k < |ms|
    ensures FirstEntry(UntagAt(ms, g, t, k), g) == FirstEntry(ms, g)
  {
    if ms[k].digest != g {
      FirstOtherDeleted(ms, k, g);
      FirstOtherChanged(ms, k, ms[k].(tag := None), g);
    }
  }

  lemma UntagKeepsFirst(ms: seq<Descriptor>, d: Descriptor)
    requires ManifestsValid(ms)
    ensures FirstEntry(Untag(ms, d), d.digest) == FirstEntry(ms, d.digest)
  {
    if d.tag.Some? {
      var t := d.tag.value;
      if k :| 0 <= k < |ms| && ms[k].tag == Some(t) && ms[k].digest != d.digest {
        UntagHit(ms, d.digest, t, k, |ms|);
        UntagAtKeepsFirst(ms, d.digest, t, k);
      } else {
        UntagNone(ms, d.digest, t, |ms|);
      }
    }
  }

  /** The first entry of a digest after `d` is put: the one before, unless there was none, or a tag was added to a
      plain one. */
  function FirstAfter(first: Option<Descriptor>, d: Descriptor): Descriptor {
    if first.None? || (AnnotationsEmpty(first.value) && d.tag.Some?) then d else first.value
  }

  lemma PutFirst(ms: seq<Descriptor>, d: Descriptor)
    ensures FirstEntry(PutEntry(ms, d), d.digest) == Some(FirstAfter(FirstEntry(ms, d.digest), d))
  {
    var g := d.digest;
    var mi := IndexFunc(ms, CompatibleEntry(d));
    var r := PutEntry(ms, d);
    FirstAt(ms, g);
    assert forall j | 0 <= j < |ms| :: CompatibleEntry(d)(ms[j]) <==>
             ms[j].digest == g && (d.tag.None? || AnnotationsEmpty(ms[j]) || ms[j].tag == d.tag);
    if FirstEntry(ms, g).None? {
      FirstIs(r, g, |ms|);
    } else {
      var i :| 0 <= i < |ms| && FirstEntry(ms, g) == Some(ms[i]) && ms[i].digest == g &&
               forall j | 0 <= j < i :: ms[j].digest != g;
      FirstIs(r, g, i);
    }
  }

  lemma AddFirst(idx: Index, desc: Descriptor, listed: seq<Descriptor>, now: int)
    requires Valid(idx) && desc.subject.None? && !Names(listed, desc.digest)
    ensures FirstEntry(AfterAdd(idx, desc, listed, now).manifests, desc.digest) ==
            Some(FirstAfter(FirstEntry(idx.manifests, desc.digest), Stamp(desc, now)))
  {
    var d := Stamp(desc, now);
    var moved := MoveChildren(idx, listed);
    MoveChildrenKeeps(idx, listed);
    MoveKeepsFirst(idx, listed, d.digest);
    UntagKeepsFirst(moved.manifests, d);
    PutFirst(Untag(moved.manifests, d), d);
  }

  /** The first entry of the digest of a push. */
  function FirstPushed(first: Option<Descriptor>, req: PutRequest, tags: seq<Tag>, now: int): Descriptor {
    FirstAfter(first, Stamp(PushedDesc(req, if tags == [] then None else Some(tags[0])), now))
  }

  lemma {:induction false} InsertTagsFirst(idx: Index, req: PutRequest, tags: seq<Tag>, now: int)
    requires Valid(idx) && !Names(ListedBy(req), req.digest) && tags != []
    ensures FirstEntry(InsertTags(idx, req, tags, now).manifests, req.digest) ==
            Some(FirstPushed(FirstEntry(idx.manifests, req.digest), req, tags, now))
  {
    var init := tags[..|tags| - 1];
    var mid := InsertTags(idx, req, init, now);
    var d := PushedDesc(req, Some(tags[|tags| - 1]));
    ReferrerLaws.InsertTagsKeeps(idx, req, init, now);
    AddFirst(mid, d, ListedBy(req), now);
    if init != [] {
      InsertTagsFirst(idx, req, init, now);
      assert init[0] == tags[0];
    }
  }

  lemma DigestFinds(idx: Index, g: Digest)
    requires FirstEntry(idx.manifests, g).Some?
    ensures Find(idx, DigestRef(g)) == Found(Strip(FirstEntry(idx.manifests, g).value))
  {
  }

  /** After an accepted push that stores no response, a lookup by digest finds what the push names if the digest had
      no entry, or a plain one that the push tags; otherwise it finds what the first earlier entry says. So it finds
      the pushed media type and size exactly when such an earlier entry, if there is one, agrees. */
  lemma PushedDigestFound(conf: ApiConfig, codec: Codec, r: Repository, req: PutRequest, now: int)
    requires Valid(r.index) && Accepted(conf, r.blobs, req) && !Names(ListedBy(req), req.digest)
    requires !conf.referrers || req.body.referrer.None?
    ensures var found := Find(AfterPut(conf, codec, r, req, now).index, DigestRef(req.digest));
            var first := FirstEntry(r.index.manifests, req.digest);
            && found.Found? && found.desc.digest == req.digest
            && if first.None? || (AnnotationsEmpty(first.value) && req.tags != [])
               then found.desc.mediaType == req.mediaType && found.desc.size == req.body.size
               else found.desc.mediaType == first.value.mediaType && found.desc.size == first.value.size
  {
    FirstAt(r.index.manifests, req.digest);
    if req.tags == [] {
      AddFirst(r.index, PushedDesc(req, None), ListedBy(req), now);
      PushedMeaning(req, None, now);
    } else {
      InsertTagsFirst(r.index, req, req.tags, now);
      PushedMeaning(req, Some(req.tags[0]), now);
    }
    DigestFinds(Inserted(r.index, req, now), req.digest);
  }

  /* ---------- Any push, when earlier entries agree ---------- */

  /** Every descriptor of the digest says this media type and size. */
  predicate Agree(ds: seq<Descriptor>, req: PutRequest) {
    forall i | 0 <= i < |ds| && ds[i].digest == req.digest ::
      ds[i].mediaType == req.mediaType && ds[i].size == req.body.size
  }

  predicate AllAgree(idx: Index, req: PutRequest) {
    Agree(idx.manifests, req) && Agree(idx.children, req)
  }

  lemma AddAgrees(idx: Index, req: PutRequest, t: Option<Tag>, now: int)
    requires Valid(idx) && Agree(idx.manifests, req)
    ensures var r := AfterAdd(idx, PushedDesc(req, t), ListedBy(req), now); Valid(r) && AllAgree(r, req)
  {
    var d := PushedDesc(req, t);
    var r := AfterAdd(idx, d, ListedBy(req), now);
    AddRefines(idx, d, ListedBy(req), now);
    RestartLaws.AddEntryNames(idx, d, ListedBy(req), now);
    forall i | 0 <= i < |r.manifests| && r.manifests[i].digest == req.digest
      ensures r.manifests[i].mediaType == req.mediaType && r.manifests[i].size == req.body.size
    {
      var x := r.manifests[i];
      assert x in r.manifests;
      if x != Stamp(d, now) {
        assert RestartLaws.Kept(x, idx.manifests);
        var y :| y in idx.manifests && SameTarget(x, y);
        assert y.digest == x.(tag := None).digest && y.mediaType == y.(tag := None).mediaType;
      }
    }
    forall c | c in r.children ensures c.digest != req.digest {
    }
    assert forall i | 0 <= i < |r.children| :: r.children[i] in r.children;
  }

  lemma {:induction false} InsertTagsAgree(idx: Index, req: PutRequest, tags: seq<Tag>, now: int)
    requires Valid(idx) && Agree(idx.manifests, req) && tags != []
    ensures var r := InsertTags(idx, req, tags, now); Valid(r) && AllAgree(r, req)
  {
    var init := tags[..|tags| - 1];
    if init != [] {
      InsertTagsAgree(idx, req, init, now);
    }
    AddAgrees(InsertTags(idx, req, init, now), req, Some(tags[|tags| - 1]), now);
  }

  lemma InsertedAgrees(idx: Index, req: PutRequest, now: int)
    requires Valid(idx) && Agree(idx.manifests, req)
    ensures Valid(Inserted(idx, req, now)) && AllAgree(Inserted(idx, req, now), req)
    ensures Resolves(Inserted(idx, req, now), req.digest)
  {
    ReferrerLaws.InsertedKeeps(idx, req, now);
    if req.tags == [] {
      AddAgrees(idx, req, None, now);
    } else {
      InsertTagsAgree(idx, req, req.tags, now);
    }
  }

  lemma ResponseAgrees(codec: Codec, r: Repository, subject: Digest, list: seq<Descriptor>, now: int, req: PutRequest)
    requires Valid(r.index) && AllAgree(r.index, req) && Agree(list, req) && codec.hash(list) != req.digest
    ensures AllAgree(StoreResponse(codec, r, subject, list, now).index, req)
  {
    var desc := ResponseDesc(codec, subject, list);
    var n := AfterAdd(r.index, desc, list, now);
    RestartLaws.ResponseEntries(r.index, desc, list, now);
    forall i | 0 <= i < |n.manifests| && n.manifests[i].digest == req.digest
      ensures n.manifests[i].mediaType == req.mediaType && n.manifests[i].size == req.body.size
    {
      assert n.manifests[i] in n.manifests && n.manifests[i] in r.index.manifests;
    }
    forall i | 0 <= i < |n.children| && n.children[i].digest == req.digest
      ensures n.children[i].mediaType == req.mediaType && n.children[i].size == req.body.size
    {
      assert n.children[i] in n.children;
    }
  }

  lemma ListAgrees(list: seq<Descriptor>, req: PutRequest)
    requires req.body.referrer.Some? && Agree(list, req)
    ensures Agree(WithReferrer(list, ReferrerEntry(req)), req)
  {
    ReferrerLaws.EntryMeaning(req);
  }

  lemma FoundAgrees(idx: Index, req: PutRequest)
    requires AllAgree(idx, req) && Resolves(idx, req.digest)
    ensures var found := Find(idx, DigestRef(req.digest));
            found.Found? && found.desc.digest == req.digest && found.desc.mediaType == req.mediaType &&
            found.desc.size == req.body.size
  {
    FindView(idx, DigestRef(req.digest));
  }

  /** The response that a push stores, if it has a subject, is not the pushed manifest itself, and neither is the
      response it replaces; and the replaced list agrees on what it says about the manifest. */
  predicate ResponseApart(conf: ApiConfig, codec: Codec, r: Repository, req: PutRequest, now: int) {
    conf.referrers && req.body.referrer.Some? ==>
      var p := Pushed(r, req, now);
      var subject := req.body.referrer.value.subject;
      && codec.hash(WithReferrer(ReferrersOf(p, subject), ReferrerEntry(req))) != req.digest
      && ResponseOf(r.index, subject) != Some(req.digest)
      && Agree(ReferrersOf(p, subject), req)
  }

  /** After any accepted push, with or without a subject, a lookup by digest finds the pushed media type and size, if
      the earlier entries of the digest say the same. */
  lemma PushedFound(conf: ApiConfig, codec: Codec, r: Repository, req: PutRequest, now: int)
    requires Valid(r.index) && Accepted(conf, r.blobs, req)
    requires Agree(r.index.manifests, req) && ResponseApart(conf, codec, r, req, now)
    ensures var found := Find(AfterPut(conf, codec, r, req, now).index, DigestRef(req.digest));
            found.Found? && found.desc.digest == req.digest && found.desc.mediaType == req.mediaType &&
            found.desc.size == req.body.size
  {
    var p := Pushed(r, req, now);
    var n := AfterPut(conf, codec, r, req, now);
    InsertedAgrees(r.index, req, now);
    if conf.referrers && req.body.referrer.Some? {
      var subject := req.body.referrer.value.subject;
      var list := WithReferrer(ReferrersOf(p, subject), ReferrerEntry(req));
      ReferrerLaws.InsertedKeeps(r.index, req, now);
      ListAgrees(ReferrersOf(p, subject), req);
      ResponseAgrees(codec, p, subject, list, now, req);
      AddResponseRefines(p.index, ResponseDesc(codec, subject, list), list, now);
      NotResponseBesides(p.index, subject, req.digest);
    }
    FoundAgrees(n.index, req);
  }

  /* ---------- What is accepted ---------- */

  /** A push is accepted exactly if it is an image whose body decodes and, unless sparse images are allowed, whose
      config is stored or has a source, and each of whose layers is stored, has a source or is a foreign layer; or an
      index whose body decodes and, unless sparse indexes are allowed, whose manifests are all stored. */
  lemma AcceptedMeaning(conf: ApiConfig, blobs: map<Digest, Blob>, req: PutRequest)
    ensures Accepted(conf, blobs, req) <==>
            || ((req.mediaType == DockerImage || req.mediaType == OciImage) && req.body.asImage.Some? &&
                var m := req.body.asImage.value;
                conf.sparseImage ||
                ((m.config.digest in blobs || m.config.urls != []) &&
                 forall d | d in m.layers :: d.digest in blobs || d.urls != [] || d.mediaType.ForeignLayer?))
            || ((req.mediaType == DockerIndex || req.mediaType == OciIndex) && req.body.asIndex.Some? &&
                (conf.sparseIndex || forall d | d in req.body.asIndex.value :: d.digest in blobs))
  {
  }

  /* ---------- The stored response ---------- */

  /** Storing a list: its subject is answered by an OCI index of the list's digest and size; the encoded list is
      stored under that digest, as of now unless it was there. */
  lemma ResponseStored(codec: Codec, r: Repository, subject: Digest, list: seq<Descriptor>, now: int)
    requires Valid(r.index)
    ensures var n := StoreResponse(codec, r, subject, list, now);
            var g := codec.hash(list);
            && ResponseOf(n.index, subject) == Some(g) && g in n.blobs
            && (g !in r.blobs ==> n.blobs[g] == codec.encode(list).(mod := now))
            && (forall h | h in r.blobs :: h in n.blobs && n.blobs[h] == r.blobs[h])
            && (forall h | h in n.blobs :: h in r.blobs || h == g)
            && exists x :: x in n.index.manifests && x.subject == Some(subject) && x.digest == g &&
                           x.mediaType == OciIndex && x.size == codec.encode(list).size && x.tag.None? &&
                           x.created == Some(At(now))
  {
    var desc := ResponseDesc(codec, subject, list);
    AddResponseRefines(r.index, desc, list, now);
    RestartLaws.ResponseEntries(r.index, desc, list, now);
  }
}
