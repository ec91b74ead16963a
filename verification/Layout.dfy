/** The editable index of a repository (types/layout.go): an ordered list of annotated descriptors, the
    descriptors nested inside pushed indexes, and a history of every tag. */
module Layout {
  import opened Types

  datatype HistoryItem = HistoryItem(time: int, deleted: bool, mediaType: MediaType, digest: Digest, size: nat)

  datatype Index = Index(
    manifests: seq<Descriptor>,
    children: seq<Descriptor>,
    history: map<Tag, seq<HistoryItem>>)

  const EMPTY := Index([], [], map[])

  /** What a caller passes to GetDesc: a tag, a digest, or a string that is neither. */
  datatype Reference = TagRef(tag: Tag) | DigestRef(digest: Digest) | Unparsable

  datatype Lookup = Found(desc: Descriptor) | NotFound | ParseFailed

  /* ---------- Slice helpers ---------- */

  function IndexFunc(s: seq<Descriptor>, p: Descriptor -> bool): (i: int)
    ensures -1 <= i < |s|
    ensures i >= 0 ==> p(s[i]) && forall j | 0 <= j < i :: !p(s[j])
    ensures i < 0 ==> forall j | 0 <= j < |s| :: !p(s[j])
  {
    if s == [] then -1
    else if p(s[0]) then 0
    else
      var i := IndexFunc(s[1..], p);
      if i < 0 then -1 else i + 1
  }

  function DeleteAt<T>(s: seq<T>, i: nat): seq<T>
    requires i < |s|
  {
    s[..i] + s[i + 1..]
  }

  function DeleteFunc(s: seq<Descriptor>, p: Descriptor -> bool): (r: seq<Descriptor>)
    ensures |r| <= |s|
    ensures forall x :: x in r <==> x in s && !p(x)
  {
    if s == [] then []
    else
      var last := s[|s| - 1];
      var init := DeleteFunc(s[..|s| - 1], p);
      if p(last) then init else init + [last]
  }

  /* ---------- Tests on one entry ---------- */

  predicate AnnotationsEmpty(d: Descriptor) {
    d.tag.None? && d.subject.None? && d.other == map[]
  }

  function HasTag(t: Tag): Descriptor -> bool {
    (cur: Descriptor) => cur.tag == Some(t)
  }

  function HasSubject(s: Digest): Descriptor -> bool {
    (cur: Descriptor) => cur.subject == Some(s)
  }

  function HasDigest(g: Digest): Descriptor -> bool {
    (cur: Descriptor) => cur.digest == g
  }

  function PlainEntry(g: Digest): Descriptor -> bool {
    (cur: Descriptor) => cur.digest == g && AnnotationsEmpty(cur)
  }

  function OtherReference(g: Digest, t: Tag): Descriptor -> bool {
    (cur: Descriptor) => cur.digest == g && cur.tag != Some(t)
  }

  function TaggedEntry(g: Digest, t: Tag): Descriptor -> bool {
    (cur: Descriptor) => cur.digest == g && cur.tag == Some(t)
  }

  function CompatibleEntry(d: Descriptor): Descriptor -> bool {
    (cur: Descriptor) => cur.digest == d.digest && (d.tag.None? || AnnotationsEmpty(cur) || cur.tag == d.tag)
  }

  /* ---------- The index operations as functions ---------- */

  function HistoryOf(history: map<Tag, seq<HistoryItem>>, t: Tag): seq<HistoryItem> {
    if t in history then history[t] else []
  }

  /** The time of a history item: that of the descriptor, or the clock if it has none or is deleted. */
  function TimeOf(d: Descriptor, del: bool, now: int): int {
    if !del && d.created.Some? && d.created.value.At? && d.created.value.time != 0 then d.created.value.time else now
  }

  function Logged(history: map<Tag, seq<HistoryItem>>, d: Descriptor, del: bool, now: int)
    : map<Tag, seq<HistoryItem>>
  {
    if d.tag.None? then history
    else
      var time := TimeOf(d, del, now);
      history[d.tag.value := HistoryOf(history, d.tag.value) + [HistoryItem(time, del, d.mediaType, d.digest, d.size)]]
  }

  function MoveChild(idx: Index, child: Descriptor): Index {
    var mi := IndexFunc(idx.manifests, PlainEntry(child.digest));
    if mi < 0 then idx
    else idx.(manifests := DeleteAt(idx.manifests, mi), children := idx.children + [child])
  }

  function MoveChildren(idx: Index, listed: seq<Descriptor>): Index
    decreases |listed|
  {
    if listed == [] then idx else MoveChildren(MoveChild(idx, listed[0]), listed[1..])
  }

  /** What the untagging loop does at position `mi` when tag `t` is moved to digest `g`. */
  function UntagAt(ms: seq<Descriptor>, g: Digest, t: Tag, mi: nat): (r: seq<Descriptor>)
    requires mi < |ms|
    ensures mi <= |r|
  {
    if ms[mi].digest != g && ms[mi].tag == Some(t) then
      if IndexFunc(ms, OtherReference(ms[mi].digest, t)) >= 0
      then DeleteAt(ms, mi)
      else ms[mi := ms[mi].(tag := None)]
    else ms
  }

  /** The untagging loop over positions n-1 down to 0. */
  function UntagBelow(ms: seq<Descriptor>, g: Digest, t: Tag, n: nat): seq<Descriptor>
    requires n <= |ms|
    decreases n
  {
    if n == 0 then ms else UntagBelow(UntagAt(ms, g, t, n - 1), g, t, n - 1)
  }

  function Untag(ms: seq<Descriptor>, d: Descriptor): seq<Descriptor> {
    if d.tag.None? then ms else UntagBelow(ms, d.digest, d.tag.value, |ms|)
  }

  function PutResponse(ms: seq<Descriptor>, d: Descriptor): seq<Descriptor>
    requires d.subject.Some?
  {
    var mi := IndexFunc(ms, HasSubject(d.subject.value));
    if mi >= 0 then ms[mi := d] else ms + [d]
  }

  function PutEntry(ms: seq<Descriptor>, d: Descriptor): seq<Descriptor> {
    var mi := IndexFunc(ms, CompatibleEntry(d));
    if mi < 0 then ms + [d]
    else if d.tag.Some? && AnnotationsEmpty(ms[mi]) then ms[mi := d]
    else ms
  }

  function Stamp(d: Descriptor, now: int): Descriptor {
    if d.created.None? then d.(created := Some(At(now))) else d
  }

  function AfterAdd(idx: Index, desc: Descriptor, listed: seq<Descriptor>, now: int): Index {
    var d := Stamp(desc, now);
    var moved := MoveChildren(idx, listed);
    var children := DeleteFunc(moved.children, HasDigest(d.digest));
    if d.subject.Some? then
      Index(PutResponse(moved.manifests, d), children, moved.history)
    else
      Index(PutEntry(Untag(moved.manifests, d), d), children, Logged(moved.history, d, false, now))
  }

  /** The history after deleting, in order, every entry of `ms` that satisfies `p`. */
  function RecordDeleted(history: map<Tag, seq<HistoryItem>>, ms: seq<Descriptor>, p: Descriptor -> bool, now: int)
    : map<Tag, seq<HistoryItem>>
  {
    if ms == [] then history
    else
      var h := RecordDeleted(history, ms[..|ms| - 1], p, now);
      var last := ms[|ms| - 1];
      if p(last) then Logged(h, last, true, now) else h
  }

  lemma DeleteStep(
      history: map<Tag, seq<HistoryItem>>, ms: seq<Descriptor>, p: Descriptor -> bool, now: int, i: nat)
    requires i < |ms|
    ensures DeleteFunc(ms[..i + 1], p) == DeleteFunc(ms[..i], p) + (if p(ms[i]) then [] else [ms[i]])
    ensures var h := RecordDeleted(history, ms[..i], p, now);
            RecordDeleted(history, ms[..i + 1], p, now) == if p(ms[i]) then Logged(h, ms[i], true, now) else h
  {
    assert ms[..i + 1][..i] == ms[..i];
  }

  function AfterRemove(idx: Index, d: Descriptor, now: int): Index {
    if d.tag.Some? then
      var t := d.tag.value;
      if IndexFunc(idx.manifests, OtherReference(d.digest, t)) >= 0 then
        idx.(manifests := DeleteFunc(idx.manifests, TaggedEntry(d.digest, t)),
             history := RecordDeleted(idx.history, idx.manifests, TaggedEntry(d.digest, t), now))
      else
        var mi := IndexFunc(idx.manifests, TaggedEntry(d.digest, t));
        if mi < 0 then idx
        else
          idx.(manifests := idx.manifests[mi := idx.manifests[mi].(tag := None)],
               history := Logged(idx.history, idx.manifests[mi], true, now))
    else
      Index(DeleteFunc(idx.manifests, HasDigest(d.digest)),
            DeleteFunc(idx.children, HasDigest(d.digest)),
            RecordDeleted(idx.history, idx.manifests, HasDigest(d.digest), now))
  }

  function Strip(d: Descriptor): Descriptor {
    Descriptor(d.mediaType, d.digest, d.size, "", [], None, None, None, map[])
  }

  function Find(idx: Index, arg: Reference): Lookup {
    match arg
    case TagRef(t) =>
      var mi := IndexFunc(idx.manifests, HasTag(t));
      if mi >= 0 then Found(idx.manifests[mi]) else NotFound
    case DigestRef(g) =>
      var mi := IndexFunc(idx.manifests, HasDigest(g));
      if mi >= 0 then Found(Strip(idx.manifests[mi]))
      else
        var ci := IndexFunc(idx.children, HasDigest(g));
        if ci >= 0 then Found(Strip(idx.children[ci])) else NotFound
    case Unparsable => ParseFailed
  }

  function GetResponse(idx: Index, s: Digest): Option<Descriptor> {
    var mi := IndexFunc(idx.manifests, HasSubject(s));
    if mi >= 0 then Some(idx.manifests[mi]) else None
  }

  /* ---------- The index object ---------- */

  class LayoutIndex {
    var manifests: seq<Descriptor>
    var childManifests: seq<Descriptor>
    var history: map<Tag, seq<HistoryItem>>

    function State(): Index
      reads this
    {
      Index(manifests, childManifests, history)
    }

    constructor ()
      ensures State() == EMPTY
    {
      manifests, childManifests, history := [], [], map[];
    }

    method AddChildren(children: seq<Descriptor>)
      modifies this
      ensures State() == old(State()).(children := old(childManifests) + children)
    {
      childManifests := childManifests + children;
    }

    function GetDesc(arg: Reference): (r: Lookup)
      reads this
      ensures r == Find(State(), arg)
      ensures r.ParseFailed? <==> arg.Unparsable?
      ensures r.Found? && arg.TagRef? ==> r.desc in manifests && r.desc.tag == Some(arg.tag)
      ensures r.Found? && arg.DigestRef? ==> r.desc.digest == arg.digest && r.desc.tag.None?
    {
      Find(State(), arg)
    }

    method AddDesc(desc: Descriptor, listed: seq<Descriptor>, now: int)
      modifies this
      ensures State() == AfterAdd(old(State()), desc, listed, now)
    {
      var d := desc;
      if d.created.None? {
        d := d.(created := Some(At(now)));
      }
      MoveListed(listed);
      childManifests := DeleteFunc(childManifests, HasDigest(d.digest));
      // a referrers response replaces the previous one of its subject
      if d.subject.Some? {
        var mi := IndexFunc(manifests, HasSubject(d.subject.value));
        if mi >= 0 {
          manifests := manifests[mi := d];
        } else {
          manifests := manifests + [d];
        }
        return;
      }
      if d.tag.Some? {
        UntagOthers(d);
      }
      // add the entry, or its tag to a plain entry
      var mi := IndexFunc(manifests, CompatibleEntry(d));
      if mi >= 0 {
        if d.tag.Some? && AnnotationsEmpty(manifests[mi]) {
          manifests := manifests[mi := d];
        }
      } else {
        manifests := manifests + [d];
      }
      AddHistory(d, false, now);
    }

    /** Moves the plain entries that `listed` names to the children. */
    method MoveListed(listed: seq<Descriptor>)
      modifies this
      ensures State() == MoveChildren(old(State()), listed)
    {
      for i := 0 to |listed|
        invariant MoveChildren(State(), listed[i..]) == MoveChildren(old(State()), listed)
      {
        assert listed[i..][1..] == listed[i + 1..];
        var mi := IndexFunc(manifests, PlainEntry(listed[i].digest));
        if mi >= 0 {
          childManifests := childManifests + [listed[i]];
          manifests := DeleteAt(manifests, mi);
        }
      }
    }

    /** Takes the tag of `d` away from every other digest, scanning from the end. */
    method UntagOthers(d: Descriptor)
      requires d.tag.Some?
      modifies this`manifests
      ensures manifests == Untag(old(manifests), d)
    {
      var mi := |manifests| - 1;
      while mi >= 0
        invariant -1 <= mi < |manifests|
        invariant UntagBelow(manifests, d.digest, d.tag.value, mi + 1) == Untag(old(manifests), d)
      {
        UntagEntry(d.digest, d.tag.value, mi);
        if mi > |manifests| {
          mi := |manifests|;
        }
        mi := mi - 1;
      }
    }

    method UntagEntry(g: Digest, t: Tag, mi: nat)
      requires mi < |manifests|
      modifies this`manifests
      ensures manifests == UntagAt(old(manifests), g, t, mi)
    {
      var cur := manifests[mi];
      if cur.digest != g && cur.tag == Some(t) {
        if IndexFunc(manifests, OtherReference(cur.digest, t)) >= 0 {
          // another entry keeps the digest, delete this one
          manifests := DeleteAt(manifests, mi);
        } else {
          manifests := manifests[mi := cur.(tag := None)];
        }
      }
    }

    method RmDesc(d: Descriptor, now: int)
      modifies this
      ensures State() == AfterRemove(old(State()), d, now)
    {
      if d.tag.Some? {
        if IndexFunc(manifests, OtherReference(d.digest, d.tag.value)) >= 0 {
          DeleteEntries(TaggedEntry(d.digest, d.tag.value), now);
        } else {
          var mi := IndexFunc(manifests, TaggedEntry(d.digest, d.tag.value));
          if mi >= 0 {
            AddHistory(manifests[mi], true, now);
            manifests := manifests[mi := manifests[mi].(tag := None)];
          }
        }
      } else {
        childManifests := DeleteFunc(childManifests, HasDigest(d.digest));
        DeleteEntries(HasDigest(d.digest), now);
      }
    }

    /** Deletes the entries that satisfy `p`, logging each of them. */
    method DeleteEntries(p: Descriptor -> bool, now: int)
      modifies this
      ensures manifests == DeleteFunc(old(manifests), p)
      ensures history == RecordDeleted(old(history), old(manifests), p, now)
      ensures childManifests == old(childManifests)
    {
      var all := manifests;
      var kept := [];
      for i := 0 to |all|
        invariant kept == DeleteFunc(all[..i], p)
        invariant history == RecordDeleted(old(history), all[..i], p, now)
        invariant childManifests == old(childManifests)
      {
        DeleteStep(old(history), all, p, now, i);
        if p(all[i]) {
          AddHistory(all[i], true, now);
        } else {
          kept := kept + [all[i]];
        }
      }
      assert all[..|all|] == all;
      manifests := kept;
    }

    method AddHistory(d: Descriptor, del: bool, now: int)
      modifies this`history
      ensures history == Logged(old(history), d, del, now)
    {
      if d.tag.None? {
        return;
      }
      var timestamp := 0;
      if !del && d.created.Some? && d.created.value.At? {
        timestamp := d.created.value.time;
      }
      if timestamp == 0 {
        timestamp := now;
      }
      var item := HistoryItem(timestamp, del, d.mediaType, d.digest, d.size);
      history := history[d.tag.value := HistoryOf(history, d.tag.value) + [item]];
    }
  }
}
