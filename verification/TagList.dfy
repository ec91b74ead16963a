/** Listing the tags of a repository in pages (tag.go). */
module TagList {
  import opened Types
  import opened LayoutLaws

  /* ---------- The order of tags ---------- */

  predicate Less(a: string, b: string) {
    if b == "" then false
    else if a == "" then true
    else a[0] < b[0] || (a[0] == b[0] && Less(a[1..], b[1..]))
  }

  /** The order is that of the characters: at the first place where two tags differ, or the shorter one if it is the
      beginning of the other. */
  ghost predicate Before(a: string, b: string) {
    exists k :: 0 <= k <= |a| && k <= |b| && a[..k] == b[..k] &&
                if k == |a| then |a| < |b| else k < |b| && a[k] < b[k]
  }

  lemma {:induction false} LessIff(a: string, b: string)
    ensures Less(a, b) <==> Before(a, b)
    decreases |a|
  {
    assert a[..0] == b[..0];
    if a != "" && b != "" {
      forall k | 0 < k <= |a| && k <= |b| && a[..k] == b[..k] ensures a[0] == b[0] {
        assert a[0] == a[..k][0] && b[0] == b[..k][0];
      }
      if a[0] == b[0] {
        LessIff(a[1..], b[1..]);
        SkipFirst(a, b);
      }
    }
  }

  lemma SkipFirst(a: string, b: string)
    requires a != "" && b != "" && a[0] == b[0]
    ensures Before(a[1..], b[1..]) <==> Before(a, b)
  {
    if Before(a[1..], b[1..]) {
      var k :| 0 <= k <= |a| - 1 && k <= |b| - 1 && a[1..][..k] == b[1..][..k] &&
               if k == |a| - 1 then |a| < |b| else k < |b| - 1 && a[1..][k] < b[1..][k];
      assert a[..k + 1] == [a[0]] + a[1..][..k] && b[..k + 1] == [b[0]] + b[1..][..k];
    }
    if Before(a, b) {
      var k :| 0 <= k <= |a| && k <= |b| && a[..k] == b[..k] && if k == |a| then |a| < |b| else k < |b| && a[k] < b[k];
      assert k > 0;
      assert a[1..][..k - 1] == a[..k][1..] && b[1..][..k - 1] == b[..k][1..];
    }
  }

  lemma {:induction false} LessTransitive(a: string, b: string, c: string)
    requires Less(a, b) && Less(b, c)
    ensures Less(a, c)
    decreases |a|
  {
    if a != "" && a[0] == b[0] && b[0] == c[0] {
      LessTransitive(a[1..], b[1..], c[1..]);
    }
  }

  lemma {:induction false} LessTotal(a: string, b: string)
    ensures Less(a, b) || a == b || Less(b, a)
    ensures !(Less(a, b) && Less(b, a)) && (a == b ==> !Less(a, b))
    decreases |a|
  {
    if a != "" && b != "" && a[0] == b[0] {
      LessTotal(a[1..], b[1..]);
      assert a == [a[0]] + a[1..] && b == [b[0]] + b[1..];
    }
  }

  predicate Increasing(s: seq<Tag>) {
    forall i, j | 0 <= i < j < |s| :: Less(s[i], s[j])
  }

  lemma IncreasingAppend(a: seq<Tag>, b: seq<Tag>, bound: Tag)
    requires Increasing(a) && Increasing(b)
    requires forall t | t in a :: t == bound || Less(t, bound)
    requires forall t | t in b :: Less(bound, t)
    ensures Increasing(a + b)
  {
    var s := a + b;
    forall i, j | 0 <= i < j < |s| ensures Less(s[i], s[j]) {
      if i < |a| <= j {
        assert s[i] in a && s[j] in b;
        if s[i] != bound {
          LessTransitive(s[i], bound, s[j]);
        }
      }
    }
  }

  /** An increasing list is determined by its elements. */
  lemma {:induction false} IncreasingUnique(a: seq<Tag>, b: seq<Tag>)
    requires Increasing(a) && Increasing(b)
    requires forall t :: t in a <==> t in b
    ensures a == b
    decreases |a|
  {
    assert |b| > 0 ==> b[0] in a;
    if a != [] {
      assert a[0] in a && a[0] in b;
      assert b[0] in b && b[0] in a;
      HeadsEqual(a, b);
      forall t ensures t in a[1..] <==> t in b[1..] {
        TailMembers(a, t);
        TailMembers(b, t);
      }
      IncreasingUnique(a[1..], b[1..]);
      assert a == [a[0]] + a[1..] && b == [b[0]] + b[1..];
    }
  }

  lemma HeadsEqual(a: seq<Tag>, b: seq<Tag>)
    requires Increasing(a) && Increasing(b) && a != [] && b != []
    requires a[0] in b && b[0] in a
    ensures a[0] == b[0]
  {
    LessTotal(a[0], b[0]);
  }

  lemma TailMembers(a: seq<Tag>, t: Tag)
    requires Increasing(a) && a != []
    ensures t in a[1..] <==> t in a && t != a[0]
  {
    if t in a[1..] {
      var i :| 0 <= i < |a| - 1 && a[1..][i] == t;
      assert Less(a[0], a[i + 1]);
      LessTotal(a[0], t);
    }
  }

  /* ---------- Sorting ---------- */

  function Insert(t: Tag, s: seq<Tag>): seq<Tag> {
    if s == [] then [t]
    else if Less(s[0], t) then [s[0]] + Insert(t, s[1..])
    else [t] + s
  }

  function Sort(s: seq<Tag>): seq<Tag> {
    if s == [] then [] else Insert(s[|s| - 1], Sort(s[..|s| - 1]))
  }

  lemma {:induction false} InsertMembers(t: Tag, s: seq<Tag>)
    ensures forall x :: x in Insert(t, s) <==> x == t || x in s
    ensures |Insert(t, s)| == |s| + 1
  {
    if s != [] {
      InsertMembers(t, s[1..]);
    }
  }

  lemma {:induction false} InsertIncreasing(t: Tag, s: seq<Tag>)
    requires Increasing(s) && t !in s
    ensures Increasing(Insert(t, s))
  {
    if s == [] {
    } else if Less(s[0], t) {
      InsertIncreasing(t, s[1..]);
      InsertMembers(t, s[1..]);
      var r := Insert(t, s[1..]);
      forall x | x in r ensures Less(s[0], x) {
        if x != t {
          var i :| 0 <= i < |s| - 1 && s[1..][i] == x;
          assert s[i + 1] == x;
        }
      }
      assert forall j | 0 <= j < |r| :: r[j] in r;
    } else {
      LessTotal(s[0], t);
      assert s[0] in s;
      forall j | 0 <= j < |s| ensures Less(t, s[j]) {
        if j > 0 {
          LessTransitive(t, s[0], s[j]);
        }
      }
    }
  }

  lemma {:induction false} SortMembers(s: seq<Tag>)
    ensures forall x :: x in Sort(s) <==> x in s
    ensures |Sort(s)| == |s|
  {
    if s != [] {
      SortMembers(s[..|s| - 1]);
      InsertMembers(s[|s| - 1], Sort(s[..|s| - 1]));
      assert s == s[..|s| - 1] + [s[|s| - 1]];
    }
  }

  lemma {:induction false} SortIncreasing(s: seq<Tag>)
    requires NoRepeats(s)
    ensures Increasing(Sort(s))
  {
    if s != [] {
      SortIncreasing(s[..|s| - 1]);
      SortMembers(s[..|s| - 1]);
      InsertIncreasing(s[|s| - 1], Sort(s[..|s| - 1]));
    }
  }

  /* ---------- One page ---------- */

  /** The tags after the cursor, in the order of the index. */
  function TagsAfter(ms: seq<Descriptor>, last: Tag): seq<Tag> {
    if ms == [] then []
    else
      var r := TagsAfter(ms[..|ms| - 1], last);
      var d := ms[|ms| - 1];
      if d.tag.Some? && d.tag.value != "" && Less(last, d.tag.value) then r + [d.tag.value] else r
  }

  datatype Page = Page(tags: seq<Tag>, next: Option<Tag>)

  function PageOf(ms: seq<Descriptor>, last: Tag, n: int): Page
    requires n >= 1
  {
    var all := Sort(TagsAfter(ms, last));
    if |all| > n then Page(all[..n], Some(all[n - 1])) else Page(all, None)
  }

  /** One request of the listing; without a page size everything after the cursor is returned. */
  method ListTags(ms: seq<Descriptor>, last: Tag, n: Option<int>) returns (page: Page)
    requires n.Some? ==> n.value >= 1
    ensures page == if n.Some? then PageOf(ms, last, n.value) else Page(Sort(TagsAfter(ms, last)), None)
  {
    var tags := [];
    for i := 0 to |ms|
      invariant tags == TagsAfter(ms[..i], last)
    {
      assert ms[..i + 1][..i] == ms[..i];
      if ms[i].tag.Some? && ms[i].tag.value != "" && Less(last, ms[i].tag.value) {
        tags := tags + [ms[i].tag.value];
      }
    }
    assert ms[..|ms|] == ms;
    tags := Sort(tags);
    var next: Option<Tag> := None;
    if n.Some? && |tags| > n.value {
      tags := tags[..n.value];
      next := Some(tags[|tags| - 1]);
    }
    page := Page(tags, next);
  }

  /* ---------- A walk over all pages ---------- */

  predicate Present(ms: seq<Descriptor>, t: Tag) {
    t != "" && exists i :: 0 <= i < |ms| && ms[i].tag == Some(t)
  }

  lemma {:induction false} TagsAfterMembers(ms: seq<Descriptor>, last: Tag)
    ensures forall t :: t in TagsAfter(ms, last) <==> Present(ms, t) && Less(last, t)
  {
    if ms != [] {
      var init := ms[..|ms| - 1];
      TagsAfterMembers(init, last);
      forall t ensures Present(ms, t) <==> Present(init, t) || (t != "" && ms[|ms| - 1].tag == Some(t)) {
        if i :| 0 <= i < |init| && init[i].tag == Some(t) {
          assert ms[i].tag == Some(t);
        }
        if i :| 0 <= i < |ms| && ms[i].tag == Some(t) && i < |ms| - 1 {
          assert init[i].tag == Some(t);
        }
      }
    }
  }

  lemma {:induction false} TagsAfterDistinct(ms: seq<Descriptor>, last: Tag)
    requires UniqueTags(ms)
    ensures NoRepeats(TagsAfter(ms, last))
  {
    if ms != [] {
      TagsAfterDistinct(ms[..|ms| - 1], last);
      TagsAfterMembers(ms[..|ms| - 1], last);
    }
  }

  lemma AfterCut(all: seq<Tag>, n: int, t: Tag)
    requires Increasing(all) && 1 <= n <= |all|
    ensures t in all[n..] <==> t in all && Less(all[n - 1], t)
  {
    if t in all {
      var i :| 0 <= i < |all| && all[i] == t;
      if i < n - 1 {
        LessTotal(all[i], all[n - 1]);
      } else if i == n - 1 {
        LessTotal(t, t);
      } else {
        assert all[n..][i - n] == t;
      }
    }
  }

  /** A page lists, in order, present tags after the cursor, and skips none before its end. */
  lemma PageMeaning(ms: seq<Descriptor>, last: Tag, n: int)
    requires n >= 1 && UniqueTags(ms)
    ensures var p := PageOf(ms, last, n);
            && Increasing(p.tags) && |p.tags| <= n
            && (forall t | t in p.tags :: Present(ms, t) && Less(last, t) &&
                  (p.next.Some? ==> t == p.next.value || Less(t, p.next.value)))
            && (p.next.Some? ==> Less(last, p.next.value))
            && (forall t | Present(ms, t) && Less(last, t) :: t in p.tags || (p.next.Some? && Less(p.next.value, t)))
  {
    var all := Sort(TagsAfter(ms, last));
    SortMembers(TagsAfter(ms, last));
    TagsAfterMembers(ms, last);
    TagsAfterDistinct(ms, last);
    SortIncreasing(TagsAfter(ms, last));
    if |all| > n {
      assert all[n - 1] in all && all == all[..n] + all[n..];
      forall t | t in all
        ensures if t in all[..n] then t == all[n - 1] || Less(t, all[n - 1]) else Less(all[n - 1], t)
      {
        AfterCut(all, n, t);
        BeforeCut(all, n, t);
      }
    }
  }

  lemma BeforeCut(all: seq<Tag>, n: int, t: Tag)
    requires Increasing(all) && 1 <= n <= |all|
    ensures t in all[..n] ==> t == all[n - 1] || Less(t, all[n - 1])
  {
  }

  /** What a client collects by following the next links while request `i` is answered from `snapshots[i]`;
      None if there is still a next link after the last of them. */
  function Walk(snapshots: seq<seq<Descriptor>>, last: Tag, n: int): Option<seq<Tag>>
    requires n >= 1
    decreases |snapshots|
  {
    if snapshots == [] then None
    else
      var p := PageOf(snapshots[0], last, n);
      if p.next.None? then Some(p.tags)
      else
        var rest := Walk(snapshots[1..], p.next.value, n);
        if rest.None? then None else Some(p.tags + rest.value)
  }

  /** A completed walk returns an increasing list, with every tag that was present throughout and only tags
      that were present at some time, whatever was added or removed between the requests. */
  lemma {:induction false} WalkComplete(snapshots: seq<seq<Descriptor>>, last: Tag, n: int)
    requires n >= 1
    requires forall i | 0 <= i < |snapshots| :: UniqueTags(snapshots[i])
    requires Walk(snapshots, last, n).Some?
    ensures var r := Walk(snapshots, last, n).value;
            && Increasing(r)
            && (forall t | Less(last, t) && forall i | 0 <= i < |snapshots| :: Present(snapshots[i], t) :: t in r)
            && (forall t | t in r :: Less(last, t) && exists i :: 0 <= i < |snapshots| && Present(snapshots[i], t))
    decreases |snapshots|
  {
    var p := PageOf(snapshots[0], last, n);
    PageMeaning(snapshots[0], last, n);
    if p.next.Some? {
      var later := snapshots[1..];
      var bound := p.next.value;
      var rest := Walk(later, bound, n).value;
      WalkComplete(later, bound, n);
      IncreasingAppend(p.tags, rest, bound);
      forall t | t in rest ensures Less(last, t) && exists i :: 0 <= i < |snapshots| && Present(snapshots[i], t) {
        LessTransitive(last, bound, t);
        var i :| 0 <= i < |later| && Present(later[i], t);
        assert Present(snapshots[i + 1], t);
      }
      forall t | Less(last, t) && forall i | 0 <= i < |snapshots| :: Present(snapshots[i], t)
        ensures t in p.tags || t in rest
      {
        assert Present(snapshots[0], t);
        forall i | 0 <= i < |later| ensures Present(later[i], t) {
          assert Present(snapshots[i + 1], t);
        }
      }
    }
  }

  /* ---------- The number of pages ---------- */

  lemma RestSorted(ms: seq<Descriptor>, last: Tag, n: int)
    requires n >= 1 && UniqueTags(ms)
    requires PageOf(ms, last, n).next.Some?
    ensures var all := Sort(TagsAfter(ms, last));
            Sort(TagsAfter(ms, PageOf(ms, last, n).next.value)) == all[n..]
  {
    var all := Sort(TagsAfter(ms, last));
    var bound := all[n - 1];
    var rest := Sort(TagsAfter(ms, bound));
    SortMembers(TagsAfter(ms, last));
    SortMembers(TagsAfter(ms, bound));
    TagsAfterMembers(ms, last);
    TagsAfterMembers(ms, bound);
    TagsAfterDistinct(ms, last);
    TagsAfterDistinct(ms, bound);
    SortIncreasing(TagsAfter(ms, last));
    SortIncreasing(TagsAfter(ms, bound));
    assert bound in all;
    forall t ensures t in rest <==> t in all[n..] {
      AfterCut(all, n, t);
      if Less(bound, t) {
        LessTransitive(last, bound, t);
      }
    }
    IncreasingUnique(rest, all[n..]);
  }

  lemma RestShorter(ms: seq<Descriptor>, last: Tag, n: int)
    requires n >= 1 && UniqueTags(ms)
    requires PageOf(ms, last, n).next.Some?
    ensures |TagsAfter(ms, PageOf(ms, last, n).next.value)| == |TagsAfter(ms, last)| - n
  {
    RestSorted(ms, last, n);
    SortMembers(TagsAfter(ms, last));
    SortMembers(TagsAfter(ms, PageOf(ms, last, n).next.value));
  }

  /** The pages a walk gets from an unchanging repository. */
  function FixedWalk(ms: seq<Descriptor>, last: Tag, n: int): seq<Page>
    requires n >= 1 && UniqueTags(ms)
    decreases |TagsAfter(ms, last)|
  {
    var p := PageOf(ms, last, n);
    if p.next.None? then [p]
    else
      RestShorter(ms, last, n);
      [p] + FixedWalk(ms, p.next.value, n)
  }

  lemma FixedWalkStep(ms: seq<Descriptor>, last: Tag, n: int)
    requires n >= 1 && UniqueTags(ms)
    ensures var p := PageOf(ms, last, n);
            if p.next.None? then FixedWalk(ms, last, n) == [p]
            else |TagsAfter(ms, p.next.value)| < |TagsAfter(ms, last)| &&
                 FixedWalk(ms, last, n) == [p] + FixedWalk(ms, p.next.value, n)
  {
    if PageOf(ms, last, n).next.Some? {
      RestShorter(ms, last, n);
    }
  }

  /** `pages` is m/n rounded up, for m > 0. */
  predicate RoundsUp(pages: int, m: int, n: int) {
    (pages - 1) * n < m <= pages * n
  }

  lemma RoundsUpStep(pages: int, m: int, n: int)
    requires RoundsUp(pages, m, n)
    ensures RoundsUp(pages + 1, m + n, n)
  {
    assert (pages + 1) * n == pages * n + n;
    assert pages * n == (pages - 1) * n + n;
  }

  /** On a fixed set of m tags, m > 0, a walk with page size n takes m/n pages, rounded up. */
  lemma {:induction false} PageCountExact(ms: seq<Descriptor>, last: Tag, n: int)
    requires n >= 1 && UniqueTags(ms)
    ensures var m := |TagsAfter(ms, last)|;
            var pages := |FixedWalk(ms, last, n)|;
            if m == 0 then pages == 1 else RoundsUp(pages, m, n)
    decreases |TagsAfter(ms, last)|
  {
    var p := PageOf(ms, last, n);
    SortMembers(TagsAfter(ms, last));
    FixedWalkStep(ms, last, n);
    if p.next.Some? {
      RestShorter(ms, last, n);
      PageCountExact(ms, p.next.value, n);
      RoundsUpStep(|FixedWalk(ms, p.next.value, n)|, |TagsAfter(ms, last)| - n, n);
    }
  }

  lemma Rejoin(all: seq<Tag>, n: int)
    requires 0 <= n <= |all|
    ensures all == all[..n] + all[n..]
  {
  }

  /** A page that is not the last holds the first sorted tags, and its next cursor leaves the others. */
  lemma PageAndRest(ms: seq<Descriptor>, last: Tag, n: int)
    requires n >= 1 && UniqueTags(ms)
    requires PageOf(ms, last, n).next.Some?
    ensures var p := PageOf(ms, last, n);
            Sort(TagsAfter(ms, last)) == p.tags + Sort(TagsAfter(ms, p.next.value))
  {
    RestSorted(ms, last, n);
    Rejoin(Sort(TagsAfter(ms, last)), n);
  }

  /** The pages of a fixed repository hold its sorted tags. */
  lemma {:induction false} FixedWalkTags(ms: seq<Descriptor>, last: Tag, n: int)
    requires n >= 1 && UniqueTags(ms)
    ensures AllTags(FixedWalk(ms, last, n)) == Sort(TagsAfter(ms, last))
    decreases |TagsAfter(ms, last)|
  {
    var p := PageOf(ms, last, n);
    FixedWalkStep(ms, last, n);
    if p.next.Some? {
      PageAndRest(ms, last, n);
      FixedWalkTags(ms, p.next.value, n);
      AllTagsCons(p, FixedWalk(ms, p.next.value, n));
    } else {
      AllTagsCons(p, []);
      assert [p] + [] == [p] && p.tags + [] == p.tags;
    }
  }

  lemma AllTagsCons(p: Page, rest: seq<Page>)
    ensures AllTags([p] + rest) == p.tags + AllTags(rest)
  {
    assert ([p] + rest)[1..] == rest;
  }

  function AllTags(pages: seq<Page>): seq<Tag> {
    if pages == [] then [] else pages[0].tags + AllTags(pages[1..])
  }
}
