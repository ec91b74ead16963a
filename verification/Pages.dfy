/** Splitting a referrers response into pages that fit a size limit (referrer.go). */
module Pages {
  import opened Types

  /** How a page is encoded: what stands before and after its list, and the text of each descriptor. */
  datatype Encoding = Encoding(open: string, close: string, item: Descriptor -> string)

  /** The texts of the descriptors, separated by commas. */
  function Items(e: Encoding, page: seq<Descriptor>): string {
    if page == [] then ""
    else if |page| == 1 then e.item(page[0])
    else Items(e, page[..|page| - 1]) + "," + e.item(page[|page| - 1])
  }

  function Encoded(e: Encoding, page: seq<Descriptor>): string {
    e.open + Items(e, page) + e.close
  }

  /** The number of characters of the encoded page. */
  function Size(e: Encoding, page: seq<Descriptor>): nat {
    |Encoded(e, page)|
  }

  /** The length of every text and of the separators after the first. */
  function Weights(e: Encoding, page: seq<Descriptor>): nat {
    if page == [] then 0
    else Weights(e, page[..|page| - 1]) + |e.item(page[|page| - 1])| + (if |page| == 1 then 0 else 1)
  }

  lemma {:induction false} SizeSum(e: Encoding, page: seq<Descriptor>)
    ensures Size(e, page) == |e.open| + Weights(e, page) + |e.close|
    ensures |Items(e, page)| == Weights(e, page)
  {
    if |page| > 1 {
      SizeSum(e, page[..|page| - 1]);
    }
  }

  /** A longer page is longer by the text of what is added, and a comma. */
  lemma SizeSnoc(e: Encoding, page: seq<Descriptor>, d: Descriptor)
    ensures Size(e, page + [d]) == Size(e, page) + |e.item(d)| + (if page == [] then 0 else 1)
  {
    assert (page + [d])[..|page|] == page;
    SizeSum(e, page);
    SizeSum(e, page + [d]);
  }

  predicate Oversized(e: Encoding, limit: nat, d: Descriptor) {
    Size(e, [d]) > limit
  }

  /** The pages still to come when `cur` is the page being filled and `rest` is left to place. */
  function PagesFrom(e: Encoding, limit: nat, cur: seq<Descriptor>, rest: seq<Descriptor>): seq<seq<Descriptor>>
    decreases |rest|
  {
    var flushed := if cur == [] then [] else [cur];
    if rest == [] then flushed
    else if Size(e, cur + [rest[0]]) <= limit then PagesFrom(e, limit, cur + [rest[0]], rest[1..])
    else if Oversized(e, limit, rest[0]) then flushed + PagesFrom(e, limit, [], rest[1..])
    else flushed + PagesFrom(e, limit, [rest[0]], rest[1..])
  }

  lemma PagesStep(e: Encoding, limit: nat, cur: seq<Descriptor>, all: seq<Descriptor>, i: nat)
    requires i < |all|
    ensures var flushed := if cur == [] then [] else [cur];
            PagesFrom(e, limit, cur, all[i..]) ==
            if Size(e, cur + [all[i]]) <= limit then PagesFrom(e, limit, cur + [all[i]], all[i + 1..])
            else if Oversized(e, limit, all[i]) then flushed + PagesFrom(e, limit, [], all[i + 1..])
            else flushed + PagesFrom(e, limit, [all[i]], all[i + 1..])
  {
    assert all[i..][1..] == all[i + 1..];
  }

  /** After `i` descriptors: the finished pages, the dropped descriptors and the page being filled. */
  ghost predicate SplitState(
      e: Encoding, limit: nat, all: seq<Descriptor>, i: nat, result: seq<seq<Descriptor>>, errs: seq<Descriptor>,
      cur: seq<Descriptor>)
  {
    && i <= |all|
    && PagesFrom(e, limit, [], all) == result + PagesFrom(e, limit, cur, all[i..])
    && (cur != [] ==> Size(e, cur) <= limit)
    && forall d :: d in errs <==> d in all[..i] && Oversized(e, limit, d)
  }

  lemma Regroup(result: seq<seq<Descriptor>>, page: seq<Descriptor>, more: seq<seq<Descriptor>>)
    ensures result + ([page] + more) == (result + [page]) + more
    ensures result + ([] + more) == result + more
  {
    assert [] + more == more;
  }

  lemma ErrsStep(
      e: Encoding, limit: nat, all: seq<Descriptor>, i: nat, errs: seq<Descriptor>)
    requires i < |all| && forall d :: d in errs <==> d in all[..i] && Oversized(e, limit, d)
    ensures var next := if Oversized(e, limit, all[i]) then errs + [all[i]] else errs;
            forall d :: d in next <==> d in all[..i + 1] && Oversized(e, limit, d)
  {
    assert all[..i + 1] == all[..i] + [all[i]];
  }

  lemma SplitStep(
      e: Encoding, limit: nat, all: seq<Descriptor>, i: nat, result: seq<seq<Descriptor>>, errs: seq<Descriptor>,
      cur: seq<Descriptor>)
    requires i < |all| && SplitState(e, limit, all, i, result, errs, cur)
    ensures var d := all[i];
            var flushed := if cur == [] then result else result + [cur];
            if Size(e, cur + [d]) <= limit then SplitState(e, limit, all, i + 1, result, errs, cur + [d])
            else if Oversized(e, limit, d) then SplitState(e, limit, all, i + 1, flushed, errs + [d], [])
            else SplitState(e, limit, all, i + 1, flushed, errs, [d])
  {
    var d := all[i];
    PagesStep(e, limit, cur, all, i);
    SizeSuffix(e, cur, [d]);
    ErrsStep(e, limit, all, i, errs);
    var page := if Oversized(e, limit, d) then [] else [d];
    Regroup(result, cur, PagesFrom(e, limit, page, all[i + 1..]));
  }

  lemma SplitDone(
      e: Encoding, limit: nat, all: seq<Descriptor>, result: seq<seq<Descriptor>>, errs: seq<Descriptor>,
      cur: seq<Descriptor>)
    requires SplitState(e, limit, all, |all|, result, errs, cur)
    ensures PagesFrom(e, limit, [], all) == if cur == [] then result else result + [cur]
    ensures forall d :: d in errs <==> d in all && Oversized(e, limit, d)
  {
    assert all[..|all|] == all && all[|all|..] == [] && result + [] == result;
  }

  /** Splits the list into pages; `errs` are the descriptors that exceed the limit alone. */
  method ReferrerSplit(e: Encoding, limit: nat, manifests: seq<Descriptor>)
    returns (result: seq<seq<Descriptor>>, errs: seq<Descriptor>)
    ensures result == PagesFrom(e, limit, [], manifests)
    ensures forall d :: d in errs <==> d in manifests && Oversized(e, limit, d)
  {
    result, errs := [], [];
    var cur: seq<Descriptor> := [];
    var last: Option<seq<Descriptor>> := None;
    assert manifests[0..] == manifests && [] + PagesFrom(e, limit, [], manifests) == PagesFrom(e, limit, [], manifests);
    for i := 0 to |manifests|
      invariant SplitState(e, limit, manifests, i, result, errs, cur)
      invariant last == if cur == [] then None else Some(cur)
    {
      var d := manifests[i];
      SplitStep(e, limit, manifests, i, result, errs, cur);
      cur := cur + [d];
      if Size(e, cur) > limit {
        if last.Some? && Size(e, last.value) <= limit {
          result := result + [last.value];
        }
        cur := [d];
        if Size(e, cur) > limit {
          errs := errs + [d];
          cur := [];
          last := None;
          continue;
        }
      }
      last := Some(cur);
    }
    SplitDone(e, limit, manifests, result, errs, cur);
    if last.Some? && Size(e, last.value) <= limit {
      result := result + [last.value];
    }
  }

  /* ---------- Exactness ---------- */

  function Flatten(pages: seq<seq<Descriptor>>): seq<Descriptor> {
    if pages == [] then [] else pages[0] + Flatten(pages[1..])
  }

  /** The descriptors that fit on a page of their own, in order. */
  function Fitting(e: Encoding, limit: nat, ds: seq<Descriptor>): seq<Descriptor> {
    if ds == [] then []
    else if Oversized(e, limit, ds[0]) then Fitting(e, limit, ds[1..])
    else [ds[0]] + Fitting(e, limit, ds[1..])
  }

  predicate PagesFit(e: Encoding, limit: nat, pages: seq<seq<Descriptor>>) {
    forall i | 0 <= i < |pages| :: pages[i] != [] && Size(e, pages[i]) <= limit
  }

  lemma {:induction false} SizeSuffix(e: Encoding, p: seq<Descriptor>, c: seq<Descriptor>)
    ensures Size(e, c) <= Size(e, p + c) && Size(e, p) <= Size(e, p + c)
    decreases |c|
  {
    if c == [] {
      assert p + c == p;
      SizeSum(e, p);
      SizeSum(e, c);
    } else {
      var init, d := c[..|c| - 1], c[|c| - 1];
      assert p + c == (p + init) + [d] && c == init + [d];
      SizeSuffix(e, p, init);
      SizeSnoc(e, p + init, d);
      SizeSnoc(e, init, d);
    }
  }

  lemma FlattenCons(cur: seq<Descriptor>, more: seq<seq<Descriptor>>)
    ensures Flatten([cur] + more) == cur + Flatten(more)
  {
    assert ([cur] + more)[1..] == more;
  }

  /** The pages concatenate to what was given minus what is oversized. */
  lemma {:induction false} PagesExact(e: Encoding, limit: nat, cur: seq<Descriptor>, rest: seq<Descriptor>)
    ensures Flatten(PagesFrom(e, limit, cur, rest)) == cur + Fitting(e, limit, rest)
    decreases |rest|
  {
    if rest == [] {
      FlattenCons(cur, []);
      assert [cur] + [] == [cur];
    } else {
      var d := rest[0];
      SizeSuffix(e, cur, [d]);
      if Size(e, cur + [d]) <= limit {
        PagesExact(e, limit, cur + [d], rest[1..]);
        assert cur + [d] + Fitting(e, limit, rest[1..]) == cur + ([d] + Fitting(e, limit, rest[1..]));
      } else {
        var page := if Oversized(e, limit, d) then [] else [d];
        var more := PagesFrom(e, limit, page, rest[1..]);
        PagesExact(e, limit, page, rest[1..]);
        FlattenCons(cur, more);
        assert [] + more == more;
        assert page + Fitting(e, limit, rest[1..]) == Fitting(e, limit, rest);
      }
    }
  }

  /** Every page is filled and fits. */
  lemma {:induction false} PagesWithinLimit(e: Encoding, limit: nat, cur: seq<Descriptor>, rest: seq<Descriptor>)
    requires cur == [] || Size(e, cur) <= limit
    ensures PagesFit(e, limit, PagesFrom(e, limit, cur, rest))
    decreases |rest|
  {
    if rest != [] {
      var d := rest[0];
      if Size(e, cur + [d]) <= limit {
        PagesWithinLimit(e, limit, cur + [d], rest[1..]);
      } else {
        PagesWithinLimit(e, limit, if Oversized(e, limit, d) then [] else [d], rest[1..]);
      }
    }
  }

  /** No page spans a dropped descriptor: the pages before it and after it are independent. */
  lemma {:induction false} PagesBreak(
      e: Encoding, limit: nat, cur: seq<Descriptor>, a: seq<Descriptor>, d: Descriptor, b: seq<Descriptor>)
    requires Oversized(e, limit, d)
    ensures PagesFrom(e, limit, cur, a + [d] + b) == PagesFrom(e, limit, cur, a) + PagesFrom(e, limit, [], b)
    decreases |a|
  {
    var all := a + [d] + b;
    if a == [] {
      SizeSuffix(e, cur, [d]);
      assert all[0] == d && all[1..] == b;
    } else {
      assert all[0] == a[0] && all[1..] == a[1..] + [d] + b;
      if Size(e, cur + [a[0]]) <= limit {
        PagesBreak(e, limit, cur + [a[0]], a[1..], d, b);
      } else {
        PagesBreak(e, limit, if Oversized(e, limit, a[0]) then [] else [a[0]], a[1..], d, b);
      }
    }
  }

  /* ---------- Optimality ---------- */

  function PageCount(e: Encoding, limit: nat, cur: seq<Descriptor>, rest: seq<Descriptor>): nat {
    |PagesFrom(e, limit, cur, rest)|
  }

  lemma CountStep(e: Encoding, limit: nat, cur: seq<Descriptor>, rest: seq<Descriptor>)
    requires rest != []
    ensures var d := rest[0];
            PageCount(e, limit, cur, rest) ==
            if Size(e, cur + [d]) <= limit then PageCount(e, limit, cur + [d], rest[1..])
            else (if cur == [] then 0 else 1) +
                 PageCount(e, limit, if Oversized(e, limit, d) then [] else [d], rest[1..])
  {
  }

  /** Adding a descriptor to the shorter page `c` and to the longer page `whole` that ends with it. */
  lemma SizesGrow(e: Encoding, p: seq<Descriptor>, c: seq<Descriptor>, whole: seq<Descriptor>, d: Descriptor)
    requires whole == p + c
    ensures whole + [d] == p + (c + [d])
    ensures Size(e, [d]) <= Size(e, c + [d]) <= Size(e, whole + [d])
  {
    assert whole + [d] == p + (c + [d]);
    SizeSuffix(e, p, c + [d]);
    SizeSuffix(e, c, [d]);
  }

  /** Starting from a shorter page needs no more pages, and at most one less. */
  lemma {:induction false} Exchange(
      e: Encoding, limit: nat, p: seq<Descriptor>, c: seq<Descriptor>, whole: seq<Descriptor>, rest: seq<Descriptor>)
    requires whole == p + c
    requires whole == [] || Size(e, whole) <= limit
    ensures PageCount(e, limit, c, rest) <= PageCount(e, limit, whole, rest) <= 1 + PageCount(e, limit, c, rest)
    decreases |rest|
  {
    if rest != [] {
      var d := rest[0];
      SizesGrow(e, p, c, whole, d);
      CountStep(e, limit, c, rest);
      CountStep(e, limit, whole, rest);
      if Size(e, whole + [d]) <= limit {
        Exchange(e, limit, p, c + [d], whole + [d], rest[1..]);
      } else if Size(e, c + [d]) <= limit {
        Exchange(e, limit, c, [d], c + [d], rest[1..]);
      }
    }
  }

  lemma {:induction false} Consume(
      e: Encoding, limit: nat, c: seq<Descriptor>, p: seq<Descriptor>, rest: seq<Descriptor>)
    requires Size(e, c + p) <= limit
    ensures PagesFrom(e, limit, c, p + rest) == PagesFrom(e, limit, c + p, rest)
    decreases |p|
  {
    if p == [] {
      assert p + rest == rest && c + p == c;
    } else {
      assert (p + rest)[0] == p[0] && (p + rest)[1..] == p[1..] + rest;
      assert c + [p[0]] + p[1..] == c + p;
      SizeSuffix(e, c + [p[0]], p[1..]);
      Consume(e, limit, c + [p[0]], p[1..], rest);
    }
  }

  /** A piece of a cut: a page that fits, or one dropped descriptor. */
  predicate PieceOk(e: Encoding, limit: nat, piece: seq<Descriptor>) {
    Size(e, piece) <= limit || (|piece| == 1 && Oversized(e, limit, piece[0]))
  }

  /** The pieces of a cut that are pages. */
  function PagesIn(e: Encoding, limit: nat, cut: seq<seq<Descriptor>>): nat {
    if cut == [] then 0 else (if Size(e, cut[0]) <= limit then 1 else 0) + PagesIn(e, limit, cut[1..])
  }

  lemma FirstPiece(e: Encoding, limit: nat, piece: seq<Descriptor>, rest: seq<Descriptor>)
    requires PieceOk(e, limit, piece)
    ensures PageCount(e, limit, [], piece + rest) <=
            (if Size(e, piece) <= limit then 1 else 0) + PageCount(e, limit, [], rest)
  {
    if Size(e, piece) <= limit {
      assert [] + piece == piece && piece + [] == piece;
      Consume(e, limit, [], piece, rest);
      Exchange(e, limit, piece, [], piece, rest);
    } else {
      assert (piece + rest)[0] == piece[0] && (piece + rest)[1..] == rest && [] + [piece[0]] == [piece[0]];
    }
  }

  /** However a list is cut, in order, into pages that fit and descriptors that are dropped because they fit
      nowhere, the cut has at least as many pages. */
  lemma {:induction false} PagesFewest(e: Encoding, limit: nat, ds: seq<Descriptor>, cut: seq<seq<Descriptor>>)
    requires Flatten(cut) == ds
    requires forall i | 0 <= i < |cut| :: PieceOk(e, limit, cut[i])
    ensures |PagesFrom(e, limit, [], ds)| <= PagesIn(e, limit, cut)
    decreases |cut|
  {
    if cut != [] {
      FirstPiece(e, limit, cut[0], Flatten(cut[1..]));
      PagesFewest(e, limit, Flatten(cut[1..]), cut[1..]);
    }
  }

  /* ---------- The runs between dropped descriptors ---------- */

  /** The maximal runs without an oversized descriptor, in order; neighbours are separated by one. */
  function Runs(e: Encoding, limit: nat, ds: seq<Descriptor>): (r: seq<seq<Descriptor>>)
    ensures |r| >= 1
  {
    if ds == [] then [[]]
    else
      var r := Runs(e, limit, ds[1..]);
      if Oversized(e, limit, ds[0]) then [[]] + r else [[ds[0]] + r[0]] + r[1..]
  }

  /** The pages of each run on its own, one run after the other. */
  function PagesOfRuns(e: Encoding, limit: nat, runs: seq<seq<Descriptor>>): seq<seq<Descriptor>> {
    if runs == [] then [] else PagesFrom(e, limit, [], runs[0]) + PagesOfRuns(e, limit, runs[1..])
  }

  /** The page being filled goes on into the first run; every other run starts its own pages. */
  lemma {:induction false} PagesByRun(e: Encoding, limit: nat, cur: seq<Descriptor>, ds: seq<Descriptor>)
    ensures var r := Runs(e, limit, ds);
            PagesFrom(e, limit, cur, ds) == PagesFrom(e, limit, cur, r[0]) + PagesOfRuns(e, limit, r[1..])
    decreases |ds|
  {
    if ds == [] {
      assert PagesOfRuns(e, limit, []) == [];
    } else {
      var d := ds[0];
      var r := Runs(e, limit, ds[1..]);
      SizeSuffix(e, cur, [d]);
      if Oversized(e, limit, d) {
        PagesByRun(e, limit, [], ds[1..]);
        assert ([[]] + r)[1..] == r;
      } else {
        var first := [d] + r[0];
        assert first[0] == d && first[1..] == r[0] && ([first] + r[1..])[1..] == r[1..];
        PagesByRun(e, limit, if Size(e, cur + [d]) <= limit then cur + [d] else [d], ds[1..]);
      }
    }
  }

  lemma {:induction false} RunsFit(e: Encoding, limit: nat, ds: seq<Descriptor>)
    ensures Flatten(Runs(e, limit, ds)) == Fitting(e, limit, ds)
    ensures forall i, d | 0 <= i < |Runs(e, limit, ds)| && d in Runs(e, limit, ds)[i] :: !Oversized(e, limit, d)
  {
    if ds != [] {
      var r := Runs(e, limit, ds[1..]);
      RunsFit(e, limit, ds[1..]);
      if Oversized(e, limit, ds[0]) {
        assert ([[]] + r)[1..] == r;
      } else {
        var first := [ds[0]] + r[0];
        assert ([first] + r[1..])[1..] == r[1..] && first + Flatten(r[1..]) == [ds[0]] + (r[0] + Flatten(r[1..]));
        assert forall d :: d in first <==> d == ds[0] || d in r[0];
      }
    }
  }

  predicate AllFit(e: Encoding, limit: nat, split: seq<seq<Descriptor>>) {
    forall i | 0 <= i < |split| :: Size(e, split[i]) <= limit
  }

  lemma {:induction false} AllPages(e: Encoding, limit: nat, cut: seq<seq<Descriptor>>)
    requires AllFit(e, limit, cut)
    ensures PagesIn(e, limit, cut) == |cut|
  {
    if cut != [] {
      AllPages(e, limit, cut[1..]);
    }
  }

  /** For a list with any number of oversized descriptors: the pages are those of the runs between them, and each
      run gets the fewest pages of any split of that run into pages that fit. */
  lemma RunsFewest(e: Encoding, limit: nat, ds: seq<Descriptor>)
    ensures var runs := Runs(e, limit, ds);
            && PagesFrom(e, limit, [], ds) == PagesOfRuns(e, limit, runs)
            && Flatten(runs) == Fitting(e, limit, ds)
            && forall i, split: seq<seq<Descriptor>> |
                 0 <= i < |runs| && Flatten(split) == runs[i] && AllFit(e, limit, split) ::
                 |PagesFrom(e, limit, [], runs[i])| <= |split|
  {
    var runs := Runs(e, limit, ds);
    PagesByRun(e, limit, [], ds);
    RunsFit(e, limit, ds);
    forall i, split: seq<seq<Descriptor>> |
      0 <= i < |runs| && Flatten(split) == runs[i] && AllFit(e, limit, split)
      ensures |PagesFrom(e, limit, [], runs[i])| <= |split|
    {
      PagesFewest(e, limit, runs[i], split);
      AllPages(e, limit, split);
    }
  }
}
