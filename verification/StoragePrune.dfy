/** Retention of storage instance directories: how many the counting prune removes, and what the
    prune reports. */
module StoragePrune {
  import opened Ordering

  datatype Dir = Dir(name: string, modified: nat, size: nat, inUse: bool)

  /** Oldest first, names breaking ties. */
  predicate DirLe(a: Dir, b: Dir) {
    if a.modified != b.modified then a.modified < b.modified else StringLe(a.name, b.name)
  }

  lemma DirLeIsPreorder()
    ensures IsTotalPreorder(DirLe)
  {
    StringLeIsTotalOrder();
    hide StringLe;
    forall x, y ensures DirLe(x, y) || DirLe(y, x) {}
    forall x, y, z | DirLe(x, y) && DirLe(y, z) ensures DirLe(x, z) {}
  }

  function Total(dirs: seq<Dir>): nat {
    if dirs == [] then 0 else dirs[0].size + Total(dirs[1..])
  }

  /** The directories a prune may remove. */
  function Eligible(dirs: seq<Dir>, exclude: set<string>): seq<Dir> {
    if dirs == [] then []
    else
      var last := dirs[|dirs| - 1];
      Eligible(dirs[..|dirs| - 1], exclude) + (if last.name in exclude || last.inUse then [] else [last])
  }

  /** The limits are respected by what is left. A count limit of zero is no limit, and a byte
      limit of zero is none; the byte limit never forces the count below `minKeep`. */
  predicate WithinLimits(count: nat, bytes: nat, maxKeep: nat, minKeep: nat, maxBytes: nat) {
    && (maxKeep > 0 ==> count <= maxKeep)
    && (maxBytes == 0 || bytes <= maxBytes || count <= minKeep)
  }

  function Floor(minKeep: nat, maxKeep: nat): nat {
    if maxKeep > 0 && minKeep > maxKeep then maxKeep else minKeep
  }

  /** What is left respects the limits, and removing any fewer of the oldest would not. */
  ghost predicate LeastPrune(sorted: seq<Dir>, removed: nat, maxKeep: nat, minKeep: nat, maxBytes: nat) {
    && removed <= |sorted|
    && WithinLimits(|sorted| - removed, Total(sorted[removed..]), maxKeep, minKeep, maxBytes)
    && forall k :: 0 <= k < removed ==> !WithinLimits(|sorted| - k, Total(sorted[k..]), maxKeep, minKeep, maxBytes)
  }

  /** `prune_dirs` on a listing of the root: the oldest eligible directories are removed one by
      one, and no more of them than the limits demand. */
  method PruneDirs(dirs: seq<Dir>, exclude: set<string>, maxKeep: nat, minKeep: nat, maxBytes: nat)
    returns (removed: seq<Dir>, kept: seq<Dir>)
    ensures removed + kept == Sort(DirLe, Eligible(dirs, exclude))
    ensures IsSorted(DirLe, removed + kept)
    ensures LeastPrune(removed + kept, |removed|, maxKeep, Floor(minKeep, maxKeep), maxBytes)
    // Exactly the directories that are not excluded and not in use are removed or kept,
    ensures forall d :: d in removed || d in kept <==> d in dirs && d.name !in exclude && !d.inUse
    // the removed ones no younger than the kept ones, names breaking ties,
    ensures forall r, d :: r in removed && d in kept ==>
      r.modified < d.modified || (r.modified == d.modified && StringLe(r.name, d.name))
    ensures Total(removed) + Total(kept) == Total(Eligible(dirs, exclude))
    // the limits hold of what is kept,
    ensures maxKeep > 0 ==> |kept| <= maxKeep
    ensures maxBytes > 0 && Total(kept) > maxBytes ==> |kept| <= minKeep
    // and the last removal was needed: for the count, or for the bytes with `minKeep` still left.
    ensures removed != [] ==>
      || (maxKeep > 0 && |kept| >= maxKeep)
      || (maxBytes > 0 && |kept| >= minKeep && Total(kept) + removed[|removed| - 1].size > maxBytes)
  {
    DirLeIsPreorder();
    var sorted := Sort(DirLe, Eligible(dirs, exclude));
    SortSorted(DirLe, Eligible(dirs, exclude));
    hide DirLe, Sort, Eligible, LeastPrune;
    if maxKeep == 0 && maxBytes == 0 {
      removed, kept := [], sorted;
      assert removed + kept == sorted;
      NoLimits(sorted, Floor(minKeep, maxKeep));
    } else {
      removed, kept := DropOldest(sorted, maxKeep, Floor(minKeep, maxKeep), maxBytes);
    }
    forall d ensures d in removed || d in kept <==> d in dirs && d.name !in exclude && !d.inUse {
      SplitEligible(dirs, exclude, removed, kept, d);
    }
    forall r, d | r in removed && d in kept
      ensures r.modified < d.modified || (r.modified == d.modified && StringLe(r.name, d.name))
    {
      RemovedOlder(removed, kept, r, d);
    }
    hide Floor, WithinLimits;
    hide Total;
    TotalSplits(removed, kept);
    TotalOfSame(removed + kept, Eligible(dirs, exclude));
    PruneMeetsLimits(removed, kept, maxKeep, minKeep, maxBytes);
  }

  /** The total does not depend on the order. */
  lemma {:induction false} TotalOfSame(a: seq<Dir>, b: seq<Dir>)
    requires multiset(a) == multiset(b)
    ensures Total(a) == Total(b)
  {
    assert |a| == |multiset(a)| == |multiset(b)| == |b|;
    if a != [] {
      MultisetTail(a);
      var i :| 0 <= i < |b| && b[i] == a[0];
      var left, right := b[..i], b[i + 1..];
      assert b == left + ([a[0]] + right);
      assert multiset(left + right) == multiset(b) - multiset{a[0]};
      hide Total;
      TotalOfSame(a[1..], left + right);
      TotalFirst(a);
      TotalFirst([a[0]] + right);
      assert ([a[0]] + right)[1..] == right;
      TotalSplits(left, right);
      TotalSplits(left, [a[0]] + right);
    }
  }

  lemma TotalFirst(s: seq<Dir>)
    requires s != []
    ensures Total(s) == s[0].size + Total(s[1..])
  {
  }

  lemma SplitEligible(dirs: seq<Dir>, exclude: set<string>, removed: seq<Dir>, kept: seq<Dir>, d: Dir)
    requires removed + kept == Sort(DirLe, Eligible(dirs, exclude))
    ensures d in removed || d in kept <==> d in dirs && d.name !in exclude && !d.inUse
  {
    hide Sort, DirLe, Eligible;
    SameElements(removed + kept, Eligible(dirs, exclude));
    EligibleMember(dirs, exclude, d);
  }

  /** In a sorted listing what comes first is older, names breaking ties. */
  lemma RemovedOlder(removed: seq<Dir>, kept: seq<Dir>, r: Dir, d: Dir)
    requires IsSorted(DirLe, removed + kept) && r in removed && d in kept
    ensures r.modified < d.modified || (r.modified == d.modified && StringLe(r.name, d.name))
  {
    hide StringLe;
    var i :| 0 <= i < |removed| && removed[i] == r;
    var j :| 0 <= j < |kept| && kept[j] == d;
    assert (removed + kept)[i] == r && (removed + kept)[|removed| + j] == d;
  }

  /** The limits, read off the least prune. */
  lemma PruneMeetsLimits(removed: seq<Dir>, kept: seq<Dir>, maxKeep: nat, minKeep: nat, maxBytes: nat)
    requires LeastPrune(removed + kept, |removed|, maxKeep, Floor(minKeep, maxKeep), maxBytes)
    ensures maxKeep > 0 ==> |kept| <= maxKeep
    ensures maxBytes > 0 && Total(kept) > maxBytes ==> |kept| <= minKeep
    ensures removed != [] ==>
      || (maxKeep > 0 && |kept| >= maxKeep)
      || (maxBytes > 0 && |kept| >= minKeep && Total(kept) + removed[|removed| - 1].size > maxBytes)
  {
    var sorted, n := removed + kept, |removed|;
    assert sorted[n..] == kept;
    if removed != [] {
      TotalRest(sorted, n - 1);
      assert sorted[n - 1] == removed[n - 1];
      assert !WithinLimits(|sorted| - (n - 1), Total(sorted[n - 1..]), maxKeep, Floor(minKeep, maxKeep), maxBytes);
    }
    hide Total;
  }

  lemma NoLimits(sorted: seq<Dir>, least: nat)
    ensures LeastPrune(sorted, 0, 0, least, 0)
  {
    assert sorted[0..] == sorted;
  }

  /** Stopping before `n` removals would leave the limits broken. */
  ghost predicate StillTooMuch(sorted: seq<Dir>, n: nat, maxKeep: nat, least: nat, maxBytes: nat) {
    n <= |sorted| && forall k :: 0 <= k < n ==> !WithinLimits(|sorted| - k, Total(sorted[k..]), maxKeep, least, maxBytes)
  }

  lemma TotalRest(sorted: seq<Dir>, n: nat)
    requires n < |sorted|
    ensures Total(sorted[n..]) == sorted[n].size + Total(sorted[n + 1..])
  {
    assert sorted[n..][1..] == sorted[n + 1..];
  }

  /** What is removed and what is kept together hold what there was. */
  lemma {:induction false} TotalSplits(removed: seq<Dir>, kept: seq<Dir>)
    ensures Total(removed + kept) == Total(removed) + Total(kept)
  {
    if removed == [] {
      assert removed + kept == kept;
    } else {
      TotalSplits(removed[1..], kept);
      assert (removed + kept)[1..] == removed[1..] + kept;
    }
  }

  lemma TooMuchStep(sorted: seq<Dir>, n: nat, maxKeep: nat, least: nat, maxBytes: nat)
    requires n < |sorted| && StillTooMuch(sorted, n, maxKeep, least, maxBytes)
    requires !WithinLimits(|sorted| - n, Total(sorted[n..]), maxKeep, least, maxBytes)
    ensures StillTooMuch(sorted, n + 1, maxKeep, least, maxBytes)
  {
    hide WithinLimits, Total;
  }

  /** The removal loop, on directories already in order of age. */
  method DropOldest(sorted: seq<Dir>, maxKeep: nat, least: nat, maxBytes: nat) returns (removed: seq<Dir>, kept: seq<Dir>)
    ensures removed + kept == sorted
    ensures LeastPrune(sorted, |removed|, maxKeep, least, maxBytes)
  {
    hide Total, StillTooMuch, LeastPrune;
    removed, kept := [], sorted;
    var total := Total(kept);
    ghost var n := 0;
    assert sorted[0..] == sorted && sorted[..0] == [];
    NothingTooMuch(sorted, maxKeep, least, maxBytes);
    while (maxKeep > 0 && |kept| > maxKeep) || (maxBytes > 0 && total > maxBytes && |kept| > least)
      invariant 0 <= n <= |sorted| && removed == sorted[..n] && kept == sorted[n..]
      invariant total == Total(sorted[n..])
      invariant StillTooMuch(sorted, n, maxKeep, least, maxBytes)
      decreases |kept|
    {
      var oldest := kept[0];
      TotalRest(sorted, n);
      TooMuchStep(sorted, n, maxKeep, least, maxBytes);
      total := if total < oldest.size then 0 else total - oldest.size;
      removed, kept := removed + [oldest], kept[1..];
      n := n + 1;
    }
    JustEnough(sorted, n, maxKeep, least, maxBytes);
  }

  lemma NothingTooMuch(sorted: seq<Dir>, maxKeep: nat, least: nat, maxBytes: nat)
    ensures StillTooMuch(sorted, 0, maxKeep, least, maxBytes)
  {
  }

  lemma JustEnough(sorted: seq<Dir>, n: nat, maxKeep: nat, least: nat, maxBytes: nat)
    requires StillTooMuch(sorted, n, maxKeep, least, maxBytes)
    requires WithinLimits(|sorted| - n, Total(sorted[n..]), maxKeep, least, maxBytes)
    ensures LeastPrune(sorted, n, maxKeep, least, maxBytes)
  {
    hide WithinLimits, Total;
  }

  lemma {:induction false} EligibleMember(dirs: seq<Dir>, exclude: set<string>, d: Dir)
    ensures d in Eligible(dirs, exclude) <==> d in dirs && d.name !in exclude && !d.inUse
  {
    if dirs != [] {
      var init, last := dirs[..|dirs| - 1], dirs[|dirs| - 1];
      EligibleMember(init, exclude, d);
      assert d in dirs <==> d in init || d == last;
    }
  }

  /** The counting prune, too, leaves excluded and in-use directories alone, and whatever it
      removes is no newer than any eligible directory it keeps. */
  lemma PrunedAreOldest(dirs: seq<Dir>, exclude: set<string>, removed: seq<Dir>, kept: seq<Dir>, r: Dir)
    requires removed + kept == Sort(DirLe, Eligible(dirs, exclude)) && IsSorted(DirLe, removed + kept)
    requires r in removed
    ensures r in dirs && r.name !in exclude && !r.inUse
    ensures forall d :: d in kept ==> DirLe(r, d)
  {
    hide DirLe;
    var all := removed + kept;
    var i :| 0 <= i < |removed| && removed[i] == r;
    assert all[i] == r;
    SameElements(all, Eligible(dirs, exclude));
    EligibleMember(dirs, exclude, r);
    forall d | d in kept ensures DirLe(r, d) {
      var j :| 0 <= j < |kept| && kept[j] == d;
      assert all[|removed| + j] == d;
    }
  }

  // ---- The report ----

  /** The part of `before` that is not in `after`, in order. */
  method PrunedInstances(before: seq<string>, after: seq<string>) returns (pruned: seq<string>)
    requires Distinct(before)
    ensures Distinct(pruned)
    ensures forall n :: n in pruned <==> n in before && n !in after
    ensures IsSorted(StringLe, before) ==> IsSorted(StringLe, pruned)
    ensures (forall n :: n in after ==> n in before) && Distinct(after) ==> |before| == |after| + |pruned|
  {
    hide StringLe;
    pruned := [];
    var i := 0;
    while i < |before|
      invariant 0 <= i <= |before|
      invariant forall n :: n in pruned <==> n in before[..i] && n !in after
      invariant Distinct(pruned)
      invariant IsSorted(StringLe, before) ==>
        IsSorted(StringLe, pruned) && forall k, j :: 0 <= k < |pruned| && i <= j < |before| ==> StringLe(pruned[k], before[j])
    {
      assert before[..i + 1] == before[..i] + [before[i]];
      if before[i] !in after {
        assert before[i] !in before[..i];
        pruned := pruned + [before[i]];
      }
      i := i + 1;
    }
    assert before[..i] == before;
    if (forall n :: n in after ==> n in before) && Distinct(after) {
      SplitCount(before, after, pruned);
    }
  }

  lemma SplitCount(before: seq<string>, after: seq<string>, pruned: seq<string>)
    requires Distinct(before) && Distinct(after) && Distinct(pruned)
    requires forall n :: n in after ==> n in before
    requires forall n :: n in pruned <==> n in before && n !in after
    ensures |before| == |after| + |pruned|
  {
    var b, a, p := set n | n in before, set n | n in after, set n | n in pruned;
    DistinctCount(before, b);
    DistinctCount(after, a);
    DistinctCount(pruned, p);
    assert b == a + p && a * p == {};
  }
}
