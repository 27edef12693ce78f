/** The release list returned by the releases endpoint and
    `get_latest_version` (hugo_updater.py, lines 11-16): sort by `created_at`
    newest first, drop pre-releases, take the first. */
module Releases {
  import opened Wrappers
  import opened Strings

  /** One entry of a release's `assets` list. */
  datatype Asset = Asset(name: string, browserDownloadUrl: string)

  /** One decoded element of the releases listing. */
  datatype Release = Release(tagName: string, createdAt: string, prerelease: bool, assets: seq<Asset>)

  datatype Error =
    /** `stable_releases[0]` on an empty list: an IndexError in the script. */
    | NoStableRelease

  // ----- Sorting: data.sort(key=lambda r: r["created_at"], reverse=True) -----

  /** Newest first: no element's `created_at` is smaller than a later one's. */
  ghost predicate SortedNewestFirst(s: seq<Release>)
  {
    forall i, j {:trigger LexLess(s[i].createdAt, s[j].createdAt)}
      | 0 <= i < j < |s| :: !LexLess(s[i].createdAt, s[j].createdAt)
  }

  /** Places `x`, which comes after every element of `sorted` in the input,
      behind every element whose `created_at` is not smaller than its own:
      equal keys keep their input order, as Python's stable sort with
      `reverse=True` keeps them. */
  function InsertNewestFirst(sorted: seq<Release>, x: Release): (r: seq<Release>)
    decreases |sorted|
  {
    if |sorted| == 0 then [x]
    else if LexLess(sorted[|sorted| - 1].createdAt, x.createdAt)
    then InsertNewestFirst(sorted[..|sorted| - 1], x) + [sorted[|sorted| - 1]]
    else sorted + [x]
  }

  /** The list `data.sort(key=..., reverse=True)` leaves behind: the input
      inserted element by element, as the in-place method below does. */
  function SortNewestFirst(s: seq<Release>): seq<Release>
    decreases |s|
  {
    if |s| == 0 then [] else InsertNewestFirst(SortNewestFirst(s[..|s| - 1]), s[|s| - 1])
  }

  /** Where `InsertNewestFirst` puts `x`: behind a prefix whose last key is not
      smaller, ahead of a suffix whose keys are all smaller. */
  lemma {:induction false} InsertAt(sorted: seq<Release>, x: Release) returns (j: nat)
    ensures j <= |sorted|
    ensures InsertNewestFirst(sorted, x) == sorted[..j] + [x] + sorted[j..]
    ensures forall k | j <= k < |sorted| :: LexLess(sorted[k].createdAt, x.createdAt)
    ensures j > 0 ==> !LexLess(sorted[j - 1].createdAt, x.createdAt)
    decreases |sorted|
  {
    if |sorted| == 0 {
      j := 0;
    } else if LexLess(sorted[|sorted| - 1].createdAt, x.createdAt) {
      var init := sorted[..|sorted| - 1];
      j := InsertAt(init, x);
      assert sorted[..j] == init[..j];
      assert sorted[j..] == init[j..] + [sorted[|sorted| - 1]];
    } else {
      j := |sorted|;
    }
  }

  /** In a sorted list, everything ahead of the insertion point has a key
      not smaller than the inserted one. */
  lemma {:induction false} PrefixNotSmaller(sorted: seq<Release>, x: Release, j: nat)
    requires SortedNewestFirst(sorted)
    requires j <= |sorted|
    requires j > 0 ==> !LexLess(sorted[j - 1].createdAt, x.createdAt)
    ensures forall k | 0 <= k < j :: !LexLess(sorted[k].createdAt, x.createdAt)
  {
    forall k | 0 <= k < j ensures !LexLess(sorted[k].createdAt, x.createdAt) {
      if k < j - 1 {
        NotLessTransitive(sorted[k].createdAt, sorted[j - 1].createdAt, x.createdAt);
      }
    }
  }

  lemma {:induction false} InsertKeepsSorted(sorted: seq<Release>, x: Release)
    requires SortedNewestFirst(sorted)
    ensures SortedNewestFirst(InsertNewestFirst(sorted, x))
  {
    var j := InsertAt(sorted, x);
    PrefixNotSmaller(sorted, x, j);
    var r := InsertNewestFirst(sorted, x);
    forall a, b | 0 <= a < b < |r| ensures !LexLess(r[a].createdAt, r[b].createdAt) {
      if a < j && b > j {
        NotLessTransitive(r[a].createdAt, x.createdAt, r[b].createdAt) by {
          LexLessTrichotomy(x.createdAt, r[b].createdAt);
        }
      } else if a == j {
        LexLessTrichotomy(x.createdAt, r[b].createdAt);
      }
    }
  }

  /** The sort leaves the list newest first. */
  lemma {:induction false} SortIsSorted(s: seq<Release>)
    ensures SortedNewestFirst(SortNewestFirst(s))
    decreases |s|
  {
    if |s| > 0 {
      SortIsSorted(s[..|s| - 1]);
      InsertKeepsSorted(SortNewestFirst(s[..|s| - 1]), s[|s| - 1]);
    }
  }

  /** The sort only reorders: the same releases, each as often. */
  lemma {:induction false} SortIsPermutation(s: seq<Release>)
    ensures multiset(SortNewestFirst(s)) == multiset(s)
    decreases |s|
  {
    if |s| > 0 {
      var init, x := s[..|s| - 1], s[|s| - 1];
      assert s == init + [x];
      SortIsPermutation(init);
      var sorted := SortNewestFirst(init);
      var j := InsertAt(sorted, x);
      assert sorted == sorted[..j] + sorted[j..];
      calc {
        multiset(SortNewestFirst(s));
        multiset(sorted[..j]) + multiset([x]) + multiset(sorted[j..]);
        multiset(sorted) + multiset([x]);
        multiset(s);
      }
    }
  }

  /** The releases of `s` whose `created_at` is `key`, in order. */
  function WithKey(s: seq<Release>, key: string): (r: seq<Release>)
    ensures |r| <= |s|
    ensures forall k | 0 <= k < |r| :: r[k].createdAt == key
    decreases |s|
  {
    if |s| == 0 then []
    else WithKey(s[..|s| - 1], key) + (if s[|s| - 1].createdAt == key then [s[|s| - 1]] else [])
  }

  /** No release carries `key`, so none is kept. */
  lemma {:induction false} WithKeyAbsent(s: seq<Release>, key: string)
    requires forall k | 0 <= k < |s| :: s[k].createdAt != key
    ensures WithKey(s, key) == []
    decreases |s|
  {
    if |s| > 0 { WithKeyAbsent(s[..|s| - 1], key); }
  }

  lemma {:induction false} WithKeyConcat(a: seq<Release>, b: seq<Release>, key: string)
    ensures WithKey(a + b, key) == WithKey(a, key) + WithKey(b, key)
    decreases |b|
  {
    var ab := a + b;
    if |b| == 0 {
      assert ab == a;
    } else {
      assert ab[..|ab| - 1] == a + b[..|b| - 1];
      assert ab[|ab| - 1] == b[|b| - 1];
      WithKeyConcat(a, b[..|b| - 1], key);
    }
  }

  /** Inserting `x` keeps the releases with any one key in order, `x` last
      among them. */
  lemma {:induction false} InsertKeepsKeyOrder(sorted: seq<Release>, x: Release, key: string)
    ensures WithKey(InsertNewestFirst(sorted, x), key) == WithKey(sorted, key) + WithKey([x], key)
  {
    var j := InsertAt(sorted, x);
    var pre, post := sorted[..j], sorted[j..];
    assert sorted == pre + post;
    WithKeyConcat(pre + [x], post, key);
    WithKeyConcat(pre, [x], key);
    WithKeyConcat(pre, post, key);
    if x.createdAt == key {
      assert WithKey(post, key) == [] by {
        forall k | 0 <= k < |post| ensures post[k].createdAt != key {
          LexLessIrreflexive(key);
        }
        WithKeyAbsent(post, key);
      }
    }
  }

  /** The sort is stable: releases sharing a `created_at` come out in the
      order they went in. */
  lemma {:induction false} SortIsStable(s: seq<Release>, key: string)
    ensures WithKey(SortNewestFirst(s), key) == WithKey(s, key)
    decreases |s|
  {
    if |s| > 0 {
      var init, x := s[..|s| - 1], s[|s| - 1];
      assert s == init + [x];
      WithKeyConcat(init, [x], key);
      SortIsStable(init, key);
      InsertKeepsKeyOrder(SortNewestFirst(init), x, key);
    }
  }

  /** One more element of the input sorted in. */
  lemma {:induction false} SortStep(s: seq<Release>, i: nat)
    requires i < |s|
    ensures SortNewestFirst(s[..i + 1]) == InsertNewestFirst(SortNewestFirst(s[..i]), s[i])
  {
    assert s[..i + 1][..i] == s[..i];
  }

  /** The insertion point is the one place with only smaller keys behind
      it and a key that is not smaller just ahead of it. */
  lemma {:induction false} InsertBetween(sorted: seq<Release>, x: Release, j: nat)
    requires j <= |sorted|
    requires forall k | j <= k < |sorted| :: LexLess(sorted[k].createdAt, x.createdAt)
    requires j > 0 ==> !LexLess(sorted[j - 1].createdAt, x.createdAt)
    ensures InsertNewestFirst(sorted, x) == sorted[..j] + [x] + sorted[j..]
  {
    var p := InsertAt(sorted, x);
    assert p == j;
  }

  /** `data.sort(key=lambda r: r["created_at"], reverse=True)`, in place:
      an insertion sort over the list. */
  method SortByCreatedAt(a: array<Release>)
    modifies a
    ensures a[..] == SortNewestFirst(old(a[..]))
  {
    ghost var input := a[..];
    var i := 0;
    while i < a.Length
      invariant 0 <= i <= a.Length
      invariant a[..i] == SortNewestFirst(input[..i])
      invariant a[i..] == input[i..]
    {
      SortStep(input, i);
      assert a[i] == input[i];
      InsertLast(a, i);
      assert a[i + 1..] == input[i + 1..];
      i := i + 1;
    }
    assert input[..a.Length] == input;
  }

  /** Moves `a[i]` left past every element of the sorted prefix `a[..i]`
      whose `created_at` is strictly smaller, shifting them one place right. */
  method InsertLast(a: array<Release>, i: nat)
    requires i < a.Length
    modifies a
    ensures a[..i + 1] == InsertNewestFirst(old(a[..i]), old(a[i]))
    ensures a[i + 1..] == old(a[i + 1..])
  {
    var x := a[i];
    ghost var sorted := a[..i];
    var j := i;
    while j > 0 && LexLess(a[j - 1].createdAt, x.createdAt)
      invariant 0 <= j <= i
      invariant forall k | 0 <= k < j :: a[k] == sorted[k]
      invariant forall k | j < k <= i :: a[k] == sorted[k - 1]
      invariant forall k | i < k < a.Length :: a[k] == old(a[k])
      invariant forall k | j <= k < i :: LexLess(sorted[k].createdAt, x.createdAt)
    {
      a[j] := a[j - 1];
      j := j - 1;
    }
    InsertBetween(sorted, x, j);
    a[j] := x;
    Reassembled(a[..], sorted, x, j);
  }

  /** The array after the shift: the prefix that stayed, `x`, and the part
      that moved one place right. */
  lemma {:induction false} Reassembled(s: seq<Release>, sorted: seq<Release>, x: Release, j: nat)
    requires j <= |sorted| < |s|
    requires forall k | 0 <= k < j :: s[k] == sorted[k]
    requires s[j] == x
    requires forall k | j < k <= |sorted| :: s[k] == sorted[k - 1]
    ensures s[..|sorted| + 1] == sorted[..j] + [x] + sorted[j..]
  {
  }

  // ----- Filtering: [r for r in data if not r["prerelease"]] -----

  /** The stable releases of `s`, in their order in `s`. */
  function StableReleases(s: seq<Release>): (r: seq<Release>)
    ensures |r| <= |s|
    ensures forall k | 0 <= k < |r| :: !r[k].prerelease
    decreases |s|
  {
    if |s| == 0 then []
    else StableReleases(s[..|s| - 1]) + (if s[|s| - 1].prerelease then [] else [s[|s| - 1]])
  }

  /** Every stable release kept comes from the input. */
  lemma {:induction false} StableReleasesFrom(s: seq<Release>, k: nat)
    requires k < |StableReleases(s)|
    ensures StableReleases(s)[k] in s
    decreases |s|
  {
    var init := s[..|s| - 1];
    if k < |StableReleases(init)| {
      StableReleasesFrom(init, k);
    }
  }

  /** Every stable release of the input is kept. */
  lemma {:induction false} StableReleasesComplete(s: seq<Release>, k: nat)
    requires k < |s| && !s[k].prerelease
    ensures s[k] in StableReleases(s)
    decreases |s|
  {
    if k < |s| - 1 {
      StableReleasesComplete(s[..|s| - 1], k);
    }
  }

  /** Filtering keeps relative order: it distributes over concatenation. */
  lemma {:induction false} StableReleasesConcat(a: seq<Release>, b: seq<Release>)
    ensures StableReleases(a + b) == StableReleases(a) + StableReleases(b)
    decreases |b|
  {
    var ab := a + b;
    if |b| == 0 {
      assert ab == a;
    } else {
      var n := |b| - 1;
      var last := if b[n].prerelease then [] else [b[n]];
      assert ab[..|ab| - 1] == a + b[..n];
      assert ab[|ab| - 1] == b[n];
      StableReleasesConcat(a, b[..n]);
      calc {
        StableReleases(ab);
        StableReleases(a + b[..n]) + last;
        StableReleases(a) + StableReleases(b[..n]) + last;
        StableReleases(a) + (StableReleases(b[..n]) + last);
        StableReleases(a) + StableReleases(b);
      }
    }
  }

  /** `stable_releases[0]`, with the empty list an explicit failure. */
  function FirstStable(sorted: seq<Release>): (r: Result<Release, Error>)
    ensures r.Success? ==> !r.value.prerelease
  {
    var stable := StableReleases(sorted);
    if |stable| == 0 then Failure(NoStableRelease) else Success(stable[0])
  }

  /** Indexing fails exactly when every release is a pre-release. */
  lemma {:induction false} FirstStableFails(s: seq<Release>)
    ensures FirstStable(s).Failure? <==> forall i | 0 <= i < |s| :: s[i].prerelease
    decreases |s|
  {
    if |s| > 0 {
      FirstStableFails(s[..|s| - 1]);
    }
  }

  /** `stable_releases[0]` is the first stable release of the sorted list:
      everything ahead of it is a pre-release. */
  lemma {:induction false} FirstStableAt(s: seq<Release>) returns (i: nat)
    requires FirstStable(s).Success?
    ensures i < |s| && s[i] == FirstStable(s).value
    ensures forall k | 0 <= k < i :: s[k].prerelease
    decreases |s|
  {
    var init := s[..|s| - 1];
    if FirstStable(init).Success? {
      i := FirstStableAt(init);
    } else {
      FirstStableFails(init);
      i := |s| - 1;
    }
  }

  /** The first stable release of a concatenation comes from its first part
      when that part has one. */
  lemma {:induction false} FirstStableConcat(a: seq<Release>, b: seq<Release>)
    ensures FirstStable(a + b) == if FirstStable(a).Success? then FirstStable(a) else FirstStable(b)
  {
    StableReleasesConcat(a, b);
  }

  // ----- What the selection means -----

  /** Position `i` holds the release the script should pick: a stable one,
      no stable release has a later `created_at`, and every stable release
      ahead of it has a strictly earlier one. */
  ghost predicate IsLatestStable(s: seq<Release>, i: nat)
  {
    && i < |s|
    && !s[i].prerelease
    && (forall k | 0 <= k < |s| && !s[k].prerelease :: !LexLess(s[i].createdAt, s[k].createdAt))
    && (forall k | 0 <= k < i && !s[k].prerelease :: LexLess(s[k].createdAt, s[i].createdAt))
  }

  /** A one-pass reference for the selection: scan left to right, keep the
      first stable release seen with the largest `created_at`. */
  function LatestStableIndex(s: seq<Release>): (r: Option<nat>)
    ensures r.Some? ==> IsLatestStable(s, r.value)
    ensures r.None? <==> forall i | 0 <= i < |s| :: s[i].prerelease
    decreases |s|
  {
    if |s| == 0 then None
    else
      var init := s[..|s| - 1];
      var x := s[|s| - 1];
      var best := LatestStableIndex(init);
      LatestStep(s, best);
      if x.prerelease then best
      else if best.None? || LexLess(s[best.value].createdAt, x.createdAt) then Some(|s| - 1)
      else best
  }

  lemma {:induction false} LatestStep(s: seq<Release>, best: Option<nat>)
    requires |s| > 0
    requires best.Some? ==> IsLatestStable(s[..|s| - 1], best.value)
    requires best.None? <==> forall i | 0 <= i < |s| - 1 :: s[i].prerelease
    ensures var x := s[|s| - 1];
      var r := if x.prerelease then best
               else if best.None? || LexLess(s[best.value].createdAt, x.createdAt) then Some(|s| - 1)
               else best;
      && (r.Some? ==> IsLatestStable(s, r.value))
      && (r.None? <==> forall i | 0 <= i < |s| :: s[i].prerelease)
  {
    var init, x, n := s[..|s| - 1], s[|s| - 1], |s| - 1;
    assert forall k | 0 <= k < n :: init[k] == s[k];
    if !x.prerelease {
      if best.None? {
        forall k | 0 <= k < |s| && !s[k].prerelease ensures !LexLess(x.createdAt, s[k].createdAt) {
          LexLessIrreflexive(x.createdAt);
        }
      } else if LexLess(s[best.value].createdAt, x.createdAt) {
        var b := s[best.value].createdAt;
        forall k | 0 <= k < |s| && !s[k].prerelease ensures !LexLess(x.createdAt, s[k].createdAt) {
          if k < n {
            LexLessTrichotomy(x.createdAt, b);
            NotLessTransitive(x.createdAt, b, s[k].createdAt);
          } else {
            LexLessIrreflexive(x.createdAt);
          }
        }
        forall k | 0 <= k < n && !s[k].prerelease ensures LexLess(s[k].createdAt, x.createdAt) {
          LexLessTrichotomy(s[k].createdAt, b);
          if LexLess(s[k].createdAt, b) { LexLessTransitive(s[k].createdAt, b, x.createdAt); }
        }
      }
    }
  }

  /** At most one position is the latest stable release. */
  lemma {:induction false} LatestStableUnique(s: seq<Release>, i: nat, j: nat)
    requires IsLatestStable(s, i) && IsLatestStable(s, j)
    ensures i == j
  {
  }

  /** The reference names a position exactly when the position is the
      latest stable release. */
  lemma {:induction false} LatestStableIndexExact(s: seq<Release>, i: nat)
    ensures LatestStableIndex(s) == Some(i) <==> IsLatestStable(s, i)
  {
    if IsLatestStable(s, i) {
      LatestStableUnique(s, i, LatestStableIndex(s).value);
    }
  }

  /** The release the script should select, or the failure it should report. */
  function LatestStable(s: seq<Release>): Result<Release, Error>
  {
    match LatestStableIndex(s)
    case None => Failure(NoStableRelease)
    case Some(i) => Success(s[i])
  }

  /** The first stable release after inserting `x` into a sorted list: `x`
      if it is stable and every stable release already there has a smaller
      `created_at`, the old first stable release otherwise. */
  lemma {:induction false} InsertThenFirstStable(sorted: seq<Release>, x: Release)
    requires SortedNewestFirst(sorted)
    ensures var before := FirstStable(sorted);
      FirstStable(InsertNewestFirst(sorted, x))
        == if x.prerelease then before
           else if before.Failure? || LexLess(before.value.createdAt, x.createdAt) then Success(x)
           else before
  {
    var j := InsertSplitSorted(sorted, x);
    FirstStableOfSplit(sorted[..j], x, sorted[j..]);
    assert sorted == sorted[..j] + sorted[j..];
  }

  /** `InsertAt` for a sorted list, stated on the two parts around `x`. */
  lemma {:induction false} InsertSplitSorted(sorted: seq<Release>, x: Release) returns (j: nat)
    requires SortedNewestFirst(sorted)
    ensures j <= |sorted|
    ensures InsertNewestFirst(sorted, x) == sorted[..j] + [x] + sorted[j..]
    ensures forall k | 0 <= k < j :: !LexLess(sorted[..j][k].createdAt, x.createdAt)
    ensures forall k | 0 <= k < |sorted| - j :: LexLess(sorted[j..][k].createdAt, x.createdAt)
  {
    j := InsertAt(sorted, x);
    PrefixNotSmaller(sorted, x, j);
  }

  lemma {:induction false} FirstStableOfSplit(pre: seq<Release>, x: Release, post: seq<Release>)
    requires forall k | 0 <= k < |pre| :: !LexLess(pre[k].createdAt, x.createdAt)
    requires forall k | 0 <= k < |post| :: LexLess(post[k].createdAt, x.createdAt)
    ensures var before := FirstStable(pre + post);
      FirstStable(pre + [x] + post)
        == if x.prerelease then before
           else if before.Failure? || LexLess(before.value.createdAt, x.createdAt) then Success(x)
           else before
  {
    FirstStableConcat(pre + [x], post);
    FirstStableConcat(pre, [x]);
    FirstStableConcat(pre, post);
    if FirstStable(pre).Success? {
      var k := FirstStableAt(pre);
    } else if FirstStable(post).Success? {
      var k := FirstStableAt(post);
    }
  }

  /** Sorting newest first and taking the first stable release selects the
      latest stable release, earliest in the input among equal `created_at`s,
      and fails exactly when no release is stable. */
  lemma {:induction false} SortThenFirstStable(s: seq<Release>)
    ensures FirstStable(SortNewestFirst(s)) == LatestStable(s)
    decreases |s|
  {
    if |s| > 0 {
      var init, x := s[..|s| - 1], s[|s| - 1];
      SortThenFirstStable(init);
      SortIsSorted(init);
      InsertThenFirstStable(SortNewestFirst(init), x);
      var best := LatestStableIndex(init);
      assert best.Some? ==> s[best.value] == init[best.value];
    }
  }

  /** `get_latest_version()` on an already decoded listing: copy it into a
      list, sort it in place newest first, keep the stable releases, take the
      first. */
  method GetLatestVersion(releases: seq<Release>) returns (r: Result<Release, Error>)
    ensures r == LatestStable(releases)
    ensures r.Failure? <==> forall i | 0 <= i < |releases| :: releases[i].prerelease
    ensures r.Success? ==> exists i: nat :: IsLatestStable(releases, i) && r.value == releases[i]
  {
    var data := new Release[|releases|](i requires 0 <= i < |releases| => releases[i]);
    assert data[..] == releases;
    SortByCreatedAt(data);
    var stable := StableReleases(data[..]);
    if |stable| == 0 {
      r := Failure(NoStableRelease);
    } else {
      r := Success(stable[0]);
    }
    SortThenFirstStable(releases);
  }
}
