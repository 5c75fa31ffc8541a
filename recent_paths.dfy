/** The most-recently-used path list both clients keep under the `recentPaths`
    key: a new path is put first, its earlier occurrences are dropped and the
    list is cut to a maximum length. */
module RecentPaths {
  import opened Common
  import opened Lists

  /** `recent.filter((p) => p !== path)`, then `unshift(path)`, then
      `slice(0, cap)`. */
  function MoveToFront(recent: seq<Path>, path: Path, cap: nat): seq<Path>
  {
    Take([path] + Without(recent, path), cap)
  }

  /** The list after an insertion is bounded by the cap, holds the new path
      first and exactly once, keeps the other entries in their previous
      relative order, stays free of duplicates, and loses no entry while the
      cap is not reached. */
  lemma MoveToFrontProperties(recent: seq<Path>, path: Path, cap: nat)
    ensures var r := MoveToFront(recent, path, cap);
      && |r| <= cap
      && (cap > 0 ==> r != [] && r[0] == path && Count(r, path) == 1)
      && (r != [] ==> path !in r[1..] && IsSubsequence(r[1..], recent))
      && (NoDuplicates(recent) ==> NoDuplicates(r))
      && (|recent| < cap ==> forall y :: y in recent ==> y in r)
  {
    var w := Without(recent, path);
    var full := [path] + w;
    var r := Take(full, cap);
    if r != [] {
      assert r[0] == path;
      assert r[1..] == w[..|r| - 1];
      SubsequencePrefix(w, recent, |r| - 1);
      CountZero(w, path);
      assert path !in r[1..];
      assert Count(r, path) == 1 + Count(r[1..], path);
      CountZero(r[1..], path);
      if NoDuplicates(recent) {
        SubsequenceNoDuplicates(r[1..], recent);
        forall i, j | 0 <= i < j < |r| ensures r[i] != r[j] {
          if i > 0 {
            assert r[i] == r[1..][i - 1] && r[j] == r[1..][j - 1];
          } else {
            assert r[j] in r[1..];
          }
        }
      }
    }
    if |recent| < cap {
      assert r == full;
      forall y | y in recent ensures y in r {
        if y != path {
          assert y in w;
        }
      }
    }
  }
}
