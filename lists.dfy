/** The array operations the clients apply to their lists: `filter` against one
    value, `slice(0, n)`, and the facts about them the models rely on. */
module Lists {

  predicate NoDuplicates<T(==)>(s: seq<T>)
  {
    forall i, j :: 0 <= i < j < |s| ==> s[i] != s[j]
  }

  /** Number of occurrences of `x` in `s`. */
  function Count<T(==)>(s: seq<T>, x: T): nat
  {
    if s == [] then 0 else (if s[0] == x then 1 else 0) + Count(s[1..], x)
  }

  /** `a` is `b` with some elements dropped and the rest kept in their order. */
  predicate IsSubsequence<T(==)>(a: seq<T>, b: seq<T>)
  {
    if a == [] then true
    else if b == [] then false
    else if a[0] == b[0] then IsSubsequence(a[1..], b[1..])
    else IsSubsequence(a, b[1..])
  }

  /** `s.filter((e) => e !== x)`. */
  function Without<T(==,!new)>(s: seq<T>, x: T): (r: seq<T>)
    ensures |r| <= |s|
    ensures forall y :: y in r <==> y in s && y != x
    ensures Count(r, x) == 0
    ensures forall y :: y != x ==> Count(r, y) == Count(s, y)
    ensures IsSubsequence(r, s)
  {
    if s == [] then []
    else if s[0] == x then Without(s[1..], x)
    else
      var rest := Without(s[1..], x);
      assert ([s[0]] + rest)[1..] == rest;
      [s[0]] + rest
  }

  /** `s.slice(0, n)`: the first `n` elements, or all of `s` if it is shorter. */
  function Take<T>(s: seq<T>, n: nat): (r: seq<T>)
    ensures |r| <= n && |r| <= |s|
    ensures |s| <= n ==> r == s
    ensures n <= |s| ==> |r| == n
    ensures r == s[..|r|]
  {
    if |s| <= n then s else s[..n]
  }

  lemma {:induction false} CountZero<T>(s: seq<T>, x: T)
    ensures Count(s, x) == 0 <==> x !in s
  {
    if s != [] {
      CountZero(s[1..], x);
      assert s == [s[0]] + s[1..];
    }
  }

  lemma {:induction false} CountPrefix<T>(s: seq<T>, n: nat, x: T)
    requires n <= |s|
    ensures Count(s[..n], x) <= Count(s, x)
  {
    if n > 0 {
      assert s[..n][1..] == s[1..][..n - 1];
      CountPrefix(s[1..], n - 1, x);
    }
  }

  /** A list is the subsequence of itself. */
  lemma {:induction false} SubsequenceReflexive<T>(s: seq<T>)
    ensures IsSubsequence(s, s)
  {
    if s != [] {
      SubsequenceReflexive(s[1..]);
    }
  }

  /** Dropping elements from the end keeps a subsequence a subsequence. */
  lemma {:induction false} SubsequencePrefix<T>(a: seq<T>, b: seq<T>, n: nat)
    requires IsSubsequence(a, b) && n <= |a|
    ensures IsSubsequence(a[..n], b)
  {
    if n > 0 && a != [] && b != [] {
      if a[0] == b[0] {
        assert a[..n][1..] == a[1..][..n - 1];
        SubsequencePrefix(a[1..], b[1..], n - 1);
      } else {
        SubsequencePrefix(a, b[1..], n);
      }
    }
  }

  /** Every element of a subsequence comes from the longer list. */
  lemma {:induction false} SubsequenceMembers<T>(a: seq<T>, b: seq<T>, y: T)
    requires IsSubsequence(a, b) && y in a
    ensures y in b
  {
    if a[0] == b[0] {
      if y != a[0] {
        SubsequenceMembers(a[1..], b[1..], y);
      }
    } else {
      SubsequenceMembers(a, b[1..], y);
    }
  }

  /** A subsequence of a list without duplicates has none either. */
  lemma {:induction false} SubsequenceNoDuplicates<T>(a: seq<T>, b: seq<T>)
    requires IsSubsequence(a, b) && NoDuplicates(b)
    ensures NoDuplicates(a)
  {
    if a != [] {
      if a[0] == b[0] {
        SubsequenceNoDuplicates(a[1..], b[1..]);
        forall j | 0 < j < |a| ensures a[0] != a[j] {
          SubsequenceMembers(a[1..], b[1..], a[j]);
        }
      } else {
        SubsequenceNoDuplicates(a, b[1..]);
      }
    }
  }

  /** Filtering out a value that is not there changes nothing. */
  lemma {:induction false} WithoutAbsent<T(!new)>(s: seq<T>, x: T)
    requires x !in s
    ensures Without(s, x) == s
  {
    if s != [] {
      WithoutAbsent(s[1..], x);
    }
  }

  /** `[x]` is a subsequence of any list ending in `x`. */
  lemma {:induction false} SkipToEnd<T>(b: seq<T>, x: T)
    ensures IsSubsequence([x], b + [x])
  {
    if b == [] {
      assert [x][1..] == [];
    } else {
      assert (b + [x])[1..] == b[1..] + [x];
      if b[0] != x {
        SkipToEnd(b[1..], x);
      } else {
        assert [x][1..] == [];
      }
    }
  }

  /** Extending both lists by the same element keeps a subsequence one, and
      extending only the longer list does too. */
  lemma {:induction false} SubsequenceAppend<T>(a: seq<T>, b: seq<T>, x: T)
    requires IsSubsequence(a, b)
    ensures IsSubsequence(a + [x], b + [x]) && IsSubsequence(a, b + [x])
  {
    if a == [] {
      assert a + [x] == [x];
      SkipToEnd(b, x);
    } else {
      assert (a + [x])[1..] == a[1..] + [x];
      assert (b + [x])[1..] == b[1..] + [x];
      if a[0] == b[0] {
        SubsequenceAppend(a[1..], b[1..], x);
      } else {
        SubsequenceAppend(a, b[1..], x);
      }
    }
  }

  /** Filtering out an element appended to a list that did not hold it gives
      the list back. */
  lemma {:induction false} WithoutAppended<T(!new)>(s: seq<T>, x: T)
    requires x !in s
    ensures Without(s + [x], x) == s
  {
    if s == [] {
      assert [x][1..] == [];
    } else {
      assert (s + [x])[1..] == s[1..] + [x];
      WithoutAppended(s[1..], x);
    }
  }

  /** Filtering out the head of a list that holds it once drops just the head. */
  lemma WithoutHead<T(!new)>(s: seq<T>)
    requires s != [] && s[0] !in s[1..]
    ensures Without(s, s[0]) == s[1..]
  {
    WithoutAbsent(s[1..], s[0]);
  }
}
