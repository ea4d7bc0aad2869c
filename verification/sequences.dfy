/** The list operators the repository's LINQ queries are built from: Where,
    Skip, Take and FirstOrDefault, over sequences. */
module Sequences {
  import opened Basics

  function Min(a: int, b: int): int
  {
    if a <= b then a else b
  }

  /** Where(keep): the elements satisfying `keep`, in their original order. */
  function Filter<T>(s: seq<T>, keep: T -> bool): (r: seq<T>)
    ensures |r| <= |s|
  {
    if |s| == 0 then []
    else if keep(s[0]) then [s[0]] + Filter(s[1..], keep)
    else Filter(s[1..], keep)
  }

  /** Where keeps exactly the elements satisfying the predicate: everything
      it returns is an element of `s` that passes, and every element of `s`
      that passes is returned. */
  lemma {:induction false} FilterMembers<T>(s: seq<T>, keep: T -> bool)
    ensures forall i | 0 <= i < |Filter(s, keep)| :: Filter(s, keep)[i] in s && keep(Filter(s, keep)[i])
    ensures forall i | 0 <= i < |s| :: keep(s[i]) ==> s[i] in Filter(s, keep)
  {
    if |s| > 0 {
      FilterMembers(s[1..], keep);
      assert forall i | 1 <= i < |s| :: s[i] == s[1..][i - 1];
    }
  }

  /** Where is empty exactly when no element passes. */
  lemma {:induction false} FilterEmpty<T>(s: seq<T>, keep: T -> bool)
    ensures Filter(s, keep) == [] <==> forall i | 0 <= i < |s| :: !keep(s[i])
  {
    if |s| > 0 {
      FilterEmpty(s[1..], keep);
      assert forall i | 1 <= i < |s| :: s[i] == s[1..][i - 1];
    }
  }

  /** Skip(n): drops the first n elements; a count of zero or less drops
      nothing and a count past the end leaves nothing. */
  function Skip<T>(s: seq<T>, n: int): (r: seq<T>)
    ensures |r| <= |s| && r == s[|s| - |r|..]
    ensures 0 <= n <= |s| ==> |r| == |s| - n
    ensures n <= 0 ==> r == s
    ensures n >= |s| ==> r == []
  {
    if n <= 0 then s else if n >= |s| then [] else s[n..]
  }

  /** Take(n): keeps the first n elements; a count of zero or less keeps
      nothing and a count past the end keeps everything. */
  function Take<T>(s: seq<T>, n: int): (r: seq<T>)
    ensures |r| <= |s| && r == s[..|r|]
    ensures 0 <= n <= |s| ==> |r| == n
    ensures n <= 0 ==> r == []
    ensures n >= |s| ==> r == s
  {
    if n <= 0 then [] else if n >= |s| then s else s[..n]
  }

  /** Skip(skip).Take(take). */
  function Window<T>(s: seq<T>, skip: int, take: int): seq<T>
  {
    Take(Skip(s, skip), take)
  }

  /** The index FirstOrDefault(p) stops at, or None when no element matches. */
  function FirstIndex<T>(s: seq<T>, p: T -> bool): (r: Option<nat>)
    ensures r.Some? ==> r.value < |s| && p(s[r.value])
    ensures r.Some? ==> forall j | 0 <= j < r.value :: !p(s[j])
    ensures r.None? ==> forall j | 0 <= j < |s| :: !p(s[j])
  {
    if |s| == 0 then None
    else if p(s[0]) then Some(0)
    else match FirstIndex(s[1..], p)
      case Some(i) => Some(i + 1)
      case None => None
  }

  /** No two elements of `s` have the same image under `f`. */
  ghost predicate Distinct<T, K>(s: seq<T>, f: T -> K)
  {
    forall i, j | 0 <= i < j < |s| :: f(s[i]) != f(s[j])
  }

  /** A non-negative window is the contiguous slice s[skip .. skip + take],
      cut short at the end of `s`. */
  lemma WindowIsSlice<T>(s: seq<T>, skip: int, take: int)
    requires 0 <= skip && 0 <= take
    ensures Window(s, skip, take) == s[Min(skip, |s|)..Min(skip + take, |s|)]
  {
  }

  /** Filtering distributes over concatenation, so it keeps the order. */
  lemma {:induction false} FilterAppend<T>(a: seq<T>, b: seq<T>, keep: T -> bool)
    ensures Filter(a + b, keep) == Filter(a, keep) + Filter(b, keep)
  {
    if |a| == 0 {
      assert a + b == b;
    } else {
      assert (a + b)[1..] == a[1..] + b;
      FilterAppend(a[1..], b, keep);
    }
  }

  lemma {:induction false} FilterKeepsAll<T>(s: seq<T>, keep: T -> bool)
    requires forall i | 0 <= i < |s| :: keep(s[i])
    ensures Filter(s, keep) == s
  {
    if |s| > 0 {
      FilterKeepsAll(s[1..], keep);
    }
  }

  /** Filtering by a predicate and by its negation splits `s` in two. */
  lemma {:induction false} FilterPartition<T>(s: seq<T>, keep: T -> bool, drop: T -> bool)
    requires forall x :: drop(x) <==> !keep(x)
    ensures multiset(Filter(s, keep)) + multiset(Filter(s, drop)) == multiset(s)
  {
    if |s| > 0 {
      FilterPartition(s[1..], keep, drop);
      assert s == [s[0]] + s[1..];
    }
  }

  lemma {:induction false} FilterKeepsDistinct<T, K>(s: seq<T>, keep: T -> bool, f: T -> K)
    requires Distinct(s, f)
    ensures Distinct(Filter(s, keep), f)
  {
    if |s| > 0 {
      var rest := Filter(s[1..], keep);
      FilterKeepsDistinct(s[1..], keep, f);
      FilterMembers(s[1..], keep);
      if keep(s[0]) {
        var r := [s[0]] + rest;
        forall i, j | 0 <= i < j < |r|
          ensures f(r[i]) != f(r[j])
        {
          if i == 0 {
            assert r[j] in s[1..];
            var k :| 0 <= k < |s[1..]| && s[1..][k] == r[j];
            assert s[k + 1] == r[j];
          } else {
            assert r[i] == rest[i - 1] && r[j] == rest[j - 1];
          }
        }
      }
    }
  }

  /** Filtering out the single element `keep` rejects cuts it out of place. */
  lemma {:induction false} FilterDropsOne<T>(s: seq<T>, k: int, keep: T -> bool)
    requires 0 <= k < |s| && !keep(s[k])
    requires forall i | 0 <= i < |s| && i != k :: keep(s[i])
    ensures Filter(s, keep) == s[..k] + s[k + 1..]
  {
    var t := s[1..];
    if k == 0 {
      assert Filter(t, keep) == t by {
        forall i | 0 <= i < |t|
          ensures keep(t[i])
        {
          assert t[i] == s[i + 1];
        }
        FilterKeepsAll(t, keep);
      }
      assert s[..k] + s[k + 1..] == t;
    } else {
      assert Filter(t, keep) == t[..k - 1] + t[k..] by {
        forall i | 0 <= i < |t| && i != k - 1
          ensures keep(t[i])
        {
          assert t[i] == s[i + 1];
        }
        FilterDropsOne(t, k - 1, keep);
      }
      assert Filter(s, keep) == [s[0]] + Filter(t, keep) by {
        assert keep(s[0]);
      }
      assert s[..k] + s[k + 1..] == [s[0]] + (t[..k - 1] + t[k..]) by {
        assert s[..k] == [s[0]] + t[..k - 1];
        assert s[k + 1..] == t[k..];
      }
    }
  }

  /** Where depends on the predicate's values only. */
  lemma {:induction false} FilterSamePredicate<T>(s: seq<T>, p: T -> bool, q: T -> bool)
    requires forall x :: p(x) == q(x)
    ensures Filter(s, p) == Filter(s, q)
  {
    if |s| > 0 {
      FilterSamePredicate(s[1..], p, q);
    }
  }

  /** Where(p).Where(q) is Where(p && q). */
  lemma {:induction false} FilterTwice<T>(s: seq<T>, p: T -> bool, q: T -> bool, both: T -> bool)
    requires forall x :: both(x) == (p(x) && q(x))
    ensures Filter(Filter(s, p), q) == Filter(s, both)
  {
    if |s| > 0 {
      FilterTwice(s[1..], p, q, both);
      if p(s[0]) {
        assert Filter(s, p) == [s[0]] + Filter(s[1..], p);
        assert ([s[0]] + Filter(s[1..], p))[1..] == Filter(s[1..], p);
      }
    }
  }

  lemma AppendKeepsDistinct<T, K>(s: seq<T>, x: T, f: T -> K)
    requires Distinct(s, f)
    requires forall i | 0 <= i < |s| :: f(s[i]) != f(x)
    ensures Distinct(s + [x], f)
  {
  }
}
