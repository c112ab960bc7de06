/** Order-preserving sequence operations that stand for the database's
    `find` (a filter in natural order), `findOne` (the first match) and
    `limit` (a prefix). */
module Seqs {
  import opened Wrappers

  /** The elements of s that satisfy p, in their order in s. */
  function Filter<T(!new)>(s: seq<T>, p: T -> bool): (r: seq<T>)
    ensures |r| <= |s|
    ensures forall x :: x in r <==> x in s && p(x)
  {
    if s == [] then [] else (if p(s[0]) then [s[0]] else []) + Filter(s[1..], p)
  }

  /** Filtering distributes over concatenation: the filter keeps relative order. */
  lemma {:induction false} FilterAppend<T(!new)>(a: seq<T>, b: seq<T>, p: T -> bool)
    ensures Filter(a + b, p) == Filter(a, p) + Filter(b, p)
  {
    if a == [] {
      assert a + b == b;
    } else {
      assert (a + b)[1..] == a[1..] + b;
      FilterAppend(a[1..], b, p);
    }
  }

  /** s[j] is the k-th element that Filter(s, p) keeps. */
  ghost predicate KeptAt<T(!new)>(s: seq<T>, p: T -> bool, k: nat, j: int) {
    0 <= j < |s| && p(s[j]) && |Filter(s[..j], p)| == k
  }

  /** The k-th element a filter keeps sits at some index j of its input, and
      exactly k kept elements come before it. */
  lemma {:induction false} FilterIndex<T(!new)>(s: seq<T>, p: T -> bool, k: nat)
    requires k < |Filter(s, p)|
    ensures exists j :: KeptAt(s, p, k, j) && s[j] == Filter(s, p)[k]
  {
    var f := Filter(s[1..], p);
    var h := if p(s[0]) then [s[0]] else [];
    assert Filter(s, p) == h + f;
    if p(s[0]) && k == 0 {
      assert s[..0] == [];
      assert Filter(s[..0], p) == [];
      assert KeptAt(s, p, k, 0);
    } else {
      var k' := k - |h|;
      assert f[k'] == Filter(s, p)[k];
      FilterIndex(s[1..], p, k');
      var j' :| KeptAt(s[1..], p, k', j') && s[1..][j'] == f[k'];
      KeptStep(s, p, k', j');
    }
  }

  /** An element kept from the tail is kept from the whole sequence, one
      index later and after s[0] if s[0] is kept. */
  lemma KeptStep<T(!new)>(s: seq<T>, p: T -> bool, k: nat, j: int)
    requires s != [] && KeptAt(s[1..], p, k, j)
    ensures KeptAt(s, p, k + (if p(s[0]) then 1 else 0), j + 1) && s[j + 1] == s[1..][j]
  {
    assert s[..j + 1] == [s[0]] + s[1..][..j];
    FilterAppend([s[0]], s[1..][..j], p);
    FilterOne(s[0], p);
  }

  lemma FilterOne<T(!new)>(x: T, p: T -> bool)
    ensures Filter([x], p) == if p(x) then [x] else []
  {
    assert [x][1..] == [];
  }

  /** The first element of s that satisfies p, if there is one. */
  function First<T>(s: seq<T>, p: T -> bool): (r: Option<T>)
    ensures r.None? <==> forall i :: 0 <= i < |s| ==> !p(s[i])
    ensures r.Some? ==> exists i :: 0 <= i < |s| && s[i] == r.value && p(s[i]) && forall j :: 0 <= j < i ==> !p(s[j])
  {
    if s == [] then None
    else if p(s[0]) then Some(s[0])
    else
      var r := First(s[1..], p);
      assert r.Some? ==> exists i :: 1 <= i < |s| && s[i] == r.value && p(s[i]) && forall j :: 0 <= j < i ==> !p(s[j]) by {
        if r.Some? {
          var i :| 0 <= i < |s[1..]| && s[1..][i] == r.value && p(s[1..][i]) && forall j :: 0 <= j < i ==> !p(s[1..][j]);
          assert forall j :: 0 <= j < i + 1 ==> !p(s[j]) by {
            forall j | 0 <= j < i + 1 ensures !p(s[j]) {
              if j > 0 { assert s[j] == s[1..][j - 1]; }
            }
          }
        }
      }
      r
  }

  /** When exactly one element satisfies p, First finds it. */
  lemma FirstUnique<T>(s: seq<T>, p: T -> bool, x: T)
    requires x in s && p(x)
    requires forall y :: y in s && p(y) ==> y == x
    ensures First(s, p) == Some(x)
  {
  }

  /** Looking for the first element with p is the same as looking, among the
      elements with q, for the first one with p2, when p means q and p2 together. */
  lemma {:induction false} FirstOfFilter<T(!new)>(s: seq<T>, p: T -> bool, q: T -> bool, p2: T -> bool)
    requires forall x :: p(x) <==> q(x) && p2(x)
    ensures First(s, p) == First(Filter(s, q), p2)
  {
    if s != [] {
      FirstOfFilter(s[1..], p, q, p2);
      var f := Filter(s[1..], q);
      if q(s[0]) {
        assert Filter(s, q) == [s[0]] + f;
        assert ([s[0]] + f)[1..] == f;
      } else {
        assert Filter(s, q) == f;
      }
    }
  }

  /** Applies f to every element, keeping the order. */
  function Map<T, U>(s: seq<T>, f: T -> U): (r: seq<U>)
    ensures |r| == |s|
    ensures forall i :: 0 <= i < |s| ==> r[i] == f(s[i])
  {
    seq(|s|, i requires 0 <= i < |s| => f(s[i]))
  }

  /** The first n elements of s, or all of s when it is shorter (a query's `limit`). */
  function Take<T>(s: seq<T>, n: nat): (r: seq<T>)
    ensures |r| == if |s| <= n then |s| else n
    ensures forall i :: 0 <= i < |r| ==> r[i] == s[i]
  {
    if |s| <= n then s else s[..n]
  }

  /** a is obtained from b by deleting elements: the elements of a appear in b in the same order. */
  predicate IsSubsequence<T(==)>(a: seq<T>, b: seq<T>)
    decreases |b|
  {
    if a == [] then true
    else if b == [] then false
    else (a[0] == b[0] && IsSubsequence(a[1..], b[1..])) || IsSubsequence(a, b[1..])
  }

  lemma {:induction false} SubsequenceRefl<T>(s: seq<T>)
    ensures IsSubsequence(s, s)
  {
    if s != [] {
      SubsequenceRefl(s[1..]);
    }
  }

  lemma {:induction false} SubsequenceTransitive<T>(a: seq<T>, b: seq<T>, c: seq<T>)
    requires IsSubsequence(a, b) && IsSubsequence(b, c)
    ensures IsSubsequence(a, c)
    decreases |a| + |b| + |c|
  {
    if a != [] {
      if IsSubsequence(b, c[1..]) {
        SubsequenceTransitive(a, b, c[1..]);
      } else if a[0] == b[0] && IsSubsequence(a[1..], b[1..]) {
        SubsequenceTransitive(a[1..], b[1..], c[1..]);
      } else {
        SubsequenceTransitive(a, b[1..], c[1..]);
      }
    }
  }

  lemma {:induction false} FilterIsSubsequence<T(!new)>(s: seq<T>, p: T -> bool)
    ensures IsSubsequence(Filter(s, p), s)
  {
    if s != [] {
      FilterIsSubsequence(s[1..], p);
      if p(s[0]) {
        assert Filter(s, p) == [s[0]] + Filter(s[1..], p);
        assert Filter(s, p)[1..] == Filter(s[1..], p);
      } else {
        assert Filter(s, p) == Filter(s[1..], p);
      }
    }
  }

  lemma {:induction false} TakeIsSubsequence<T>(s: seq<T>, n: nat)
    ensures IsSubsequence(Take(s, n), s)
    decreases |s|
  {
    if |s| <= n {
      SubsequenceRefl(s);
    } else if n > 0 {
      TakeIsSubsequence(s[1..], n - 1);
      assert Take(s, n)[1..] == Take(s[1..], n - 1);
    }
  }

  lemma {:induction false} MapIsMonotone<T, U>(a: seq<T>, b: seq<T>, f: T -> U)
    requires IsSubsequence(a, b)
    ensures IsSubsequence(Map(a, f), Map(b, f))
    decreases |b|
  {
    if a != [] {
      assert Map(b, f)[1..] == Map(b[1..], f);
      if a[0] == b[0] && IsSubsequence(a[1..], b[1..]) {
        MapIsMonotone(a[1..], b[1..], f);
        assert Map(a, f)[1..] == Map(a[1..], f);
      } else {
        MapIsMonotone(a, b[1..], f);
      }
    }
  }
}
