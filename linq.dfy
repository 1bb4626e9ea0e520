/**
 * The LINQ operators the repository and the services compose: Where, Skip, Take,
 * FirstOrDefault, OrderBy and OrderByDescending, over a sequence in store order.
 */
module Linq {
  import opened Wrappers

  function Max(a: int, b: int): int { if a < b then b else a }
  function Min(a: int, b: int): int { if a < b then a else b }

  /** Enumerable.Where: the elements of s that satisfy p, in their original order. */
  function Where<T>(s: seq<T>, p: T -> bool): (r: seq<T>)
    ensures |r| <= |s|
    ensures forall i :: 0 <= i < |r| ==> p(r[i])
  {
    if s == [] then []
    else if p(s[0]) then [s[0]] + Where(s[1..], p)
    else Where(s[1..], p)
  }

  /** Where yields only elements of s. */
  lemma {:induction false} WhereSubset<T>(s: seq<T>, p: T -> bool)
    ensures forall i :: 0 <= i < |Where(s, p)| ==> Where(s, p)[i] in s
  {
    if s != [] {
      WhereSubset(s[1..], p);
      var w := Where(s[1..], p);
      assert forall i :: 0 <= i < |w| ==> w[i] in s[1..] ==> w[i] in s;
    }
  }

  /** Where keeps every element of s that satisfies p. */
  lemma {:induction false} WhereComplete<T>(s: seq<T>, p: T -> bool)
    ensures forall i :: 0 <= i < |s| && p(s[i]) ==> s[i] in Where(s, p)
  {
    if s != [] {
      WhereComplete(s[1..], p);
      assert forall i :: 1 <= i < |s| ==> s[i] == s[1..][i - 1];
    }
  }

  /** Filtering distributes over concatenation, so filtering keeps store order. */
  lemma {:induction false} WhereAppend<T>(s: seq<T>, t: seq<T>, p: T -> bool)
    ensures Where(s + t, p) == Where(s, p) + Where(t, p)
  {
    if s == [] {
      assert s + t == t;
    } else {
      assert (s + t)[0] == s[0];
      assert (s + t)[1..] == s[1..] + t;
      WhereAppend(s[1..], t, p);
    }
  }

  /** Two successive Where calls filter by the conjunction of their predicates. */
  lemma {:induction false} WhereWhere<T>(s: seq<T>, p: T -> bool, q: T -> bool, pq: T -> bool)
    requires forall x :: pq(x) == (p(x) && q(x))
    ensures Where(Where(s, p), q) == Where(s, pq)
  {
    if s != [] {
      WhereWhere(s[1..], p, q, pq);
      if p(s[0]) {
        var w := [s[0]] + Where(s[1..], p);
        assert w[0] == s[0] && w[1..] == Where(s[1..], p);
      }
    }
  }

  /** Filters by predicates that agree everywhere give the same result. */
  lemma {:induction false} WhereSame<T>(s: seq<T>, p: T -> bool, q: T -> bool)
    requires forall x :: p(x) == q(x)
    ensures Where(s, p) == Where(s, q)
  {
    if s != [] {
      WhereSame(s[1..], p, q);
    }
  }

  /** The first element Where yields is the element at the first index satisfying p. */
  lemma {:induction false} WhereFirst<T>(s: seq<T>, p: T -> bool, k: nat)
    requires k < |s| && p(s[k])
    requires forall j :: 0 <= j < k ==> !p(s[j])
    ensures Where(s, p) != [] && Where(s, p)[0] == s[k]
  {
    if k > 0 {
      WhereFirst(s[1..], p, k - 1);
    }
  }

  /** If Where yields something, its first element sits at the first index satisfying p. */
  lemma {:induction false} WhereFirstIndex<T>(s: seq<T>, p: T -> bool) returns (k: nat)
    requires Where(s, p) != []
    ensures k < |s| && p(s[k]) && Where(s, p)[0] == s[k]
    ensures forall j :: 0 <= j < k ==> !p(s[j])
  {
    if p(s[0]) {
      k := 0;
    } else {
      var k' := WhereFirstIndex(s[1..], p);
      k := k' + 1;
    }
  }

  /** Enumerable.FirstOrDefault on a sequence of references: None stands for null. */
  function FirstOrDefault<T>(s: seq<T>): Option<T> {
    if s == [] then None else Some(s[0])
  }

  /** Enumerable.Skip: a non-positive count skips nothing, a count past the end leaves nothing. */
  function Skip<T>(s: seq<T>, n: int): (r: seq<T>)
    ensures |r| == |s| - Min(Max(n, 0), |s|)
    ensures forall i :: 0 <= i < |r| ==> r[i] == s[i + Max(n, 0)]
  {
    if n <= 0 then s else if n >= |s| then [] else s[n..]
  }

  /** Enumerable.Take: a non-positive count takes nothing, a count past the end takes all. */
  function Take<T>(s: seq<T>, n: int): (r: seq<T>)
    ensures |r| == Min(Max(n, 0), |s|)
    ensures r == s[..|r|]
  {
    if n <= 0 then [] else if n >= |s| then s else s[..n]
  }

  /**
   * `Skip((page - 1) * pageSize).Take(pageSize)`, with the offset computed without
   * overflow. For page >= 1 the result is the contiguous run of s that starts at the
   * page's offset, as long as the page or as what is left of s, whichever is shorter.
   */
  function Page<T>(s: seq<T>, page: int, pageSize: int): (r: seq<T>)
    ensures pageSize <= 0 ==> r == []
    ensures page >= 1 && pageSize > 0 ==>
      var start := (page - 1) * pageSize;
      && start >= 0
      && |r| == Min(pageSize, Max(|s| - start, 0))
      && forall i :: 0 <= i < |r| ==> r[i] == s[start + i]
  {
    Take(Skip(s, (page - 1) * pageSize), pageSize)
  }

  /** The first page begins with the first element: FirstOrDefault of page 1 is that of s. */
  lemma FirstOfFirstPage<T>(s: seq<T>, pageSize: int)
    requires pageSize > 0
    ensures FirstOrDefault(Page(s, 1, pageSize)) == FirstOrDefault(s)
  {
  }

  // C#'s `int` is 32 bits and arithmetic is unchecked by default.
  const Int32Modulus: int := 0x1_0000_0000

  predicate IsInt32(x: int) {
    -0x8000_0000 <= x < 0x8000_0000
  }

  /** Two's-complement wrap-around of an int product into 32 bits. */
  function Wrap32(x: int): (r: int)
    ensures IsInt32(r)
    ensures (r - x) % Int32Modulus == 0
    ensures IsInt32(x) ==> r == x
  {
    (x + 0x8000_0000) % Int32Modulus - 0x8000_0000
  }

  /** The page as the source computes it: the offset `(page - 1) * pageSize` wraps in 32 bits. */
  function PageWithInt32Offset<T>(s: seq<T>, page: int, pageSize: int): (r: seq<T>)
    requires IsInt32(page) && IsInt32(pageSize)
    ensures |r| <= Max(pageSize, 0)
    ensures IsInt32((page - 1) * pageSize) ==> r == Page(s, page, pageSize)
  {
    Take(Skip(s, Wrap32((page - 1) * pageSize)), pageSize)
  }

  /**
   * Page 65537 of size 65536 starts at 65536 * 65536 = 2^32, far past the end of any
   * short sequence, but the wrapped offset is 0, so the source returns the first page again.
   */
  lemma Int32OffsetRepeatsFirstPage()
    ensures PageWithInt32Offset([1, 2, 3], 65537, 65536) == [1, 2, 3]
    ensures Page([1, 2, 3], 65537, 65536) == []
  {
    assert Wrap32(65536 * 65536) == 0;
  }

  /** The intended behaviour, which Page has: a page that starts past the end is empty. */
  lemma PagePastTheEndIsEmpty<T>(s: seq<T>, page: int, pageSize: int)
    requires page >= 1 && pageSize > 0 && (page - 1) * pageSize >= |s|
    ensures Page(s, page, pageSize) == []
  {
  }

  /** The elements of s are ordered by key, smallest first. */
  predicate SortedBy<T>(s: seq<T>, key: T -> int) {
    forall i, j :: 0 <= i < j < |s| ==> key(s[i]) <= key(s[j])
  }

  /** x placed into the sorted s before the first element whose key is not smaller. */
  function InsertByKey<T>(x: T, s: seq<T>, key: T -> int): (r: seq<T>)
    requires SortedBy(s, key)
    ensures |r| == |s| + 1
    ensures r[0] == x || (s != [] && r[0] == s[0])
    ensures SortedBy(r, key)
    ensures multiset(r) == multiset(s) + multiset{x}
  {
    if s == [] || key(x) <= key(s[0]) then [x] + s
    else
      var rest := InsertByKey(x, s[1..], key);
      assert s == [s[0]] + s[1..];
      assert key(s[0]) <= key(rest[0]);
      [s[0]] + rest
  }

  /** Enumerable.OrderBy on an integer key: sorted ascending, and a permutation of s. */
  function OrderBy<T>(s: seq<T>, key: T -> int): (r: seq<T>)
    ensures SortedBy(r, key)
    ensures multiset(r) == multiset(s)
  {
    if s == [] then []
    else
      assert s == [s[0]] + s[1..];
      InsertByKey(s[0], OrderBy(s[1..], key), key)
  }

  /** Enumerable.OrderByDescending: sorted largest key first, and a permutation of s. */
  function OrderByDescending<T>(s: seq<T>, key: T -> int): (r: seq<T>)
    ensures forall i, j :: 0 <= i < j < |r| ==> key(r[i]) >= key(r[j])
    ensures multiset(r) == multiset(s)
  {
    var negated := (x: T) => -key(x);
    var r := OrderBy(s, negated);
    assert forall i, j :: 0 <= i < j < |r| ==> negated(r[i]) <= negated(r[j]);
    r
  }
}
