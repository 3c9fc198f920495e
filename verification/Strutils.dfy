/**
 * local/strutils.c: stablesort, a bottom-up merge sort that ping-pongs between the
 * caller's array and a scratch array.
 */
module Strutils {

  const SIZE_MAX: nat := 0xffff_ffff_ffff_ffff

  // ----- What a stable sort is -------------------------------------------------

  ghost predicate TotalPreorder<T(!new)>(cmp: (T, T) -> int) {
    && (forall a, b :: cmp(a, b) <= 0 || cmp(b, a) <= 0)
    && (forall a, b, c :: cmp(a, b) <= 0 && cmp(b, c) <= 0 ==> cmp(a, c) <= 0)
  }

  /**
   * Position `i` of the input belongs before position `j`: by value, and on a tie by
   * position.
   */
  ghost predicate Before<T>(s: seq<T>, cmp: (T, T) -> int, i: nat, j: nat)
    requires i < |s| && j < |s|
  {
    if i < j then cmp(s[i], s[j]) <= 0 else !(cmp(s[j], s[i]) <= 0)
  }

  /** `p` lists positions of `s` lying in [lo, hi), each before the next ones. */
  ghost predicate Ordered<T>(s: seq<T>, cmp: (T, T) -> int, p: seq<nat>, lo: nat, hi: nat)
    requires hi <= |s|
  {
    && (forall i :: 0 <= i < |p| ==> lo <= p[i] < hi)
    && (forall i, j :: 0 <= i < j < |p| ==> Before(s, cmp, p[i], p[j]))
  }

  /** `r` is `s` rearranged by `p`. */
  ghost predicate Rearranged<T>(s: seq<T>, p: seq<nat>, r: seq<T>) {
    && |p| == |r|
    && forall i :: 0 <= i < |p| ==> p[i] < |s| && r[i] == s[p[i]]
  }

  /** `r` is the stable sort of `s`, as witnessed by `p`. */
  ghost predicate StablySortedBy<T>(s: seq<T>, cmp: (T, T) -> int, p: seq<nat>, r: seq<T>) {
    |p| == |s| && Rearranged(s, p, r) && Ordered(s, cmp, p, 0, |s|)
  }

  ghost predicate StablySorted<T>(s: seq<T>, cmp: (T, T) -> int, r: seq<T>) {
    exists p: seq<nat> :: StablySortedBy(s, cmp, p, r)
  }

  // ----- What that means for the caller ----------------------------------------

  lemma BeforeTransitive<T(!new)>(s: seq<T>, cmp: (T, T) -> int, i: nat, j: nat, k: nat)
    requires TotalPreorder(cmp) && i < |s| && j < |s| && k < |s|
    requires Before(s, cmp, i, j) && Before(s, cmp, j, k)
    ensures Before(s, cmp, i, k)
  {
  }

  function Below(n: nat): (r: set<nat>)
    ensures |r| == n && forall i: nat :: i in r <==> i < n
  {
    if n == 0 then {} else Below(n - 1) + {n - 1}
  }

  function Elements(p: seq<nat>): (r: set<nat>) {
    set x | x in p
  }

  lemma {:induction false} DistinctCardinality(p: seq<nat>)
    requires forall i, j :: 0 <= i < j < |p| ==> p[i] != p[j]
    ensures |Elements(p)| == |p|
  {
    if p != [] {
      var n := |p| - 1;
      DistinctCardinality(p[..n]);
      assert p == p[..n] + [p[n]];
      assert Elements(p) == Elements(p[..n]) + {p[n]};
      assert p[n] !in p[..n];
    }
  }

  /** Every position of the input is used. */
  lemma UsesEveryPosition<T(!new)>(s: seq<T>, cmp: (T, T) -> int, p: seq<nat>, r: seq<T>)
    requires TotalPreorder(cmp) && StablySortedBy(s, cmp, p, r)
    ensures forall i: nat :: i < |s| ==> i in p
  {
    forall i, j | 0 <= i < j < |p|
      ensures p[i] != p[j]
    {
      assert Before(s, cmp, p[i], p[j]);
    }
    DistinctCardinality(p);
    SubsetOfSameSize(Elements(p), Below(|s|));
    forall i: nat | i < |s|
      ensures i in p
    {
      assert i in Below(|s|);
    }
  }

  lemma {:induction false} SubsetOfSameSize(a: set<nat>, b: set<nat>)
    requires a <= b && |a| >= |b|
    ensures a == b
  {
    if a != {} {
      var x :| x in a;
      SubsetOfSameSize(a - {x}, b - {x});
      assert a == (a - {x}) + {x} && b == (b - {x}) + {x};
    } else {
      assert b == {};
    }
  }

  /** In plain terms: the result ascends, and what compares equal keeps its order. */
  lemma StableSortAscends<T(!new)>(s: seq<T>, cmp: (T, T) -> int, p: seq<nat>, r: seq<T>, i: nat, j: nat)
    requires TotalPreorder(cmp) && StablySortedBy(s, cmp, p, r) && i < j < |r|
    ensures |p| == |r| == |s| && p[i] < |s| && p[j] < |s| && r[i] == s[p[i]] && r[j] == s[p[j]]
    ensures cmp(r[i], r[j]) <= 0
    ensures cmp(r[j], r[i]) <= 0 ==> p[i] < p[j]
  {
    assert Before(s, cmp, p[i], p[j]);
  }

  /** The contract of the sort leaves exactly one possible result. */
  lemma StableSortUnique<T(!new)>(s: seq<T>, cmp: (T, T) -> int, r: seq<T>, t: seq<T>)
    requires TotalPreorder(cmp) && StablySorted(s, cmp, r) && StablySorted(s, cmp, t)
    ensures r == t
  {
    var p: seq<nat> :| StablySortedBy(s, cmp, p, r);
    var q: seq<nat> :| StablySortedBy(s, cmp, q, t);
    UsesEveryPosition(s, cmp, p, r);
    UsesEveryPosition(s, cmp, q, t);
    SameOrder(s, cmp, p, q);
  }

  lemma {:induction false} SameOrder<T(!new)>(s: seq<T>, cmp: (T, T) -> int, p: seq<nat>, q: seq<nat>)
    requires TotalPreorder(cmp) && |p| == |q|
    requires Ordered(s, cmp, p, 0, |s|) && Ordered(s, cmp, q, 0, |s|)
    requires forall x :: x in p <==> x in q
    ensures p == q
  {
    if p != [] {
      var n := |p| - 1;
      SameLast(s, cmp, p, q);
      forall x
        ensures x in p[..n] <==> x in q[..n]
      {
        FrontMembers(s, cmp, p, x);
        FrontMembers(s, cmp, q, x);
      }
      SameOrder(s, cmp, p[..n], q[..n]);
      assert p == p[..n] + [p[n]] && q == q[..n] + [q[n]];
    }
  }

  /** Both last elements are the unique maximum. */
  lemma SameLast<T(!new)>(s: seq<T>, cmp: (T, T) -> int, p: seq<nat>, q: seq<nat>)
    requires TotalPreorder(cmp) && |p| == |q| > 0
    requires Ordered(s, cmp, p, 0, |s|) && Ordered(s, cmp, q, 0, |s|)
    requires forall x :: x in p <==> x in q
    ensures p[|p| - 1] == q[|q| - 1]
  {
    var i, j := p[|p| - 1], q[|q| - 1];
    assert i in p && j in q;
    LastIsGreatest(s, cmp, p, j);
    LastIsGreatest(s, cmp, q, i);
  }

  lemma LastIsGreatest<T>(s: seq<T>, cmp: (T, T) -> int, p: seq<nat>, x: nat)
    requires p != [] && Ordered(s, cmp, p, 0, |s|) && x in p
    ensures x < |s| && p[|p| - 1] < |s| && (x == p[|p| - 1] || Before(s, cmp, x, p[|p| - 1]))
  {
  }

  lemma FrontMembers<T(!new)>(s: seq<T>, cmp: (T, T) -> int, p: seq<nat>, x: nat)
    requires TotalPreorder(cmp) && p != [] && Ordered(s, cmp, p, 0, |s|)
    ensures x in p[..|p| - 1] <==> x in p && x != p[|p| - 1]
  {
    var n := |p| - 1;
    assert p == p[..n] + [p[n]];
    assert forall k :: 0 <= k < n ==> Before(s, cmp, p[k], p[n]);
  }

  /** Nothing is lost or duplicated. */
  lemma StableSortPermutes<T(!new)>(s: seq<T>, cmp: (T, T) -> int, r: seq<T>)
    requires TotalPreorder(cmp) && StablySorted(s, cmp, r)
    ensures multiset(r) == multiset(s)
  {
    var p: seq<nat> :| StablySortedBy(s, cmp, p, r);
    UsesEveryPosition(s, cmp, p, r);
    assert Distinct(p) by {
      forall i, j | 0 <= i < j < |p|
        ensures p[i] != p[j]
      {
        assert Before(s, cmp, p[i], p[j]);
      }
    }
    RearrangementPermutes(s, p, r);
  }

  ghost predicate Distinct(p: seq<nat>) {
    forall i, j :: 0 <= i < j < |p| ==> p[i] != p[j]
  }

  ghost predicate Covers(p: seq<nat>, n: nat) {
    forall i: nat :: i < n ==> i in p
  }

  function Without<T>(s: seq<T>, k: nat): (r: seq<T>)
    requires k < |s|
    ensures |r| == |s| - 1 && forall i :: 0 <= i < |r| ==> r[i] == s[if i < k then i else i + 1]
  {
    s[..k] + s[k + 1..]
  }

  lemma DistinctWithout(p: seq<nat>, k: nat)
    requires k < |p| && Distinct(p)
    ensures Distinct(Without(p, k))
  {
  }

  /** Taking the input's last position, found at `k`, out of both sides. */
  lemma RearrangedWithout<T>(s: seq<T>, p: seq<nat>, r: seq<T>, k: nat)
    requires Rearranged(s, p, r) && |p| == |s| && k < |p| && p[k] == |s| - 1 && Distinct(p)
    ensures Rearranged(s[..|s| - 1], Without(p, k), Without(r, k))
  {
    hide Without;
    var p', r' := Without(p, k), Without(r, k);
    forall i | 0 <= i < |p'|
      ensures p'[i] < |s| - 1 && r'[i] == s[p'[i]]
    {
      var j := if i < k then i else i + 1;
      assert p'[i] == p[j] != p[k] && r'[i] == r[j];
    }
  }

  lemma CoversWithout(p: seq<nat>, n: nat, k: nat)
    requires k < |p| && p[k] == n && Covers(p, n + 1)
    ensures Covers(Without(p, k), n)
  {
    forall i: nat | i < n
      ensures i in Without(p, k)
    {
      assert i in p;
      assert p == p[..k] + [n] + p[k + 1..];
    }
  }

  lemma MultisetWithout<T>(r: seq<T>, k: nat)
    requires k < |r|
    ensures multiset(r) == multiset(Without(r, k)) + multiset{r[k]}
  {
    assert r == r[..k] + [r[k]] + r[k + 1..];
  }

  lemma {:induction false} RearrangementPermutes<T>(s: seq<T>, p: seq<nat>, r: seq<T>)
    requires Rearranged(s, p, r) && |p| == |s| && Distinct(p) && Covers(p, |s|)
    ensures multiset(r) == multiset(s)
    decreases |s|
  {
    if s != [] {
      // take the input's last position out of both sides
      var n := |s| - 1;
      assert n in p;
      var k :| 0 <= k < |p| && p[k] == n;
      RearrangedWithout(s, p, r, k);
      DistinctWithout(p, k);
      CoversWithout(p, n, k);
      assert r[k] == s[n];
      hide *;
      RearrangementPermutes(s[..n], Without(p, k), Without(r, k));
      MultisetWithout(r, k);
      assert s == s[..n] + [s[n]];
    }
  }

  // ----- Segments ---------------------------------------------------------------

  /** First and one-past-last position of segment `k` when segments are `w` long. */
  function Lo(k: nat, w: nat): nat {
    k * w
  }

  function Hi(k: nat, w: nat, n: nat): nat {
    if Lo(k, w) + w < n then Lo(k, w) + w else n
  }

  /** The positions p[lo..hi] are exactly those of the segment, in order. */
  ghost predicate Segment<T>(s: seq<T>, cmp: (T, T) -> int, p: seq<nat>, lo: nat, hi: nat) {
    lo <= hi <= |p| && hi <= |s| && Ordered(s, cmp, p[lo..hi], lo, hi)
  }

  /** Segments that start below `limit` are sorted. */
  ghost predicate Segments<T>(s: seq<T>, cmp: (T, T) -> int, p: seq<nat>, w: nat, limit: nat) {
    && |p| == |s|
    && forall k: nat :: Lo(k, w) < limit && Lo(k, w) < |s| ==>
         Segment(s, cmp, p, Lo(k, w), Hi(k, w, |s|))
  }

  // ----- The merge ---------------------------------------------------------------

  /** Everything in `q` goes before everything in `p`. */
  ghost predicate AllBefore<T>(s: seq<T>, cmp: (T, T) -> int, q: seq<nat>, p: seq<nat>) {
    forall i, j :: 0 <= i < |q| && 0 <= j < |p| ==>
      q[i] < |s| && p[j] < |s| && Before(s, cmp, q[i], p[j])
  }

  /** The state of a merge: `q` is out, `l` and `r` are still to come from the two segments. */
  ghost predicate Merging<T>(s: seq<T>, cmp: (T, T) -> int, q: seq<nat>, l: seq<nat>, r: seq<nat>,
                             lo: nat, mid: nat, hi: nat)
  {
    && lo <= mid <= hi <= |s|
    && Ordered(s, cmp, q, lo, hi) && Ordered(s, cmp, l, lo, mid) && Ordered(s, cmp, r, mid, hi)
    && AllBefore(s, cmp, q, l) && AllBefore(s, cmp, q, r)
  }

  /** Taking the left head is right when it compares no greater. */
  lemma TakeLeft<T(!new)>(s: seq<T>, cmp: (T, T) -> int, q: seq<nat>, l: seq<nat>, r: seq<nat>,
                          lo: nat, mid: nat, hi: nat)
    requires TotalPreorder(cmp) && Merging(s, cmp, q, l, r, lo, mid, hi)
    requires |l| > 0 && (|r| > 0 ==> cmp(s[l[0]], s[r[0]]) <= 0)
    ensures Merging(s, cmp, q + [l[0]], l[1..], r, lo, mid, hi)
  {
    forall j | 0 <= j < |r|
      ensures Before(s, cmp, l[0], r[j])
    {
      if j > 0 {
        BeforeTransitive(s, cmp, l[0], r[0], r[j]);
      }
    }
  }

  /** Taking the right head is right when the left one compares greater. */
  lemma TakeRight<T(!new)>(s: seq<T>, cmp: (T, T) -> int, q: seq<nat>, l: seq<nat>, r: seq<nat>,
                           lo: nat, mid: nat, hi: nat)
    requires TotalPreorder(cmp) && Merging(s, cmp, q, l, r, lo, mid, hi)
    requires |r| > 0 && (|l| > 0 ==> !(cmp(s[l[0]], s[r[0]]) <= 0))
    ensures Merging(s, cmp, q + [r[0]], l, r[1..], lo, mid, hi)
  {
    forall j | 0 <= j < |l|
      ensures Before(s, cmp, r[0], l[j])
    {
      if j > 0 {
        BeforeTransitive(s, cmp, r[0], l[0], l[j]);
      }
    }
  }

  /** When one side is used up, the other can be appended as it stands. */
  lemma TakeRest<T>(s: seq<T>, cmp: (T, T) -> int, q: seq<nat>, l: seq<nat>, r: seq<nat>,
                    lo: nat, mid: nat, hi: nat)
    requires Merging(s, cmp, q, l, r, lo, mid, hi) && (l == [] || r == [])
    ensures Ordered(s, cmp, q + l + r, lo, hi)
  {
    var t := q + l + r;
    assert t == if l == [] then q + r else q + l;
  }

  /** memcpy between the two buffers. */
  method Copy<T>(dst: array<T>, to: nat, src: array<T>, from: nat, count: nat)
    requires dst != src && to + count <= dst.Length && from + count <= src.Length
    modifies dst
    ensures dst[..to] == old(dst[..to]) && dst[to + count..] == old(dst[to + count..])
    ensures dst[to..to + count] == src[from..from + count]
  {
    forall i | 0 <= i < count {
      dst[to + i] := src[from + i];
    }
  }

  lemma RearrangedAppend<T>(s: seq<T>, p: seq<nat>, r: seq<T>, p': seq<nat>, r': seq<T>)
    requires Rearranged(s, p, r) && Rearranged(s, p', r')
    ensures Rearranged(s, p + p', r + r')
  {
  }

  lemma RearrangedSlice<T>(s: seq<T>, p: seq<nat>, r: seq<T>, lo: nat, hi: nat)
    requires Rearranged(s, p, r) && lo <= hi <= |p|
    ensures Rearranged(s, p[lo..hi], r[lo..hi])
  {
  }

  /** `q` is out, the first `ldone` and `rdone` positions of the two segments are in it. */
  ghost predicate MergingAt<T>(s: seq<T>, cmp: (T, T) -> int, p: seq<nat>, q: seq<nat>, ldone: nat,
                               rdone: nat, lo: nat, mid: nat, hi: nat)
  {
    && lo + ldone <= mid && mid + rdone <= hi <= |p| && |q| == ldone + rdone
    && Merging(s, cmp, q, p[lo + ldone..mid], p[mid + rdone..hi], lo, mid, hi)
  }

  /** One comparison of the merge: the smaller head, the left one on a tie, goes out. */
  method MergeOne<T(!new)>(input: array<T>, output: array<T>, merged: nat, seglen: nat, lsegDone: nat,
                           rsegDone: nat, cmp: (T, T) -> int,
                           ghost s: seq<T>, ghost p: seq<nat>, ghost q: seq<nat>, ghost hi: nat)
    returns (ghost q': seq<nat>, left: bool)
    requires TotalPreorder(cmp) && input != output && Rearranged(s, p, input[..])
    requires lsegDone < seglen && merged + seglen + rsegDone < hi <= input.Length == output.Length
    requires MergingAt(s, cmp, p, q, lsegDone, rsegDone, merged, merged + seglen, hi)
    requires Rearranged(s, q, output[merged..merged + lsegDone + rsegDone])
    modifies output
    ensures MergingAt(s, cmp, p, q', if left then lsegDone + 1 else lsegDone,
                      if left then rsegDone else rsegDone + 1, merged, merged + seglen, hi)
    ensures Rearranged(s, q', output[merged..merged + lsegDone + rsegDone + 1])
    ensures output[..merged] == old(output[..merged])
  {
    hide Merging, Ordered;
    ghost var mid := merged + seglen;
    ghost var l, r := p[merged + lsegDone..mid], p[mid + rsegDone..hi];
    var a, b := input[merged + lsegDone], input[merged + seglen + rsegDone];
    assert a == input[..][merged + lsegDone] == s[l[0]];
    assert b == input[..][mid + rsegDone] == s[r[0]];
    var at := merged + lsegDone + rsegDone;
    ghost var before := output[merged..at];
    left := cmp(a, b) <= 0;
    if left {
      TakeLeft(s, cmp, q, l, r, merged, mid, hi);
      output[at] := a;
      q' := q + [l[0]];
      assert l[1..] == p[merged + lsegDone + 1..mid];
    } else {
      TakeRight(s, cmp, q, l, r, merged, mid, hi);
      output[at] := b;
      q' := q + [r[0]];
      assert r[1..] == p[mid + rsegDone + 1..hi];
    }
    assert output[merged..at + 1] == before + [output[at]];
  }

  /** The merge while both segments have items left. */
  method MergeHeads<T(!new)>(input: array<T>, output: array<T>, merged: nat, seglen: nat, rsegLen: nat,
                             cmp: (T, T) -> int, ghost s: seq<T>, ghost p: seq<nat>)
    returns (ghost q: seq<nat>, lsegDone: nat, rsegDone: nat)
    requires TotalPreorder(cmp) && input != output
    requires merged + seglen + rsegLen <= input.Length == output.Length == |s|
    requires Rearranged(s, p, input[..])
    requires MergingAt(s, cmp, p, [], 0, 0, merged, merged + seglen, merged + seglen + rsegLen)
    modifies output
    ensures lsegDone <= seglen && rsegDone <= rsegLen && (lsegDone == seglen || rsegDone == rsegLen)
    ensures MergingAt(s, cmp, p, q, lsegDone, rsegDone, merged, merged + seglen, merged + seglen + rsegLen)
    ensures Rearranged(s, q, output[merged..merged + lsegDone + rsegDone])
    ensures output[..merged] == old(output[..merged])
  {
    hide MergingAt;
    lsegDone, rsegDone := 0, 0;
    q := [];
    while lsegDone < seglen && rsegDone < rsegLen
      invariant lsegDone <= seglen && rsegDone <= rsegLen
      invariant MergingAt(s, cmp, p, q, lsegDone, rsegDone, merged, merged + seglen, merged + seglen + rsegLen)
      invariant Rearranged(s, q, output[merged..merged + lsegDone + rsegDone])
      invariant output[..merged] == old(output[..merged])
    {
      var left;
      q, left := MergeOne(input, output, merged, seglen, lsegDone, rsegDone, cmp, s, p, q,
                          merged + seglen + rsegLen);
      if left {
        lsegDone := lsegDone + 1;
      } else {
        rsegDone := rsegDone + 1;
      }
    }
  }

  /** The memcpy that ends a merge: the unused part of one segment goes out as it stands. */
  method CopyRest<T>(input: array<T>, output: array<T>, merged: nat, done: nat, from: nat, count: nat,
                     ghost s: seq<T>, ghost p: seq<nat>, ghost q: seq<nat>)
    requires input != output && Rearranged(s, p, input[..])
    requires merged + done + count <= output.Length && from + count <= input.Length
    requires |q| == done && Rearranged(s, q, output[merged..merged + done])
    modifies output
    ensures Rearranged(s, q + p[from..from + count], output[merged..merged + done + count])
    ensures output[..merged] == old(output[..merged])
  {
    ghost var first, rest := output[merged..merged + done], input[..][from..from + count];
    RearrangedSlice(s, p, input[..], from, from + count);
    RearrangedAppend(s, q, first, p[from..from + count], rest);
    Copy(output, merged + done, input, from, count);
    hide *;
    assert output[..merged] == output[..merged + done][..merged];
    assert output[merged..merged + done] == output[..merged + done][merged..] == first;
    assert output[merged..merged + done + count] == first + rest;
  }

  lemma MergeStarts<T>(s: seq<T>, cmp: (T, T) -> int, p: seq<nat>, lo: nat, mid: nat, hi: nat)
    requires Segment(s, cmp, p, lo, mid) && Segment(s, cmp, p, mid, hi)
    ensures MergingAt(s, cmp, p, [], 0, 0, lo, mid, hi)
    ensures hi <= |p|
  {
  }

  lemma MergeEnds<T>(s: seq<T>, cmp: (T, T) -> int, p: seq<nat>, q: seq<nat>, ldone: nat, rdone: nat,
                     lo: nat, mid: nat, hi: nat)
    requires MergingAt(s, cmp, p, q, ldone, rdone, lo, mid, hi)
    requires lo + ldone == mid || mid + rdone == hi
    ensures |q| == ldone + rdone && lo + ldone <= mid && mid + rdone <= hi <= |p| && hi <= |s|
    ensures Ordered(s, cmp, q + if lo + ldone < mid then p[lo + ldone..mid] else p[mid + rdone..hi], lo, hi)
  {
    var l, r := p[lo + ldone..mid], p[mid + rdone..hi];
    TakeRest(s, cmp, q, l, r, lo, mid, hi);
    assert q + l + r == q + if lo + ldone < mid then l else r;
  }

  /** One turn of the pass: merge the segments at `merged` and `merged + seglen`. */
  method MergeTwo<T(!new)>(input: array<T>, output: array<T>, merged: nat, seglen: nat, rsegLen: nat,
                           cmp: (T, T) -> int, ghost s: seq<T>, ghost p: seq<nat>)
    returns (ghost q: seq<nat>)
    requires TotalPreorder(cmp) && input != output
    requires merged + seglen + rsegLen <= input.Length == output.Length == |s|
    requires Rearranged(s, p, input[..])
    requires Segment(s, cmp, p, merged, merged + seglen)
    requires Segment(s, cmp, p, merged + seglen, merged + seglen + rsegLen)
    modifies output
    ensures |q| == seglen + rsegLen && Ordered(s, cmp, q, merged, merged + |q|)
    ensures Rearranged(s, q, output[merged..merged + |q|])
    ensures output[..merged] == old(output[..merged])
  {
    hide *;
    ghost var mid, hi := merged + seglen, merged + seglen + rsegLen;
    MergeStarts(s, cmp, p, merged, mid, hi);
    var lsegDone, rsegDone;
    q, lsegDone, rsegDone := MergeHeads(input, output, merged, seglen, rsegLen, cmp, s, p);
    MergeEnds(s, cmp, p, q, lsegDone, rsegDone, merged, mid, hi);
    if lsegDone < seglen {
      CopyRest(input, output, merged, lsegDone + rsegDone, merged + lsegDone, seglen - lsegDone, s, p, q);
      q := q + p[merged + lsegDone..mid];
    } else {
      CopyRest(input, output, merged, lsegDone + rsegDone, merged + seglen + rsegDone, rsegLen - rsegDone,
               s, p, q);
      q := q + p[mid + rsegDone..hi];
    }
  }

  // ----- The passes ---------------------------------------------------------------

  lemma LoFacts(k: nat, w: nat)
    ensures Lo(k + 1, w) == Lo(k, w) + w
    ensures Lo(2 * k, w) == Lo(k, 2 * w)
    ensures Lo(2 * k + 1, w) == Lo(k, 2 * w) + w
  {
  }

  lemma LoMonotone(j: nat, k: nat, w: nat)
    requires j <= k
    ensures Lo(j, w) <= Lo(k, w)
  {
  }

  /** The segments merged so far: `m` whole ones, or everything. */
  ghost predicate PassDone<T>(s: seq<T>, cmp: (T, T) -> int, p: seq<nat>, w: nat, m: nat) {
    && w > 0 && |p| <= |s| && (|p| == Lo(m, w) || |p| == |s| <= Lo(m, w))
    && forall k: nat :: Lo(k, w) < |p| ==> Segment(s, cmp, p, Lo(k, w), Hi(k, w, |s|))
  }

  lemma ExtendPass<T>(s: seq<T>, cmp: (T, T) -> int, p: seq<nat>, q: seq<nat>, w: nat, m: nat)
    requires PassDone(s, cmp, p, w, m) && |p| == Lo(m, w) < |s|
    requires |p| + |q| == Hi(m, w, |s|) && Ordered(s, cmp, q, |p|, |p| + |q|)
    ensures PassDone(s, cmp, p + q, w, m + 1)
  {
    hide Lo, Ordered;
    LoFacts(m, w);
    forall k: nat | Lo(k, w) < |p + q|
      ensures Segment(s, cmp, p + q, Lo(k, w), Hi(k, w, |s|))
    {
      LoFacts(k, w);
      if k >= m + 1 {
        LoMonotone(m + 1, k, w);
        assert false;
      } else if k < m {
        LoMonotone(k + 1, m, w);
        assert (p + q)[Lo(k, w)..Hi(k, w, |s|)] == p[Lo(k, w)..Hi(k, w, |s|)];
      } else {
        assert (p + q)[Lo(k, w)..Hi(k, w, |s|)] == q;
      }
    }
  }

  /** One turn of the outer loop: merge pairs of segments from one buffer into the other. */
  method MergePass<T(!new)>(input: array<T>, output: array<T>, seglen: nat, cmp: (T, T) -> int,
                            ghost s: seq<T>, ghost p: seq<nat>)
    returns (ghost q: seq<nat>)
    requires TotalPreorder(cmp) && input != output && input.Length == output.Length == |s|
    requires 0 < seglen < |s| && Segments(s, cmp, p, seglen, |s|) && Rearranged(s, p, input[..])
    modifies output
    ensures Segments(s, cmp, q, 2 * seglen, |s|) && Rearranged(s, q, output[..])
  {
    hide *;
    var nritems := input.Length;
    var merged: nat := 0;
    ghost var m: nat := 0;
    q := [];
    PassStarts(s, cmp, 2 * seglen, output[..merged]);
    while nritems - merged > seglen
      invariant merged == |q| <= nritems
      invariant PassDone(s, cmp, q, 2 * seglen, m)
      invariant Rearranged(s, q, output[..merged])
    {
      q, merged := MergeNext(input, output, merged, seglen, cmp, s, p, q, m);
      m := m + 1;
    }
    if merged < nritems {
      q := CopyLeftover(input, output, merged, seglen, cmp, s, p, q, m);
      m := m + 1;
    }
    PassEnds(s, cmp, q, 2 * seglen, m);
    assert output[..] == output[..nritems];
  }

  lemma PassStarts<T>(s: seq<T>, cmp: (T, T) -> int, w: nat, r: seq<T>)
    requires w > 0 && |r| == 0
    ensures PassDone(s, cmp, [], w, 0) && Rearranged(s, [], r)
  {
  }

  /** One turn of a pass. */
  method MergeNext<T(!new)>(input: array<T>, output: array<T>, merged0: nat, seglen: nat, cmp: (T, T) -> int,
                            ghost s: seq<T>, ghost p: seq<nat>, ghost q0: seq<nat>, ghost m: nat)
    returns (ghost q: seq<nat>, merged: nat)
    requires TotalPreorder(cmp) && input != output && input.Length == output.Length == |s|
    requires 0 < seglen < |s| && Segments(s, cmp, p, seglen, |s|) && Rearranged(s, p, input[..])
    requires merged0 == |q0| && merged0 + seglen < |s|
    requires PassDone(s, cmp, q0, 2 * seglen, m) && Rearranged(s, q0, output[..merged0])
    modifies output
    ensures merged0 < merged == |q| <= |s|
    ensures PassDone(s, cmp, q, 2 * seglen, m + 1) && Rearranged(s, q, output[..merged])
  {
    hide *;
    var left := input.Length - merged0 - seglen;
    var rsegLen := if seglen <= left then seglen else left;
    PassSegments(s, cmp, p, q0, seglen, m);
    ghost var done := output[..merged0];
    ghost var q1 := MergeTwo(input, output, merged0, seglen, rsegLen, cmp, s, p);
    merged := merged0 + seglen + rsegLen;
    ExtendPass(s, cmp, q0, q1, 2 * seglen, m);
    RearrangedAppend(s, q0, done, q1, output[merged0..merged]);
    assert output[..merged] == done + output[merged0..merged];
    q := q0 + q1;
  }

  /** The memcpy that ends a pass. */
  method CopyLeftover<T(!new)>(input: array<T>, output: array<T>, merged: nat, ghost w: nat,
                               ghost cmp: (T, T) -> int, ghost s: seq<T>, ghost p: seq<nat>,
                               ghost q: seq<nat>, ghost m: nat)
    returns (ghost q': seq<nat>)
    requires input != output && input.Length == output.Length == |s|
    requires w > 0 && Segments(s, cmp, p, w, |s|) && Rearranged(s, p, input[..])
    requires merged == |q| < |s| <= merged + w
    requires PassDone(s, cmp, q, 2 * w, m) && Rearranged(s, q, output[..merged])
    modifies output
    ensures |q'| == |s| && PassDone(s, cmp, q', 2 * w, m + 1) && Rearranged(s, q', output[..|s|])
  {
    hide *;
    PassLeftover(s, cmp, p, q, w, m);
    var nritems := input.Length;
    ghost var done, rest := output[..merged], input[..][merged..nritems];
    ghost var q1 := p[merged..nritems];
    Copy(output, merged, input, merged, nritems - merged);
    RearrangedSlice(s, p, input[..], merged, nritems);
    RearrangedAppend(s, q, done, q1, rest);
    assert output[..nritems] == done + rest;
    ExtendPass(s, cmp, q, q1, 2 * w, m);
    q' := q + q1;
  }

  /** What the next turn of a pass finds in the input buffer: two adjacent sorted segments. */
  lemma PassSegments<T>(s: seq<T>, cmp: (T, T) -> int, p: seq<nat>, q: seq<nat>, w: nat, m: nat)
    requires Segments(s, cmp, p, w, |s|) && w > 0
    requires PassDone(s, cmp, q, 2 * w, m) && |q| + w < |s|
    ensures var r := if w <= |s| - |q| - w then w else |s| - |q| - w;
            && |q| == Lo(m, 2 * w) && |q| + w + r == Hi(m, 2 * w, |s|)
            && Segment(s, cmp, p, |q|, |q| + w)
            && Segment(s, cmp, p, |q| + w, |q| + w + r)
  {
    PassBounds(|s|, |q|, w, m);
    hide Segment, Segments, Lo, Hi;
    SegmentAt(s, cmp, p, w, 2 * m);
    SegmentAt(s, cmp, p, w, 2 * m + 1);
  }

  lemma SegmentAt<T>(s: seq<T>, cmp: (T, T) -> int, p: seq<nat>, w: nat, k: nat)
    requires Segments(s, cmp, p, w, |s|) && Lo(k, w) < |s|
    ensures Segment(s, cmp, p, Lo(k, w), Hi(k, w, |s|))
  {
  }

  /** Where the next two segments of a pass lie. */
  lemma PassBounds(n: nat, merged: nat, w: nat, m: nat)
    requires (merged == Lo(m, 2 * w) || merged == n) && merged + w < n && w > 0
    ensures var r := if w <= n - merged - w then w else n - merged - w;
            && merged == Lo(m, 2 * w) == Lo(2 * m, w) && merged + w == Lo(2 * m + 1, w) == Hi(2 * m, w, n)
            && merged + w + r == Hi(m, 2 * w, n) == Hi(2 * m + 1, w, n)
  {
    LoFacts(m, w);
    LoFacts(2 * m, w);
    hide Lo;
  }

  /** A last segment without a partner is sorted already. */
  lemma PassLeftover<T>(s: seq<T>, cmp: (T, T) -> int, p: seq<nat>, q: seq<nat>, w: nat, m: nat)
    requires Segments(s, cmp, p, w, |s|) && w > 0
    requires PassDone(s, cmp, q, 2 * w, m) && |q| < |s| <= |q| + w
    ensures |q| == Lo(m, 2 * w) && |s| == Hi(m, 2 * w, |s|)
    ensures |p| == |s| && Ordered(s, cmp, p[|q|..|s|], |q|, |s|)
  {
    LoFacts(m, w);
    LoFacts(m, 2 * w);
    LoFacts(2 * m, w);
    assert Segment(s, cmp, p, Lo(2 * m, w), Hi(2 * m, w, |s|));
  }

  lemma PassEnds<T>(s: seq<T>, cmp: (T, T) -> int, q: seq<nat>, w: nat, m: nat)
    requires PassDone(s, cmp, q, w, m) && |q| == |s|
    ensures Segments(s, cmp, q, w, |s|)
  {
  }

  /**
   * stablesort on items of `itemsize` bytes. A single item is only sorted when it is a
   * single byte: any other one-item call runs into the assertion at the top of the loop.
   */
  method StableSort<T(!new, 0)>(base: array<T>, itemsize: nat, cmp: (T, T) -> int)
    requires TotalPreorder(cmp)
    requires itemsize > 0 && base.Length * itemsize <= SIZE_MAX
    requires base.Length == 1 ==> itemsize == 1
    modifies base
    ensures StablySorted(old(base[..]), cmp, base[..])
  {
    hide *;
    ghost var s := base[..];
    ghost var p := Identity(base.Length);
    var nritems := base.Length;
    ArraySize(nritems, itemsize);
    if nritems * itemsize <= 1 {
      AtMostOne(s, cmp);
      return;
    }
    var base2 := new T[nritems];
    var input, output := base, base2;
    var seglen := 1;
    SingleItems(s, cmp, p);
    while true
      invariant {input, output} == {base, base2}
      invariant 0 < seglen < nritems
      invariant Segments(s, cmp, p, seglen, nritems) && Rearranged(s, p, input[..])
      decreases nritems - seglen
    {
      assert nritems > seglen;
      p := MergePass(input, output, seglen, cmp, s, p);
      if SIZE_MAX - seglen < seglen {
        seglen := 2 * seglen;
        break;
      }
      seglen := 2 * seglen;
      if seglen >= nritems {
        break;
      }
      input, output := output, input;
    }
    OneSegment(s, cmp, p, seglen);
    if base == input {
      Copy(base, 0, output, 0, nritems);
      assert base[..] == output[..];
    }
    IsSorted(s, cmp, p, base[..]);
  }

  lemma IsSorted<T>(s: seq<T>, cmp: (T, T) -> int, p: seq<nat>, r: seq<T>)
    requires |p| == |s| && Rearranged(s, p, r) && Ordered(s, cmp, p, 0, |s|)
    ensures StablySorted(s, cmp, r)
  {
    assert StablySortedBy(s, cmp, p, r);
  }

  lemma AtMostOne<T>(s: seq<T>, cmp: (T, T) -> int)
    requires |s| <= 1
    ensures StablySorted(s, cmp, s)
  {
    assert StablySortedBy(s, cmp, Identity(|s|), s);
  }

  lemma ArraySize(nritems: nat, itemsize: nat)
    requires itemsize > 0 && (nritems == 1 ==> itemsize == 1)
    ensures nritems <= nritems * itemsize && (nritems * itemsize <= 1 <==> nritems <= 1)
  {
  }

  ghost function Identity(n: nat): (p: seq<nat>)
    ensures |p| == n && forall i :: 0 <= i < n ==> p[i] == i
  {
    seq(n, (i: nat) => i)
  }

  lemma SingleItems<T>(s: seq<T>, cmp: (T, T) -> int, p: seq<nat>)
    requires |p| == |s| && forall i :: 0 <= i < |p| ==> p[i] == i
    ensures Segments(s, cmp, p, 1, |s|) && Rearranged(s, p, s)
  {
    forall k: nat | Lo(k, 1) < |s|
      ensures Segment(s, cmp, p, Lo(k, 1), Hi(k, 1, |s|))
    {
      assert p[k..k + 1] == [k];
    }
  }

  lemma OneSegment<T>(s: seq<T>, cmp: (T, T) -> int, p: seq<nat>, w: nat)
    requires Segments(s, cmp, p, w, |s|) && w >= |s| > 0
    ensures |p| == |s| && Ordered(s, cmp, p, 0, |s|)
  {
    assert Lo(0, w) == 0;
    assert Segment(s, cmp, p, Lo(0, w), Hi(0, w, |s|));
    assert p[0..|s|] == p;
  }
}
