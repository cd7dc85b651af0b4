/**
 * The sorted snapshot the reporter prints: the map's entries copied into a
 * vector (`ip_counts.iter().collect()`) and sorted by count, largest first
 * (`sort_by(|(_, a), (_, b)| b.cmp(a))`). The order among equal counts is left
 * open, since it depends on the hash map's iteration order.
 */
module Ranking {
  import opened IpCounts

  /** One row of the snapshot: an address and its count. */
  type Entry = (Ip, nat)

  /** No address occurs twice. */
  ghost predicate KeysDistinct(r: seq<Entry>) {
    forall i, j :: 0 <= i < j < |r| ==> r[i].0 != r[j].0
  }

  /** Every row is an entry of `m`: a key of `m` with its current count. */
  ghost predicate RowsOf(r: seq<Entry>, m: Counts) {
    forall i :: 0 <= i < |r| ==> r[i].0 in m && r[i].1 == m[r[i].0]
  }

  /** Every key of `m` has a row. */
  ghost predicate Covers(r: seq<Entry>, m: Counts) {
    forall k :: k in m ==> exists i :: 0 <= i < |r| && r[i].0 == k
  }

  /** `r` lists the entries of `m`: each key once, with its current count, and nothing else. */
  ghost predicate IsListing(r: seq<Entry>, m: Counts) {
    KeysDistinct(r) && RowsOf(r, m) && Covers(r, m)
  }

  /** Counts never increase along `r`. */
  ghost predicate SortedByCount(r: seq<Entry>) {
    forall i, j :: 0 <= i < j < |r| ==> r[i].1 >= r[j].1
  }

  /** The rest of a listing lists the map without the first row's key. */
  lemma ListingTail(r: seq<Entry>, m: Counts)
    requires IsListing(r, m) && r != []
    ensures r[0].0 in m && IsListing(r[1..], m - {r[0].0})
  {
  }

  /** A listing has exactly one row per key. */
  lemma {:induction false} ListingLength(r: seq<Entry>, m: Counts)
    requires IsListing(r, m)
    ensures |r| == |m|
  {
    if r == [] {
      assert m.Keys == {};
    } else {
      ListingTail(r, m);
      ListingLength(r[1..], m - {r[0].0});
      assert (m - {r[0].0}).Keys == m.Keys - {r[0].0};
    }
  }

  /** The counts of a listing add up to the sum of the map's counts. */
  function SumCounts(r: seq<Entry>): nat {
    if r == [] then 0 else r[0].1 + SumCounts(r[1..])
  }

  lemma {:induction false} ListingSum(r: seq<Entry>, m: Counts)
    requires IsListing(r, m)
    ensures SumCounts(r) == Total(m)
  {
    if r == [] {
      ListingLength(r, m);
    } else {
      ListingTail(r, m);
      ListingSum(r[1..], m - {r[0].0});
      TotalRemove(m, r[0].0);
    }
  }

  /** In a sequence without repeats every element occurs once. */
  lemma {:induction false} DistinctOccursOnce(r: seq<Entry>, x: Entry)
    requires forall i, j :: 0 <= i < j < |r| ==> r[i] != r[j]
    ensures multiset(r)[x] <= 1
  {
    if r != [] {
      assert r == [r[0]] + r[1..];
      DistinctOccursOnce(r[1..], x);
      if x == r[0] {
        assert x !in r[1..];
      }
    }
  }

  /** Rearranging a listing keeps it a listing. */
  lemma PermutedListing(s: seq<Entry>, r: seq<Entry>, m: Counts)
    requires IsListing(s, m) && multiset(r) == multiset(s)
    ensures IsListing(r, m)
  {
    forall i | 0 <= i < |r|
      ensures r[i].0 in m && r[i].1 == m[r[i].0]
    {
      assert r[i] in multiset(s);
    }
    forall i, j | 0 <= i < j < |r|
      ensures r[i].0 != r[j].0
    {
      if r[i].0 == r[j].0 {
        assert r[i] == r[j];
        assert r == r[..j] + r[j..];
        assert r[i] == r[..j][i] && r[j] == r[j..][0];
        assert multiset(r)[r[i]] >= 2;
        DistinctOccursOnce(s, r[i]);
        assert false;
      }
    }
    forall k | k in m
      ensures exists i :: 0 <= i < |r| && r[i].0 == k
    {
      var i :| 0 <= i < |s| && s[i].0 == k;
      assert s[i] in multiset(r);
      var j :| 0 <= j < |r| && r[j] == s[i];
    }
  }

  /** Where position `i` goes when positions `p` and `q` are exchanged. */
  function Exchange(i: nat, p: nat, q: nat): nat {
    if i == p then q else if i == q then p else i
  }

  /** Exchanging two rows keeps the addresses distinct. */
  lemma SwappedDistinct(r: seq<Entry>, p: nat, q: nat)
    requires KeysDistinct(r) && p < |r| && q < |r|
    ensures KeysDistinct(r[p := r[q]][q := r[p]])
  {
  }

  /** Exchanging two rows keeps every key of the map listed. */
  lemma SwappedCovers(r: seq<Entry>, m: Counts, p: nat, q: nat)
    requires Covers(r, m) && p < |r| && q < |r|
    ensures Covers(r[p := r[q]][q := r[p]], m)
  {
    var r' := r[p := r[q]][q := r[p]];
    forall k | k in m
      ensures exists i :: 0 <= i < |r'| && r'[i].0 == k
    {
      var i :| 0 <= i < |r| && r[i].0 == k;
      assert r'[Exchange(i, p, q)] == r[i];
    }
  }

  /** Exchanging two rows of a listing keeps it a listing. */
  lemma SwappedListing(r: seq<Entry>, m: Counts, p: nat, q: nat)
    requires IsListing(r, m) && p < |r| && q < |r|
    ensures IsListing(r[p := r[q]][q := r[p]], m)
  {
    SwappedDistinct(r, p, q);
    SwappedCovers(r, m, p, q);
  }

  /** Bringing a row to the front past rows of the same count keeps the counts, so also their order. */
  lemma SwapToFront(r: seq<Entry>, p: nat)
    requires SortedByCount(r)
    requires p < |r| && r[p].1 == r[0].1
    ensures forall i :: 0 <= i < |r| ==> r[0 := r[p]][p := r[0]][i].1 == r[i].1
    ensures SortedByCount(r[0 := r[p]][p := r[0]])
  {
  }

  /** The sorted remainder of a sorted sequence. */
  lemma SortedTail(r: seq<Entry>)
    requires SortedByCount(r) && r != []
    ensures SortedByCount(r[1..])
  {
  }

  /**
   * One step of `SortedListingsAgree`: the first row of `r1` can be brought to
   * the front of `r2` without changing `r2`'s counts, after which both tails
   * are sorted listings of the map without that row's address.
   */
  lemma AlignFront(r1: seq<Entry>, r2: seq<Entry>, m: Counts) returns (r2': seq<Entry>)
    requires IsListing(r1, m) && SortedByCount(r1)
    requires IsListing(r2, m) && SortedByCount(r2)
    requires r1 != []
    ensures |r2'| == |r2| > 0 && r2'[0] == r1[0]
    ensures forall i :: 0 <= i < |r2| ==> r2'[i].1 == r2[i].1
    ensures IsListing(r1[1..], m - {r1[0].0}) && SortedByCount(r1[1..])
    ensures IsListing(r2'[1..], m - {r1[0].0}) && SortedByCount(r2'[1..])
  {
    var x := r1[0];
    var p :| 0 <= p < |r2| && r2[p].0 == x.0;
    var q :| 0 <= q < |r1| && r1[q].0 == r2[0].0;
    assert r2[0].1 == x.1 == r2[p].1;
    r2' := r2[0 := r2[p]][p := r2[0]];
    SwappedListing(r2, m, 0, p);
    SwapToFront(r2, p);
    ListingTail(r1, m);
    ListingTail(r2', m);
    SortedTail(r1);
    SortedTail(r2');
  }

  /**
   * Two sorted listings of the same map agree on every count: a snapshot is
   * determined up to the order of addresses with equal counts.
   */
  lemma {:induction false} SortedListingsAgree(r1: seq<Entry>, r2: seq<Entry>, m: Counts)
    requires IsListing(r1, m) && SortedByCount(r1)
    requires IsListing(r2, m) && SortedByCount(r2)
    ensures |r1| == |r2|
    ensures forall i :: 0 <= i < |r1| ==> r1[i].1 == r2[i].1
    decreases |r1|
  {
    ListingLength(r1, m);
    ListingLength(r2, m);
    if r1 != [] {
      var r2' := AlignFront(r1, r2, m);
      SortedListingsAgree(r1[1..], r2'[1..], m - {r1[0].0});
      forall i | 0 < i < |r1|
        ensures r1[i].1 == r2[i].1
      {
        assert r1[1..][i - 1] == r1[i] && r2'[1..][i - 1] == r2'[i];
      }
    }
  }

  /** Copies the map's entries into a sequence, in an order the map does not fix. */
  method Collect(m: Counts) returns (r: seq<Entry>)
    ensures IsListing(r, m)
  {
    r := [];
    var rest := m.Keys;
    while rest != {}
      invariant rest <= m.Keys
      invariant KeysDistinct(r) && RowsOf(r, m)
      invariant forall i :: 0 <= i < |r| ==> r[i].0 !in rest
      invariant forall k :: k in m && k !in rest ==> exists i :: 0 <= i < |r| && r[i].0 == k
      decreases |rest|
    {
      var k :| k in rest;
      ghost var before := r;
      r := r + [(k, m[k])];
      rest := rest - {k};
      forall k' | k' in m && k' !in rest
        ensures exists i :: 0 <= i < |r| && r[i].0 == k'
      {
        if k' == k {
          assert r[|r| - 1].0 == k;
        } else {
          var i :| 0 <= i < |before| && before[i].0 == k';
          assert r[i].0 == k';
        }
      }
    }
  }

  /** Exchanges two cells of the array. */
  method Swap(a: array<Entry>, i: nat, j: nat)
    requires i < a.Length && j < a.Length
    modifies a
    ensures a[i] == old(a[j]) && a[j] == old(a[i])
    ensures forall k :: 0 <= k < a.Length && k != i && k != j ==> a[k] == old(a[k])
    ensures multiset(a[..]) == old(multiset(a[..]))
  {
    a[i], a[j] := a[j], a[i];
  }

  /**
   * Two permutations of each other that agree after position `n` also agree
   * as multisets before it: so `InsertLeft` permutes `a[..i + 1]` among itself.
   */
  lemma PrefixPermuted(s: seq<Entry>, t: seq<Entry>, n: nat)
    requires n <= |s| == |t| && multiset(s) == multiset(t)
    requires forall k :: n <= k < |s| ==> s[k] == t[k]
    ensures multiset(s[..n]) == multiset(t[..n])
  {
    assert s[n..] == t[n..];
    assert s == s[..n] + s[n..];
    assert t == t[..n] + t[n..];
    assert multiset(s) == multiset(s[..n]) + multiset(s[n..]);
    assert multiset(t) == multiset(t[..n]) + multiset(t[n..]);
    forall x
      ensures multiset(s[..n])[x] == multiset(t[..n])[x]
    {
      assert multiset(s)[x] == multiset(s[..n])[x] + multiset(s[n..])[x];
      assert multiset(t)[x] == multiset(t[..n])[x] + multiset(t[n..])[x];
    }
  }

  /**
   * Moves `a[i]` left past the strictly smaller counts before it, so that
   * `a[..i + 1]` is sorted when `a[..i]` was. Equal counts are not passed,
   * which keeps the sort stable. Nothing after position `i` moves.
   */
  method InsertLeft(a: array<Entry>, i: nat)
    requires i < a.Length && SortedByCount(a[..i])
    modifies a
    ensures SortedByCount(a[..i + 1])
    ensures forall k :: i < k < a.Length ==> a[k] == old(a[k])
    ensures multiset(a[..]) == old(multiset(a[..]))
  {
    var j := i;
    while j > 0 && a[j - 1].1 < a[j].1
      invariant 0 <= j <= i
      invariant forall p, q :: 0 <= p < q <= i && p != j && q != j ==> a[p].1 >= a[q].1
      invariant j < i ==> a[j].1 > a[j + 1].1
      invariant forall k :: i < k < a.Length ==> a[k] == old(a[k])
      invariant multiset(a[..]) == old(multiset(a[..]))
    {
      Swap(a, j - 1, j);
      j := j - 1;
    }
  }

  /**
   * Insertion sort, largest count first, as `sort_by(|(_, a), (_, b)| b.cmp(a))`
   * on the collected vector.
   */
  method SortByCountDescending(a: array<Entry>)
    modifies a
    ensures SortedByCount(a[..])
    ensures multiset(a[..]) == old(multiset(a[..]))
  {
    var i := 0;
    while i < a.Length
      invariant 0 <= i <= a.Length
      invariant SortedByCount(a[..i])
      invariant multiset(a[..]) == old(multiset(a[..]))
    {
      InsertLeft(a, i);
      i := i + 1;
    }
    assert a[..a.Length] == a[..];
  }
}
