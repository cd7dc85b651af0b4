/**
 * The server's shared state, `AppState`, as a single-threaded object: the
 * middleware's upsert on every request and one cycle of the reporter
 * (collect, sort, print). Locking, the timer and the HTTP layer are not part
 * of this model.
 */
module Stats {
  import opened IpCounts
  import opened Ranking
  import opened Report

  class AppState {
    /** Requests seen per client address. */
    var ipCounts: Counts
    /** The addresses of all requests counted so far, oldest first. */
    ghost var served: seq<Ip>

    /**
     * The map is what counting `served` from the empty map gives, so every
     * key has a positive count (and, by `ReplayTotal`, the counts add up to
     * the number of requests served).
     */
    ghost predicate Valid()
      reads this
    {
      && ipCounts == Replay(served)
      && (forall ip :: ip in ipCounts ==> ipCounts[ip] >= 1)
    }

    /** `AppState::default()`: no address seen yet. */
    constructor ()
      ensures Valid() && ipCounts == map[] && served == []
    {
      ipCounts := map[];
      served := [];
    }

    /** `*ip_counts.entry(ip).or_default() += 1`, run by the middleware for every request. */
    method Increment(ip: Ip)
      requires Valid()
      modifies this
      ensures Valid()
      ensures served == old(served) + [ip]
      ensures ipCounts == Bumped(old(ipCounts), ip)
      ensures forall k :: k in old(ipCounts) ==> k in ipCounts && ipCounts[k] >= old(ipCounts)[k]
    {
      ipCounts := ipCounts[ip := CountOr0(ipCounts, ip) + 1];
      served := served + [ip];
      assert ipCounts == Replay(served) by {
        ReplaySnoc(old(served), ip);
      }
    }

    /**
     * The reporter's snapshot: the entries copied out of the map and sorted,
     * largest count first. The map itself is only read.
     */
    method Snapshot() returns (snapshot: seq<Entry>)
      requires Valid()
      ensures IsListing(snapshot, ipCounts)
      ensures SortedByCount(snapshot)
      ensures SumCounts(snapshot) == |served|
    {
      var collected := Collect(ipCounts);
      var a := new Entry[|collected|](i requires 0 <= i < |collected| => collected[i]);
      assert a[..] == collected;
      SortByCountDescending(a);
      snapshot := a[..];
      PermutedListing(collected, snapshot, ipCounts);
      ListingSum(snapshot, ipCounts);
      ReplayTotal(served);
    }

    /** One cycle of the reporter: snapshot, then the report lines for it. */
    method PrintStats(show: Ip -> string) returns (lines: seq<string>)
      requires Valid()
      ensures |lines| == |ipCounts| + 2
      ensures exists snapshot :: IsListing(snapshot, ipCounts) && SortedByCount(snapshot)
                                 && lines == ReportLines(snapshot, show)
    {
      var snapshot := Snapshot();
      lines := EmitReport(snapshot, show);
      ListingLength(snapshot, ipCounts);
    }
  }

  /** The two-address map listed in count order. */
  lemma TwoCountsListing(first: Ip, second: Ip)
    requires first != second
    ensures IsListing([(first, 2), (second, 1)], map[first := 2, second := 1])
    ensures SortedByCount([(first, 2), (second, 1)])
  {
    var expected := [(first, 2), (second, 1)];
    assert expected[0].0 == first && expected[1].0 == second;
  }

  /**
   * With counts 2 and 1 there is only one sorted snapshot: the address with
   * count 2 comes first.
   */
  lemma TwoCountsSnapshot(snapshot: seq<Entry>, first: Ip, second: Ip)
    requires first != second
    requires IsListing(snapshot, map[first := 2, second := 1]) && SortedByCount(snapshot)
    ensures snapshot == [(first, 2), (second, 1)]
  {
    var m := map[first := 2, second := 1];
    var expected := [(first, 2), (second, 1)];
    TwoCountsListing(first, second);
    SortedListingsAgree(snapshot, expected, m);
    assert RowsOf(snapshot, m);
    KeyOfCount(first, second, snapshot[0]);
    KeyOfCount(first, second, snapshot[1]);
  }

  /** In the map {first: 2, second: 1} a count names its address. */
  lemma KeyOfCount(first: Ip, second: Ip, e: Entry)
    requires first != second
    requires e.0 in map[first := 2, second := 1] && e.1 == map[first := 2, second := 1][e.0]
    ensures e.1 == 2 ==> e == (first, 2)
    ensures e.1 == 1 ==> e == (second, 1)
  {
  }

  /**
   * Two requests from 127.0.0.1 and one from 127.0.0.2: the snapshot is
   * exactly [(127.0.0.1, 2), (127.0.0.2, 1)], whatever the map's iteration order.
   */
  method TwoClientsScenario() returns (snapshot: seq<Entry>)
    ensures snapshot == [(V4(0x7F00_0001), 2), (V4(0x7F00_0002), 1)]
  {
    var first, second := V4(0x7F00_0001), V4(0x7F00_0002);
    var state := new AppState();
    state.Increment(first);
    assert state.ipCounts == map[first := 1];
    state.Increment(first);
    assert state.ipCounts == map[first := 2];
    state.Increment(second);
    assert state.ipCounts == map[first := 2, second := 1];
    snapshot := state.Snapshot();
    TwoCountsSnapshot(snapshot, first, second);
  }
}
