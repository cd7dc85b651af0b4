/**
 * The per-address request counter of the server: a map from client IP address
 * to the number of requests seen from it, and the one way it ever changes,
 * the upsert `*ip_counts.entry(ip).or_default() += 1`.
 *
 * The functions here are the specification that the `AppState` class is
 * proved against; the lemmas state what the map means after any sequence of
 * requests.
 */
module IpCounts {

  /** A client address without its port, as the standard library's `IpAddr`. */
  datatype Ip = V4(octets: bv32) | V6(segments: bv128)

  /** The counter state. Counts are unbounded: 64-bit overflow is not modelled. */
  type Counts = map<Ip, nat>

  /** The count `or_default()` yields: the stored count, or 0 for an unseen address. */
  function CountOr0(m: Counts, ip: Ip): nat {
    if ip in m then m[ip] else 0
  }

  /** The map after one request from `ip` has been counted. */
  function Bumped(m: Counts, ip: Ip): (r: Counts)
    ensures r.Keys == m.Keys + {ip}
    ensures ip !in m ==> r[ip] == 1
    ensures ip in m ==> r[ip] == m[ip] + 1
    ensures forall k :: k in m && k != ip ==> r[k] == m[k]
  {
    m[ip := CountOr0(m, ip) + 1]
  }

  /** The map after counting the requests of `log`, in order, starting from the empty default map. */
  function Replay(log: seq<Ip>): Counts {
    if log == [] then map[] else Bumped(Replay(log[..|log| - 1]), log[|log| - 1])
  }

  /** Counting one more request extends the replay by one upsert. */
  lemma ReplaySnoc(log: seq<Ip>, ip: Ip)
    ensures Replay(log + [ip]) == Bumped(Replay(log), ip)
  {
  }

  /** Every key is present exactly when it was seen, with the number of times it was seen. */
  lemma {:induction false} ReplayCounts(log: seq<Ip>)
    ensures forall ip :: ip in Replay(log) <==> ip in log
    ensures forall ip :: ip in Replay(log) ==> Replay(log)[ip] == multiset(log)[ip] >= 1
  {
    if log != [] {
      var init, x := log[..|log| - 1], log[|log| - 1];
      assert log == init + [x];
      ReplayCounts(init);
      assert multiset(log) == multiset(init) + multiset{x};
      forall ip
        ensures ip in Replay(log) <==> ip in log
      {
        assert ip in log <==> ip in init || ip == x;
      }
    }
  }

  /** Counting further requests never lowers a count and never drops a key. */
  lemma CountsNeverDecrease(log: seq<Ip>, more: seq<Ip>)
    ensures forall ip :: ip in Replay(log) ==> ip in Replay(log + more) && Replay(log)[ip] <= Replay(log + more)[ip]
  {
    ReplayCounts(log);
    ReplayCounts(log + more);
    assert multiset(log + more) == multiset(log) + multiset(more);
    forall ip | ip in log
      ensures ip in log + more
    {
      var i :| 0 <= i < |log| && log[i] == ip;
      assert (log + more)[i] == ip;
    }
  }

  /** The sum of all counts. The choice of key does not matter (see `TotalRemove`). */
  ghost function Total(m: Counts): nat
    decreases |m|
  {
    if m == map[] then 0
    else
      var k :| k in m;
      assert |m - {k}| < |m| by { assert (m - {k}).Keys == m.Keys - {k}; }
      m[k] + Total(m - {k})
  }

  /** Any key can be taken out first when summing. */
  lemma {:induction false} TotalRemove(m: Counts, k: Ip)
    requires k in m
    ensures Total(m) == m[k] + Total(m - {k})
    decreases |m|
  {
    var j :| j in m && Total(m) == m[j] + Total(m - {j});
    if j != k {
      assert (m - {j}).Keys == m.Keys - {j};
      assert (m - {k}).Keys == m.Keys - {k};
      TotalRemove(m - {j}, k);
      TotalRemove(m - {k}, j);
      assert m - {j} - {k} == m - {k} - {j};
    }
  }

  /** One counted request raises the sum of all counts by exactly one. */
  lemma TotalBumped(m: Counts, ip: Ip)
    ensures Total(Bumped(m, ip)) == Total(m) + 1
  {
    var r := Bumped(m, ip);
    TotalRemove(r, ip);
    if ip in m {
      TotalRemove(m, ip);
      assert r - {ip} == m - {ip};
    } else {
      assert r - {ip} == m;
    }
  }

  /** The sum of all counts is the number of requests counted since the map was created. */
  lemma {:induction false} ReplayTotal(log: seq<Ip>)
    ensures Total(Replay(log)) == |log|
  {
    if log != [] {
      ReplayTotal(log[..|log| - 1]);
      TotalBumped(Replay(log[..|log| - 1]), log[|log| - 1]);
    }
  }
}
