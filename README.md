# Per-address request counter of the `tomoru` ping server

The server answers `GET /ping` with `pong`. In front of every route it runs a
middleware that counts requests per client IP address in a shared
`HashMap<IpAddr, u64>`. Once a second a background task copies the map's
entries, sorts them by count, largest first, and prints a report:

```
IPs:
  127.0.0.1: 2
  127.0.0.2: 1

```

This project models that counter, one step at a time and single-threaded:

- `IpCounts` (ip_counts.dfy) is the specification of the map. `Bumped` is one
  upsert `*ip_counts.entry(ip).or_default() += 1`. `Replay` is the map after
  a sequence of requests, starting from the empty default map. `Total` is the
  sum of all counts.
- `Stats.AppState` (app_state.dfy) is the shared `AppState` as a class. The
  field `ipCounts` is updated in place by `Increment`. The ghost field
  `served` records the addresses counted so far. `Valid()` ties the map to
  `Replay(served)` and keeps every count positive. `Snapshot` and `PrintStats`
  are one cycle of the reporter. They have no `modifies` clause, so they
  only read the map.
- `Ranking` (ranking.dfy) covers the snapshot. `Collect` copies the map's
  entries out in an order the map does not fix, as `iter().collect()` does.
  `SortByCountDescending` is an in-place insertion sort on an array, largest
  count first. `IsListing` says a sequence holds each key exactly once with
  its current count. `SortedByCount` says counts never increase along it.
- `Report` (report.dfy) covers the printed text. `ReportLines` is the lines of
  one report. `EmitReport` builds them with a loop, one line per `println!`.
  `Text` joins the lines with newlines. `ReadEntryLine` reads a line back.
  This shows the format is unambiguous, even for IPv6 addresses that contain
  colons.

`IpAddr` is modelled as `V4(bv32) | V6(bv128)`. How an address is printed is
given as a parameter `show: Ip -> string`.

Every report ends with an empty line, because the reporter's last call is a
bare `println!()`. For one address seen once the text is
`"IPs:\n  127.0.0.1: 1\n\n"` (`Report.SingleAddressText`).

## Model

| member | source | states |
|---|---|---|
| `IpCounts.Bumped` | src/main.rs:39 | the upsert adds `ip` as a key and no other key; an address not yet in the map gets count 1; an address already there gets its count plus 1; every other key keeps its count |
| `IpCounts.ReplayCounts` | src/main.rs:39 | starting from the empty map, an address is a key exactly when a request came from it, and its count is the number of requests from it, so it is at least 1 |
| `IpCounts.CountsNeverDecrease` | src/main.rs:39 | counting more requests never removes a key and never lowers a count |
| `IpCounts.TotalBumped` | src/main.rs:39 | one counted request raises the sum of all counts by exactly 1 |
| `IpCounts.ReplayTotal` | src/main.rs:39 | the sum of all counts equals the number of requests counted since the map was created |
| `Stats.AppState.constructor` | src/main.rs:21-24 | the default state is the empty map with no requests counted, and it satisfies the invariant |
| `Stats.AppState.Increment` | src/main.rs:39 | the new map is `Bumped` of the old one; the invariant is kept (map equals the replay of all requests, all counts positive); no count drops and no key disappears |
| `Stats.AppState.Snapshot` | src/main.rs:62-63 | the snapshot holds every key of the map exactly once with its current count, and nothing else; its counts do not increase along it; they add up to the number of requests served; the map is not modified |
| `Stats.AppState.PrintStats` | src/main.rs:56-69 | the printed lines are the report of some sorted listing of the current map, so there are 2 more lines than addresses |
| `Stats.TwoCountsSnapshot` | src/main.rs:62-63 | for counts 2 and 1, the only sorted snapshot puts the count-2 address first |
| `Stats.TwoClientsScenario` | src/main.rs:62-63 | two requests from 127.0.0.1 and one from 127.0.0.2 give the snapshot `[(127.0.0.1, 2), (127.0.0.2, 1)]` |
| `Ranking.Collect` | src/main.rs:62 | the collected vector lists the map: each key once, with its count, nothing else |
| `Ranking.InsertLeft` | src/main.rs:63 | moving `a[i]` left past smaller counts makes `a[..i + 1]` sorted, leaves every cell after `i` as it was, and permutes the array |
| `Ranking.PrefixPermuted` | src/main.rs:63 | a permutation that leaves everything after position `n` in place permutes the first `n` cells among themselves, so `InsertLeft` only rearranges `a[..i + 1]` |
| `Ranking.SortByCountDescending` | src/main.rs:63 | after sorting, counts do not increase along the array, and the array is a permutation of its old contents |
| `Ranking.PermutedListing` | src/main.rs:63 | any permutation of a listing of the map is again a listing of it, so sorting keeps every entry exactly once |
| `Ranking.ListingLength` | src/main.rs:62 | a listing has exactly as many rows as the map has keys |
| `Ranking.ListingSum` | src/main.rs:62 | the counts of a listing add up to the sum of the map's counts |
| `Ranking.SortedListingsAgree` | src/main.rs:62-63 | any two sorted listings of the same map have the same length and the same count at every position |
| `Report.Decimal` | src/main.rs:67 | a count prints as a non-empty string of decimal digits with no leading zero, and "0" only for 0 |
| `Report.DecimalRoundTrip` | src/main.rs:67 | reading the printed digits back gives the count |
| `Report.EntryLine` | src/main.rs:67 | a row prints as two spaces, the shown address, `: `, then only the decimal digits of the count, so the line is 4 characters longer than address and count together |
| `Report.EntryLines` | src/main.rs:66-68 | one line per snapshot row, in snapshot order |
| `Report.ReportLines` | src/main.rs:65-69 | a report is `IPs:`, then `  <ip>: <count>` for each row in order, then one empty line, so it has 2 more lines than the snapshot has rows |
| `Report.EmitReport` | src/main.rs:65-69 | the line-by-line loop writes exactly the lines of `ReportLines` |
| `Report.Text` | src/main.rs:65-69 | every printed line is followed by a newline, so the text is empty only when no line is printed, otherwise ends with a newline, and has at least as many characters as lines |
| `Report.TextAppend` | src/main.rs:65-69 | printing two runs of lines in turn writes the text of the first followed by the text of the second |
| `Report.ReportText` | src/main.rs:65-69 | the text of a report is `IPs:` and a newline, then the text of the entry lines, then one more newline for the closing empty line |
| `Report.EntryLineReadBack` | src/main.rs:67 | every entry line reads back as the shown address and the count it was printed from, even when the address text contains colons |
| `Report.ReportReadBack` | src/main.rs:65-69 | line `i + 1` of a report reads back as row `i` of the snapshot |
| `Report.SingleAddressText` | src/main.rs:65-69 | for 127.0.0.1 seen once the printed text is `"IPs:\n  127.0.0.1: 1\n\n"`, including the closing empty line |

## Left out

- Concurrency is not modelled: the `Mutex`, the `Arc` that shares it, and the spawned reporter task (src/main.rs:34-37, 56-58, 77-85). The model is a single-threaded object, one call at a time.
- The lock-poisoning failure paths are not modelled, because they need concurrency. These are the middleware's `expect` panic and the reporter's early `Err` return.
- Only one report cycle is modelled. The one-second `time::interval` loop is timer scheduling (src/main.rs:51-54).
- The HTTP layer is not modelled. This covers the router, `ConnectInfo` extraction (the model takes the address without port as a parameter), `next.run(request)`, the `ping` handler, the TCP bind and serve, and the error contexts (src/main.rs:27-32, 41, 44-47, 88-105).
- Printing an `IpAddr` (IPv4 and IPv6 text forms) is not modelled. It is the parameter `show`. Standard output is the returned sequence of lines.
- Counts are unbounded `nat`. The `u64` overflow of `+= 1` cannot happen in practice, and its behaviour depends on the build profile.
- SortedListingsAgree: it fixes the count at every position of the snapshot but not which address comes first among equal counts. That order follows the hash map's iteration order, which the model leaves open, so two reports of an unchanged map may list tied addresses differently.
- Ranking.SortByCountDescending: its contract does not state that the sort is stable. Equal counts arrive in the hash map's iteration order, which the model leaves open, so their order in the snapshot is unspecified. The sort itself only moves an entry past strictly smaller counts.
