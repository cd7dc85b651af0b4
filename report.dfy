/**
 * The text the reporter writes on every tick: `IPs:`, then one line
 * `  <address>: <count>` per snapshot row in snapshot order, then an empty
 * line. Each `println!` call is one element of the line sequence; `Text`
 * joins them with the newline `println!` adds.
 *
 * How an address is shown (the standard library's `Display` for IPv4 and
 * IPv6 addresses) is not modelled: it is the parameter `show`.
 */
module Report {
  import opened IpCounts
  import opened Ranking

  datatype Option<T> = None | Some(value: T)

  predicate IsDigit(c: char) {
    '0' <= c <= '9'
  }

  predicate AllDigits(s: string) {
    forall i :: 0 <= i < |s| ==> IsDigit(s[i])
  }

  /** The character of a decimal digit. */
  function Digit(d: nat): (c: char)
    requires d < 10
    ensures IsDigit(c) && c as int - '0' as int == d
  {
    (d + '0' as int) as char
  }

  /** A count as `{}` formats an unsigned integer: decimal digits, no sign, no leading zero. */
  function Decimal(n: nat): (s: string)
    ensures |s| >= 1 && AllDigits(s)
    ensures s[0] == '0' <==> n == 0
    ensures n == 0 ==> s == "0"
    decreases n
  {
    if n < 10 then [Digit(n)] else Decimal(n / 10) + [Digit(n % 10)]
  }

  /** The number a string of decimal digits denotes. */
  function DigitsValue(s: string): nat
    requires AllDigits(s)
  {
    if s == [] then 0 else DigitsValue(s[..|s| - 1]) * 10 + (s[|s| - 1] as int - '0' as int)
  }

  /** Reading a printed count gives the count back. */
  lemma {:induction false} DecimalRoundTrip(n: nat)
    ensures DigitsValue(Decimal(n)) == n
  {
    var s := Decimal(n);
    if n >= 10 {
      DecimalRoundTrip(n / 10);
      assert s[..|s| - 1] == Decimal(n / 10);
    }
  }

  /**
   * The line printed for one snapshot row: indented by two spaces, the address,
   * then a colon, a space and the count. No colon follows the one after the
   * address, which is what lets `ReadEntryLine` find the count.
   */
  function EntryLine(e: Entry, show: Ip -> string): (line: string)
    ensures |line| == |show(e.0)| + |Decimal(e.1)| + 4
    ensures line[..2] == "  " && line[2..|show(e.0)| + 2] == show(e.0)
    ensures line[|show(e.0)| + 2..|show(e.0)| + 4] == ": "
    ensures line[|show(e.0)| + 4..] == Decimal(e.1) && AllDigits(line[|show(e.0)| + 4..])
  {
    "  " + show(e.0) + ": " + Decimal(e.1)
  }

  /** One line per snapshot row, in snapshot order. */
  function EntryLines(snapshot: seq<Entry>, show: Ip -> string): (lines: seq<string>)
    ensures |lines| == |snapshot|
    ensures forall i :: 0 <= i < |snapshot| ==> lines[i] == EntryLine(snapshot[i], show)
  {
    if snapshot == [] then [] else [EntryLine(snapshot[0], show)] + EntryLines(snapshot[1..], show)
  }

  /** The lines of one report: header, one line per row, closing empty line. */
  function ReportLines(snapshot: seq<Entry>, show: Ip -> string): (lines: seq<string>)
    ensures |lines| == |snapshot| + 2
    ensures lines[0] == "IPs:" && lines[|snapshot| + 1] == ""
    ensures forall i :: 0 <= i < |snapshot| ==> lines[i + 1] == EntryLine(snapshot[i], show)
  {
    ["IPs:"] + EntryLines(snapshot, show) + [""]
  }

  /** The characters written: every line followed by the newline `println!` appends. */
  function Text(lines: seq<string>): (text: string)
    ensures |text| >= |lines|
    ensures text == "" <==> lines == []
    ensures text != "" ==> text[|text| - 1] == '\n'
  {
    if lines == [] then "" else lines[0] + "\n" + Text(lines[1..])
  }

  /** Printing two runs of lines one after the other writes their texts one after the other. */
  lemma {:induction false} TextAppend(a: seq<string>, b: seq<string>)
    ensures Text(a + b) == Text(a) + Text(b)
  {
    if a != [] {
      assert (a + b)[1..] == a[1..] + b;
      TextAppend(a[1..], b);
    } else {
      assert a + b == b;
    }
  }

  /** A report's text: the header line, the entry lines, then the bare newline of the closing `println!()`. */
  lemma ReportText(snapshot: seq<Entry>, show: Ip -> string)
    ensures Text(ReportLines(snapshot, show)) == "IPs:\n" + Text(EntryLines(snapshot, show)) + "\n"
  {
    var entries := EntryLines(snapshot, show);
    TextAppend(["IPs:"] + entries, [""]);
    TextAppend(["IPs:"], entries);
    TextOfOne("IPs:");
    TextOfOne("");
  }

  /** One printed line. */
  lemma TextOfOne(line: string)
    ensures Text([line]) == line + "\n"
  {
    assert [line][1..] == [];
  }

  /** Writes the report a line at a time, as the reporter's loop of `println!` calls does. */
  method EmitReport(snapshot: seq<Entry>, show: Ip -> string) returns (out: seq<string>)
    ensures out == ReportLines(snapshot, show)
  {
    out := ["IPs:"];
    for i := 0 to |snapshot|
      invariant |out| == i + 1 && out[0] == "IPs:"
      invariant forall k :: 0 <= k < i ==> out[k + 1] == EntryLine(snapshot[k], show)
    {
      out := out + [EntryLine(snapshot[i], show)];
    }
    out := out + [""];
    assert out == ReportLines(snapshot, show) by {
      var expected := ReportLines(snapshot, show);
      forall k | 0 <= k < |out|
        ensures out[k] == expected[k]
      {
        if 0 < k <= |snapshot| {
          assert out[k] == EntryLine(snapshot[k - 1], show);
        }
      }
    }
  }

  /** The last position of `c` in `s`, if it occurs. */
  function LastIndexOf(s: string, c: char): (r: Option<nat>)
    ensures r.None? ==> c !in s
    ensures r.Some? ==> r.value < |s| && s[r.value] == c
    ensures r.Some? ==> forall j :: r.value < j < |s| ==> s[j] != c
  {
    if s == [] then None
    else if s[|s| - 1] == c then Some(|s| - 1)
    else LastIndexOf(s[..|s| - 1], c)
  }

  /**
   * Reads a report line back into the address text and the count. The count
   * follows the last colon, so addresses that contain colons (IPv6) are read
   * correctly.
   */
  function ReadEntryLine(line: string): Option<(string, nat)> {
    if |line| < 2 || line[..2] != "  " then None
    else
      match LastIndexOf(line, ':')
      case None => None
      case Some(c) =>
        if 2 <= c && c + 2 < |line| && line[c + 1] == ' ' && AllDigits(line[c + 2..])
        then Some((line[2..c], DigitsValue(line[c + 2..])))
        else None
  }

  /** Every entry line reads back as the address text and count it was printed from. */
  lemma EntryLineReadBack(e: Entry, show: Ip -> string)
    ensures ReadEntryLine(EntryLine(e, show)) == Some((show(e.0), e.1))
  {
    var a, d := show(e.0), Decimal(e.1);
    var line := EntryLine(e, show);
    var c := 2 + |a|;
    assert line == "  " + a + ": " + d;
    assert line[..2] == "  ";
    assert line[c] == ':' && line[c + 1] == ' ';
    assert line[c + 2..] == d;
    assert line[2..c] == a;
    var found := LastIndexOf(line, ':');
    assert found.Some?;
    DecimalRoundTrip(e.1);
  }

  /** The report is unambiguous: line `i + 1` reads back as snapshot row `i`, shown. */
  lemma ReportReadBack(snapshot: seq<Entry>, show: Ip -> string, i: nat)
    requires i < |snapshot|
    ensures ReadEntryLine(ReportLines(snapshot, show)[i + 1]) == Some((show(snapshot[i].0), snapshot[i].1))
  {
    EntryLineReadBack(snapshot[i], show);
  }

  /** The line for 127.0.0.1 seen once. */
  lemma LoopbackLine(ip: Ip, show: Ip -> string)
    requires show(ip) == "127.0.0.1"
    ensures EntryLine((ip, 1), show) == "  127.0.0.1: 1"
  {
  }

  /**
   * The report for a single address seen once, character for character,
   * including the empty line the reporter prints after every report.
   */
  lemma SingleAddressText(ip: Ip, show: Ip -> string)
    requires show(ip) == "127.0.0.1"
    ensures Text(ReportLines([(ip, 1)], show)) == "IPs:\n  127.0.0.1: 1\n\n"
  {
    LoopbackLine(ip, show);
    assert EntryLines([(ip, 1)], show) == ["  127.0.0.1: 1"];
    ReportText([(ip, 1)], show);
    TextOfOne("  127.0.0.1: 1");
  }
}
