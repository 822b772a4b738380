/** The text-processing helpers of the on-premises health check: each takes
    the captured output of one command (`df -h`, `free -h`, `lsblk`,
    `ufw status`, `telnet`, `ping`) and turns it into the value the report
    shows. */
module Precheck {
  import opened PyText
  import opened Options

  // ANSI colour codes the report is written with.
  const GREEN: string := "\U{1b}[92m"
  const RED: string := "\U{1b}[91m"
  const YELLOW: string := "\U{1b}[93m"
  const RESET: string := "\U{1b}[0m"

  /** No text begins with both the red and the green code. */
  lemma CodesDiffer(s: string)
    ensures !(RED <= s && GREEN <= s)
  {
    assert RED <= s ==> s[3] == '1';
    assert GREEN <= s ==> s[3] == '2';
  }

  /** Python's `float` applied to a piece of text: the number it denotes,
      or None where it raises ValueError. Kept abstract. */
  type NumberParser = string -> Option<real>

  // ---------------------------------------------------------------------------
  // calculate_total_storage: the Size column of `df -h`, in gigabytes

  /** What a size such as "50G", "2T" or "512M" amounts to in gigabytes:
      the unit letters are tried in the order G, T, M; a number `parse`
      rejects or a size with none of the letters counts as nothing. */
  function SizeGigabytes(size: string, parse: NumberParser): (g: real)
    ensures 'G' !in size && 'T' !in size && 'M' !in size ==> g == 0.0
  {
    if 'G' in size then
      match parse(Strip(size, 'G')) case Some(v) => v case None => 0.0
    else if 'T' in size then
      match parse(Strip(size, 'T')) case Some(v) => v * 1024.0 case None => 0.0
    else if 'M' in size then
      match parse(Strip(size, 'M')) case Some(v) => v / 1024.0 case None => 0.0
    else 0.0
  }

  /** What one row of the listing adds: the size in its second column, and
      nothing for a row with fewer than two columns. */
  function RowGigabytes(row: string, parse: NumberParser): (g: real)
    ensures |Split(row)| < 2 ==> g == 0.0
  {
    var parts := Split(row);
    if |parts| < 2 then 0.0 else SizeGigabytes(parts[1], parse)
  }

  /** The sum of what the rows add, taken from the first row to the last. */
  function TotalStorage(rows: seq<string>, parse: NumberParser): (total: real)
    ensures rows == [] ==> total == 0.0
  {
    if rows == [] then 0.0
    else TotalStorage(rows[..|rows| - 1], parse) + RowGigabytes(rows[|rows| - 1], parse)
  }

  /** `calculate_total_storage`: skip the header line of the listing and
      add up the sizes of the remaining rows; a row whose second column is
      missing or whose number does not parse is passed over. */
  method CalculateTotalStorage(output: string, parse: NumberParser) returns (totalSize: real)
    ensures totalSize == TotalStorage(Rest(SplitLines(output)), parse)
  {
    var rows := Rest(SplitLines(output));
    totalSize := 0.0;
    for i := 0 to |rows|
      invariant totalSize == TotalStorage(rows[..i], parse)
    {
      assert rows[..i + 1][..i] == rows[..i];
      var parts := Split(rows[i]);
      if |parts| < 2 {
        continue;
      }
      var size := parts[1];
      if 'G' in size {
        var v := parse(Strip(size, 'G'));
        if v.None? { continue; }
        totalSize := totalSize + v.value;
      } else if 'T' in size {
        var v := parse(Strip(size, 'T'));
        if v.None? { continue; }
        totalSize := totalSize + v.value * 1024.0;
      } else if 'M' in size {
        var v := parse(Strip(size, 'M'));
        if v.None? { continue; }
        totalSize := totalSize + v.value / 1024.0;
      }
    }
    assert rows[..|rows|] == rows;
  }

  /** The total of a listing split in two is the sum of the totals. */
  lemma {:induction false} TotalStorageAppend(a: seq<string>, b: seq<string>, parse: NumberParser)
    ensures TotalStorage(a + b, parse) == TotalStorage(a, parse) + TotalStorage(b, parse)
    decreases |b|
  {
    if b == [] {
      assert a + b == a;
    } else {
      assert (a + b)[..|a + b| - 1] == a + b[..|b| - 1];
      assert (a + b)[|a + b| - 1] == b[|b| - 1];
      TotalStorageAppend(a, b[..|b| - 1], parse);
    }
  }

  /** A row without a second column leaves the total as it is. */
  lemma ShortRowAddsNothing(a: seq<string>, row: string, b: seq<string>, parse: NumberParser)
    requires |Split(row)| < 2
    ensures TotalStorage(a + [row] + b, parse) == TotalStorage(a + b, parse)
  {
    TotalStorageAppend(a + [row], b, parse);
    TotalStorageAppend(a, [row], parse);
    TotalStorageAppend(a, b, parse);
    assert [row][..0] == [];
  }

  /** With a parser that never yields a negative number the total is not
      negative. */
  lemma {:induction false} TotalStorageNonNegative(rows: seq<string>, parse: NumberParser)
    requires forall t :: parse(t).Some? ==> parse(t).value >= 0.0
    ensures TotalStorage(rows, parse) >= 0.0
  {
    if rows != [] {
      TotalStorageNonNegative(rows[..|rows| - 1], parse);
      var parts := Split(rows[|rows| - 1]);
      if |parts| >= 2 {
        SizeNonNegative(parts[1], parse);
      }
    }
  }

  /** A size read with a parser that never yields a negative number is
      not negative. */
  lemma SizeNonNegative(size: string, parse: NumberParser)
    requires forall t :: parse(t).Some? ==> parse(t).value >= 0.0
    ensures SizeGigabytes(size, parse) >= 0.0
  {
    var unit := if 'G' in size then 'G' else if 'T' in size then 'T' else 'M';
    var number := Strip(size, unit);
    assert parse(number).Some? ==> parse(number).value >= 0.0;
  }

  /** A terabyte counts as 1024 gigabytes. */
  lemma TeraIsGiga(n: string, parse: NumberParser)
    requires 'G' !in n && 'T' !in n
    ensures SizeGigabytes(n + "T", parse) == 1024.0 * SizeGigabytes(n + "G", parse)
  {
    StripAppended(n, 'T');
    StripAppended(n, 'G');
    assert 'G' !in n + "T" && 'T' in n + "T" && 'G' in n + "G";
  }

  /** A megabyte counts as 1/1024 of a gigabyte. */
  lemma MegaIsGiga(n: string, parse: NumberParser)
    requires 'G' !in n && 'T' !in n && 'M' !in n
    ensures 1024.0 * SizeGigabytes(n + "M", parse) == SizeGigabytes(n + "G", parse)
  {
    StripAppended(n, 'M');
    StripAppended(n, 'G');
    assert 'G' !in n + "M" && 'T' !in n + "M" && 'M' in n + "M" && 'G' in n + "G";
  }

  /** The G letter is looked at first: a size ending in G is read in
      gigabytes whatever T or M comes before it. */
  lemma GigaFirst(t: string, parse: NumberParser)
    requires t == [] || (t[0] != 'G' && t[|t| - 1] != 'G')
    ensures SizeGigabytes(t + "G", parse) == match parse(t) case Some(v) => v case None => 0.0
  {
    StripAppended(t, 'G');
    assert 'G' in t + "G";
  }

  /** A `df -h` row: device, size and mount point. */
  lemma SizeColumn(device: string, size: string, mount: string)
    requires device != [] && NoSpace(device) && size != [] && NoSpace(size) && mount != [] && NoSpace(mount)
    ensures Split(device + " " + size + " " + mount) == [device, size, mount]
  {
    SplitWordThenSpace(device, size + " " + mount);
    SplitWordThenSpace(size, mount);
    SplitOneWord(mount);
    assert device + " " + size + " " + mount == device + " " + (size + " " + mount);
  }

  /** The row "/dev/sda1 50G /" adds 50 GB. */
  lemma GigabyteRowExample(device: string, size: string, mount: string, parse: NumberParser)
    requires device == "/dev/sda1" && size == "50G" && mount == "/" && parse("50") == Some(50.0)
    ensures RowGigabytes(device + " " + size + " " + mount, parse) == 50.0
  {
    SizeColumn(device, size, mount);
    assert size == "50" + "G";
    GigaFirst("50", parse);
  }

  /** The row "tmpfs 512M /tmp" adds half a gigabyte. */
  lemma MegabyteRowExample(device: string, size: string, mount: string, parse: NumberParser)
    requires device == "tmpfs" && size == "512M" && mount == "/tmp" && parse("512") == Some(512.0)
    ensures RowGigabytes(device + " " + size + " " + mount, parse) == 0.5
  {
    SizeColumn(device, size, mount);
    assert size == "512" + "M";
    MegaIsGiga("512", parse);
    GigaFirst("512", parse);
  }

  /** The listing "Filesystem Size", "/dev/sda1 50G /", "tmpfs 512M /tmp"
      totals 50.5 GB. */
  lemma StorageExample(listing: seq<string>, parse: NumberParser)
    requires listing == ["Filesystem Size", "/dev/sda1 50G /", "tmpfs 512M /tmp"]
    requires parse("50") == Some(50.0) && parse("512") == Some(512.0)
    ensures TotalStorage(Rest(listing), parse) == 50.5
  {
    var rows := Rest(listing);
    assert rows == [listing[1], listing[2]];
    assert listing[1] == "/dev/sda1" + " " + "50G" + " " + "/";
    assert listing[2] == "tmpfs" + " " + "512M" + " " + "/tmp";
    GigabyteRowExample("/dev/sda1", "50G", "/", parse);
    MegabyteRowExample("tmpfs", "512M", "/tmp", parse);
    assert rows[..1] == [listing[1]] && rows[..1][..0] == [];
  }

  // ---------------------------------------------------------------------------
  // get_root_storage and get_total_memory: the first line of a kind

  /** The index of the first line satisfying `wanted`, or the number of
      lines when there is none. */
  function FirstLine(lines: seq<string>, wanted: string -> bool): (i: nat)
    ensures i <= |lines|
    ensures forall j :: 0 <= j < i ==> !wanted(lines[j])
    ensures i < |lines| ==> wanted(lines[i])
  {
    if lines == [] then 0
    else if wanted(lines[0]) then 0
    else 1 + FirstLine(lines[1..], wanted)
  }

  const RootNotFound: string := "Root directory not found."

  /** A `df -h` row for the file system mounted at `/`. */
  predicate IsRootLine(line: string) {
    EndsWith(line, " /")
  }

  /** The notice does not itself read as a root line. */
  lemma RootNotFoundIsNoRootLine()
    ensures !IsRootLine(RootNotFound)
  {
    assert RootNotFound[|RootNotFound| - 1] == '.';
  }

  /** `get_root_storage`: the first line of the listing, header included,
      that ends in " /", or the RootNotFound notice when no line does; the
      answer ends in " /" exactly when the listing has such a line. */
  method GetRootStorage(output: string) returns (root: string)
    ensures var lines := SplitLines(output); var i := FirstLine(lines, IsRootLine);
      i < |lines| ==> root == lines[i]
    ensures var lines := SplitLines(output);
      FirstLine(lines, IsRootLine) == |lines| ==> root == RootNotFound
    ensures IsRootLine(root) <==> FirstLine(SplitLines(output), IsRootLine) < |SplitLines(output)|
  {
    var lines := SplitLines(output);
    ghost var first := FirstLine(lines, IsRootLine);
    for i := 0 to |lines|
      invariant i <= first
    {
      if IsRootLine(lines[i]) {
        assert first == i;
        return lines[i];
      }
    }
    RootNotFoundIsNoRootLine();
    return RootNotFound;
  }

  const MemoryNotFound: string := "Memory information not found."

  /** A `free -h` row about main memory. */
  predicate IsMemLine(line: string) {
    Contains(line, "Mem:")
  }

  /** The first "Mem:" line has a second column (otherwise the script
      stops with an IndexError). */
  predicate MemLineComplete(output: string) {
    var lines := SplitLines(output);
    var i := FirstLine(lines, IsMemLine);
    i < |lines| ==> |Split(lines[i])| >= 2
  }

  /** `get_total_memory`: the second column of the first line containing
      "Mem:", or the MemoryNotFound notice when no line contains it. */
  method GetTotalMemory(output: string) returns (total: string)
    requires MemLineComplete(output)
    ensures var lines := SplitLines(output); var i := FirstLine(lines, IsMemLine);
      i < |lines| ==> total == Split(lines[i])[1]
    ensures var lines := SplitLines(output);
      FirstLine(lines, IsMemLine) == |lines| ==> total == MemoryNotFound
  {
    var lines := SplitLines(output);
    ghost var first := FirstLine(lines, IsMemLine);
    for i := 0 to |lines|
      invariant i <= first
    {
      if IsMemLine(lines[i]) {
        assert first == i;
        return Split(lines[i])[1];
      }
    }
    return MemoryNotFound;
  }

  // ---------------------------------------------------------------------------
  // get_unique_rota_values: the set of ROTA flags of `lsblk`

  /** Every non-blank row has a second column (otherwise the script stops
      with an IndexError). */
  predicate RowsHaveTwoColumns(rows: seq<string>) {
    forall i :: 0 <= i < |rows| ==> |Split(rows[i])| != 1
  }

  /** The second columns of the non-blank rows, as a set. */
  function RotaValues(rows: seq<string>): (values: set<string>)
    requires RowsHaveTwoColumns(rows)
  {
    if rows == [] then {}
    else
      var parts := Split(rows[|rows| - 1]);
      RotaValues(rows[..|rows| - 1]) + (if parts != [] then {parts[1]} else {})
  }

  /** `row` has `v` in its second column. */
  predicate HasRota(row: string, v: string) {
    var parts := Split(row);
    |parts| >= 2 && parts[1] == v
  }

  /** A value is collected exactly when some row has it in its second
      column. */
  lemma {:induction false} RotaValuesMembership(rows: seq<string>, v: string)
    requires RowsHaveTwoColumns(rows)
    ensures v in RotaValues(rows) <==> exists i :: 0 <= i < |rows| && HasRota(rows[i], v)
  {
    if rows != [] {
      var init := rows[..|rows| - 1];
      assert RowsHaveTwoColumns(init) by {
        forall i | 0 <= i < |init| ensures |Split(init[i])| != 1 {
          assert init[i] == rows[i];
        }
      }
      RotaValuesMembership(init, v);
      if i :| 0 <= i < |init| && HasRota(init[i], v) {
        assert rows[i] == init[i];
      }
      if i :| 0 <= i < |rows| && HasRota(rows[i], v) {
        if i < |init| {
          assert rows[i] == init[i];
        }
      }
    }
  }

  /** There are no more distinct values than rows. */
  lemma {:induction false} RotaValuesBound(rows: seq<string>)
    requires RowsHaveTwoColumns(rows)
    ensures |RotaValues(rows)| <= |rows|
  {
    if rows != [] {
      var init := rows[..|rows| - 1];
      RotaValuesBound(init);
      var parts := Split(rows[|rows| - 1]);
      if parts != [] {
        assert |RotaValues(init) + {parts[1]}| <= |RotaValues(init)| + 1;
      }
    }
  }

  /** `get_unique_rota_values`: skip the header line and collect the
      second column of every non-blank row. */
  method GetUniqueRotaValues(output: string) returns (rotaValues: set<string>)
    requires RowsHaveTwoColumns(Rest(SplitLines(output)))
    ensures rotaValues == RotaValues(Rest(SplitLines(output)))
  {
    var rows := Rest(SplitLines(output));
    rotaValues := {};
    for i := 0 to |rows|
      invariant rotaValues == RotaValues(rows[..i])
    {
      assert rows[..i + 1][..i] == rows[..i];
      var parts := Split(rows[i]);
      if parts != [] {
        rotaValues := rotaValues + {parts[1]};
      }
    }
    assert rows[..|rows|] == rows;
  }

  /** An `lsblk -d -o name,rota` row: device name and flag. */
  lemma RotaColumn(name: string, rota: string)
    requires name != [] && NoSpace(name) && rota != [] && NoSpace(rota)
    ensures Split(name + " " + rota) == [name, rota]
  {
    SplitWordThenSpace(name, rota);
    SplitOneWord(rota);
  }

  /** Two solid-state disks and one spinning disk give the flags 0 and 1. */
  lemma RotaExample(listing: seq<string>)
    requires listing == ["NAME ROTA", "sda 0", "sdb 0", "sdc 1"]
    ensures RowsHaveTwoColumns(Rest(listing))
    ensures RotaValues(Rest(listing)) == {"0", "1"}
  {
    RotaExampleRows(listing);
    RotaExampleLastRow(listing);
    assert Rest(listing) == [listing[1], listing[2], listing[3]];
    RotaOfThreeRows(Rest(listing), listing[1], listing[2], listing[3], "0", "1");
  }

  /** Three two-column rows, the first two sharing their flag. */
  lemma RotaOfThreeRows(rows: seq<string>, a: string, b: string, c: string, u: string, w: string)
    requires rows == [a, b, c]
    requires |Split(a)| == 2 && |Split(b)| == 2 && |Split(c)| == 2
    requires Split(a)[1] == u && Split(b)[1] == u && Split(c)[1] == w
    ensures RowsHaveTwoColumns(rows)
    ensures RotaValues(rows) == {u, w}
  {
    var first := [a, b];
    RotaOfTwoRows(first, a, b, u);
    assert first + [c] == rows;
    RotaValuesSnoc(first, c, {u}, w);
  }

  /** Two two-column rows with the same flag. */
  lemma RotaOfTwoRows(rows: seq<string>, a: string, b: string, u: string)
    requires rows == [a, b]
    requires |Split(a)| == 2 && |Split(b)| == 2
    requires Split(a)[1] == u && Split(b)[1] == u
    ensures RowsHaveTwoColumns(rows)
    ensures RotaValues(rows) == {u}
  {
    var none: seq<string> := [];
    assert none + [a] == [a];
    RotaValuesSnoc(none, a, {}, u);
    assert [a] + [b] == rows;
    RotaValuesSnoc([a], b, {u}, u);
  }

  /** Adding a row with a second column adds that column to the set. */
  lemma RotaValuesSnoc(rows: seq<string>, row: string, before: set<string>, v: string)
    requires RowsHaveTwoColumns(rows) && RotaValues(rows) == before
    requires |Split(row)| == 2 && Split(row)[1] == v
    ensures RowsHaveTwoColumns(rows + [row])
    ensures RotaValues(rows + [row]) == before + {v}
  {
    assert (rows + [row])[..|rows|] == rows;
  }

  lemma RotaExampleRows(listing: seq<string>)
    requires listing == ["NAME ROTA", "sda 0", "sdb 0", "sdc 1"]
    ensures Split(listing[1]) == ["sda", "0"] && Split(listing[2]) == ["sdb", "0"]
  {
    RotaExampleFirstRow(listing);
    RotaExampleSecondRow(listing);
  }

  lemma RotaExampleFirstRow(listing: seq<string>)
    requires listing == ["NAME ROTA", "sda 0", "sdb 0", "sdc 1"]
    ensures Split(listing[1]) == ["sda", "0"]
  {
    RotaExampleRow(listing, 1, "sda", "0");
  }

  lemma RotaExampleSecondRow(listing: seq<string>)
    requires listing == ["NAME ROTA", "sda 0", "sdb 0", "sdc 1"]
    ensures Split(listing[2]) == ["sdb", "0"]
  {
    RotaExampleRow(listing, 2, "sdb", "0");
  }

  lemma RotaExampleLastRow(listing: seq<string>)
    requires listing == ["NAME ROTA", "sda 0", "sdb 0", "sdc 1"]
    ensures Split(listing[3]) == ["sdc", "1"]
  {
    RotaExampleRow(listing, 3, "sdc", "1");
  }

  lemma RotaExampleRow(listing: seq<string>, i: nat, name: string, rota: string)
    requires listing == ["NAME ROTA", "sda 0", "sdb 0", "sdc 1"]
    requires 1 <= i < |listing| && listing[i] == name + " " + rota && name != [] && rota != []
    requires NoSpace(name) && NoSpace(rota)
    ensures Split(listing[i]) == [name, rota]
  {
    RotaColumn(name, rota);
  }

  // ---------------------------------------------------------------------------
  // check_status: colour the `ufw status` text

  /** The text reports a service that is not running. */
  predicate ReportsTrouble(output: string) {
    Contains(output, "inactive") || Contains(output, "failed") || Contains(output, "disabled")
  }

  /** `check_status`: the text unchanged between a colour code and RESET;
      red when it reports trouble, green otherwise. */
  function CheckStatus(output: string): (colored: string)
    ensures RED <= colored <==> ReportsTrouble(output)
    ensures GREEN <= colored <==> !ReportsTrouble(output)
    ensures |colored| == |output| + 9 && colored[5..5 + |output|] == output
    ensures EndsWith(colored, RESET)
  {
    var colored := if ReportsTrouble(output) then RED + output + RESET else GREEN + output + RESET;
    CodesDiffer(colored);
    colored
  }

  /** The colouring loses nothing: different texts stay different. */
  lemma CheckStatusInjective(a: string, b: string)
    requires CheckStatus(a) == CheckStatus(b)
    ensures a == b
  {
    assert a == CheckStatus(a)[5..5 + |a|];
  }

  // ---------------------------------------------------------------------------
  // The probe decisions

  /** How a probe ended: with the stdout it captured, or by running past
      its time limit. */
  datatype Outcome = Finished(stdout: string) | TimedOut

  datatype Verdict = Success | Failure | Timeout

  /** Whether the telnet session got through. */
  function TelnetVerdict(outcome: Outcome): (v: Verdict)
    ensures v == Timeout <==> outcome.TimedOut?
    ensures v == Success <==>
      (outcome.Finished? && (Contains(outcome.stdout, "Connected") || Contains(outcome.stdout, "Escape character")))
  {
    match outcome
    case TimedOut => Timeout
    case Finished(out) =>
      if Contains(out, "Connected") || Contains(out, "Escape character") then Success else Failure
  }

  /** "<server type> (<host>:<port>)". */
  function Target(host: string, port: nat, serverType: string): string {
    serverType + " (" + host + ":" + NatToDecimal(port) + ")"
  }

  /** The line the report shows for a verdict. */
  function TelnetMessage(host: string, port: nat, serverType: string, v: Verdict): (msg: string)
    ensures GREEN <= msg <==> v == Success
    ensures RED <= msg <==> v != Success
    ensures EndsWith(msg, RESET)
  {
    var msg := match v
      case Success => GREEN + "Connected to " + Target(host, port, serverType) + RESET
      case Failure => RED + "Connection to " + Target(host, port, serverType) + " failed" + RESET
      case Timeout => RED + "Connection to " + Target(host, port, serverType) + " timed out" + RESET;
    CodesDiffer(msg);
    msg
  }

  /** The decision of `check_telnet_connection`. */
  function CheckTelnetConnection(host: string, port: nat, serverType: string, outcome: Outcome): (msg: string)
    ensures GREEN <= msg <==>
      (outcome.Finished? && (Contains(outcome.stdout, "Connected") || Contains(outcome.stdout, "Escape character")))
    ensures RED <= msg <==>
      !(outcome.Finished? && (Contains(outcome.stdout, "Connected") || Contains(outcome.stdout, "Escape character")))
    ensures msg == TelnetMessage(host, port, serverType, TelnetVerdict(outcome))
  {
    TelnetMessage(host, port, serverType, TelnetVerdict(outcome))
  }

  /** The three messages differ, so the report tells the verdicts apart. */
  lemma TelnetMessagesDistinct(host: string, port: nat, serverType: string, v: Verdict, w: Verdict)
    requires TelnetMessage(host, port, serverType, v) == TelnetMessage(host, port, serverType, w)
    ensures v == w
  {
  }

  /** The report names the port the probe was aimed at, and the number can
      be read back from it. */
  lemma TelnetMessageNamesPort(host: string, port: nat, serverType: string, v: Verdict)
    ensures Contains(TelnetMessage(host, port, serverType, v), ":" + NatToDecimal(port) + ")")
    ensures DecimalValue(NatToDecimal(port)) == port
  {
    var msg := TelnetMessage(host, port, serverType, v);
    var target := Target(host, port, serverType);
    var tail := ":" + NatToDecimal(port) + ")";
    var lead := if v == Success then GREEN + "Connected to " else RED + "Connection to ";
    var at := |lead| + |serverType| + 2 + |host|;
    assert msg[at..at + |tail|] == tail;
    assert OccursAt(msg, tail, at);
    ContainsIffOccurs(msg, tail);
    DecimalRoundTrip(port);
  }

  /** Whether the single ping was answered. */
  function PingVerdict(stdout: string): (v: Verdict)
    ensures v != Timeout
    ensures v == Success <==> Contains(stdout, "1 packets transmitted, 1 received")
  {
    if Contains(stdout, "1 packets transmitted, 1 received") then Success else Failure
  }

  /** The decision of `check_ping` on the captured stdout. */
  function CheckPing(host: string, stdout: string): (msg: string)
    ensures GREEN <= msg <==> PingVerdict(stdout) == Success
    ensures RED <= msg <==> PingVerdict(stdout) == Failure
    ensures EndsWith(msg, RESET)
  {
    var msg := if PingVerdict(stdout) == Success then GREEN + "Ping to " + host + " successful" + RESET
      else RED + "Ping to " + host + " failed" + RESET;
    CodesDiffer(msg);
    msg
  }
}
