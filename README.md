# On-premises precheck: text-processing core

`precheck_onprem.py` is a health-check script for an on-premises install. It
runs shell commands (`ifconfig`, `df -h`, `free -h`, `lsblk -d -o name,rota`,
`ufw status`, `telnet`, `ping`) and writes a colourised report. Between
running a command and writing its line, the script passes the captured text
through a few small functions, and this project models them:

- **`parse_ifconfig`** (module `Ifconfig`). It finds the device and IPv4
  address of each interface with the regular expression
  `(\S+): flags.*\n.*inet (\d+\.\d+\.\d+\.\d+)` and `findall`.
  - The model gives a declarative description of one match (`IsHit`).
  - It gives the matcher that tries the pattern at one position (`HitAt`),
    with the choices made by the greedy quantifiers: the last `inet`
    address on the line after the header, and the longest last number.
  - It gives `findall`'s left-to-right scan for any matcher (`Scan`).
  - It proves that the scan reports exactly the matches, in text order,
    with no two overlapping.
- **`calculate_total_storage`** (`Precheck`). The loop skips the header
  line and adds up the Size column in gigabytes. The unit letters are tried
  in the order G, T (×1024), M (/1024). A row with no second column, or
  whose number does not parse, is skipped.
- **`get_root_storage`** and **`get_total_memory`** (`Precheck`). These are
  early-return searches for the first line of a kind, with a fixed notice
  when no line matches.
- **`get_unique_rota_values`** (`Precheck`). It builds the set of ROTA flags
  of the non-blank rows after the header.
- **`check_status`** (`Precheck`). It wraps the text in the red code if it
  mentions `inactive`, `failed` or `disabled`, and in the green code
  otherwise.
- **The decisions of `check_telnet_connection` and `check_ping`**
  (`Precheck`). Each is a pure function of how the process ended: the stdout
  it captured, or a timeout.

Module `PyText` models the Python `str` operations these functions use:
- `split()` and `splitlines()`;
- `in` on strings and `endswith`;
- `strip(c)`;
- the decimal formatting of a port number.

`Options` holds the `Option` type.

`float()` is a parameter of type `string -> Option<real>`: `None` stands for
a `ValueError`. Sizes are added as exact reals. The loops of
`parse_ifconfig`, `calculate_total_storage`, `get_root_storage`,
`get_total_memory` and `get_unique_rota_values` are methods. Each method is
proved against a specification function, and the properties are proved as
lemmas about those functions.

## Model

| member | source | states |
|---|---|---|
| Ifconfig.ParseIfconfig | precheck_onprem.py:22-30 | returns one "Device: N, IP: A" record per match `findall` reports, in the same order |
| Ifconfig.HeaderColonExact | precheck_onprem.py:24 | trying `(\S+): flags` at p finds the colon at c exactly when a non-empty run without whitespace starts at p, ends at c, and is followed by ": flags" |
| Ifconfig.QuadEndSound | precheck_onprem.py:24 | where the address scanner succeeds, the text it spans is a dotted quad, and the last number cannot be extended by another digit |
| Ifconfig.QuadEndComplete | precheck_onprem.py:24 | the address scanner succeeds on every dotted quad; for a quad whose last number is maximal, it returns exactly that end |
| Ifconfig.LastInetSpec | precheck_onprem.py:24 | the line search returns an `inet ` address with no later one in the range; it returns nothing only when the range holds none |
| Ifconfig.LastInetOnLine | precheck_onprem.py:24 | the address found on the line after the header is a match of `.*inet (\d+\.\d+\.\d+\.\d+)` with no newline before it; it is the last such address on that line |
| Ifconfig.AddressAfterSound | precheck_onprem.py:24 | what is found after a header is the first newline after ": flags", then a greedy address match on the following line |
| Ifconfig.AddressAfterComplete | precheck_onprem.py:24 | every header-line end plus greedy address match is the one found after the header |
| Ifconfig.HitAtSound | precheck_onprem.py:24-26 | every hit the matcher reports at a position is a match of the whole pattern (IsHit) |
| Ifconfig.HitAtComplete | precheck_onprem.py:24-26 | every match of the whole pattern is the one the matcher reports at its start, so a match starting at a given position is unique |
| Ifconfig.ScanOrdered | precheck_onprem.py:26 | for any matcher, the `findall` scan reports non-empty hits inside the text, each ending no later than the next begins |
| Ifconfig.ScanSound | precheck_onprem.py:26 | every hit the scan reports is what the matcher reports at that hit's start |
| Ifconfig.ScanReaches | precheck_onprem.py:26 | the scan reports every hit of the matcher whose start no reported hit covers |
| Ifconfig.FindAllOrdered | precheck_onprem.py:26 | `findall` matches come in text order and do not overlap |
| Ifconfig.FindAllSound | precheck_onprem.py:26 | every reported match is a match of the pattern |
| Ifconfig.FindAllComplete | precheck_onprem.py:26 | every match of the pattern that does not start inside a reported match is reported |
| Ifconfig.NoAddressNoRecord | precheck_onprem.py:24-28 | a device whose next line carries no `inet` dotted quad yields no record |
| Ifconfig.LoopbackExample | precheck_onprem.py:22-30 | "lo: flags=73\n inet 127.0.0.1\n" yields exactly the match for device "lo" with address "127.0.0.1" |
| Precheck.CalculateTotalStorage | precheck_onprem.py:33-46 | the loop's total is the sum of the row sizes of every line after the header |
| Precheck.SizeGigabytes | precheck_onprem.py:37-43 | a size containing none of G, T, M counts as 0 |
| Precheck.RowGigabytes | precheck_onprem.py:36-45 | a row with fewer than two columns adds 0 (the IndexError is caught) |
| Precheck.GigaFirst | precheck_onprem.py:38-39 | G is looked at first: a size ending in G is the parsed number, whatever T or M precede it |
| Precheck.TeraIsGiga | precheck_onprem.py:40-41 | a number with unit T counts 1024 times the same number with unit G |
| Precheck.MegaIsGiga | precheck_onprem.py:42-43 | a number with unit M counts 1/1024 of the same number with unit G |
| Precheck.TotalStorageAppend | precheck_onprem.py:33-46 | the total of two listings joined is the sum of their totals |
| Precheck.ShortRowAddsNothing | precheck_onprem.py:36-45 | inserting a row without a second column leaves the total unchanged |
| Precheck.TotalStorageNonNegative | precheck_onprem.py:33-46 | with a parser that never returns a negative number, the total is not negative |
| Precheck.SizeColumn | precheck_onprem.py:36 | a `df -h` row "device size mount" splits into its three columns, so the size is column 1 |
| Precheck.GigabyteRowExample | precheck_onprem.py:36-39 | the row "/dev/sda1 50G /" adds 50 |
| Precheck.MegabyteRowExample | precheck_onprem.py:36-43 | the row "tmpfs 512M /tmp" adds 0.5 |
| Precheck.StorageExample | precheck_onprem.py:33-46 | the listing "Filesystem Size", "/dev/sda1 50G /", "tmpfs 512M /tmp" totals 50.5 |
| Precheck.FirstLine | precheck_onprem.py:50-52 | returns the index of the first line with the property; no earlier line has it; it equals the line count when no line has it |
| Precheck.GetRootStorage | precheck_onprem.py:49-53 | returns the first line, header included, that ends in " /", or "Root directory not found." if there is none; the answer ends in " /" exactly when such a line exists |
| Precheck.RootNotFoundIsNoRootLine | precheck_onprem.py:53 | the not-found notice cannot be confused with a root line |
| Precheck.GetTotalMemory | precheck_onprem.py:72-76 | returns the second column of the first line containing "Mem:", or "Memory information not found." if no line contains it |
| Precheck.GetUniqueRotaValues | precheck_onprem.py:79-85 | the loop's set holds the second columns of the non-blank lines after the header |
| Precheck.RotaValuesMembership | precheck_onprem.py:81-84 | a value is in the set exactly when some row has it in its second column |
| Precheck.RotaValuesBound | precheck_onprem.py:79-85 | duplicates collapse: the set is no larger than the number of rows |
| Precheck.RotaColumn | precheck_onprem.py:83-84 | an `lsblk` row "name rota" splits into its two columns |
| Precheck.RotaExample | precheck_onprem.py:79-85 | the listing "NAME ROTA", "sda 0", "sdb 0", "sdc 1" gives {"0", "1"} |
| Precheck.CodesDiffer | precheck_onprem.py:6-7 | no text starts with both the red and the green code |
| Precheck.CheckStatus | precheck_onprem.py:113-117 | the result starts with the red code exactly when the text contains "inactive", "failed" or "disabled", and with the green code exactly when it contains none of them; the text sits unchanged between the code and RESET |
| Precheck.CheckStatusInjective | precheck_onprem.py:113-117 | different texts give different coloured results |
| Precheck.TelnetVerdict | precheck_onprem.py:61-69 | a timeout gives Timeout; the probe succeeds exactly when the stdout contains "Connected" or "Escape character" |
| Precheck.TelnetMessage | precheck_onprem.py:63-69 | the message is green exactly for success and red otherwise, and it ends with RESET |
| Precheck.CheckTelnetConnection | precheck_onprem.py:56-69 | the report is green exactly when the process finished with "Connected" or "Escape character" in its stdout, and red otherwise |
| Precheck.TelnetMessagesDistinct | precheck_onprem.py:63-69 | success, failure and timeout give three different messages |
| Precheck.TelnetMessageNamesPort | precheck_onprem.py:57-69 | the message contains ":<port>)", and the decimal digits read back as the port |
| Precheck.PingVerdict | precheck_onprem.py:125-128 | the ping succeeds exactly when the stdout contains "1 packets transmitted, 1 received"; it never times out |
| Precheck.CheckPing | precheck_onprem.py:120-130 | the report is green exactly on success and red exactly on failure, and it ends with RESET |
| PyText.Split | precheck_onprem.py:36 | `split()` yields non-empty words without whitespace |
| PyText.SplitEmptyIffBlank | precheck_onprem.py:82-83 | `split()` yields nothing exactly when the line is all whitespace |
| PyText.SplitWordThenSpace | precheck_onprem.py:36 | a word followed by a space splits off as the first column |
| PyText.SplitLines | precheck_onprem.py:35 | `splitlines()` yields lines without line breaks, and no more lines than characters |
| PyText.SplitLinesSingleLine | precheck_onprem.py:35 | text without a line break is one line, or no line when it is empty |
| PyText.Rest | precheck_onprem.py:35 | `[1:]` drops exactly the first line |
| PyText.ContainsIffOccurs | precheck_onprem.py:62 | `pat in s` holds exactly when `pat` occurs at some position of `s` |
| PyText.Strip | precheck_onprem.py:39 | `strip(c)` leaves a middle slice of the text with only `c` removed around it, and neither end of the result is `c` |
| PyText.StripAppended | precheck_onprem.py:39-43 | stripping the unit letter from a number followed by that letter gives back the number |
| PyText.NatToDecimal | precheck_onprem.py:63 | formatting a port gives a non-empty run of digits with no leading zero |
| PyText.DecimalRoundTrip | precheck_onprem.py:63 | reading back the digits of a formatted port gives the port |

## Left out

- `run_command` (precheck_onprem.py:12-19), `run_wget` (88-96) and `check_and_install_policycoreutils` (98-110) run operating-system processes. They are not part of this model. For the probes, only the decision taken on the captured stdout, or on a timeout, is modelled.
- The top-level script (precheck_onprem.py:133-253) is not modelled. This covers:
  - the `input()` prompts;
  - the fixed command, URL and port lists;
  - the writes to `system_status.txt`;
  - the `sudo apt install` side effect;
  - the final message.
  It is input and output orchestration.
- Floating point is not modelled. `float()` is an abstract parser, sizes are exact reals, and the `:.2f` formatting at precheck_onprem.py:187 is left out.
- `\d` is modelled as the ASCII digits 0-9. Python also accepts other Unicode decimal digits there.
- The regular expression is modelled exactly for this one pattern, as a position-by-position matcher. There is no general regular-expression engine.
- The `except subprocess.CalledProcessError` branch of `check_telnet_connection` (precheck_onprem.py:66-67) is not modelled. That call does not pass `check=True`, so the exception is never raised.
- The `except subprocess.TimeoutExpired` branch of `check_ping` (precheck_onprem.py:129-130) is not modelled. That call passes no `timeout`, so the branch cannot fire. `CheckPing` therefore takes only the stdout.
- The YELLOW code (precheck_onprem.py:8) is only used by the top-level script. It is declared but not used.
- Precheck.GetTotalMemory: requires that the first "Mem:" line has a second column. Without one, the script stops with an uncaught IndexError at precheck_onprem.py:75.
- Precheck.GetUniqueRotaValues: requires that every non-blank line after the header has a second column. Without one, the script stops with an uncaught IndexError at precheck_onprem.py:84.
