# SplunkScripts core, modelled in Dafny

SplunkScripts is a set of three command-line lookups against a Splunk
search head:

- `checkfw.py` searches the Palo Alto firewall index. The search is filtered
  by action, destination, source and user over a chosen time window, and the
  result is printed as a full or a short table.
- `searchdhcp.py` finds a host's DHCP leases by IP or MAC address. It
  searches the Windows DHCP index and the firewall's DHCP log, and each
  source wants its own spelling of the MAC address.
- `u2m.py` lists the machines a Windows user logged on to.

Each script does the same three things: it builds a search string and the
job options, runs the job, and removes duplicate results before printing
them. This project models the deterministic part:

- the search strings and job options each script builds;
- the two MAC address normalisers;
- the four first-seen deduplicators, which key on positions of a result's
  items sorted by field name;
- the firewall table's in-place fill of missing columns and its shortened
  time column.

## Layout

| module | file | models |
|---|---|---|
| `Wrappers` | wrappers.dfy | `Option` and `Result` |
| `Text` | text.dfy | the Python `str` operations used: code-point order, ASCII case mapping, `isalnum`, character deletion (`re.sub` on a class, `''.join(s.split())`), `split` and `join` |
| `Records` | records.dfy | a result record (`dict` of `str` to `str`) and `tuple(sorted(x.items()))` |
| `Search` | search.dfy | the job request: query text and `kwargs_normalsearch` |
| `FirstSeen` | dedupe.dfy | the seen-set loop shared by the four dedupe functions, generic in the field test and the key |
| `CheckFw` | checkfw.dfy | checkfw.py |
| `SearchDhcp` | searchdhcp.dfy | searchdhcp.py |
| `UserToMachine` | u2m.dfy | u2m.py |

### The deduplication specification

`FirstSeen.Dedupe(rs, eligible, keyOf)` is a reference definition with no
loop. A record is kept when three things hold:

- it passes the site's field test;
- its key exists;
- no earlier eligible record has the same key.

When some eligible record has no key, the result is `Failure(IndexError)`.
In Python the positional index raises there; this is not a precondition.

`FirstSeen.DedupeLogs` is the Python loop, with its seen-set and output list.
Its contract says it returns `Dedupe`. Each script's dedupe method calls it
with its own field test and key.

## Model

| member | source | states |
|---|---|---|
| CheckFw.ResolveTime | checkfw.py:59-67 | The options always run a normal job that ends now. The window starts at `-` plus the requested time when that time is one of the eight listed windows, and at `-30m` otherwise or when no time was given. |
| CheckFw.ResolvedWindowIsListed | checkfw.py:28 | Whatever was asked for, the resolved start is `-` plus one of the eight listed windows. |
| CheckFw.Clauses | checkfw.py:68-81 | Exactly one action clause comes first. It allows only permitted traffic exactly when the action is the value `allowed`. The other clauses follow in the strict order dest, source, user. Each is present exactly when its option is, and carries that option's text. |
| CheckFw.ClauseValues | checkfw.py:76-81 | A filter given with a value puts that value in its term. One given bare puts the text `None` there, which is what `'{0}'.format(None)` writes. |
| CheckFw.ClauseText | checkfw.py:70-81 | Definition: the text each kind of term appends, with its trailing space. |
| CheckFw.Render | checkfw.py:68-81 | Definition: the terms' texts concatenated in list order. `RenderAppend` and `RenderQuery` state its properties. |
| CheckFw.Terms | checkfw.py:68-81 | Definition: the text the chain of conditional `+=` appends, written as that chain. `RenderQuery` proves it equal to the rendered clause list. |
| CheckFw.RenderAppend | checkfw.py:68-81 | Rendering a list of clauses is concatenation: rendering two lists one after the other gives the rendering of both. |
| CheckFw.BuildSearchQuery | checkfw.py:49-84 | The options are the resolved time window. The query is the fixed index prefix, then the rendered clauses, then the fixed 15-column table suffix. |
| CheckFw.RenderQuery | checkfw.py:68-81 | The clause list renders to exactly the text that the script's chain of conditional `+=` appends. |
| CheckFw.DefaultQuery | checkfw.py:58-82 | With no filter options, the query is the prefix, `action!=allowed `, then the table suffix. |
| CheckFw.ActionFilter | checkfw.py:68-75 | Right after the index prefix, the query holds `action=allowed ` if the action is `allowed`, and `action!=allowed ` otherwise. This covers an absent action, one given with no value, and any other value. |
| CheckFw.FirewallKey | checkfw.py:127-128 | The key exists exactly when the record has at least 13 fields, and it is four sorted items long. |
| CheckFw.DedupeFirewallLogs | checkfw.py:122-132 | The loop returns the reference first-seen dedupe over every record, keyed on sorted items 2, 5, 6 and 12. |
| CheckFw.FirewallDedupeFails | checkfw.py:127-128 | The dedupe raises IndexError exactly when some log has fewer than 13 fields. |
| CheckFw.SortedLogKeysAscending | checkfw.py:82 | The fifteen queried column names, listed in code-point order, are strictly ascending. |
| CheckFw.SortedLogKeysAreLogKeys | checkfw.py:138-140 | That listing holds the same names as the script's `logkeys`. |
| CheckFw.FullLogItems | checkfw.py:127 | For a log with exactly the fifteen columns, sorted item `i` is the `i`-th name of the ascending listing, paired with its value. |
| CheckFw.FirewallKeyOfSortedColumns | checkfw.py:127-128 | On such a log, the key is made of the items of the listing's names 2, 5, 6 and 12. |
| CheckFw.FirewallKeyFieldNames | checkfw.py:128 | Those positions are the columns application, dest_ip, dest_port and src_zone. |
| CheckFw.FirewallKeyOfFullLog | checkfw.py:122-128 | On a full log, the key is the application, dest_ip, dest_port and src_zone pairs. |
| CheckFw.FirewallKeyIgnoresSourceAddress | checkfw.py:123-128 | On a full log, changing src_ip leaves the key unchanged, although the docstring names src_ip as part of it. |
| CheckFw.WithPlaceholders | checkfw.py:159-162 | After the fill, all fifteen columns are present. Existing fields keep their values. Every added field is one of the fifteen and holds `Missing.`. |
| CheckFw.WithPlaceholdersIdempotent | checkfw.py:159-162 | Filling a filled record changes nothing. |
| CheckFw.FillPlaceholders | checkfw.py:159-162 | The nested loops update every record of the list in place to its filled version. |
| CheckFw.DisplayTime | checkfw.py:164 | The shown time is a prefix of `_time` with no `.` in it. It is all of `_time`, or it stops right before a `.`. |
| CheckFw.DisplayTimeCutsAtFirstDot | checkfw.py:164 | When `_time` has a first `.` at position `k`, the shown time is the text before it. |
| CheckFw.DisplayTimeWithoutDot | checkfw.py:164 | A time with no `.` is shown whole. |
| CheckFw.DisplayTimeDropsFraction | checkfw.py:164 | `10:11:12.000` is shown as `10:11:12`. |
| CheckFw.DisplayTimeOfPlaceholder | checkfw.py:162-164 | A missing `_time` is shown as `Missing`, the placeholder without its final dot. |
| CheckFw.FullRow | checkfw.py:164-167 | The full row has the fifteen columns, and the first is the shown time. |
| CheckFw.FullRowFollowsLogKeys | checkfw.py:164-167 | After the time, each entry of the full row is the value of the column of the same position in `logkeys`. |
| CheckFw.ShortRow | checkfw.py:198-199 | The short row has seven entries. The first is the shown time, and each other one is the value of one of the fifteen columns, in the short table's order. |
| CheckFw.Rows | checkfw.py:163-167 | There is one row per log, and row `i` is the full row of log `i` for the full table, or its short row (the short table's loop is at checkfw.py:197-199). |
| CheckFw.LogOutput | checkfw.py:135-174 | For `full_log_output`, and for `short_log_output` (checkfw.py:177-206) when `full` is false: no logs give no table. Otherwise every log is filled in place and the table has a row per filled log. |
| SearchDhcp.SeparatorsAreNotLetters | searchdhcp.py:62-63 | None of the deleted characters (`.`, `:`, `-` and whitespace) is a letter. |
| SearchDhcp.FormatMacWindhcp | searchdhcp.py:58-64 | The result is no longer than the input. It holds no `.`, `:`, `-`, whitespace or lower-case letter. |
| SearchDhcp.WindhcpIsUpperDigits | searchdhcp.py:62-63 | The result is the input with separators and whitespace deleted, then upper-cased. Upper-casing and deleting commute. |
| SearchDhcp.WindhcpIdempotent | searchdhcp.py:58-64 | Normalising a normalised address changes nothing. |
| SearchDhcp.PadhcpDigits | searchdhcp.py:119-120 | The stripped, lower-cased text holds no separator, whitespace or upper-case letter, and is no longer than the input. |
| SearchDhcp.Pairs | searchdhcp.py:122 | Chunking into pairs gives ⌈n/2⌉ chunks. |
| SearchDhcp.PairsLengths | searchdhcp.py:122 | Every chunk but the last has two characters. The last has one when the length is odd. |
| SearchDhcp.PairsCons | searchdhcp.py:122 | The chunks of a text longer than two are its first pair followed by the chunks of the rest. |
| SearchDhcp.PairsConcat | searchdhcp.py:122 | Concatenating the chunks gives back the text. |
| SearchDhcp.PairsChars | searchdhcp.py:122 | The chunks hold only characters of the text. |
| SearchDhcp.FormatMacPadhcp | searchdhcp.py:114-126 | The result is an address exactly when the stripped, lower-cased text is alphanumeric. Otherwise it is None, which covers the empty text. |
| SearchDhcp.PadhcpRoundTrip | searchdhcp.py:119-123 | Deleting the colons from the result gives back the stripped, lower-cased text. |
| SearchDhcp.PadhcpGroups | searchdhcp.py:122 | Splitting the result at `:` gives the pairs. All have two characters except the last, which has one when the length is odd. |
| SearchDhcp.PadhcpColonCount | searchdhcp.py:119-123 | The result has ⌈n/2⌉ − 1 colons, where n is the stripped length. |
| SearchDhcp.PadhcpIdempotent | searchdhcp.py:114-126 | Normalising a normalised address gives it back. |
| SearchDhcp.SchemasAgree | searchdhcp.py:62-63 | The Windows spelling is the firewall spelling's stripped digits (searchdhcp.py:119-120), upper-cased. |
| SearchDhcp.WithoutKeeps | searchdhcp.py:119 | A character that is not deleted survives the deletion. |
| SearchDhcp.PadhcpRejectsStrayCharacter | searchdhcp.py:119-121 | An input holding any character that is neither deleted nor alphanumeric gives None. |
| SearchDhcp.PadhcpRejectsEmpty | searchdhcp.py:119-121 | An empty input, or one holding only separators and whitespace, gives None. |
| SearchDhcp.WindhcpQuery | searchdhcp.py:79 | Definition: the Windows DHCP template with the query in the description, dest and dest_ip terms and the mac text in the mac term. |
| SearchDhcp.PadhcpQuery | searchdhcp.py:138 | Definition: the firewall DHCP template with the query in the first description term and the mac text in the second. |
| SearchDhcp.QueryWindhcp | searchdhcp.py:75-80 | The job covers the last 72 hours. The mac term is the query itself for an IP address, and its Windows spelling otherwise. |
| SearchDhcp.QueryPadhcp | searchdhcp.py:134-139 | The job covers the last 72 hours. The second description term is the query for an IP address, or its firewall spelling. When that spelling fails, it is the text `None`. |
| SearchDhcp.HasMac | searchdhcp.py:106 | Definition: the Windows DHCP dedupe considers a record only when it has a `mac` field. |
| SearchDhcp.WindhcpKey | searchdhcp.py:107 | The key exists exactly when the record has more than five fields. |
| SearchDhcp.DedupeWindhcpLogs | searchdhcp.py:101-111 | The loop returns the reference first-seen dedupe over records with a mac field, keyed on sorted item 5. |
| SearchDhcp.WindhcpDedupe | searchdhcp.py:101-111 | The dedupe raises IndexError exactly when some log has a mac field and at most five fields. Every kept log has a mac field. |
| SearchDhcp.SortedWindhcpColumnsAscending | searchdhcp.py:79 | The eight queried columns, listed in code-point order, are strictly ascending and are the queried columns. |
| SearchDhcp.WindhcpKeyOfFullLog | searchdhcp.py:107 | On a log with exactly the queried columns, the key is its mac field. |
| SearchDhcp.PadhcpKey | searchdhcp.py:165 | The key exists exactly when the record is not empty. |
| SearchDhcp.DedupePadhcpLogs | searchdhcp.py:160-169 | The loop returns the reference first-seen dedupe over every record, keyed on the first sorted item. |
| SearchDhcp.PadhcpDedupeFails | searchdhcp.py:160-169 | The dedupe raises IndexError exactly when some log is empty. |
| SearchDhcp.PadhcpKeyOfFullLog | searchdhcp.py:165 | On a log with exactly the queried columns, the key is its description. |
| UserToMachine.QueryWinUsers | u2m.py:54-55 | The job covers the last 72 hours. The query is the fixed prefix, then the user name as given, then the fixed suffix. |
| UserToMachine.UserOfQuery | u2m.py:54 | A user name read out of a query is one whose query is that query. |
| UserToMachine.UserOfQueryBuilt | u2m.py:54 | The user name can be read back from its query. |
| UserToMachine.QueryWinUsersInjective | u2m.py:54 | Different user names give different queries. |
| UserToMachine.HasHost | u2m.py:81 | Definition: the logon dedupe considers a record only when it has a `host` field. |
| UserToMachine.WinKey | u2m.py:82 | The key exists exactly when the record has more than one field. |
| UserToMachine.DedupeWinLogs | u2m.py:76-86 | The loop returns the reference first-seen dedupe over records with a host field, keyed on sorted item 1. |
| UserToMachine.WinDedupeFails | u2m.py:81-82 | The dedupe raises IndexError exactly when some log's only field is host. |
| UserToMachine.WinDedupeKeeps | u2m.py:76-86 | Every kept log has a host and no two share a key. The output is the input with some logs deleted. Deduplicating it again keeps it whole. |
| UserToMachine.WinKeyOfFullLog | u2m.py:82 | On a log with exactly the columns host, EventCode and user, the key is its host field, because `EventCode` sorts first. |
| FirstSeen.Dedupe | checkfw.py:122-132 | Definition, with no loop: `Failure(IndexError)` when some eligible record has no key, and otherwise the eligible records that are the first of their key, in input order. |
| FirstSeen.KeptIndices | checkfw.py:126-131 | The kept positions are increasing, and a position is kept exactly when its record is the first eligible one with its key. |
| FirstSeen.FirstOfKeyIffUnseen | checkfw.py:129 | A record is the first of its key exactly when its key is not yet in the seen-set. |
| FirstSeen.DedupeLogs | checkfw.py:122-132 | The seen-set loop computes the reference dedupe, including the IndexError. |
| FirstSeen.DedupeIsSubsequence | checkfw.py:122-132 | The output is the input with some records deleted, in input order, and no longer than the input. |
| FirstSeen.DedupeKeysDistinct | checkfw.py:122-132 | Every kept record passed the field test and has a key, and no two kept records share a key. |
| FirstSeen.DedupeKeepsFirstOfEveryKey | checkfw.py:122-132 | For every eligible input record, the first record with the same key is kept. |
| FirstSeen.DedupeIdempotent | checkfw.py:122-132 | Deduplicating the output again keeps it whole. |
| Records.SortedFields | checkfw.py:127 | The sorted field names list each field once, in strictly ascending code-point order. |
| Records.SortedFieldsUnique | checkfw.py:127 | Any strictly ascending listing of the fields is the sorted one. |
| Records.SortedItems | checkfw.py:127 | There is one item per field. Each item is a field with its value, in ascending field-name order. |
| Text.Less | checkfw.py:127 | Definition: Python's `<` on `str`, comparing code point by code point, where a proper prefix sorts first. |
| Text.LessTransitive | checkfw.py:127 | Code-point order on strings is transitive. |
| Text.LessTotal | checkfw.py:127 | Code-point order on strings is total. |
| Text.Without | searchdhcp.py:62-63 | Deleting characters leaves a text no longer than the input, holding only kept characters of the input. |
| Text.WithoutEverything | searchdhcp.py:119-120 | Deleting every character of a text leaves the empty text. |
| Text.Upper | searchdhcp.py:62 | `str.upper()` keeps the length and leaves no lower-case letter. |
| Text.Lower | searchdhcp.py:119 | `str.lower()` keeps the length and leaves no upper-case letter. |
| Text.IsAlnum | searchdhcp.py:121 | Definition: `str.isalnum()` holds for a non-empty text whose characters are all letters or digits. |
| Text.WithoutAppend | searchdhcp.py:62-63 | Deleting characters from a concatenation deletes them from each part. |
| Text.UpperWithout | searchdhcp.py:62 | Deleting non-letters and upper-casing commute. |
| Text.LowerWithout | searchdhcp.py:119 | Deleting non-letters and lower-casing commute. |
| Text.UpperOfLower | searchdhcp.py:119 | Upper-casing a lower-cased text is upper-casing it. |
| Text.Split | checkfw.py:164 | `s.split(sep)` for a one-character separator never gives an empty list. `SplitHead`, `SplitJoin` and `SplitCount` give its parts. |
| Text.Join | searchdhcp.py:122 | Definition: `sep.join(parts)`, which puts the separator between consecutive parts only. |
| Text.SplitJoin | searchdhcp.py:122 | Splitting a join of separator-free parts gives back the parts. |
| Text.SplitCount | searchdhcp.py:122 | A split has one more part than the text has separators. |
| Text.SplitHead | checkfw.py:164 | The first part of a split is the longest separator-free prefix. |
| Text.WithoutJoin | searchdhcp.py:122 | Deleting the separator from a join of parts that hold no deleted character concatenates the parts. |

## Left out

- The job runs (checkfw.py:86-119, searchdhcp.py:81-98 and 140-157, u2m.py:56-73) are not modelled. They connect to the server, busy-wait on `is_ready()`, sleep and read results, all of which is network I/O. Each query function stops at the request it would submit.
- The job progress (`float(job["doneProgress"])*100`) is floating point used only for logging, and is not modelled.
- `is_ipaddress` (searchdhcp.py:49-55) wraps `socket.inet_aton`, a lenient parser outside the scripts. Its answer is the parameter `isIp`.
- `get_args`, `build_service`, `load_dotenv`, the working-directory and `sys.path` set-up, and `main` with its `except` and `KeyboardInterrupt` handling are not modelled. They are configuration, process control and I/O.
- `CheckFw.FwArgs`: argparse's defaults are not modelled. With `default=argparse.SUPPRESS` and `nargs='?'`, each filter option is `Absent`, given bare (`Bare`, holding None) or given with a value. `time` has the default `30m`, so through `get_args` it is always present and checkfw.py:65-67 cannot run. `ResolveTime` keeps that branch, because `build_search_query` has it.
- `console.log`, `console.print` and `print` are not modelled. That includes the `print(error)` by which `format_mac_padhcp` reports its failed assertion (searchdhcp.py:124-125); it writes an empty line, because the assertion has no message, and the model returns only `None`. The two `-30m` cases of `ResolveTime` differ only in a log line, so they are not told apart.
- The `rich` tables are not modelled. `CheckFw.LogOutput` returns the rows it would add. The DHCP and user pretty-printers (searchdhcp.py:172-214, u2m.py:89-105) only print, and are not modelled.
- `CheckFw.LogOutput` does not model the bare `except:`, which would catch a `KeyError` from a column the fill does not add. The fill adds every printed column, so none can occur.
- `Text.Upper`, `Text.Lower`, `Text.IsAlnum`: Python's `str.upper`, `str.lower` and `str.isalnum` are Unicode-aware. The model maps only ASCII letters and counts only ASCII letters and digits as alphanumeric. Every MAC address and IP address spelling is ASCII.
- `CheckFw.FirewallKey`: the key `z[2]+z[5]+z[6]+z[12]` is a flat 8-tuple in Python. The model keeps it as a sequence of four pairs. Both compare equal exactly when the four pairs do.
- `CheckFw.FillPlaceholders`: the records are dicts shared between the list and the caller. The model treats each record as a value held in an array slot, so the caller sees the update only through the array.
- `SearchDhcp.FormatMacWindhcp`: the `except AssertionError` at searchdhcp.py:65-67 cannot fire (nothing in the `try` asserts), so it is not modelled.
- Concrete examples such as `aa:bb:cc:dd:ee:ff` are not stated as lemmas. `WindhcpIsUpperDigits`, `PadhcpRoundTrip`, `PadhcpGroups` and `PadhcpColonCount` give the result for every input instead.
- The docstring of `dedupe_firewall_logs` (checkfw.py:123) says the key uses src_ip, but the code's position 12 is src_zone. The model follows the code. `FirewallKeyIgnoresSourceAddress` states the consequence: two full logs that differ only in src_ip count as duplicates.
