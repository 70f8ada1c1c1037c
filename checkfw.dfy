/**
 * The firewall log search script: it builds the search query and its time
 * window from the command-line options, deduplicates the returned logs,
 * fills in fields a log lacks, and lays the logs out as table rows.
 */
module CheckFw {
  import opened Wrappers
  import opened Text
  import opened Records
  import opened Search
  import opened FirstSeen

  // ---------------------------------------------------------------------------
  // Command-line options
  // ---------------------------------------------------------------------------

  /** The look-back windows the script accepts. */
  const TimeOptions: seq<string> := ["15m", "30m", "1h", "4h", "8h", "12h", "16h", "24h"]

  /**
   * An option declared with `nargs='?'` and `default=argparse.SUPPRESS`: it is
   * missing from the parsed namespace, given without a value (so it holds
   * None), or given a value.
   */
  datatype Flag = Absent | Bare | Valued(value: string)

  /**
   * The parsed options `build_search_query` reads. `time` is None when the
   * namespace has no `time` attribute.
   */
  datatype FwArgs = FwArgs(time: Option<string>, action: Flag, dest: Flag, source: Flag, user: Flag)

  /** What `'{0}'.format(v)` writes for a flag that is present: a bare flag holds None. */
  function FlagText(f: Flag): string
  {
    match f
    case Valued(v) => v
    case _ => "None"
  }

  // ---------------------------------------------------------------------------
  // The time window
  // ---------------------------------------------------------------------------

  /**
   * The search options for the requested window: a listed window is used as
   * it is, anything else (or no window at all) falls back to 30 minutes.
   */
  function ResolveTime(time: Option<string>): (opts: SearchOptions)
    ensures opts.execMode == "normal" && opts.latestTime == "now"
    ensures time.Some? && time.value in TimeOptions ==> opts.earliestTime == "-" + time.value
    ensures !(time.Some? && time.value in TimeOptions) ==> opts.earliestTime == "-30m"
  {
    if time.Some? then
      if time.value in TimeOptions then
        SearchOptions("normal", "-" + time.value, "now")
      else
        SearchOptions("normal", "-30m", "now")
    else
      SearchOptions("normal", "-30m", "now")
  }

  /** Whatever the request, the search looks back over one of the listed windows. */
  lemma ResolvedWindowIsListed(time: Option<string>)
    ensures exists w | w in TimeOptions :: ResolveTime(time).earliestTime == "-" + w
  {
    if !(time.Some? && time.value in TimeOptions) {
      assert TimeOptions[1] == "30m" && "-" + "30m" == "-30m";
    }
  }

  // ---------------------------------------------------------------------------
  // The query
  // ---------------------------------------------------------------------------

  const QueryPrefix: string := "search index=sec_net_firewall "

  const TableSuffix: string :=
    "| table _time host src_zone src_interface src_ip user dest_zone dest_interface dest_ip dest_port transport application rule action bytes"

  /** One filter term of the query, in the order the script emits them. */
  datatype Clause =
    | ActionClause(allowed: bool)
    | DestClause(ip: string)
    | SourceClause(ip: string)
    | UserClause(name: string)

  /** The text of a term, with its trailing space. */
  function ClauseText(c: Clause): string
  {
    match c
    case ActionClause(allowed) => if allowed then "action=allowed " else "action!=allowed "
    case DestClause(ip) => "dest_ip=" + ip + " "
    case SourceClause(ip) => "src_ip=" + ip + " "
    case UserClause(name) => "user=*" + name + " "
  }

  /** Position of a kind of term in the emitted order. */
  function Rank(c: Clause): nat
  {
    match c
    case ActionClause(_) => 0
    case DestClause(_) => 1
    case SourceClause(_) => 2
    case UserClause(_) => 3
  }

  /** The terms concatenated. */
  function Render(cs: seq<Clause>): string
  {
    if cs == [] then [] else ClauseText(cs[0]) + Render(cs[1..])
  }

  /**
   * The filter terms the options ask for: an action term always comes first
   * and admits only allowed traffic exactly when `allowed` was given; a
   * destination, source or user term follows for each of those options that
   * is present, in that order, each once.
   */
  function Clauses(args: FwArgs): (cs: seq<Clause>)
    ensures |cs| >= 1 && cs[0] == ActionClause(args.action == Valued("allowed"))
    ensures forall i, j | 0 <= i < j < |cs| :: Rank(cs[i]) < Rank(cs[j])
    ensures forall c | c in cs && c.DestClause? :: args.dest != Absent && c.ip == FlagText(args.dest)
    ensures forall c | c in cs && c.SourceClause? :: args.source != Absent && c.ip == FlagText(args.source)
    ensures forall c | c in cs && c.UserClause? :: args.user != Absent && c.name == FlagText(args.user)
    ensures args.dest != Absent ==> DestClause(FlagText(args.dest)) in cs
    ensures args.source != Absent ==> SourceClause(FlagText(args.source)) in cs
    ensures args.user != Absent ==> UserClause(FlagText(args.user)) in cs
  {
    [ActionClause(args.action == Valued("allowed"))]
      + (if args.dest != Absent then [DestClause(FlagText(args.dest))] else [])
      + (if args.source != Absent then [SourceClause(FlagText(args.source))] else [])
      + (if args.user != Absent then [UserClause(FlagText(args.user))] else [])
  }

  /**
   * What a present filter puts in its term: the value it was given, or the
   * text `None` when it was given bare, as `'{0}'.format(None)` writes it.
   */
  lemma ClauseValues(args: FwArgs)
    ensures args.dest.Valued? ==> DestClause(args.dest.value) in Clauses(args)
    ensures args.source.Valued? ==> SourceClause(args.source.value) in Clauses(args)
    ensures args.user.Valued? ==> UserClause(args.user.value) in Clauses(args)
    ensures args.dest == Bare ==> DestClause("None") in Clauses(args)
    ensures args.source == Bare ==> SourceClause("None") in Clauses(args)
    ensures args.user == Bare ==> UserClause("None") in Clauses(args)
  {
  }

  lemma {:induction false} RenderAppend(a: seq<Clause>, b: seq<Clause>)
    ensures Render(a + b) == Render(a) + Render(b)
  {
    if a == [] {
      assert a + b == b;
    } else {
      assert (a + b)[0] == a[0] && (a + b)[1..] == a[1..] + b;
      RenderAppend(a[1..], b);
    }
  }

  /** The filter terms the script appends to the query one after the other. */
  function Terms(args: FwArgs): string
  {
    (if args.action == Valued("allowed") then "action=allowed " else "action!=allowed ")
    + (if args.dest != Absent then "dest_ip=" + FlagText(args.dest) + " " else "")
    + (if args.source != Absent then "src_ip=" + FlagText(args.source) + " " else "")
    + (if args.user != Absent then "user=*" + FlagText(args.user) + " " else "")
  }

  /**
   * `build_search_query`: the query is the firewall index prefix, the
   * requested filter terms and the table of fifteen columns; the options are
   * the resolved time window.
   */
  function BuildSearchQuery(args: FwArgs): (req: SearchRequest)
    ensures req.options == ResolveTime(args.time)
    ensures req.query == QueryPrefix + Render(Clauses(args)) + TableSuffix
  {
    RenderQuery(args);
    SearchRequest(QueryPrefix + Terms(args) + TableSuffix, ResolveTime(args.time))
  }

  /** The terms appended one after the other are the clause list written out. */
  lemma RenderQuery(args: FwArgs)
    ensures Render(Clauses(args)) == Terms(args)
  {
    var a := [ActionClause(args.action == Valued("allowed"))];
    var d := if args.dest != Absent then [DestClause(FlagText(args.dest))] else [];
    var s := if args.source != Absent then [SourceClause(FlagText(args.source))] else [];
    var u := if args.user != Absent then [UserClause(FlagText(args.user))] else [];
    RenderAppend(a + d + s, u);
    RenderAppend(a + d, s);
    RenderAppend(a, d);
    assert Render(a) == ClauseText(a[0]) + Render([]);
    assert Render(d) == (if args.dest != Absent then "dest_ip=" + FlagText(args.dest) + " " else "") by {
      if d != [] { assert Render(d) == ClauseText(d[0]) + Render([]); }
    }
    assert Render(s) == (if args.source != Absent then "src_ip=" + FlagText(args.source) + " " else "") by {
      if s != [] { assert Render(s) == ClauseText(s[0]) + Render([]); }
    }
    assert Render(u) == (if args.user != Absent then "user=*" + FlagText(args.user) + " " else "") by {
      if u != [] { assert Render(u) == ClauseText(u[0]) + Render([]); }
    }
  }

  /** With no filter options the script searches for everything that was not allowed. */
  lemma DefaultQuery(time: Option<string>)
    ensures BuildSearchQuery(FwArgs(time, Absent, Absent, Absent, Absent)).query ==
      "search index=sec_net_firewall action!=allowed " + TableSuffix
  {
    var args := FwArgs(time, Absent, Absent, Absent, Absent);
    assert Terms(args) == "action!=allowed ";
    assert QueryPrefix + "action!=allowed " == "search index=sec_net_firewall action!=allowed ";
  }

  /** Every option value other than `allowed`, and a bare or missing option alike, excludes allowed traffic. */
  lemma ActionFilter(args: FwArgs)
    ensures var q := BuildSearchQuery(args).query;
      var t := if args.action == Valued("allowed") then "action=allowed " else "action!=allowed ";
      |q| >= |QueryPrefix| + |t| && q[|QueryPrefix|..|QueryPrefix| + |t|] == t
  {
    var cs := Clauses(args);
    RenderAppend([cs[0]], cs[1..]);
    assert [cs[0]] + cs[1..] == cs;
    assert Render([cs[0]]) == ClauseText(cs[0]) + Render([]);
    var t := ClauseText(cs[0]);
    InfixAt(QueryPrefix, t, Render(cs[1..]), TableSuffix);
  }

  // ---------------------------------------------------------------------------
  // Deduplication
  // ---------------------------------------------------------------------------

  /**
   * `z[2] + z[5] + z[6] + z[12]` for `z = tuple(sorted(r.items()))`: four
   * `(name, value)` pairs, or None where indexing raises IndexError.
   */
  function FirewallKey(r: Record): (key: Option<seq<Item>>)
    ensures key.Some? <==> |r| >= 13
    ensures key.Some? ==> |key.value| == 4
  {
    var z := SortedItems(r);
    if |z| > 12 then Some([z[2], z[5], z[6], z[12]]) else None
  }

  /** `dedupe_firewall_logs`. */
  method DedupeFirewallLogs(logs: seq<Record>) returns (result: Result<seq<Record>, DedupeError>)
    ensures result == Dedupe(logs, AnyRecord, FirewallKey)
  {
    result := DedupeLogs(logs, AnyRecord, FirewallKey);
  }

  /** The script fails with IndexError exactly when some log has fewer than 13 fields. */
  lemma FirewallDedupeFails(logs: seq<Record>)
    ensures Dedupe(logs, AnyRecord, FirewallKey).Failure? <==> exists i | 0 <= i < |logs| :: |logs[i]| < 13
  {
    if Dedupe(logs, AnyRecord, FirewallKey).Failure? {
      var i :| 0 <= i < |logs| && AnyRecord(logs[i]) && FirewallKey(logs[i]).None?;
      assert |logs[i]| < 13;
    }
    if exists i | 0 <= i < |logs| :: |logs[i]| < 13 {
      var i :| 0 <= i < |logs| && |logs[i]| < 13;
      assert AnyRecord(logs[i]) && FirewallKey(logs[i]).None?;
    }
  }

  /** The fifteen table columns, in the order `sorted` lists them. */
  const SortedLogKeys: seq<string> := [
    "_time", "action", "application", "bytes", "dest_interface", "dest_ip", "dest_port",
    "dest_zone", "host", "rule", "src_interface", "src_ip", "src_zone", "transport", "user"
  ]

  lemma SortedLogKeysAscending()
    ensures Ascending(SortedLogKeys)
  {
    var s := SortedLogKeys;
    forall i | 0 <= i < |s| - 1
      ensures Less(s[i], s[i + 1])
    {
      if i == 0 { LessAt(s[0], s[1], 0); }
      else if i == 1 { LessAt(s[1], s[2], 1); }
      else if i == 2 { LessAt(s[2], s[3], 0); }
      else if i == 3 { LessAt(s[3], s[4], 0); }
      else if i == 4 { LessAt(s[4], s[5], 6); }
      else if i == 5 { LessAt(s[5], s[6], 5); }
      else if i == 6 { LessAt(s[6], s[7], 5); }
      else if i == 7 { LessAt(s[7], s[8], 0); }
      else if i == 8 { LessAt(s[8], s[9], 0); }
      else if i == 9 { LessAt(s[9], s[10], 0); }
      else if i == 10 { LessAt(s[10], s[11], 5); }
      else if i == 11 { LessAt(s[11], s[12], 4); }
      else if i == 12 { LessAt(s[12], s[13], 0); }
      else { LessAt(s[13], s[14], 0); }
    }
    AscendingFromAdjacent(s);
  }

  /** The table columns and their sorted listing name the same fields. */
  lemma SortedLogKeysAreLogKeys()
    ensures forall f :: f in LogKeys <==> f in SortedLogKeys
  {
    forall f
      ensures f in LogKeys <==> f in SortedLogKeys
    {
      if f in LogKeys {
        var i :| 0 <= i < |LogKeys| && LogKeys[i] == f;
        assert f in SortedLogKeys;
      }
      if f in SortedLogKeys {
        var i :| 0 <= i < |SortedLogKeys| && SortedLogKeys[i] == f;
        assert f in LogKeys;
      }
    }
  }

  /** The sorted items of a full log follow the sorted column listing. */
  lemma FullLogItems(r: Record)
    requires HasExactly(r, LogKeys)
    ensures |SortedItems(r)| == |SortedLogKeys|
    ensures forall i | 0 <= i < |SortedLogKeys| ::
      SortedLogKeys[i] in r && SortedItems(r)[i] == (SortedLogKeys[i], r[SortedLogKeys[i]])
  {
    SortedLogKeysAscending();
    SortedLogKeysAreLogKeys();
    ItemsOfExactFields(r, LogKeys, SortedLogKeys);
  }

  lemma FirewallKeyOfSortedColumns(r: Record)
    requires HasExactly(r, LogKeys)
    ensures var s := SortedLogKeys;
      && s[2] in r && s[5] in r && s[6] in r && s[12] in r
      && FirewallKey(r) == Some([(s[2], r[s[2]]), (s[5], r[s[5]]), (s[6], r[s[6]]), (s[12], r[s[12]])])
  {
    FullLogItems(r);
  }

  lemma FirewallKeyFieldNames()
    ensures SortedLogKeys[2] == "application" && SortedLogKeys[5] == "dest_ip"
    ensures SortedLogKeys[6] == "dest_port" && SortedLogKeys[12] == "src_zone"
  {
  }

  /**
   * On a log carrying exactly the fifteen table columns, the key is its
   * application, destination address, destination port and source zone.
   */
  lemma FirewallKeyOfFullLog(r: Record)
    requires HasExactly(r, LogKeys)
    ensures FirewallKey(r) == Some([
      ("application", r["application"]), ("dest_ip", r["dest_ip"]),
      ("dest_port", r["dest_port"]), ("src_zone", r["src_zone"])])
  {
    FirewallKeyOfSortedColumns(r);
    FirewallKeyFieldNames();
  }

  /**
   * The key does not look at the source address: two full logs that differ
   * only in `src_ip` count as duplicates.
   */
  lemma FirewallKeyIgnoresSourceAddress(r: Record, ip: string)
    requires HasExactly(r, LogKeys)
    ensures FirewallKey(r["src_ip" := ip]) == FirewallKey(r)
  {
    FirewallKeyOfFullLog(r);
    FirewallKeyOfFullLog(r["src_ip" := ip]);
  }

  // ---------------------------------------------------------------------------
  // Placeholders and table rows
  // ---------------------------------------------------------------------------

  /** The columns both tables fill, in display order. */
  const LogKeys: seq<string> := [
    "_time", "host", "src_zone", "src_interface", "src_ip", "user",
    "dest_zone", "dest_interface", "dest_ip", "dest_port", "transport", "application",
    "rule", "action", "bytes"
  ]

  const Placeholder: string := "Missing."

  /** A log after filling: every column present, existing values kept, new ones the placeholder. */
  function WithPlaceholders(r: Record): (u: Record)
    ensures forall k | k in LogKeys :: k in u
    ensures forall k | k in r :: k in u && u[k] == r[k]
    ensures forall k | k in u && k !in r :: k in LogKeys && u[k] == Placeholder
  {
    map k | k in r.Keys + (set c | c in LogKeys) :: if k in r then r[k] else Placeholder
  }

  /** The nested fill loops: each log gains a placeholder for every column it lacks. */
  method FillPlaceholders(logs: array<Record>)
    modifies logs
    ensures forall i | 0 <= i < logs.Length :: logs[i] == WithPlaceholders(old(logs[i]))
  {
    for i := 0 to logs.Length
      invariant forall j | 0 <= j < i :: logs[j] == WithPlaceholders(old(logs[j]))
      invariant forall j | i <= j < logs.Length :: logs[j] == old(logs[j])
    {
      ghost var r := logs[i];
      for n := 0 to |LogKeys|
        invariant forall j | 0 <= j < i :: logs[j] == WithPlaceholders(old(logs[j]))
        invariant forall j | i < j < logs.Length :: logs[j] == old(logs[j])
        invariant forall k :: k in logs[i] <==> k in r || k in LogKeys[..n]
        invariant forall k | k in logs[i] :: logs[i][k] == if k in r then r[k] else Placeholder
      {
        var key := LogKeys[n];
        if key !in logs[i] {
          logs[i] := logs[i][key := Placeholder];
        }
        assert LogKeys[..n + 1] == LogKeys[..n] + [key];
      }
      assert LogKeys[..|LogKeys|] == LogKeys;
      assert logs[i] == WithPlaceholders(r);
    }
  }

  /** Filling twice changes nothing more. */
  lemma WithPlaceholdersIdempotent(r: Record)
    ensures WithPlaceholders(WithPlaceholders(r)) == WithPlaceholders(r)
  {
  }

  /** `t.split('.')[0]`: the time shown, up to its first `.`. */
  function DisplayTime(time: string): (shown: string)
    ensures |shown| <= |time| && shown == time[..|shown|]
    ensures SeparatorFree(shown, '.')
    ensures |shown| == |time| || time[|shown|] == '.'
  {
    SplitHead(time, '.');
    Split(time, '.')[0]
  }

  /** When `time` has a `.`, the time shown is what precedes the first one. */
  lemma DisplayTimeCutsAtFirstDot(time: string, k: nat)
    requires k < |time| && time[k] == '.' && SeparatorFree(time[..k], '.')
    ensures DisplayTime(time) == time[..k]
  {
  }

  /** A time without `.` is shown whole. */
  lemma DisplayTimeWithoutDot(time: string)
    requires SeparatorFree(time, '.')
    ensures DisplayTime(time) == time
  {
  }

  /** Fractional seconds are cut off. */
  lemma DisplayTimeDropsFraction()
    ensures DisplayTime("10:11:12.000") == "10:11:12"
  {
    DisplayTimeCutsAtFirstDot("10:11:12.000", 8);
  }

  /** A filled-in time loses the full stop of the placeholder. */
  lemma DisplayTimeOfPlaceholder()
    ensures DisplayTime(Placeholder) == "Missing"
  {
    DisplayTimeCutsAtFirstDot(Placeholder, 7);
  }

  /** A log that has every column. */
  predicate Filled(u: Record)
  {
    forall k | k in LogKeys :: k in u
  }

  /** The row of the full table: every column, in `LogKeys` order, with the time shortened. */
  function FullRow(u: Record): (row: seq<string>)
    requires Filled(u)
    ensures |row| == |LogKeys| && row[0] == DisplayTime(u["_time"])
  {
    [DisplayTime(u["_time"]), u["host"],
     u["src_zone"], u["src_interface"], u["src_ip"], u["user"], u["dest_zone"],
     u["dest_interface"], u["dest_ip"], u["dest_port"], u["transport"],
     u["application"], u["rule"], u["action"], u["bytes"]]
  }

  /** The full table lists the columns in `LogKeys` order. */
  lemma FullRowFollowsLogKeys(u: Record)
    requires Filled(u)
    ensures forall i | 1 <= i < |LogKeys| :: FullRow(u)[i] == u[LogKeys[i]]
  {
  }

  /** The columns of the short table. */
  const ShortKeys: seq<string> := ["_time", "host", "src_ip", "dest_ip", "dest_port", "application", "action"]

  /** The row of the short table: seven of the columns, with the time shortened. */
  function ShortRow(u: Record): (row: seq<string>)
    requires Filled(u)
    ensures |row| == |ShortKeys| && row[0] == DisplayTime(u["_time"])
    ensures forall i | 1 <= i < |row| :: ShortKeys[i] in LogKeys && row[i] == u[ShortKeys[i]]
  {
    [DisplayTime(u["_time"]), u["host"],
     u["src_ip"], u["dest_ip"], u["dest_port"], u["application"], u["action"]]
  }

  /** One row per log. */
  function Rows(logs: seq<Record>, full: bool): (rows: seq<seq<string>>)
    requires forall i | 0 <= i < |logs| :: Filled(logs[i])
    ensures |rows| == |logs|
    ensures forall i | 0 <= i < |logs| :: rows[i] == (if full then FullRow(logs[i]) else ShortRow(logs[i]))
  {
    seq(|logs|, i requires 0 <= i < |logs| => if full then FullRow(logs[i]) else ShortRow(logs[i]))
  }

  /**
   * `full_log_output` (`full`) and `short_log_output`: no table for no logs;
   * otherwise every log is filled in place and gives one row.
   */
  method LogOutput(logs: array<Record>, full: bool) returns (table: Option<seq<seq<string>>>)
    modifies logs
    ensures logs.Length == 0 ==> table == None
    ensures logs.Length > 0 ==>
      && (forall i | 0 <= i < logs.Length :: logs[i] == WithPlaceholders(old(logs[i])))
      && table == Some(Rows(logs[..], full))
  {
    if logs.Length == 0 {
      return None;
    }
    FillPlaceholders(logs);
    table := Some(Rows(logs[..], full));
  }
}
