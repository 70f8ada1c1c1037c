/**
 * The DHCP search script: it looks a string up in two DHCP log sources, each
 * of which spells MAC addresses its own way. Schema A (Windows DHCP) writes
 * twelve upper-case hex digits with no punctuation; schema B (the firewall's
 * DHCP log) writes lower-case pairs joined by `:`. Each source gets its own
 * query, and its results are deduplicated on a field of its own.
 */
module SearchDhcp {
  import opened Wrappers
  import opened Text
  import opened Records
  import opened Search
  import opened FirstSeen

  /** The punctuation `re.sub('[.:-]', '', ...)` deletes. */
  const MacSeparators: set<char> := {'.', ':', '-'}

  lemma SeparatorsAreNotLetters()
    ensures NoLetters(MacSeparators) && NoLetters(Whitespace)
  {
  }

  // ---------------------------------------------------------------------------
  // Schema A: format_mac_windhcp
  // ---------------------------------------------------------------------------

  /**
   * `format_mac_windhcp`: the input with separators and whitespace deleted
   * and its letters upper-cased.
   */
  function FormatMacWindhcp(mac: string): (r: string)
    ensures |r| <= |mac|
    ensures forall i | 0 <= i < |r| :: r[i] !in MacSeparators && r[i] !in Whitespace && !IsAsciiLower(r[i])
  {
    var r := Without(Upper(Without(mac, MacSeparators)), Whitespace);
    assert forall i | 0 <= i < |r| :: r[i] !in MacSeparators by {
      var u := Upper(Without(mac, MacSeparators));
      forall i | 0 <= i < |r|
        ensures r[i] !in MacSeparators
      {
        var j :| 0 <= j < |u| && u[j] == r[i];
      }
    }
    r
  }

  /** Formatting an already formatted address changes nothing. */
  lemma WindhcpIdempotent(mac: string)
    ensures FormatMacWindhcp(FormatMacWindhcp(mac)) == FormatMacWindhcp(mac)
  {
    var r := FormatMacWindhcp(mac);
    WithoutNothingToDrop(r, MacSeparators);
    UpperIdentity(r);
    WithoutNothingToDrop(r, Whitespace);
  }

  /** Formatting spelled out as the schema A form: the digits of the input, upper-cased. */
  lemma WindhcpIsUpperDigits(mac: string)
    ensures FormatMacWindhcp(mac) == Upper(Without(Without(mac, MacSeparators), Whitespace))
  {
    UpperWithout(Without(mac, MacSeparators), Whitespace);
  }

  // ---------------------------------------------------------------------------
  // Schema B: format_mac_padhcp
  // ---------------------------------------------------------------------------

  /** The string `format_mac_padhcp` tests and splits: separators and whitespace deleted, letters lower-cased. */
  function PadhcpDigits(mac: string): (t: string)
    ensures |t| <= |mac|
    ensures forall i | 0 <= i < |t| :: t[i] !in MacSeparators && t[i] !in Whitespace && !IsAsciiUpper(t[i])
  {
    var t := Without(Lower(Without(mac, MacSeparators)), Whitespace);
    assert forall i | 0 <= i < |t| :: t[i] !in MacSeparators by {
      var l := Lower(Without(mac, MacSeparators));
      forall i | 0 <= i < |t|
        ensures t[i] !in MacSeparators
      {
        var j :| 0 <= j < |l| && l[j] == t[i];
      }
    }
    t
  }

  /** End of the chunk that starts at `2 * k`. */
  function PairEnd(t: string, k: nat): nat
  {
    if 2 * k + 2 <= |t| then 2 * k + 2 else |t|
  }

  /** `[t[i:i+2] for i in range(0, len(t), 2)]`. */
  function Pairs(t: string): (parts: seq<string>)
    ensures |parts| == (|t| + 1) / 2
  {
    seq((|t| + 1) / 2, k requires 0 <= k < (|t| + 1) / 2 => t[2 * k .. PairEnd(t, k)])
  }

  /** Every chunk but the last has two characters; the last has one when the length is odd. */
  lemma PairsLengths(t: string)
    requires |t| > 0
    ensures forall k | 0 <= k < |Pairs(t)| - 1 :: |Pairs(t)[k]| == 2
    ensures |Pairs(t)[|Pairs(t)| - 1]| == 2 - |t| % 2
  {
  }

  lemma PairsCons(t: string)
    requires |t| > 2
    ensures Pairs(t) == [t[..2]] + Pairs(t[2..])
  {
    var p, q := Pairs(t), Pairs(t[2..]);
    assert |p| == 1 + |q|;
    forall k | 0 <= k < |q|
      ensures p[k + 1] == q[k]
    {
      var e := PairEnd(t[2..], k);
      assert PairEnd(t, k + 1) == e + 2;
      assert |p[k + 1]| == |q[k]|;
      forall i | 0 <= i < |q[k]|
        ensures p[k + 1][i] == q[k][i]
      {
        assert p[k + 1][i] == t[2 * k + 2 + i];
        assert q[k][i] == t[2..][2 * k + i];
      }
    }
    assert p == [t[..2]] + q;
  }

  /** The chunks put back together are the string. */
  lemma {:induction false} PairsConcat(t: string)
    ensures Concat(Pairs(t)) == t
    decreases |t|
  {
    if |t| == 0 {
    } else if |t| <= 2 {
      assert t[0..PairEnd(t, 0)] == t;
      assert Pairs(t) == [t];
      assert Concat([t]) == t + Concat([]);
    } else {
      PairsCons(t);
      PairsConcat(t[2..]);
      assert t[..2] + t[2..] == t;
    }
  }

  /** No chunk holds a character the string does not. */
  lemma PairsChars(t: string, drop: set<char>)
    requires forall i | 0 <= i < |t| :: t[i] !in drop
    ensures forall k, i | 0 <= k < |Pairs(t)| && 0 <= i < |Pairs(t)[k]| :: Pairs(t)[k][i] !in drop
  {
    forall k, i | 0 <= k < |Pairs(t)| && 0 <= i < |Pairs(t)[k]|
      ensures Pairs(t)[k][i] !in drop
    {
      assert Pairs(t)[k][i] == t[2 * k + i];
    }
  }

  /**
   * `format_mac_padhcp`: None (the failed assertion) unless the remaining
   * characters are letters and digits, at least one of them; otherwise
   * those characters in chunks of two joined by `:`.
   */
  function FormatMacPadhcp(mac: string): (r: Option<string>)
    ensures r.Some? <==> IsAlnum(PadhcpDigits(mac))
  {
    var t := PadhcpDigits(mac);
    if IsAlnum(t) then Some(Join(Pairs(t), ':')) else None
  }

  /** Deleting the colons from the schema B form gives back the digits. */
  lemma PadhcpRoundTrip(mac: string)
    requires FormatMacPadhcp(mac).Some?
    ensures Without(FormatMacPadhcp(mac).value, {':'}) == PadhcpDigits(mac)
  {
    var t := PadhcpDigits(mac);
    PairsChars(t, {':'});
    WithoutJoin(Pairs(t), ':', {':'});
    PairsConcat(t);
  }

  /**
   * The groups between colons are the chunks of the digits: two characters
   * each, except a last group of one when the number of digits is odd.
   */
  lemma PadhcpGroups(mac: string)
    requires FormatMacPadhcp(mac).Some?
    ensures var t := PadhcpDigits(mac);
      var groups := Split(FormatMacPadhcp(mac).value, ':');
      && groups == Pairs(t)
      && (forall k | 0 <= k < |groups| - 1 :: |groups[k]| == 2)
      && |groups[|groups| - 1]| == 2 - |t| % 2
  {
    var t := PadhcpDigits(mac);
    PairsChars(t, {':'});
    forall k | 0 <= k < |Pairs(t)|
      ensures SeparatorFree(Pairs(t)[k], ':')
    {
    }
    SplitJoin(Pairs(t), ':');
    PairsLengths(t);
  }

  /** `n` digits are written with ceil(n / 2) - 1 colons. */
  lemma PadhcpColonCount(mac: string)
    requires FormatMacPadhcp(mac).Some?
    ensures Count(FormatMacPadhcp(mac).value, ':') == (|PadhcpDigits(mac)| + 1) / 2 - 1
  {
    PadhcpGroups(mac);
    SplitCount(FormatMacPadhcp(mac).value, ':');
  }

  /** Formatting an already formatted address gives it back. */
  lemma PadhcpIdempotent(mac: string)
    requires FormatMacPadhcp(mac).Some?
    ensures FormatMacPadhcp(FormatMacPadhcp(mac).value) == FormatMacPadhcp(mac)
  {
    var r := FormatMacPadhcp(mac).value;
    var t := PadhcpDigits(mac);
    // Stripping the formatted address again deletes just its colons ...
    PairsChars(t, MacSeparators);
    WithoutJoin(Pairs(t), ':', MacSeparators);
    PairsConcat(t);
    // ... and leaves digits that lower-casing and whitespace removal keep as they are.
    LowerIdentity(t);
    WithoutNothingToDrop(t, Whitespace);
    assert PadhcpDigits(r) == t;
  }

  /**
   * The two schemas name the same address: upper-casing the schema B digits
   * gives the schema A form of the same input.
   */
  lemma SchemasAgree(mac: string)
    ensures FormatMacWindhcp(mac) == Upper(PadhcpDigits(mac))
  {
    SeparatorsAreNotLetters();
    var w := Without(mac, MacSeparators);
    LowerWithout(w, Whitespace);
    UpperOfLower(Without(w, Whitespace));
    WindhcpIsUpperDigits(mac);
  }

  /** A kept character survives deletion. */
  lemma {:induction false} WithoutKeeps(s: string, drop: set<char>, i: nat)
    requires i < |s| && s[i] !in drop
    ensures s[i] in Without(s, drop)
  {
    if i > 0 {
      WithoutKeeps(s[1..], drop, i - 1);
    }
  }

  /**
   * Any character other than a letter, a digit, a separator or whitespace
   * makes the schema B formatter give up.
   */
  lemma PadhcpRejectsStrayCharacter(mac: string, i: nat)
    requires i < |mac| && !IsAsciiAlnum(mac[i]) && mac[i] !in MacSeparators && mac[i] !in Whitespace
    ensures FormatMacPadhcp(mac).None?
  {
    var w := Without(mac, MacSeparators);
    WithoutKeeps(mac, MacSeparators, i);
    var j :| 0 <= j < |w| && w[j] == mac[i];
    assert Lower(w)[j] == mac[i];
    WithoutKeeps(Lower(w), Whitespace, j);
  }

  /** Nothing but separators and whitespace (the empty string included) is not an address either. */
  lemma PadhcpRejectsEmpty(mac: string)
    requires forall i | 0 <= i < |mac| :: mac[i] in MacSeparators || mac[i] in Whitespace
    ensures FormatMacPadhcp(mac).None?
  {
    var w := Without(mac, MacSeparators);
    assert forall i | 0 <= i < |w| :: w[i] in Whitespace;
    SeparatorsAreNotLetters();
    LowerIdentity(w);
    WithoutEverything(w, Whitespace);
  }

  // ---------------------------------------------------------------------------
  // Queries
  // ---------------------------------------------------------------------------

  /**
   * The Windows DHCP query with its two format arguments filled in: `q`
   * searched in the description, dest and dest_ip columns, `mac` in the mac
   * column.
   */
  function WindhcpQuery(q: string, mac: string): string
  {
    "search index=ops_app_dhcp signature!=\"DNS*\" (description=*" + q + "* OR dest=*" + q
      + "* OR dest_ip=*" + q + "* OR mac=*" + mac
      + "* )| table date time description dest dest_ip mac signature host"
  }

  /**
   * `query_windhcp` up to the job: an IP address is searched as it is in
   * every column; any other string is searched in the mac column in its
   * schema A spelling.
   */
  function QueryWindhcp(query: string, isIp: bool): (req: SearchRequest)
    ensures req.options == Last72Hours
    ensures isIp ==> req.query == WindhcpQuery(query, query)
    ensures !isIp ==> req.query == WindhcpQuery(query, FormatMacWindhcp(query))
  {
    var mac := if isIp then query else FormatMacWindhcp(query);
    SearchRequest(WindhcpQuery(query, mac), Last72Hours)
  }

  /** The firewall DHCP query with its two format arguments filled in; both are searched in the description. */
  function PadhcpQuery(q: string, mac: string): string
  {
    "search index=sec_net_firewall sourcetype=\"pan:system\" log_subtype=dhcp (description=*" + q
      + "* OR description=*" + mac + "*)| table generated_time dvc_name description"
  }

  /** What `'{1}'.format(mac)` writes: the string, or `None` when the formatter returned None. */
  function Shown(mac: Option<string>): string
  {
    match mac
    case Some(s) => s
    case None => "None"
  }

  /**
   * `query_padhcp` up to the job: an IP address is searched as it is; any
   * other string is searched in its schema B spelling, and when it has none
   * the second alternative searches for the text `None`.
   */
  function QueryPadhcp(query: string, isIp: bool): (req: SearchRequest)
    ensures req.options == Last72Hours
    ensures isIp ==> req.query == PadhcpQuery(query, query)
    ensures !isIp && FormatMacPadhcp(query).Some? ==> req.query == PadhcpQuery(query, FormatMacPadhcp(query).value)
    ensures !isIp && FormatMacPadhcp(query).None? ==> req.query == PadhcpQuery(query, "None")
  {
    var mac := if isIp then query else Shown(FormatMacPadhcp(query));
    SearchRequest(PadhcpQuery(query, mac), Last72Hours)
  }

  // ---------------------------------------------------------------------------
  // Deduplication
  // ---------------------------------------------------------------------------

  /** The field test of `dedupe_windhcp_logs`. */
  predicate HasMac(r: Record) { "mac" in r }

  /** `tuple(sorted(x.items()))[5]`, or None where that raises IndexError. */
  function WindhcpKey(r: Record): (key: Option<Item>)
    ensures key.Some? <==> |r| > 5
  {
    var z := SortedItems(r);
    if |z| > 5 then Some(z[5]) else None
  }

  /** `dedupe_windhcp_logs`. */
  method DedupeWindhcpLogs(logs: seq<Record>) returns (result: Result<seq<Record>, DedupeError>)
    ensures result == Dedupe(logs, HasMac, WindhcpKey)
  {
    result := DedupeLogs(logs, HasMac, WindhcpKey);
  }

  /** Logs without a mac field are never kept; a log with one but at most five fields raises IndexError. */
  lemma WindhcpDedupe(logs: seq<Record>)
    ensures Dedupe(logs, HasMac, WindhcpKey).Failure? <==>
      exists i | 0 <= i < |logs| :: "mac" in logs[i] && |logs[i]| <= 5
    ensures Dedupe(logs, HasMac, WindhcpKey).Success? ==>
      forall k | 0 <= k < |Dedupe(logs, HasMac, WindhcpKey).value| :: "mac" in Dedupe(logs, HasMac, WindhcpKey).value[k]
  {
    if Dedupe(logs, HasMac, WindhcpKey).Success? {
      DedupeKeysDistinct(logs, HasMac, WindhcpKey);
    }
  }

  /** The columns the Windows DHCP query asks for, in the order `sorted` lists them. */
  const WindhcpColumns: seq<string> := ["date", "time", "description", "dest", "dest_ip", "mac", "signature", "host"]

  const SortedWindhcpColumns: seq<string> := ["date", "description", "dest", "dest_ip", "host", "mac", "signature", "time"]

  lemma SortedWindhcpColumnsAscending()
    ensures Ascending(SortedWindhcpColumns)
    ensures forall f :: f in WindhcpColumns <==> f in SortedWindhcpColumns
  {
    var s := SortedWindhcpColumns;
    forall i | 0 <= i < |s| - 1
      ensures Less(s[i], s[i + 1])
    {
      if i == 0 { LessAt(s[0], s[1], 1); }
      else if i == 1 { LessAt(s[1], s[2], 3); }
      else if i == 2 { LessAt(s[2], s[3], 4); }
      else { LessAt(s[i], s[i + 1], 0); }
    }
    AscendingFromAdjacent(s);
  }

  /** On a log with exactly the queried columns, the key is its mac field. */
  lemma WindhcpKeyOfFullLog(r: Record)
    requires HasExactly(r, WindhcpColumns)
    ensures WindhcpKey(r) == Some(("mac", r["mac"]))
  {
    SortedWindhcpColumnsAscending();
    ItemsOfExactFields(r, WindhcpColumns, SortedWindhcpColumns);
  }

  /** The firewall DHCP dedupe considers every log. */
  function PadhcpKey(r: Record): (key: Option<Item>)
    ensures key.Some? <==> |r| > 0
  {
    var z := SortedItems(r);
    if |z| > 0 then Some(z[0]) else None
  }

  /** `dedupe_padhcp_logs`. */
  method DedupePadhcpLogs(logs: seq<Record>) returns (result: Result<seq<Record>, DedupeError>)
    ensures result == Dedupe(logs, AnyRecord, PadhcpKey)
  {
    result := DedupeLogs(logs, AnyRecord, PadhcpKey);
  }

  /** The firewall DHCP dedupe raises IndexError exactly when some log is empty. */
  lemma PadhcpDedupeFails(logs: seq<Record>)
    ensures Dedupe(logs, AnyRecord, PadhcpKey).Failure? <==> exists i | 0 <= i < |logs| :: logs[i] == map[]
  {
    if Dedupe(logs, AnyRecord, PadhcpKey).Failure? {
      var i :| 0 <= i < |logs| && AnyRecord(logs[i]) && PadhcpKey(logs[i]).None?;
      assert logs[i] == map[];
    }
    if exists i | 0 <= i < |logs| :: logs[i] == map[] {
      var i :| 0 <= i < |logs| && logs[i] == map[];
      assert AnyRecord(logs[i]) && PadhcpKey(logs[i]).None?;
    }
  }

  /** The columns the firewall DHCP query asks for, and their sorted listing. */
  const PadhcpColumns: seq<string> := ["generated_time", "dvc_name", "description"]

  const SortedPadhcpColumns: seq<string> := ["description", "dvc_name", "generated_time"]

  /** On a log with exactly the queried columns, the key is its description. */
  lemma PadhcpKeyOfFullLog(r: Record)
    requires HasExactly(r, PadhcpColumns)
    ensures PadhcpKey(r) == Some(("description", r["description"]))
  {
    var s := SortedPadhcpColumns;
    LessAt(s[0], s[1], 1);
    LessAt(s[1], s[2], 0);
    AscendingFromAdjacent(s);
    ItemsOfExactFields(r, PadhcpColumns, s);
  }
}
