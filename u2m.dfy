/**
 * The user-to-machine script: which hosts a Windows user logged on to. It
 * searches the Windows logon events of one user and keeps one result per
 * host.
 */
module UserToMachine {
  import opened Wrappers
  import opened Records
  import opened Search
  import opened FirstSeen

  // ---------------------------------------------------------------------------
  // Query
  // ---------------------------------------------------------------------------

  /** The text of the logon query before the user name. */
  const WinUsersPrefix: string := "search index=my_relevant_windows_index user="

  /** The text of the logon query after the user name: successful logons, as a three-column table. */
  const WinUsersSuffix: string := " EventCode=4624 app=\"win:local\" | table host EventCode user"

  /**
   * `query_win_users` up to the job: the user name is put between the fixed
   * prefix and suffix as it is (nothing is quoted or escaped), and the search
   * covers the last 72 hours.
   */
  function QueryWinUsers(user: string): (req: SearchRequest)
    ensures req.options == Last72Hours
    ensures |req.query| == |WinUsersPrefix| + |user| + |WinUsersSuffix|
    ensures req.query[..|WinUsersPrefix|] == WinUsersPrefix
    ensures req.query[|WinUsersPrefix|..|WinUsersPrefix| + |user|] == user
    ensures req.query[|WinUsersPrefix| + |user|..] == WinUsersSuffix
  {
    SearchRequest(WinUsersPrefix + user + WinUsersSuffix, Last72Hours)
  }

  /** The user name inside a logon query, when the query has the fixed prefix and suffix. */
  function UserOfQuery(query: string): (user: Option<string>)
    ensures user.Some? ==> QueryWinUsers(user.value).query == query
  {
    var n := |WinUsersPrefix| + |WinUsersSuffix|;
    if n <= |query| && query[..|WinUsersPrefix|] == WinUsersPrefix && query[|query| - |WinUsersSuffix|..] == WinUsersSuffix then
      var user := query[|WinUsersPrefix|..|query| - |WinUsersSuffix|];
      assert query == query[..|WinUsersPrefix|] + user + query[|query| - |WinUsersSuffix|..];
      Some(user)
    else
      None
  }

  /** The user name can be read back from the query built for it. */
  lemma UserOfQueryBuilt(user: string)
    ensures UserOfQuery(QueryWinUsers(user).query) == Some(user)
  {
    var q := QueryWinUsers(user).query;
    assert q[|q| - |WinUsersSuffix|..] == WinUsersSuffix;
  }

  /** Different user names give different queries. */
  lemma QueryWinUsersInjective(u1: string, u2: string)
    requires QueryWinUsers(u1) == QueryWinUsers(u2)
    ensures u1 == u2
  {
    UserOfQueryBuilt(u1);
    UserOfQueryBuilt(u2);
  }

  // ---------------------------------------------------------------------------
  // Deduplication
  // ---------------------------------------------------------------------------

  /** The field test of `dedupe_win_logs`. */
  predicate HasHost(r: Record) { "host" in r }

  /** `tuple(sorted(x.items()))[1]`, or None where that raises IndexError. */
  function WinKey(r: Record): (key: Option<Item>)
    ensures key.Some? <==> |r| > 1
  {
    var z := SortedItems(r);
    if |z| > 1 then Some(z[1]) else None
  }

  /** `dedupe_win_logs`. */
  method DedupeWinLogs(logs: seq<Record>) returns (result: Result<seq<Record>, DedupeError>)
    ensures result == Dedupe(logs, HasHost, WinKey)
  {
    result := DedupeLogs(logs, HasHost, WinKey);
  }

  /** The dedupe raises IndexError exactly when some log has a host field and no other field. */
  lemma WinDedupeFails(logs: seq<Record>)
    ensures Dedupe(logs, HasHost, WinKey).Failure? <==>
      exists i | 0 <= i < |logs| :: logs[i].Keys == {"host"}
  {
    if Dedupe(logs, HasHost, WinKey).Failure? {
      var i :| 0 <= i < |logs| && HasHost(logs[i]) && WinKey(logs[i]).None?;
      assert |logs[i].Keys| <= 1;
    }
    if exists i | 0 <= i < |logs| :: logs[i].Keys == {"host"} {
      var i :| 0 <= i < |logs| && logs[i].Keys == {"host"};
      assert |logs[i]| == |logs[i].Keys| == 1;
      assert HasHost(logs[i]) && WinKey(logs[i]).None?;
    }
  }

  /**
   * When the dedupe succeeds, the kept logs all have a host, no two share a
   * key, they are the input with some logs deleted, and deduplicating them
   * again keeps them all.
   */
  lemma WinDedupeKeeps(logs: seq<Record>)
    requires Dedupe(logs, HasHost, WinKey).Success?
    ensures var out := Dedupe(logs, HasHost, WinKey).value;
      && (forall k | 0 <= k < |out| :: "host" in out[k])
      && (forall k, l | 0 <= k < l < |out| :: WinKey(out[k]) != WinKey(out[l]))
      && IsSubsequence(out, logs)
      && Dedupe(out, HasHost, WinKey) == Success(out)
  {
    DedupeKeysDistinct(logs, HasHost, WinKey);
    DedupeIsSubsequence(logs, HasHost, WinKey);
    DedupeIdempotent(logs, HasHost, WinKey);
  }

  /** The columns the logon query asks for, and their sorted listing. */
  const WinColumns: seq<string> := ["host", "EventCode", "user"]

  const SortedWinColumns: seq<string> := ["EventCode", "host", "user"]

  /** On a log with exactly the queried columns, the key is its host. */
  lemma WinKeyOfFullLog(r: Record)
    requires HasExactly(r, WinColumns)
    ensures WinKey(r) == Some(("host", r["host"]))
  {
    var s := SortedWinColumns;
    Text.LessAt(s[0], s[1], 0);
    Text.LessAt(s[1], s[2], 0);
    AscendingFromAdjacent(s);
    ItemsOfExactFields(r, WinColumns, s);
  }
}
