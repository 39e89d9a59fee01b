/** The per-timestamp issue log (eventLog.py). The log is a table with one
    `Flag` column keyed by timestamp; here it is a map from timestamp to the
    flag text. */
module EventLogs {
  import opened Text

  /** The text recorded for one issue: `f'{Issue}:{Record}'`. */
  function IssueText(issue: string, record: string): (f: string)
    ensures StartsWith(f, issue) && EndsWith(f, record) && |f| == |issue| + 1 + |record|
    ensures f[|issue|] == ':'
  {
    issue + ":" + record
  }

  const NoIssues: string := "No Issues"

  /** The log after `errorLog`: a timestamp already present has `|flag`
      appended to its entry; a new timestamp gets the flag alone. */
  function Logged(log: map<int, string>, t: int, flag: string): (r: map<int, string>)
    ensures r.Keys == log.Keys + {t}
    ensures forall u :: u in log && u != t ==> r[u] == log[u]
    ensures EndsWith(r[t], flag)
    ensures t in log ==> StartsWith(r[t], log[t] + "|")
  {
    if t in log then log[t := log[t] + "|" + flag] else log[t := flag]
  }

  /** The log after `cleanLog`: `No Issues` is written only where nothing is logged. */
  function Cleaned(log: map<int, string>, t: int): (r: map<int, string>)
    ensures r.Keys == log.Keys + {t}
    ensures forall u :: u in log ==> r[u] == log[u]
    ensures t !in log ==> r[t] == NoIssues
  {
    if t in log then log else log[t := NoIssues]
  }

  /** The log after logging each of `flags`, in order, at the same timestamp. */
  function LoggedAll(log: map<int, string>, t: int, flags: seq<string>): map<int, string>
    decreases |flags|
  {
    if flags == [] then log else LoggedAll(Logged(log, t, flags[0]), t, flags[1..])
  }

  /** Logging several issues at a fresh timestamp records them all, in order,
      separated by `|`; nothing is lost or reordered. */
  lemma {:induction false} LoggedAllJoins(log: map<int, string>, t: int, flags: seq<string>)
    requires t !in log && flags != []
    ensures t in LoggedAll(log, t, flags)
    ensures LoggedAll(log, t, flags)[t] == Join(flags, "|")
    ensures forall u :: u in log ==> u in LoggedAll(log, t, flags) && LoggedAll(log, t, flags)[u] == log[u]
  {
    LoggedAllAppends(Logged(log, t, flags[0]), t, flags[1..]);
    JoinCons(flags);
  }

  /** Helper: at a timestamp already present, `LoggedAll` appends `|f` per flag. */
  lemma {:induction false} LoggedAllAppends(log: map<int, string>, t: int, flags: seq<string>)
    requires t in log
    ensures t in LoggedAll(log, t, flags)
    ensures LoggedAll(log, t, flags)[t] == if flags == [] then log[t] else log[t] + "|" + Join(flags, "|")
    ensures forall u :: u in log && u != t ==> u in LoggedAll(log, t, flags) && LoggedAll(log, t, flags)[u] == log[u]
    decreases |flags|
  {
    if flags != [] {
      var next := Logged(log, t, flags[0]);
      assert next[t] == log[t] + "|" + flags[0];
      assert LoggedAll(log, t, flags) == LoggedAll(next, t, flags[1..]);
      LoggedAllAppends(next, t, flags[1..]);
      JoinCons(flags);
      if |flags| > 1 {
        BarAssoc(log[t], flags[0], Join(flags[1..], "|"));
      }
    }
  }

  /** Logging one more flag after a run of flags is one more `Logged`. */
  lemma {:induction false} LoggedAllSnoc(log: map<int, string>, t: int, flags: seq<string>, f: string)
    ensures LoggedAll(log, t, flags + [f]) == Logged(LoggedAll(log, t, flags), t, f)
    decreases |flags|
  {
    if flags != [] {
      assert (flags + [f])[1..] == flags[1..] + [f];
      LoggedAllSnoc(Logged(log, t, flags[0]), t, flags[1..], f);
    }
  }

  lemma BarAssoc(a: string, f: string, rest: string)
    ensures (a + "|" + f) + "|" + rest == a + "|" + (f + "|" + rest)
  {
  }

  lemma JoinCons(flags: seq<string>)
    requires flags != []
    ensures Join(flags, "|") == if |flags| == 1 then flags[0] else flags[0] + "|" + Join(flags[1..], "|")
  {
  }

  /** Because the flags are joined with `|`, the issues logged at one
      timestamp can be read back exactly when none of them contains `|`. */
  lemma LoggedAllReadBack(t: int, flags: seq<string>)
    requires flags != []
    requires forall k :: 0 <= k < |flags| ==> '|' !in flags[k]
    ensures t in LoggedAll(map[], t, flags) && Split(LoggedAll(map[], t, flags)[t], "|") == flags
  {
    LoggedAllJoins(map[], t, flags);
    JoinSplit(flags, '|');
  }

  /** `cleanLog` never hides an issue that was logged earlier, and once an
      issue is logged after a clean entry it is appended to `No Issues`. */
  lemma CleanKeepsIssues(log: map<int, string>, t: int, flag: string)
    ensures Cleaned(Logged(log, t, flag), t) == Logged(log, t, flag)
    ensures t !in log ==> Logged(Cleaned(log, t), t, flag)[t] == NoIssues + "|" + flag
  {
  }

  /** The event log of eventLog.py: `errorLog` and `cleanLog` update the
      flag table in place and touch only the given timestamp. */
  class EventLog {
    var flags: map<int, string>

    constructor ()
      ensures flags == map[]
    {
      flags := map[];
    }

    method ErrorLog(issue: string, record: string, t: int)
      modifies this
      ensures flags == Logged(old(flags), t, IssueText(issue, record))
    {
      var flag := IssueText(issue, record);
      if t in flags {
        flags := flags[t := flags[t] + "|" + flag];
      } else {
        flags := flags[t := flag];
      }
    }

    method CleanLog(t: int)
      modifies this
      ensures flags == Cleaned(old(flags), t)
    {
      if t !in flags {
        flags := flags[t := NoIssues];
      }
    }
  }
}
