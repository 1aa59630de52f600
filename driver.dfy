/** The top-level run: choose the servers to check from the configuration and
    the optional context list, and for each one check the `.sql` entries of the
    base directory until too many files have failed. */
module Driver {
  import opened Wrappers
  import opened Text

  /** One entry of the configuration's `Servers` list, reduced to what the
      loop looks at; connection settings are left to the caller. */
  datatype Server = Server(id: string, description: string, disabled: bool, vars: seq<(string, string)>)

  /** `args.context.split(",")`, or `None` when no context was given. */
  function IncludeList(context: Option<string>): Option<seq<string>>
  {
    match context
    case None => None
    case Some(c) => Some(Split(c, ','))
  }

  /** A server is checked unless it is disabled or a non-empty include list
      leaves its id out. */
  predicate Selected(server: Server, includes: Option<seq<string>>)
  {
    && !server.disabled
    && (includes.None? || |includes.value| == 0 || server.id in includes.value)
  }

  /** The servers the loop checks, in configuration order. */
  function SelectedServers(servers: seq<Server>, includes: Option<seq<string>>): seq<Server>
    decreases |servers|
  {
    if servers == [] then []
    else
      var last := servers[|servers| - 1];
      SelectedServers(servers[..|servers| - 1], includes) + (if Selected(last, includes) then [last] else [])
  }

  /** `fnmatch(name, "*.sql")` on a case-sensitive file system. */
  predicate IsSqlFile(name: string)
  {
    |name| >= 4 && name[|name| - 4..] == ".sql"
  }

  /** The entries that are checked, in listing order. */
  function SqlFiles(entries: seq<string>): seq<string>
    decreases |entries|
  {
    if entries == [] then []
    else
      var last := entries[|entries| - 1];
      SqlFiles(entries[..|entries| - 1]) + (if IsSqlFile(last) then [last] else [])
  }

  /** Exactly the `.sql` entries are checked. */
  lemma {:induction false} SqlFilesMembership(entries: seq<string>, name: string)
    ensures name in SqlFiles(entries) <==> name in entries && IsSqlFile(name)
    decreases |entries|
  {
    if entries != [] {
      var init := entries[..|entries| - 1];
      SqlFilesMembership(init, name);
      assert entries == init + [entries[|entries| - 1]];
    }
  }

  /** Number of files among `files` whose check did not succeed. */
  function FailureCount(files: seq<string>, ok: string -> bool): nat
    decreases |files|
  {
    if files == [] then 0
    else FailureCount(files[..|files| - 1], ok) + (if ok(files[|files| - 1]) then 0 else 1)
  }

  /** The failure counter after the first `m` directory entries. */
  function FailuresAfter(entries: seq<string>, ok: string -> bool, m: nat): nat
    requires m <= |entries|
  {
    FailureCount(SqlFiles(entries[..m]), ok)
  }

  /** What the file loop of one server does: it handles the first `processed`
      entries, checking the `.sql` ones, and stops early only right after an
      entry that brought the failure counter to the ceiling. */
  predicate ServerScan(entries: seq<string>, ok: string -> bool, maxFailed: int,
                       processed: nat, checked: seq<string>, failures: nat)
  {
    && processed <= |entries|
    && checked == SqlFiles(entries[..processed])
    && failures == FailuresAfter(entries, ok, processed)
    && (forall m :: 1 <= m < processed ==> FailuresAfter(entries, ok, m) < maxFailed)
    && (processed < |entries| ==> 1 <= processed && maxFailed <= failures)
  }

  lemma {:induction false} SqlFilesStep(entries: seq<string>, m: nat)
    requires m < |entries|
    ensures SqlFiles(entries[..m + 1]) == SqlFiles(entries[..m]) + (if IsSqlFile(entries[m]) then [entries[m]] else [])
  {
    assert entries[..m + 1][..m] == entries[..m];
  }

  lemma {:induction false} FailureCountStep(files: seq<string>, name: string, ok: string -> bool)
    ensures FailureCount(files + [name], ok) == FailureCount(files, ok) + (if ok(name) then 0 else 1)
  {
    assert (files + [name])[..|files|] == files;
  }

  /** The file loop of one server. `ok` stands for `CheckOneFile` against this
      server and `maxFailed` for the configuration's `MaxFailedFiles`. */
  method CheckServer(entries: seq<string>, ok: string -> bool, maxFailed: int)
    returns (processed: nat, checked: seq<string>, failures: nat)
    ensures ServerScan(entries, ok, maxFailed, processed, checked, failures)
  {
    processed, checked, failures := 0, [], 0;
    while processed < |entries|
      invariant processed <= |entries|
      invariant checked == SqlFiles(entries[..processed])
      invariant failures == FailureCount(checked, ok)
      invariant forall m :: 1 <= m <= processed ==> FailuresAfter(entries, ok, m) < maxFailed
      decreases |entries| - processed
    {
      var name := entries[processed];
      SqlFilesStep(entries, processed);
      if IsSqlFile(name) {
        FailureCountStep(checked, name, ok);
        checked := checked + [name];
        if !ok(name) {
          failures := failures + 1;
        }
      }
      processed := processed + 1;
      if failures >= maxFailed {
        break;
      }
    }
  }

  /** The failure counter never decreases and grows by at most one per entry. */
  lemma {:induction false} FailuresStep(entries: seq<string>, ok: string -> bool, m: nat)
    requires m < |entries|
    ensures FailuresAfter(entries, ok, m) <= FailuresAfter(entries, ok, m + 1) <= FailuresAfter(entries, ok, m) + 1
  {
    SqlFilesStep(entries, m);
    var before := SqlFiles(entries[..m]);
    FailureCountStep(before, entries[m], ok);
    assert FailuresAfter(entries, ok, m) == FailureCount(before, ok);
    if IsSqlFile(entries[m]) {
      assert FailuresAfter(entries, ok, m + 1) == FailureCount(before + [entries[m]], ok);
    } else {
      assert before + [] == before;
    }
  }

  lemma {:induction false} FailuresMonotone(entries: seq<string>, ok: string -> bool, m: nat, n: nat)
    requires m <= n <= |entries|
    ensures FailuresAfter(entries, ok, m) <= FailuresAfter(entries, ok, n)
    decreases n - m
  {
    if m < n {
      FailuresStep(entries, ok, n - 1);
      FailuresMonotone(entries, ok, m, n - 1);
    }
  }

  /** The loop's result is determined by its inputs. */
  lemma {:induction false} ServerScanUnique(entries: seq<string>, ok: string -> bool, maxFailed: int,
                         p1: nat, c1: seq<string>, f1: nat, p2: nat, c2: seq<string>, f2: nat)
    requires ServerScan(entries, ok, maxFailed, p1, c1, f1)
    requires ServerScan(entries, ok, maxFailed, p2, c2, f2)
    ensures p1 == p2 && c1 == c2 && f1 == f2
  {
    if p1 != p2 {
      assert false;
    }
  }

  /** With a positive ceiling the counter never passes it. */
  lemma {:induction false} ServerScanCeiling(entries: seq<string>, ok: string -> bool, maxFailed: int,
                          processed: nat, checked: seq<string>, failures: nat)
    requires ServerScan(entries, ok, maxFailed, processed, checked, failures)
    requires maxFailed >= 1
    ensures failures <= maxFailed
  {
    if processed >= 1 {
      FailuresStep(entries, ok, processed - 1);
      if processed - 1 >= 1 {
        assert FailuresAfter(entries, ok, processed - 1) < maxFailed;
      } else {
        assert FailuresAfter(entries, ok, 0) == 0;
      }
    }
  }

  /** When fewer files fail than the ceiling allows, every `.sql` entry is
      checked. */
  lemma {:induction false} ServerScanCompletes(entries: seq<string>, ok: string -> bool, maxFailed: int,
                            processed: nat, checked: seq<string>, failures: nat)
    requires ServerScan(entries, ok, maxFailed, processed, checked, failures)
    requires FailureCount(SqlFiles(entries), ok) < maxFailed
    ensures processed == |entries| && checked == SqlFiles(entries)
  {
    assert entries[..|entries|] == entries;
    if processed < |entries| {
      FailuresMonotone(entries, ok, processed, |entries|);
      assert false;
    }
  }

  /** A ceiling of zero or less stops the loop after the first entry, whatever
      it is. */
  lemma {:induction false} ServerScanWithoutCeiling(entries: seq<string>, ok: string -> bool, maxFailed: int,
                                 processed: nat, checked: seq<string>, failures: nat)
    requires ServerScan(entries, ok, maxFailed, processed, checked, failures)
    requires maxFailed <= 0
    ensures processed == (if entries == [] then 0 else 1)
  {
    if processed > 1 {
      FailuresStep(entries, ok, 0);
      assert false;
    }
  }

  /** Joining the include list with commas gives back the context argument,
      and no item holds a comma. */
  lemma {:induction false} IncludeListRoundTrip(context: string)
    ensures var items := IncludeList(Some(context)).value;
      && |items| >= 1
      && Join(items, ",") == context
      && forall k, j :: 0 <= k < |items| && 0 <= j < |items[k]| ==> items[k][j] != ','
  {
    JoinSplit(context, ',');
  }

  /** Which servers are checked: without a context every enabled server, with
      one exactly the enabled servers whose id is one of its comma-separated
      items. */
  lemma {:induction false} SelectedServersExactly(servers: seq<Server>, context: Option<string>, s: Server)
    ensures s in SelectedServers(servers, IncludeList(context)) <==>
      && s in servers
      && !s.disabled
      && (context.Some? ==> s.id in Split(context.value, ','))
  {
    SelectedMembership(servers, IncludeList(context), s);
  }

  lemma {:induction false} SelectedMembership(servers: seq<Server>, includes: Option<seq<string>>, s: Server)
    ensures s in SelectedServers(servers, includes) <==> s in servers && Selected(s, includes)
    decreases |servers|
  {
    if servers != [] {
      var init := servers[..|servers| - 1];
      SelectedMembership(init, includes, s);
      assert servers == init + [servers[|servers| - 1]];
    }
  }

  /** What one server's check produced. */
  datatype ServerRun = ServerRun(server: Server, processed: nat, checked: seq<string>, failures: nat)

  /** The server loop: `entries` is the listing of the base directory and
      `passes(server)(name)` the result of `CheckOneFile` for that file on that
      server. */
  method Run(servers: seq<Server>, context: Option<string>, entries: seq<string>,
             passes: Server -> string -> bool, maxFailed: int)
    returns (runs: seq<ServerRun>)
    ensures |runs| == |SelectedServers(servers, IncludeList(context))|
    ensures forall k :: 0 <= k < |runs| ==>
      && runs[k].server == SelectedServers(servers, IncludeList(context))[k]
      && ServerScan(entries, passes(runs[k].server), maxFailed, runs[k].processed, runs[k].checked, runs[k].failures)
  {
    var includes := IncludeList(context);
    runs := [];
    for i := 0 to |servers|
      invariant |runs| == |SelectedServers(servers[..i], includes)|
      invariant forall k :: 0 <= k < |runs| ==>
        && runs[k].server == SelectedServers(servers[..i], includes)[k]
        && ServerScan(entries, passes(runs[k].server), maxFailed, runs[k].processed, runs[k].checked, runs[k].failures)
    {
      assert servers[..i + 1][..i] == servers[..i];
      var server := servers[i];
      if server.disabled {
        continue;
      }
      if includes.Some? && |includes.value| > 0 && server.id !in includes.value {
        continue;
      }
      var processed, checked, failures := CheckServer(entries, passes(server), maxFailed);
      runs := runs + [ServerRun(server, processed, checked, failures)];
    }
    assert servers[..|servers|] == servers;
  }
}
