/**
 * The supervisor's process table and what each operation does to it, as
 * functions of the table before the operation. The operating system is
 * reduced to outcomes given as parameters: whether a spawn succeeded (and
 * the pid it gave), how a stop went, and which pids have exited
 * (`poll()` is not `None`). `ProcessManagement.ProcessManager` performs
 * these operations step by step and is proved to agree with them.
 */
module Supervision {
  import opened Wrappers
  import opened OrderedDict

  type Pid = int

  /** `datetime.now()`; only its `isoformat()` text is ever looked at. */
  datatype Timestamp = Timestamp(isoformat: string)

  /** One entry of a group's service list in the configuration. */
  datatype ServiceConfig = ServiceConfig(name: string, workingDir: string, script: string)

  /** `service_groups` in the configuration: group ids with their ordered service lists. */
  datatype ServiceGroup = ServiceGroup(groupId: string, services: seq<ServiceConfig>)

  /** `ProcessInfo` of a running service: `popen` is represented by its pid. */
  datatype ProcessInfo = ProcessInfo(groupId: string, config: ServiceConfig, pid: Pid, startTime: Timestamp, manuallyStopped: bool)

  /** `running_processes`, keyed by service name. */
  type ProcessTable = Dict<ProcessInfo>

  datatype StatusKind = Running | Stopped | Crashed

  /** `ServiceStatus` as returned to callers. */
  datatype ServiceStatus = ServiceStatus(name: string, groupId: string, status: StatusKind,
                                         pid: Option<Pid>, startTime: Option<Timestamp>, detail: string)

  /** What `subprocess.Popen` did: a child with this pid, or an exception. */
  datatype SpawnOutcome = Spawned(pid: Pid) | SpawnFailed

  /**
   * How a stop went: the child exited within the grace period; it did not
   * and was killed; it did not and the kill itself raised; it was already
   * gone when interrupted; or signalling failed some other way.
   */
  datatype StopOutcome = ExitedInTime | GraceExpired | GraceExpiredKillRaised | ProcessGone | SignalFailed

  /** The supervisor's own log lines, one per `print_orchestrator` call. */
  datatype Event =
    | Starting(name: string)
    | StartedWithPid(name: string, pid: Pid)
    | StartFailed(name: string)
    | Stopping(name: string, pid: Pid)
    | StoppedGracefully(name: string)
    | ForcingKill(name: string)
    | AlreadyGone(name: string)
    | StopFailed(name: string)
    | CrashDetected(name: string)
    | ShuttingDown

  /** The supervisor's state: its process table and the log lines it has written. */
  datatype Supervisor = Supervisor(running: ProcessTable, log: seq<Event>)

  /** The table is a well-formed dict whose every entry is filed under its own service name. */
  ghost predicate TableOk(t: ProcessTable) {
    t.Valid() && forall n :: n in t.entries ==> t.entries[n].config.name == n
  }

  /** No entry is marked as stopped on purpose: the table between operations. */
  ghost predicate NoneMarked(t: ProcessTable) {
    forall n :: n in t.entries ==> !t.entries[n].manuallyStopped
  }

  // ---------------------------------------------------------------------
  // Starting and stopping one service
  // ---------------------------------------------------------------------

  datatype StartResult = StartResult(after: Supervisor, started: bool)

  /**
   * `_start_single_service`: on a successful spawn the service is entered
   * under its name, not marked as stopped, with its start time, and `true`
   * is returned; a failed spawn leaves the table alone and returns `false`.
   * Nothing else in the table changes either way.
   */
  function StartService(s: Supervisor, groupId: string, config: ServiceConfig, spawn: SpawnOutcome, now: Timestamp): (r: StartResult)
    requires TableOk(s.running)
    ensures TableOk(r.after.running)
    ensures r.started <==> spawn.Spawned?
    ensures r.started ==> r.after.running.entries == s.running.entries[config.name := ProcessInfo(groupId, config, spawn.pid, now, false)]
    // `d[k] = v`: a name not yet in the table goes to the end of the order
    ensures r.started ==> r.after.running.keys == if config.name in s.running.entries then s.running.keys else s.running.keys + [config.name]
    ensures !r.started ==> r.after.running == s.running
    ensures r.after.log == s.log + [Starting(config.name), if r.started then StartedWithPid(config.name, spawn.pid) else StartFailed(config.name)]
  {
    var log := s.log + [Starting(config.name)];
    match spawn
    case SpawnFailed =>
      StartResult(Supervisor(s.running, log + [StartFailed(config.name)]), false)
    case Spawned(pid) =>
      var info := ProcessInfo(groupId, config, pid, now, false);
      StartResult(Supervisor(s.running.Put(config.name, info), log + [StartedWithPid(config.name, pid)]), true)
  }

  /**
   * The table as the interrupt signal finds it: the entry being stopped is
   * already marked as stopped on purpose, everything else as before.
   */
  function SignalView(t: ProcessTable, name: string): (v: ProcessTable)
    requires TableOk(t) && name in t.entries
    ensures TableOk(v) && v.keys == t.keys
    ensures v.entries == t.entries[name := t.entries[name].(manuallyStopped := true)]
  {
    t.Put(name, t.entries[name].(manuallyStopped := true))
  }

  /** The log lines that follow "Stopping ..." for each way a stop can go. */
  function OutcomeEvents(name: string, outcome: StopOutcome): (es: seq<Event>)
    ensures |es| == 1 && !es[0].ShuttingDown? && es[0].name == name
    ensures es[0].ForcingKill? <==> outcome == GraceExpired || outcome == GraceExpiredKillRaised
  {
    match outcome
    case ExitedInTime => [StoppedGracefully(name)]
    case GraceExpired => [ForcingKill(name)]
    case GraceExpiredKillRaised => [ForcingKill(name)]
    case ProcessGone => [AlreadyGone(name)]
    case SignalFailed => [StopFailed(name)]
  }

  /** `raised` is set when an exception leaves `_stop_single_service`. */
  datatype StopResult = StopResult(after: Supervisor, raised: bool)

  /**
   * `_stop_single_service`: an absent name is a no-op. Otherwise the entry
   * is marked, signalled, and then removed whatever happened; only a kill
   * that raises after the grace period escapes as an exception.
   */
  function StopService(s: Supervisor, name: string, outcome: StopOutcome): (r: StopResult)
    requires TableOk(s.running)
    ensures TableOk(r.after.running)
    ensures name !in s.running.entries ==> r == StopResult(s, false)
    ensures name in s.running.entries ==> r.after.running.entries == s.running.entries - {name}
    // the entry is marked before the signal is sent, and the marked entry is what gets removed
    ensures name in s.running.entries ==> r.after.running == SignalView(s.running, name).Remove(name)
    ensures name in s.running.entries ==>
              r.after.log == s.log + [Stopping(name, s.running.entries[name].pid)] + OutcomeEvents(name, outcome)
    ensures r.raised <==> name in s.running.entries && outcome == GraceExpiredKillRaised
    ensures NoneMarked(s.running) ==> NoneMarked(r.after.running)
  {
    if name !in s.running.entries then
      StopResult(s, false)
    else
      var info := s.running.entries[name];
      var log := s.log + [Stopping(name, info.pid)];
      var after := SignalView(s.running, name).Remove(name);
      StopRemovesEntry(s.running, name);
      StopResult(Supervisor(after, log + OutcomeEvents(name, outcome)), outcome == GraceExpiredKillRaised)
  }

  /** Removing the marked entry leaves exactly the other entries, none of them newly marked. */
  lemma StopRemovesEntry(t: ProcessTable, name: string)
    requires TableOk(t) && name in t.entries
    ensures SignalView(t, name).Remove(name).entries == t.entries - {name}
    ensures NoneMarked(t) ==> NoneMarked(SignalView(t, name).Remove(name))
  {
    assert SignalView(t, name).Remove(name).entries == t.entries - {name};
  }

  /**
   * Stopping the given names one after the other, as `stop_group` and
   * `stop_all` do, until one of the stops raises. Entries only disappear,
   * and only listed ones; when nothing raised, every listed one is gone.
   */
  function StopNames(s: Supervisor, names: seq<string>, outcome: string -> StopOutcome): (r: StopResult)
    requires TableOk(s.running)
    ensures TableOk(r.after.running)
    decreases |names|
  {
    if names == [] then
      StopResult(s, false)
    else
      var r := StopNames(s, names[..|names| - 1], outcome);
      var last := names[|names| - 1];
      if r.raised then r else StopService(r.after, last, outcome(last))
  }

  /**
   * Entries only disappear, and only listed ones; when nothing raised,
   * every listed one is gone.
   */
  lemma {:induction false} StopNamesSpec(s: Supervisor, names: seq<string>, outcome: string -> StopOutcome)
    requires TableOk(s.running)
    ensures var r := StopNames(s, names, outcome);
            && (forall n :: n in r.after.running.entries ==> n in s.running.entries && r.after.running.entries[n] == s.running.entries[n])
            && (forall n :: n in s.running.entries && n !in names ==> n in r.after.running.entries)
            && (!r.raised ==> forall n :: n in names ==> n !in r.after.running.entries)
    decreases |names|
  {
    if names != [] {
      var init := names[..|names| - 1];
      StopNamesSpec(s, init, outcome);
      assert forall n :: n in names <==> n in init || n == names[|names| - 1];
    }
  }

  /** Stopping one more name continues the run, unless the run has already raised. */
  lemma StopNamesSnoc(s: Supervisor, init: seq<string>, x: string, outcome: string -> StopOutcome)
    requires TableOk(s.running)
    ensures StopNames(s, init + [x], outcome) ==
            var r := StopNames(s, init, outcome); if r.raised then r else StopService(r.after, x, outcome(x))
  {
    assert (init + [x])[..|init|] == init;
  }

  /** Once a stop has raised, the names after it are never reached. */
  lemma {:induction false} StopNamesAfterRaise(s: Supervisor, names: seq<string>, j: nat, outcome: string -> StopOutcome)
    requires TableOk(s.running) && j <= |names|
    requires StopNames(s, names[..j], outcome).raised
    ensures StopNames(s, names, outcome) == StopNames(s, names[..j], outcome)
    decreases |names|
  {
    if j < |names| {
      var init := names[..|names| - 1];
      assert init[..j] == names[..j];
      StopNamesAfterRaise(s, init, j, outcome);
    } else {
      assert names[..j] == names;
    }
  }

  /**
   * The names of the table's entries belonging to `groupId`: each such
   * name once, and no other, listed in table order.
   */
  function GroupMembers(t: ProcessTable, groupId: string): (names: seq<string>)
    requires t.Valid()
    ensures forall n :: n in names <==> n in t.entries && t.entries[n].groupId == groupId
    ensures Distinct(names) && InOrder(names, t.keys)
  {
    MembersAmongInOrder(t.keys, t.entries, groupId);
    MembersAmong(t.keys, t.entries, groupId)
  }

  /** Any two of `names` appear in `keys` in the same order as in `names`. */
  ghost predicate InOrder(names: seq<string>, keys: seq<string>) {
    forall i, j, p, q ::
      (0 <= i < j < |names| && 0 <= p < |keys| && 0 <= q < |keys| && names[i] == keys[p] && names[j] == keys[q]) ==> p < q
  }

  /** Selecting from distinct keys gives distinct names, in the keys' order. */
  lemma {:induction false} MembersAmongInOrder(keys: seq<string>, entries: map<string, ProcessInfo>, groupId: string)
    requires forall k :: k in keys ==> k in entries
    requires Distinct(keys)
    ensures Distinct(MembersAmong(keys, entries, groupId)) && InOrder(MembersAmong(keys, entries, groupId), keys)
    decreases |keys|
  {
    if keys != [] {
      var n := |keys| - 1;
      var init := keys[..n];
      var last := keys[n];
      assert Distinct(init) && last !in init;
      MembersAmongInOrder(init, entries, groupId);
      var before := MembersAmong(init, entries, groupId);
      var add := entries[last].groupId == groupId;
      assert MembersAmong(keys, entries, groupId) == if add then before + [last] else before;
      assert keys == init + [last];
      InOrderExtend(before, init, last, add);
      if add {
        DistinctSnoc(before, last);
      }
    }
  }

  /** Appending a new key, and possibly selecting it, keeps a selection in order. */
  lemma InOrderExtend(before: seq<string>, init: seq<string>, last: string, add: bool)
    requires last !in init
    requires forall y :: y in before ==> y in init
    requires InOrder(before, init)
    ensures InOrder(if add then before + [last] else before, init + [last])
  {
    var names := if add then before + [last] else before;
    var keys := init + [last];
    forall i, j, p, q | 0 <= i < j < |names| && 0 <= p < |keys| && 0 <= q < |keys| && names[i] == keys[p] && names[j] == keys[q]
      ensures p < q
    {
      assert names[i] == before[i] && before[i] in init;
      if p == |init| {
        assert false;
      }
      if j < |before| {
        assert names[j] == before[j] && before[j] in init;
        if q == |init| {
          assert false;
        }
        assert init[p] == keys[p] && init[q] == keys[q];
      } else if q < |init| {
        assert false;
      }
    }
  }

  function MembersAmong(keys: seq<string>, entries: map<string, ProcessInfo>, groupId: string): (names: seq<string>)
    requires forall k :: k in keys ==> k in entries
    ensures forall n :: n in names <==> n in keys && entries[n].groupId == groupId
    decreases |keys|
  {
    if keys == [] then []
    else
      var init := keys[..|keys| - 1];
      var last := keys[|keys| - 1];
      assert forall n :: n in keys <==> n in init || n == last;
      var names := MembersAmong(init, entries, groupId);
      if entries[last].groupId == groupId then names + [last] else names
  }

  /**
   * `stop_group`: unless a stop raised, no entry of the group is left;
   * entries of other groups are untouched, and nothing is added.
   */
  function StopGroup(s: Supervisor, groupId: string, outcome: string -> StopOutcome): (r: StopResult)
    requires TableOk(s.running)
    ensures TableOk(r.after.running)
    ensures !r.raised ==> forall n :: n in r.after.running.entries ==> r.after.running.entries[n].groupId != groupId
    ensures forall n :: n in s.running.entries && s.running.entries[n].groupId != groupId ==>
              n in r.after.running.entries && r.after.running.entries[n] == s.running.entries[n]
    ensures forall n :: n in r.after.running.entries ==> n in s.running.entries
  {
    StopNamesSpec(s, GroupMembers(s.running, groupId), outcome);
    StopNames(s, GroupMembers(s.running, groupId), outcome)
  }

  /** `stop_all`: a shutdown line, then every entry is stopped; unless a stop raised, the table ends empty. */
  function StopAll(s: Supervisor, outcome: string -> StopOutcome): (r: StopResult)
    requires TableOk(s.running)
    ensures TableOk(r.after.running)
    ensures !r.raised ==> r.after.running.entries == map[]
    ensures forall n :: n in r.after.running.entries ==> n in s.running.entries && r.after.running.entries[n] == s.running.entries[n]
  {
    StopNamesSpec(Supervisor(s.running, s.log + [ShuttingDown]), s.running.keys, outcome);
    var r := StopNames(Supervisor(s.running, s.log + [ShuttingDown]), s.running.keys, outcome);
    assert !r.raised ==> forall n :: n !in r.after.running.entries;
    r
  }

  /**
   * As written, `stop_all` gives up at the first stop whose kill raises:
   * with two or more services running and the first one's kill failing,
   * the call raises and the second service is still in the table, and its
   * process is left running.
   */
  lemma StopAllAbortsAfterFailedKill(s: Supervisor, outcome: string -> StopOutcome)
    requires TableOk(s.running) && |s.running.keys| >= 2
    requires outcome(s.running.keys[0]) == GraceExpiredKillRaised
    ensures var r := StopAll(s, outcome);
            r.raised && s.running.keys[1] in r.after.running.entries
  {
    var keys := s.running.keys;
    var s1 := Supervisor(s.running, s.log + [ShuttingDown]);
    var first := StopNames(s1, keys[..1], outcome);
    assert first.raised && keys[1] in first.after.running.entries by {
      assert first == StopService(s1, keys[0], outcome(keys[0])) by {
        assert keys[..1] == [] + [keys[0]];
        StopNamesSnoc(s1, [], keys[0], outcome);
      }
      assert keys[1] != keys[0] by {
        DistinctPrefix(keys, 2);
        assert keys[..2][..1] == [keys[0]];
      }
    }
    assert StopAll(s, outcome) == first by {
      StopNamesAfterRaise(s1, keys, 1, outcome);
    }
  }

  /**
   * Stopping every listed name, carrying on past a stop that raises;
   * `raised` reports whether any of them did. Every listed name is gone
   * afterwards, and only listed ones are.
   */
  function StopNamesContinuing(s: Supervisor, names: seq<string>, outcome: string -> StopOutcome): (r: StopResult)
    requires TableOk(s.running)
    ensures TableOk(r.after.running)
    ensures forall n :: n in names ==> n !in r.after.running.entries
    ensures forall n :: n in s.running.entries && n !in names ==> n in r.after.running.entries && r.after.running.entries[n] == s.running.entries[n]
    ensures forall n :: n in r.after.running.entries ==> n in s.running.entries
    decreases |names|
  {
    if names == [] then
      StopResult(s, false)
    else
      var init := names[..|names| - 1];
      var last := names[|names| - 1];
      assert forall n :: n in names <==> n in init || n == last;
      var r := StopNamesContinuing(s, init, outcome);
      var q := StopService(r.after, last, outcome(last));
      StopResult(q.after, r.raised || q.raised)
  }

  /** `stop_all` as evidently intended: every service is stopped, even after a failed kill. */
  function StopAllContinuing(s: Supervisor, outcome: string -> StopOutcome): (r: StopResult)
    requires TableOk(s.running)
    ensures TableOk(r.after.running) && r.after.running.entries == map[]
  {
    var r := StopNamesContinuing(Supervisor(s.running, s.log + [ShuttingDown]), s.running.keys, outcome);
    assert forall n :: n !in r.after.running.entries;
    r
  }

  /** Where no stop raises, carrying on and giving up are the same run. */
  lemma {:induction false} StopNamesContinuingAgrees(s: Supervisor, names: seq<string>, outcome: string -> StopOutcome)
    requires TableOk(s.running)
    ensures !StopNames(s, names, outcome).raised ==> StopNamesContinuing(s, names, outcome) == StopNames(s, names, outcome)
    decreases |names|
  {
    if names != [] {
      StopNamesContinuingAgrees(s, names[..|names| - 1], outcome);
    }
  }

  /** The corrected `stop_all` does what the written one does whenever no kill fails. */
  lemma StopAllContinuingAgrees(s: Supervisor, outcome: string -> StopOutcome)
    requires TableOk(s.running)
    ensures !StopAll(s, outcome).raised ==> StopAllContinuing(s, outcome) == StopAll(s, outcome)
  {
    StopNamesContinuingAgrees(Supervisor(s.running, s.log + [ShuttingDown]), s.running.keys, outcome);
  }

  // ---------------------------------------------------------------------
  // Status queries
  // ---------------------------------------------------------------------

  /**
   * `get_status_for_service`: running, with the entry's pid and start time,
   * exactly when the service has an entry whose process has not exited;
   * stopped, with neither, otherwise. Never crashed.
   */
  function StatusFor(t: ProcessTable, exited: set<Pid>, name: string, groupId: string): (r: ServiceStatus)
    ensures r.name == name && r.groupId == groupId
    ensures r.status != Crashed
    ensures r.status == Running <==> name in t.entries && t.entries[name].pid !in exited
    ensures r.status == Running ==>
              && r.pid == Some(t.entries[name].pid)
              && r.startTime == Some(t.entries[name].startTime)
              && r.detail == "Running since " + t.entries[name].startTime.isoformat
    ensures r.status == Stopped ==> r.pid == None && r.startTime == None && r.detail == "Service is not running."
  {
    if name in t.entries && t.entries[name].pid !in exited then
      var info := t.entries[name];
      ServiceStatus(name, groupId, Running, Some(info.pid), Some(info.startTime), "Running since " + info.startTime.isoformat)
    else
      ServiceStatus(name, groupId, Stopped, None, None, "Service is not running.")
  }

  // ---------------------------------------------------------------------
  // One cycle of the crash monitor
  // ---------------------------------------------------------------------

  /** The service names of a list of records. */
  function Names(infos: seq<ProcessInfo>): (names: seq<string>)
    ensures |names| == |infos|
    ensures forall i :: 0 <= i < |infos| ==> names[i] == infos[i].config.name
  {
    seq(|infos|, i requires 0 <= i < |infos| => infos[i].config.name)
  }

  datatype ReapResult = ReapResult(after: Supervisor, crashed: seq<ProcessInfo>)

  /** The prefix of `keys` one longer ends with a name the shorter one does not contain. */
  lemma PrefixStep(keys: seq<string>, n: nat)
    requires Distinct(keys) && 0 < n <= |keys|
    ensures keys[..n] == keys[..n - 1] + [keys[n - 1]]
    ensures keys[n - 1] !in keys[..n - 1]
    ensures forall x :: x in keys[..n] <==> x in keys[..n - 1] || x == keys[n - 1]
  {
    DistinctPrefix(keys, n);
    assert keys[..n] == keys[..n - 1] + [keys[n - 1]];
    assert keys[..n][..n - 1] == keys[..n - 1];
  }

  /**
   * The first loop of a monitor cycle over the first `n` names of the
   * snapshot: every entry whose process has exited is removed, and those
   * not marked as stopped on purpose are collected, with a crash line each.
   * What is left is `Survivors` and what is collected is `Crashes`, two
   * functions of the snapshot alone; `SurvivorsRemain` and
   * `ReapCollectsCrashes` state what they are.
   */
  function ReapPrefix(s: Supervisor, exited: set<Pid>, n: nat): (r: ReapResult)
    requires TableOk(s.running) && n <= |s.running.keys|
    ensures TableOk(r.after.running)
    ensures r.crashed == Crashes(s.running, exited, n)
    ensures r.after.running.entries == Survivors(s.running, exited, n)
    // `del` keeps the order of the other keys: the visited names still alive, then the names not yet visited
    decreases n
  {
    if n == 0 then
      ReapResult(s, [])
    else
      var k := s.running.keys[n - 1];
      Visit(ReapPrefix(s, exited, n - 1), k, s.running.entries[k], exited)
  }

  /**
   * The first loop's body for one name of the snapshot and its record: an
   * exited process loses its entry, and is collected, with a crash line,
   * unless it was marked as stopped on purpose.
   */
  function Visit(now: ReapResult, k: string, info: ProcessInfo, exited: set<Pid>): (r: ReapResult)
    requires TableOk(now.after.running)
    ensures TableOk(r.after.running)
    ensures info.pid !in exited ==> r == now
    ensures info.pid in exited ==> r.after.running == now.after.running.Remove(k)
    ensures info.pid in exited ==> r.after.running.entries == now.after.running.entries - {k}
    ensures r.crashed == now.crashed + (if info.pid in exited && !info.manuallyStopped then [info] else [])
    ensures r.after.log == now.after.log + (if info.pid in exited && !info.manuallyStopped then [CrashDetected(k)] else [])
  {
    if info.pid !in exited then
      now
    else if info.manuallyStopped then
      ReapResult(Supervisor(now.after.running.Remove(k), now.after.log), now.crashed)
    else
      ReapResult(Supervisor(now.after.running.Remove(k), now.after.log + [CrashDetected(k)]), now.crashed + [info])
  }

  /** The names of `keys` whose process has not exited, in the order of `keys`; `LiveKeysMembers` states which they are. */
  function LiveKeys(t: ProcessTable, exited: set<Pid>, keys: seq<string>): (live: seq<string>)
    requires forall k :: k in keys ==> k in t.entries
    ensures |live| <= |keys|
    decreases |keys|
  {
    if keys == [] then []
    else
      var init := keys[..|keys| - 1];
      var last := keys[|keys| - 1];
      assert forall x :: x in init ==> x in keys;
      if t.entries[last].pid in exited then LiveKeys(t, exited, init) else LiveKeys(t, exited, init) + [last]
  }

  /** The live names are exactly those listed whose process has not exited. */
  lemma {:induction false} LiveKeysMembers(t: ProcessTable, exited: set<Pid>, keys: seq<string>)
    requires forall k :: k in keys ==> k in t.entries
    ensures forall x :: x in LiveKeys(t, exited, keys) <==> x in keys && t.entries[x].pid !in exited
    decreases |keys|
  {
    if keys != [] {
      var init := keys[..|keys| - 1];
      assert forall x :: x in keys <==> x in init || x == keys[|keys| - 1];
      LiveKeysMembers(t, exited, init);
    }
  }

  /** A listing that ends with the snapshot from name `n - 1` on lists that name and then the rest. */
  lemma SuffixStep(listed: seq<string>, live: seq<string>, keys: seq<string>, n: nat)
    requires 0 < n <= |keys| && listed == live + keys[n - 1..]
    ensures listed == live + ([keys[n - 1]] + keys[n..])
  {
    assert keys[n - 1..] == [keys[n - 1]] + keys[n..];
  }

  /** One more snapshot name is listed among the live ones exactly when its process has not exited. */
  lemma LiveKeysStep(t: ProcessTable, exited: set<Pid>, n: nat)
    requires TableOk(t) && 0 < n <= |t.keys|
    ensures var k := t.keys[n - 1];
            LiveKeys(t, exited, t.keys[..n]) == LiveKeys(t, exited, t.keys[..n - 1]) + (if t.entries[k].pid in exited then [] else [k])
  {
    assert t.keys[..n][..n - 1] == t.keys[..n - 1];
  }

  /**
   * `del` keeps the order of the other keys: after the first `n` names of
   * the snapshot, the table lists the visited names whose process is alive,
   * in snapshot order, followed by the names not yet visited.
   */
  lemma {:induction false} ReapKeepsOrder(s: Supervisor, exited: set<Pid>, n: nat)
    requires TableOk(s.running) && n <= |s.running.keys|
    ensures ReapPrefix(s, exited, n).after.running.keys == LiveKeys(s.running, exited, s.running.keys[..n]) + s.running.keys[n..]
    decreases n
  {
    var keys := s.running.keys;
    if n == 0 {
      assert keys[..0] == [] && keys[0..] == keys;
    } else {
      ReapKeepsOrder(s, exited, n - 1);
      VisitKeepsOrder(s.running, exited, n, ReapPrefix(s, exited, n - 1).after.running, ReapPrefix(s, exited, n).after.running);
    }
  }

  /**
   * One turn of the first loop keeps the listing in shape: a table listed as
   * the live names so far and then the unvisited ones, which loses the next
   * name exactly when its process has exited, is listed the same way one
   * name further.
   */
  lemma VisitKeepsOrder(t: ProcessTable, exited: set<Pid>, n: nat, before: ProcessTable, after: ProcessTable)
    requires TableOk(t) && 0 < n <= |t.keys| && before.Valid()
    requires before.keys == LiveKeys(t, exited, t.keys[..n - 1]) + t.keys[n - 1..]
    requires t.entries[t.keys[n - 1]].pid in exited ==> after == before.Remove(t.keys[n - 1])
    requires t.entries[t.keys[n - 1]].pid !in exited ==> after == before
    ensures after.keys == LiveKeys(t, exited, t.keys[..n]) + t.keys[n..]
  {
    var k := t.keys[n - 1];
    var gone := t.entries[k].pid in exited;
    var live := LiveKeys(t, exited, t.keys[..n - 1]);
    var rest := t.keys[n..];
    LiveKeysStep(t, exited, n);
    SuffixStep(before.keys, live, t.keys, n);
    assert after.keys == if gone then live + rest else live + ([k] + rest) by {
      if gone {
        assert k in before.keys;
        WithoutBetween(live, k, rest);
      }
    }
    ListingStep(live, k, rest, LiveKeys(t, exited, t.keys[..n]), gone, after.keys);
  }

  /** The same step on the key lists alone, once the name is taken out or kept. */
  lemma ListingStep(live: seq<string>, k: string, rest: seq<string>, liveNext: seq<string>, gone: bool, after: seq<string>)
    requires liveNext == live + (if gone then [] else [k])
    requires after == if gone then live + rest else live + ([k] + rest)
    ensures after == liveNext + rest
  {
    if gone {
      assert live + [] == live;
    } else {
      assert live + ([k] + rest) == live + [k] + rest;
    }
  }

  /** Visiting one more name of the snapshot, given the result so far. */
  lemma ReapPrefixStep(s: Supervisor, exited: set<Pid>, n: nat, now: ReapResult)
    requires TableOk(s.running) && n < |s.running.keys|
    requires ReapPrefix(s, exited, n) == now
    ensures ReapPrefix(s, exited, n + 1) == Visit(now, s.running.keys[n], s.running.entries[s.running.keys[n]], exited)
  {
  }

  /**
   * The entries left of table `t` after a pass over its first `n` names:
   * those whose process has not exited are kept. It depends on the
   * snapshot alone.
   */
  function Survivors(t: ProcessTable, exited: set<Pid>, n: nat): (m: map<string, ProcessInfo>)
    requires TableOk(t) && n <= |t.keys|
    decreases n
  {
    if n == 0 then
      t.entries
    else
      var k := t.keys[n - 1];
      if t.entries[k].pid in exited then Survivors(t, exited, n - 1) - {k} else Survivors(t, exited, n - 1)
  }

  /** After the first `n` names, exactly the visited entries with an exited process are gone; the rest are unchanged. */
  lemma {:induction false} SurvivorsRemain(t: ProcessTable, exited: set<Pid>, n: nat)
    requires TableOk(t) && n <= |t.keys|
    ensures Remaining(t, exited, n, Survivors(t, exited, n))
    decreases n
  {
    if n > 0 {
      SurvivorsRemain(t, exited, n - 1);
      RemainingStep(t, exited, n, Survivors(t, exited, n - 1), Survivors(t, exited, n));
    }
  }

  /**
   * `m` is what is left of table `t` after visiting its first `n` names:
   * exactly the entries not visited or whose process is alive, unchanged.
   */
  ghost predicate Remaining(t: ProcessTable, exited: set<Pid>, n: nat, m: map<string, ProcessInfo>)
    requires n <= |t.keys|
  {
    && (forall k :: k in m <==> k in t.entries && (k in t.keys[..n] ==> t.entries[k].pid !in exited))
    && (forall k :: k in m ==> m[k] == t.entries[k])
  }

  /** Visiting name `n - 1` takes what is left after `n - 1` names to what is left after `n`. */
  lemma RemainingStep(t: ProcessTable, exited: set<Pid>, n: nat, before: map<string, ProcessInfo>, after: map<string, ProcessInfo>)
    requires TableOk(t) && 0 < n <= |t.keys|
    requires Remaining(t, exited, n - 1, before)
    requires var k := t.keys[n - 1];
             after == if t.entries[k].pid in exited then before - {k} else before
    ensures Remaining(t, exited, n, after)
  {
    PrefixStep(t.keys, n);
  }

  /**
   * The records a pass over the first `n` names of table `t` collects: the
   * visited entries whose process exited without being marked as stopped
   * on purpose, in table order. It depends on the snapshot alone.
   */
  function Crashes(t: ProcessTable, exited: set<Pid>, n: nat): (cs: seq<ProcessInfo>)
    requires TableOk(t) && n <= |t.keys|
    ensures |cs| <= n
    decreases n
  {
    if n == 0 then
      []
    else
      var cs := Crashes(t, exited, n - 1);
      var info := t.entries[t.keys[n - 1]];
      if info.pid in exited && !info.manuallyStopped then cs + [info] else cs
  }

  /** Each collected record is the entry of a visited name whose process exited unmarked. */
  lemma {:induction false} CrashesAreExited(t: ProcessTable, exited: set<Pid>, n: nat)
    requires TableOk(t) && n <= |t.keys|
    ensures forall j :: 0 <= j < |Crashes(t, exited, n)| ==>
              var c := Crashes(t, exited, n)[j];
              && c.config.name in t.keys[..n]
              && t.entries[c.config.name] == c
              && c.pid in exited && !c.manuallyStopped
    decreases n
  {
    if n > 0 {
      CrashesAreExited(t, exited, n - 1);
      var cs := Crashes(t, exited, n - 1);
      var k := t.keys[n - 1];
      var info := t.entries[k];
      assert t.keys[..n] == t.keys[..n - 1] + [k];
      var all := Crashes(t, exited, n);
      assert all == if info.pid in exited && !info.manuallyStopped then cs + [info] else cs;
      forall j | 0 <= j < |all|
        ensures all[j].config.name in t.keys[..n] && t.entries[all[j].config.name] == all[j]
        ensures all[j].pid in exited && !all[j].manuallyStopped
      {
        if j < |cs| {
          assert all[j] == cs[j];
        } else {
          assert all[j] == info && info.config.name == k;
        }
      }
    }
  }

  /** Every visited name whose process exited unmarked has its entry collected. */
  lemma {:induction false} CrashesComplete(t: ProcessTable, exited: set<Pid>, n: nat)
    requires TableOk(t) && n <= |t.keys|
    ensures forall k :: k in t.keys[..n] && t.entries[k].pid in exited && !t.entries[k].manuallyStopped ==>
              t.entries[k] in Crashes(t, exited, n)
    decreases n
  {
    if n > 0 {
      CrashesComplete(t, exited, n - 1);
      assert t.keys[..n] == t.keys[..n - 1] + [t.keys[n - 1]];
    }
  }

  /** No name is collected twice. */
  lemma {:induction false} CrashesDistinct(t: ProcessTable, exited: set<Pid>, n: nat)
    requires TableOk(t) && n <= |t.keys|
    ensures Distinct(Names(Crashes(t, exited, n)))
    decreases n
  {
    if n > 0 {
      var cs := Crashes(t, exited, n - 1);
      var k := t.keys[n - 1];
      var info := t.entries[k];
      if info.pid in exited && !info.manuallyStopped {
        assert Distinct(Names(cs + [info])) by {
          CrashesDistinct(t, exited, n - 1);
          assert k !in Names(cs) by {
            CrashesAreExited(t, exited, n - 1);
            PrefixStep(t.keys, n);
            forall j | 0 <= j < |cs| ensures Names(cs)[j] != k {
              assert Names(cs)[j] == cs[j].config.name;
            }
          }
          assert Names(cs + [info]) == Names(cs) + [k];
          DistinctSnoc(Names(cs), k);
        }
        assert Crashes(t, exited, n) == cs + [info];
      } else {
        CrashesDistinct(t, exited, n - 1);
        assert Crashes(t, exited, n) == cs;
      }
    }
  }

  /**
   * After the first `n` names, the collected records are exactly those
   * visited entries whose process exited without being marked as stopped
   * on purpose, each under a different name.
   */
  lemma ReapCollectsCrashes(s: Supervisor, exited: set<Pid>, n: nat)
    requires TableOk(s.running) && n <= |s.running.keys|
    ensures var r := ReapPrefix(s, exited, n);
            && (forall j :: 0 <= j < |r.crashed| ==>
                  && r.crashed[j].config.name in s.running.keys[..n]
                  && s.running.entries[r.crashed[j].config.name] == r.crashed[j]
                  && r.crashed[j].pid in exited && !r.crashed[j].manuallyStopped)
            && (forall k :: k in s.running.keys[..n] && s.running.entries[k].pid in exited && !s.running.entries[k].manuallyStopped ==>
                  s.running.entries[k] in r.crashed)
            && Distinct(Names(r.crashed))
  {
    CrashesAreExited(s.running, exited, n);
    CrashesComplete(s.running, exited, n);
    CrashesDistinct(s.running, exited, n);
  }

  /** The first loop of a monitor cycle over the whole snapshot. */
  function Reap(s: Supervisor, exited: set<Pid>): (r: ReapResult)
    requires TableOk(s.running)
    ensures TableOk(r.after.running)
    // the names still listed are those whose process is alive, in their old order
    ensures r.after.running.keys == LiveKeys(s.running, exited, s.running.keys)
  {
    var keys := s.running.keys;
    ReapKeepsOrder(s, exited, |keys|);
    assert keys[..|keys|] == keys && keys[|keys|..] == [];
    ReapPrefix(s, exited, |keys|)
  }

  /**
   * The second loop of a monitor cycle: each collected record is started
   * again. `spawn` and `clock` say how the spawn goes and when it happens,
   * per service name. `RestartAllKeepsOthers` and `RestartAllRestores` state
   * what it does.
   */
  function RestartAll(s: Supervisor, crashed: seq<ProcessInfo>, spawn: string -> SpawnOutcome, clock: string -> Timestamp): (r: Supervisor)
    requires TableOk(s.running)
    ensures TableOk(r.running)
    decreases |crashed|
  {
    if crashed == [] then
      s
    else
      var c := crashed[|crashed| - 1];
      var r := RestartAll(s, crashed[..|crashed| - 1], spawn, clock);
      StartService(r, c.groupId, c.config, spawn(c.config.name), clock(c.config.name)).after
  }

  /** Restarting leaves the entries of other names alone and adds no other name. */
  lemma {:induction false} RestartAllKeepsOthers(s: Supervisor, crashed: seq<ProcessInfo>, spawn: string -> SpawnOutcome, clock: string -> Timestamp)
    requires TableOk(s.running)
    ensures var r := RestartAll(s, crashed, spawn, clock).running.entries;
            && (forall k :: k in s.running.entries && k !in Names(crashed) ==> k in r && r[k] == s.running.entries[k])
            && (forall k :: k in r ==> k in s.running.entries || k in Names(crashed))
    decreases |crashed|
  {
    if crashed != [] {
      var init := crashed[..|crashed| - 1];
      RestartAllKeepsOthers(s, init, spawn, clock);
      assert Names(crashed) == Names(init) + [crashed[|crashed| - 1].config.name];
    }
  }

  /**
   * With distinct names, none of them in the table, each collected service
   * is back exactly when its spawn succeeded, as a fresh record of the same
   * service and group that is not marked as stopped.
   */
  lemma {:induction false} RestartAllRestores(s: Supervisor, crashed: seq<ProcessInfo>, spawn: string -> SpawnOutcome, clock: string -> Timestamp)
    requires TableOk(s.running)
    requires Distinct(Names(crashed))
    requires forall c :: c in crashed ==> c.config.name !in s.running.entries
    ensures var r := RestartAll(s, crashed, spawn, clock).running.entries;
            forall c :: c in crashed ==>
              && (c.config.name in r <==> spawn(c.config.name).Spawned?)
              && (spawn(c.config.name).Spawned? ==>
                    r[c.config.name] == ProcessInfo(c.groupId, c.config, spawn(c.config.name).pid, clock(c.config.name), false))
    decreases |crashed|
  {
    if crashed != [] {
      var init := crashed[..|crashed| - 1];
      var c := crashed[|crashed| - 1];
      assert forall x :: x in crashed <==> x in init || x == c;
      assert Names(crashed)[..|init|] == Names(init);
      RestartAllRestores(s, init, spawn, clock);
      RestartAllKeepsOthers(s, init, spawn, clock);
      forall x | x in init ensures x.config.name != c.config.name {
        var i :| 0 <= i < |init| && init[i] == x;
        assert Names(init)[i] == x.config.name;
      }
    }
  }

  /** One pass of `_monitor_and_restart`'s loop, between two sleeps. */
  function MonitorCycle(s: Supervisor, exited: set<Pid>, spawn: string -> SpawnOutcome, clock: string -> Timestamp): (r: Supervisor)
    requires TableOk(s.running)
    ensures TableOk(r.running)
  {
    var r := Reap(s, exited);
    RestartAll(r.after, r.crashed, spawn, clock)
  }

  /**
   * One monitor cycle, entry by entry: a live process keeps its entry; an
   * exited one marked as stopped on purpose is dropped; an exited one not
   * so marked is back exactly when its restart succeeded, as a fresh record
   * of the same service and group, not marked. No other name appears.
   */
  lemma MonitorCycleSpec(s: Supervisor, exited: set<Pid>, spawn: string -> SpawnOutcome, clock: string -> Timestamp)
    requires TableOk(s.running)
    ensures var t := s.running.entries;
            var r := MonitorCycle(s, exited, spawn, clock).running.entries;
            && (forall k :: k in r ==> k in t)
            && (forall k :: k in t && t[k].pid !in exited ==> k in r && r[k] == t[k])
            && (forall k :: k in t && t[k].pid in exited && t[k].manuallyStopped ==> k !in r)
            && (forall k :: k in t && t[k].pid in exited && !t[k].manuallyStopped ==>
                  && (k in r <==> spawn(k).Spawned?)
                  && (spawn(k).Spawned? ==> r[k] == ProcessInfo(t[k].groupId, t[k].config, spawn(k).pid, clock(k), false)))
  {
    var n := |s.running.keys|;
    assert s.running.keys[..n] == s.running.keys;
    ReapCollectsCrashes(s, exited, n);
    SurvivorsRemain(s.running, exited, n);
    var reaped := Reap(s, exited);
    RestartAllKeepsOthers(reaped.after, reaped.crashed, spawn, clock);
    RestartAllRestores(reaped.after, reaped.crashed, spawn, clock);
    forall k | k in Names(reaped.crashed) ensures k in s.running.entries && s.running.entries[k].pid in exited && !s.running.entries[k].manuallyStopped {
      var i :| 0 <= i < |reaped.crashed| && Names(reaped.crashed)[i] == k;
    }
  }

  /**
   * A stop in progress is never mistaken for a crash: once the entry is
   * marked, a monitor cycle that sees its process gone drops the entry
   * instead of restarting it, and one that sees it alive keeps it as marked.
   */
  lemma MonitorIgnoresStopInFlight(t: ProcessTable, log: seq<Event>, name: string, exited: set<Pid>, spawn: string -> SpawnOutcome, clock: string -> Timestamp)
    requires TableOk(t) && name in t.entries
    ensures var r := MonitorCycle(Supervisor(SignalView(t, name), log), exited, spawn, clock).running.entries;
            if t.entries[name].pid in exited then name !in r
            else name in r && r[name].manuallyStopped
  {
    var v := SignalView(t, name);
    MonitorCycleSpec(Supervisor(v, log), exited, spawn, clock);
  }

  /** The status of a service depends only on its own entry. */
  lemma StatusForAgrees(t1: ProcessTable, t2: ProcessTable, exited: set<Pid>, name: string, groupId: string)
    requires name in t1.entries <==> name in t2.entries
    requires name in t1.entries ==> t1.entries[name] == t2.entries[name]
    ensures StatusFor(t1, exited, name, groupId) == StatusFor(t2, exited, name, groupId)
  {
  }

  // ---------------------------------------------------------------------
  // Starting a group
  // ---------------------------------------------------------------------

  /** The service names of a list of configurations. */
  function ConfigNames(configs: seq<ServiceConfig>): (names: seq<string>)
    ensures |names| == |configs|
    ensures forall i :: 0 <= i < |configs| ==> names[i] == configs[i].name
  {
    seq(|configs|, i requires 0 <= i < |configs| => configs[i].name)
  }

  /** `service_groups` is a mapping, so each group id occurs in it once. */
  ghost predicate GroupIdsDistinct(groups: seq<ServiceGroup>) {
    forall i, j :: 0 <= i < j < |groups| ==> groups[i].groupId != groups[j].groupId
  }

  /**
   * `config.get("service_groups", {}).get(group_id)`: the service list of
   * the first group with this id, or nothing when there is none.
   */
  function LookupGroup(groups: seq<ServiceGroup>, groupId: string): (r: Option<seq<ServiceConfig>>)
    ensures r.None? <==> forall i :: 0 <= i < |groups| ==> groups[i].groupId != groupId
    ensures r.Some? ==> exists i :: 0 <= i < |groups| && groups[i].groupId == groupId && r.value == groups[i].services &&
                                  forall j :: 0 <= j < i ==> groups[j].groupId != groupId
    decreases |groups|
  {
    if groups == [] then None
    else if groups[0].groupId == groupId then Some(groups[0].services)
    else
      var r := LookupGroup(groups[1..], groupId);
      assert forall i :: 0 < i < |groups| ==> groups[i] == groups[1..][i - 1];
      r
  }

  /** With group ids distinct, as in a mapping, each group's id finds exactly that group's list. */
  lemma LookupGroupUnique(groups: seq<ServiceGroup>, i: nat)
    requires GroupIdsDistinct(groups) && i < |groups|
    ensures LookupGroup(groups, groups[i].groupId) == Some(groups[i].services)
  {
    var r := LookupGroup(groups, groups[i].groupId);
    var k :| 0 <= k < |groups| && groups[k].groupId == groups[i].groupId && r.value == groups[k].services &&
             forall j :: 0 <= j < k ==> groups[j].groupId != groups[i].groupId;
    if k != i {
      assert false;
    }
  }

  /** The single status `start_group` answers for a group it does not know or that lists no service. */
  function GroupNotFound(groupId: string): (r: ServiceStatus)
    ensures r.name == "group_" + groupId && r.groupId == groupId && r.status == Stopped
    ensures r.pid == None && r.startTime == None && r.detail == "Group ID not found in config."
  {
    ServiceStatus("group_" + groupId, groupId, Stopped, None, None, "Group ID not found in config.")
  }

  datatype GroupResult = GroupResult(after: Supervisor, statuses: seq<ServiceStatus>)

  /**
   * `start_group`'s loop over the group's service list: a service already in
   * the table is only asked for its status; any other is started first.
   * `exited` is the set of pids `poll()` reports as finished while the call
   * runs; `spawn` and `clock` say, per service name, how the spawn goes and
   * when. `StartEachReports`, `StartEachKeepsEntries`, `StartEachStartsSpawned`
   * and `StartEachStatuses` state what it does.
   */
  function StartEach(s: Supervisor, groupId: string, configs: seq<ServiceConfig>, exited: set<Pid>,
                     spawn: string -> SpawnOutcome, clock: string -> Timestamp): (r: GroupResult)
    requires TableOk(s.running)
    ensures TableOk(r.after.running)
    ensures |r.statuses| == |configs|
    decreases |configs|
  {
    if configs == [] then
      GroupResult(s, [])
    else
      var r := StartEach(s, groupId, configs[..|configs| - 1], exited, spawn, clock);
      var c := configs[|configs| - 1];
      if c.name in r.after.running.entries then
        GroupResult(r.after, r.statuses + [StatusFor(r.after.running, exited, c.name, groupId)])
      else
        var started := StartService(r.after, groupId, c, spawn(c.name), clock(c.name)).after;
        GroupResult(started, r.statuses + [StatusFor(started.running, exited, c.name, groupId)])
  }

  /** One more listed service continues the loop: it is started unless present, then asked for its status. */
  lemma StartEachStep(s: Supervisor, groupId: string, configs: seq<ServiceConfig>, i: nat, exited: set<Pid>,
                      spawn: string -> SpawnOutcome, clock: string -> Timestamp, now: GroupResult, next: Supervisor)
    requires TableOk(s.running) && i < |configs|
    requires StartEach(s, groupId, configs[..i], exited, spawn, clock) == now
    requires configs[i].name in now.after.running.entries ==> next == now.after
    requires configs[i].name !in now.after.running.entries ==>
               next == StartService(now.after, groupId, configs[i], spawn(configs[i].name), clock(configs[i].name)).after
    ensures StartEach(s, groupId, configs[..i + 1], exited, spawn, clock)
            == GroupResult(next, now.statuses + [StatusFor(next.running, exited, configs[i].name, groupId)])
  {
    assert configs[..i + 1][..i] == configs[..i];
  }

  /** One status per listed service, in list order, each under its own name and the group's id. */
  lemma {:induction false} StartEachReports(s: Supervisor, groupId: string, configs: seq<ServiceConfig>, exited: set<Pid>,
                                            spawn: string -> SpawnOutcome, clock: string -> Timestamp)
    requires TableOk(s.running)
    ensures var r := StartEach(s, groupId, configs, exited, spawn, clock);
            forall i :: 0 <= i < |configs| ==> r.statuses[i].name == configs[i].name && r.statuses[i].groupId == groupId
    decreases |configs|
  {
    if configs != [] {
      var n := |configs| - 1;
      var c := configs[n];
      var init := configs[..n];
      StartEachReports(s, groupId, init, exited, spawn, clock);
      var r := StartEach(s, groupId, init, exited, spawn, clock);
      var next := if c.name in r.after.running.entries then r.after
                  else StartService(r.after, groupId, c, spawn(c.name), clock(c.name)).after;
      StartEachStep(s, groupId, configs, n, exited, spawn, clock, r, next);
      assert configs[..n + 1] == configs;
      var statuses := r.statuses + [StatusFor(next.running, exited, c.name, groupId)];
      assert StartEach(s, groupId, configs, exited, spawn, clock).statuses == statuses;
      forall i | 0 <= i < |configs|
        ensures statuses[i].name == configs[i].name && statuses[i].groupId == groupId
      {
        if i < n {
          assert statuses[i] == r.statuses[i] && configs[i] == init[i];
        }
      }
    }
  }

  /**
   * Entries already in the table are never replaced, only listed names are
   * added, and none of the added ones is marked as stopped on purpose.
   */
  lemma {:induction false} StartEachKeepsEntries(s: Supervisor, groupId: string, configs: seq<ServiceConfig>, exited: set<Pid>,
                                                 spawn: string -> SpawnOutcome, clock: string -> Timestamp)
    requires TableOk(s.running)
    ensures var r := StartEach(s, groupId, configs, exited, spawn, clock);
            && (forall k :: k in s.running.entries ==> k in r.after.running.entries && r.after.running.entries[k] == s.running.entries[k])
            && (forall k :: k in r.after.running.entries ==> k in s.running.entries || k in ConfigNames(configs))
            && (forall k :: k in r.after.running.entries && k !in s.running.entries ==> !r.after.running.entries[k].manuallyStopped)
    decreases |configs|
  {
    if configs != [] {
      var init := configs[..|configs| - 1];
      StartEachKeepsEntries(s, groupId, init, exited, spawn, clock);
      assert ConfigNames(configs) == ConfigNames(init) + [configs[|configs| - 1].name];
    }
  }

  /** Every listed service whose spawn succeeds is in the table afterwards. */
  lemma {:induction false} StartEachStartsSpawned(s: Supervisor, groupId: string, configs: seq<ServiceConfig>, exited: set<Pid>,
                                                  spawn: string -> SpawnOutcome, clock: string -> Timestamp)
    requires TableOk(s.running)
    ensures var r := StartEach(s, groupId, configs, exited, spawn, clock);
            forall i :: 0 <= i < |configs| && spawn(configs[i].name).Spawned? ==> configs[i].name in r.after.running.entries
    decreases |configs|
  {
    if configs != [] {
      var n := |configs| - 1;
      var c := configs[n];
      var init := configs[..n];
      StartEachStartsSpawned(s, groupId, init, exited, spawn, clock);
      var r := StartEach(s, groupId, init, exited, spawn, clock);
      var next := if c.name in r.after.running.entries then r.after
                  else StartService(r.after, groupId, c, spawn(c.name), clock(c.name)).after;
      StartEachStep(s, groupId, configs, n, exited, spawn, clock, r, next);
      assert configs[..n + 1] == configs;
      assert StartEach(s, groupId, configs, exited, spawn, clock).after == next;
      var before := r.after.running.entries;
      assert before.Keys <= next.running.entries.Keys && (spawn(c.name).Spawned? ==> c.name in next.running.entries) by {
        if c.name !in before {
          var started := StartService(r.after, groupId, c, spawn(c.name), clock(c.name));
          assert started.started ==> started.after.running.entries == before[c.name := ProcessInfo(groupId, c, spawn(c.name).pid, clock(c.name), false)];
        }
      }
      forall i | 0 <= i < |configs| && spawn(configs[i].name).Spawned?
        ensures configs[i].name in next.running.entries
      {
        if i < n {
          assert configs[i] == init[i];
          assert configs[i].name in before;
        }
      }
    }
  }

  /**
   * When the listed names are distinct, each returned status is the one
   * `get_status_for_service` gives on the table the call ends with.
   */
  lemma {:induction false} StartEachStatuses(s: Supervisor, groupId: string, configs: seq<ServiceConfig>, exited: set<Pid>,
                                             spawn: string -> SpawnOutcome, clock: string -> Timestamp)
    requires TableOk(s.running)
    ensures var r := StartEach(s, groupId, configs, exited, spawn, clock);
            Distinct(ConfigNames(configs)) ==>
              forall i :: 0 <= i < |configs| ==> r.statuses[i] == StatusFor(r.after.running, exited, configs[i].name, groupId)
    decreases |configs|
  {
    if configs != [] {
      var n := |configs| - 1;
      var init := configs[..n];
      var c := configs[n];
      var r := StartEach(s, groupId, init, exited, spawn, clock);
      var next := if c.name in r.after.running.entries then r.after
                  else StartService(r.after, groupId, c, spawn(c.name), clock(c.name)).after;
      assert StartEach(s, groupId, configs, exited, spawn, clock)
             == GroupResult(next, r.statuses + [StatusFor(next.running, exited, c.name, groupId)]) by {
        StartEachStep(s, groupId, configs, n, exited, spawn, clock, r, next);
        assert configs[..n + 1] == configs;
      }
      StartEachStatuses(s, groupId, init, exited, spawn, clock);
      StartKeepsOthers(r.after, groupId, c, spawn(c.name), clock(c.name), next);
      StatusesExtend(r.after.running, next.running, exited, groupId, configs, r.statuses);
    }
  }

  /** Starting one service, or skipping it, leaves the entries of every other name as they were. */
  lemma StartKeepsOthers(s: Supervisor, groupId: string, config: ServiceConfig, spawn: SpawnOutcome, now: Timestamp, next: Supervisor)
    requires TableOk(s.running)
    requires config.name in s.running.entries ==> next == s
    requires config.name !in s.running.entries ==> next == StartService(s, groupId, config, spawn, now).after
    ensures forall k :: k != config.name ==> (k in s.running.entries <==> k in next.running.entries)
    ensures forall k :: k != config.name && k in s.running.entries ==> s.running.entries[k] == next.running.entries[k]
  {
  }

  /** The statuses of a list stay right across a start of one more listed service, the list's names being distinct. */
  lemma StatusesExtend(t1: ProcessTable, t2: ProcessTable, exited: set<Pid>, groupId: string,
                       configs: seq<ServiceConfig>, statuses: seq<ServiceStatus>)
    requires |statuses| + 1 == |configs|
    requires var init := configs[..|statuses|];
             Distinct(ConfigNames(init)) ==>
               forall i :: 0 <= i < |init| ==> statuses[i] == StatusFor(t1, exited, init[i].name, groupId)
    requires forall k :: k != configs[|statuses|].name ==> (k in t1.entries <==> k in t2.entries)
    requires forall k :: k != configs[|statuses|].name && k in t1.entries ==> t1.entries[k] == t2.entries[k]
    ensures var all := statuses + [StatusFor(t2, exited, configs[|statuses|].name, groupId)];
            Distinct(ConfigNames(configs)) ==>
              forall i :: 0 <= i < |configs| ==> all[i] == StatusFor(t2, exited, configs[i].name, groupId)
  {
    var init := configs[..|statuses|];
    var c := configs[|statuses|];
    var all := statuses + [StatusFor(t2, exited, c.name, groupId)];
    if Distinct(ConfigNames(configs)) {
      var names := ConfigNames(init);
      assert Distinct(names) && c.name !in names by {
        assert ConfigNames(configs)[..|init|] == names;
      }
      StatusesSurvive(t1, t2, exited, groupId, names, statuses, c.name);
      forall i | 0 <= i < |configs|
        ensures all[i] == StatusFor(t2, exited, configs[i].name, groupId)
      {
        if i < |init| {
          assert all[i] == statuses[i] && configs[i] == init[i] && names[i] == init[i].name;
        }
      }
    }
  }

  /** Statuses taken of names other than `changed` stay right when only `changed`'s entry moves. */
  lemma StatusesSurvive(t1: ProcessTable, t2: ProcessTable, exited: set<Pid>, groupId: string,
                        names: seq<string>, statuses: seq<ServiceStatus>, changed: string)
    requires |statuses| == |names| && changed !in names
    requires forall i :: 0 <= i < |names| ==> statuses[i] == StatusFor(t1, exited, names[i], groupId)
    requires forall k :: k != changed ==> (k in t1.entries <==> k in t2.entries)
    requires forall k :: k != changed && k in t1.entries ==> t1.entries[k] == t2.entries[k]
    ensures forall i :: 0 <= i < |names| ==> statuses[i] == StatusFor(t2, exited, names[i], groupId)
  {
    forall i | 0 <= i < |names| ensures statuses[i] == StatusFor(t2, exited, names[i], groupId) {
      StatusForAgrees(t1, t2, exited, names[i], groupId);
    }
  }

  /** When every listed service is already in the table, the loop changes nothing and only reports. */
  lemma {:induction false} StartEachAllPresent(s: Supervisor, groupId: string, configs: seq<ServiceConfig>, exited: set<Pid>,
                                               spawn: string -> SpawnOutcome, clock: string -> Timestamp)
    requires TableOk(s.running)
    requires forall i :: 0 <= i < |configs| ==> configs[i].name in s.running.entries
    ensures var r := StartEach(s, groupId, configs, exited, spawn, clock);
            r.after == s && forall i :: 0 <= i < |configs| ==> r.statuses[i] == StatusFor(s.running, exited, configs[i].name, groupId)
    decreases |configs|
  {
    if configs != [] {
      var n := |configs| - 1;
      var init := configs[..n];
      StartEachAllPresent(s, groupId, init, exited, spawn, clock);
      var r := StartEach(s, groupId, init, exited, spawn, clock);
      assert configs[n].name in r.after.running.entries;
    }
  }

  /**
   * `start_group`: an unknown group, or one listing no service, gets the
   * single not-found status and changes nothing; otherwise the group's
   * services are walked in order.
   */
  function StartGroup(s: Supervisor, groups: seq<ServiceGroup>, groupId: string, exited: set<Pid>,
                      spawn: string -> SpawnOutcome, clock: string -> Timestamp): (r: GroupResult)
    requires TableOk(s.running)
    ensures TableOk(r.after.running)
  {
    match LookupGroup(groups, groupId)
    case None => GroupResult(s, [GroupNotFound(groupId)])
    case Some(services) =>
      if services == [] then GroupResult(s, [GroupNotFound(groupId)])
      else StartEach(s, groupId, services, exited, spawn, clock)
  }

  /**
   * `start_group` answers the not-found status alone, with nothing changed,
   * exactly when the group is unknown or empty; otherwise it answers one
   * status per listed service, named as listed, and keeps every existing entry.
   */
  lemma StartGroupSpec(s: Supervisor, groups: seq<ServiceGroup>, groupId: string, exited: set<Pid>,
                       spawn: string -> SpawnOutcome, clock: string -> Timestamp)
    requires TableOk(s.running)
    ensures var r := StartGroup(s, groups, groupId, exited, spawn, clock);
            var found := LookupGroup(groups, groupId);
            if found.None? || found.value == [] then r == GroupResult(s, [GroupNotFound(groupId)])
            else
              && |r.statuses| == |found.value|
              && (forall i :: 0 <= i < |found.value| ==> r.statuses[i].name == found.value[i].name && r.statuses[i].groupId == groupId)
              && (forall k :: k in s.running.entries ==> k in r.after.running.entries && r.after.running.entries[k] == s.running.entries[k])
  {
    var found := LookupGroup(groups, groupId);
    if found.Some? && found.value != [] {
      StartEachReports(s, groupId, found.value, exited, spawn, clock);
      StartEachKeepsEntries(s, groupId, found.value, exited, spawn, clock);
    }
  }

  /**
   * Starting a group twice: once the first call has started every listed
   * service, the second call starts nothing and changes nothing, whatever
   * the spawns would do, and reports the statuses of the table as it is.
   */
  lemma StartGroupTwice(s: Supervisor, groups: seq<ServiceGroup>, groupId: string, exited: set<Pid>,
                        spawn: string -> SpawnOutcome, clock: string -> Timestamp,
                        spawn2: string -> SpawnOutcome, clock2: string -> Timestamp)
    requires TableOk(s.running)
    requires forall c :: LookupGroup(groups, groupId).Some? && c in LookupGroup(groups, groupId).value ==> spawn(c.name).Spawned?
    ensures var first := StartGroup(s, groups, groupId, exited, spawn, clock);
            var second := StartGroup(first.after, groups, groupId, exited, spawn2, clock2);
            second.after == first.after
  {
    var found := LookupGroup(groups, groupId);
    if found.Some? && found.value != [] {
      assert forall i :: 0 <= i < |found.value| ==> found.value[i] in found.value;
      StartEachStartsSpawned(s, groupId, found.value, exited, spawn, clock);
      var first := StartGroup(s, groups, groupId, exited, spawn, clock);
      StartEachAllPresent(first.after, groupId, found.value, exited, spawn2, clock2);
    }
  }

  // ---------------------------------------------------------------------
  // Statuses of every configured service
  // ---------------------------------------------------------------------

  /** A configured service together with the group it is listed under. */
  datatype Member = Member(groupId: string, config: ServiceConfig)

  /** The services one group lists, in list order, each with the group's id. */
  function MembersOf(g: ServiceGroup): (ms: seq<Member>)
    ensures |ms| == |g.services|
    ensures forall i :: 0 <= i < |ms| ==> ms[i] == Member(g.groupId, g.services[i])
  {
    seq(|g.services|, i requires 0 <= i < |g.services| => Member(g.groupId, g.services[i]))
  }

  /** Every configured service, group by group, each group's list in order. */
  function Configured(groups: seq<ServiceGroup>): seq<Member>
    decreases |groups|
  {
    if groups == [] then [] else Configured(groups[..|groups| - 1]) + MembersOf(groups[|groups| - 1])
  }

  /** The configured services are exactly the pairs of a group's id and one of the services it lists. */
  lemma {:induction false} ConfiguredMembers(groups: seq<ServiceGroup>)
    ensures forall m :: m in Configured(groups) <==> exists g :: g in groups && m.groupId == g.groupId && m.config in g.services
    decreases |groups|
  {
    if groups != [] {
      var g := groups[|groups| - 1];
      var init := groups[..|groups| - 1];
      ConfiguredMembers(init);
      assert forall x :: x in groups <==> x in init || x == g;
      var ms := MembersOf(g);
      assert forall m :: m in ms <==> m.groupId == g.groupId && m.config in g.services by {
        forall m: Member | m.groupId == g.groupId && m.config in g.services ensures m in ms {
          var i :| 0 <= i < |g.services| && g.services[i] == m.config;
          assert ms[i] == m;
        }
      }
      assert Configured(groups) == Configured(init) + ms;
    }
  }

  /** The statuses of one group's services, in list order. */
  function GroupStatuses(t: ProcessTable, exited: set<Pid>, groupId: string, services: seq<ServiceConfig>): seq<ServiceStatus>
    decreases |services|
  {
    if services == [] then []
    else GroupStatuses(t, exited, groupId, services[..|services| - 1]) + [StatusFor(t, exited, services[|services| - 1].name, groupId)]
  }

  /** `get_all_statuses`: the group loop around the service loop. */
  function AllStatuses(t: ProcessTable, exited: set<Pid>, groups: seq<ServiceGroup>): seq<ServiceStatus>
    decreases |groups|
  {
    if groups == [] then []
    else
      var g := groups[|groups| - 1];
      AllStatuses(t, exited, groups[..|groups| - 1]) + GroupStatuses(t, exited, g.groupId, g.services)
  }

  /** Each group's statuses are its services' statuses, in order. */
  lemma {:induction false} GroupStatusesSpec(t: ProcessTable, exited: set<Pid>, groupId: string, services: seq<ServiceConfig>)
    ensures var r := GroupStatuses(t, exited, groupId, services);
            |r| == |services| && forall i :: 0 <= i < |services| ==> r[i] == StatusFor(t, exited, services[i].name, groupId)
    decreases |services|
  {
    if services != [] {
      GroupStatusesSpec(t, exited, groupId, services[..|services| - 1]);
    }
  }

  /**
   * `get_all_statuses` answers one status per configured service, in
   * configuration order, each as `get_status_for_service` gives it.
   */
  lemma {:induction false} AllStatusesSpec(t: ProcessTable, exited: set<Pid>, groups: seq<ServiceGroup>)
    ensures var r := AllStatuses(t, exited, groups);
            var ms := Configured(groups);
            |r| == |ms| && forall i :: 0 <= i < |ms| ==> r[i] == StatusFor(t, exited, ms[i].config.name, ms[i].groupId)
    decreases |groups|
  {
    if groups != [] {
      var g := groups[|groups| - 1];
      var init := groups[..|groups| - 1];
      AllStatusesSpec(t, exited, init);
      GroupStatusesSpec(t, exited, g.groupId, g.services);
      var r0: seq<ServiceStatus>, ms0: seq<Member> := AllStatuses(t, exited, init), Configured(init);
      var rs: seq<ServiceStatus>, ls: seq<Member> := GroupStatuses(t, exited, g.groupId, g.services), MembersOf(g);
      assert AllStatuses(t, exited, groups) == r0 + rs;
      assert Configured(groups) == ms0 + ls;
      forall i | 0 <= i < |ms0| + |ls|
        ensures (r0 + rs)[i] == StatusFor(t, exited, (ms0 + ls)[i].config.name, (ms0 + ls)[i].groupId)
      {
        if i >= |ms0| {
          assert (r0 + rs)[i] == rs[i - |ms0|] && (ms0 + ls)[i] == ls[i - |ms0|];
        }
      }
    }
  }

  /** With nothing running, every configured service is reported stopped, with no pid. */
  lemma AllStoppedWhenIdle(t: ProcessTable, exited: set<Pid>, groups: seq<ServiceGroup>)
    requires t.entries == map[]
    ensures forall st: ServiceStatus :: st in AllStatuses(t, exited, groups) ==> st.status == Stopped && st.pid == None
  {
    AllStatusesSpec(t, exited, groups);
  }
}
