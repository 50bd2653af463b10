/**
 * The process manager object: its configuration, its process table and
 * the log lines it writes, changed in place by its methods the way the
 * supervisor changes them, and proved to agree with the functions of
 * `Supervision` on every call.
 */
module ProcessManagement {
  import opened Wrappers
  import opened OrderedDict
  import opened Supervision

  class ProcessManager {
    /** The parsed `service_groups` section of the configuration, in file order. */
    const serviceGroups: seq<ServiceGroup>
    /** `running_processes`, by service name. */
    var runningProcesses: ProcessTable
    /** The lines written through `print_orchestrator`, as events. */
    var log: seq<Event>

    function State(): Supervisor
      reads this
    {
      Supervisor(runningProcesses, log)
    }

    /**
     * Between operations the table is well formed and no entry is marked
     * as stopped on purpose; the configuration names each group once.
     */
    ghost predicate Valid()
      reads this
    {
      TableOk(runningProcesses) && NoneMarked(runningProcesses) && GroupIdsDistinct(serviceGroups)
    }

    /** A manager over the given configuration, with nothing running yet. */
    constructor (groups: seq<ServiceGroup>)
      requires GroupIdsDistinct(groups)
      ensures Valid()
      ensures serviceGroups == groups && runningProcesses.entries == map[] && log == []
    {
      serviceGroups := groups;
      runningProcesses := Empty();
      log := [];
    }

    /** `_start_single_service` for a service of `groupId` configured as `config`. */
    method StartSingleService(groupId: string, config: ServiceConfig, spawn: SpawnOutcome, now: Timestamp) returns (ok: bool)
      requires Valid()
      modifies this
      ensures Valid()
      ensures StartResult(State(), ok) == StartService(old(State()), groupId, config, spawn, now)
    {
      log := log + [Starting(config.name)];
      if spawn.SpawnFailed? {
        log := log + [StartFailed(config.name)];
        return false;
      }
      var info := ProcessInfo(groupId, config, spawn.pid, now, false);
      runningProcesses := runningProcesses.Put(config.name, info);
      log := log + [StartedWithPid(config.name, spawn.pid)];
      ok := true;
    }

    /**
     * `_stop_single_service`: `raised` reports the exception that escapes
     * when the kill after the grace period fails.
     */
    method StopSingleService(name: string, outcome: StopOutcome) returns (raised: bool)
      requires Valid()
      modifies this
      ensures Valid()
      ensures StopResult(State(), raised) == StopService(old(State()), name, outcome)
    {
      if name !in runningProcesses.entries {
        return false;
      }
      var info := runningProcesses.entries[name];
      log := log + [Stopping(name, info.pid)];
      runningProcesses := runningProcesses.Put(name, info.(manuallyStopped := true));
      raised := false;
      match outcome {
        case ExitedInTime =>
          log := log + [StoppedGracefully(name)];
        case GraceExpired =>
          log := log + [ForcingKill(name)];
        case GraceExpiredKillRaised =>
          log := log + [ForcingKill(name)];
          raised := true;
        case ProcessGone =>
          log := log + [AlreadyGone(name)];
        case SignalFailed =>
          log := log + [StopFailed(name)];
      }
      if name in runningProcesses.entries {
        runningProcesses := runningProcesses.Remove(name);
      }
    }

    /** Stops the listed names one after the other, giving up at the first stop that raises. */
    method StopEach(names: seq<string>, outcome: string -> StopOutcome) returns (raised: bool)
      requires Valid()
      modifies this
      ensures Valid()
      ensures StopResult(State(), raised) == StopNames(old(State()), names, outcome)
    {
      ghost var s0 := State();
      var i := 0;
      while i < |names|
        invariant 0 <= i <= |names|
        invariant Valid()
        invariant StopResult(State(), false) == StopNames(s0, names[..i], outcome)
      {
        assert names[..i + 1] == names[..i] + [names[i]];
        StopNamesSnoc(s0, names[..i], names[i], outcome);
        raised := StopSingleService(names[i], outcome(names[i]));
        if raised {
          StopNamesAfterRaise(s0, names, i + 1, outcome);
          return;
        }
        i := i + 1;
      }
      assert names[..i] == names;
      raised := false;
    }

    /** `stop_group`. */
    method StopGroup(groupId: string, outcome: string -> StopOutcome) returns (raised: bool)
      requires Valid()
      modifies this
      ensures Valid()
      ensures StopResult(State(), raised) == Supervision.StopGroup(old(State()), groupId, outcome)
    {
      var servicesToStop := GroupMembers(runningProcesses, groupId);
      raised := StopEach(servicesToStop, outcome);
    }

    /** `stop_all`. */
    method StopAll(outcome: string -> StopOutcome) returns (raised: bool)
      requires Valid()
      modifies this
      ensures Valid()
      ensures StopResult(State(), raised) == Supervision.StopAll(old(State()), outcome)
    {
      var names := runningProcesses.keys;
      log := log + [ShuttingDown];
      raised := StopEach(names, outcome);
    }

    /** The first loop of a monitor pass: drops exited entries and collects the crashed ones. */
    method ReapExited(exited: set<Pid>) returns (crashedServices: seq<ProcessInfo>)
      requires Valid()
      modifies this
      ensures Valid()
      ensures ReapResult(State(), crashedServices) == Reap(old(State()), exited)
    {
      ghost var s0 := State();
      var snapshot := runningProcesses;
      crashedServices := [];
      var i := 0;
      while i < |snapshot.keys|
        invariant 0 <= i <= |snapshot.keys|
        invariant ReapResult(State(), crashedServices) == ReapPrefix(s0, exited, i)
        invariant Valid()
      {
        var name := snapshot.keys[i];
        ReapPrefixStep(s0, exited, i, ReapResult(State(), crashedServices));
        crashedServices := VisitEntry(name, snapshot.entries[name], exited, crashedServices);
        i := i + 1;
      }
    }

    /** The first loop's body for one name of the snapshot and the record the snapshot holds for it. */
    method VisitEntry(name: string, info: ProcessInfo, exited: set<Pid>, crashedServices: seq<ProcessInfo>)
      returns (crashedAfter: seq<ProcessInfo>)
      requires Valid()
      modifies this
      ensures Valid()
      ensures ReapResult(State(), crashedAfter) == Visit(ReapResult(old(State()), crashedServices), name, info, exited)
    {
      crashedAfter := crashedServices;
      if info.pid in exited {
        if !info.manuallyStopped {
          log := log + [CrashDetected(name)];
          crashedAfter := crashedServices + [info];
        }
        runningProcesses := runningProcesses.Remove(name);
      }
    }

    /** The second loop of a monitor pass: starts each collected service again. */
    method RestartCrashed(crashedServices: seq<ProcessInfo>, spawn: string -> SpawnOutcome, clock: string -> Timestamp)
      requires Valid()
      modifies this
      ensures Valid()
      ensures State() == RestartAll(old(State()), crashedServices, spawn, clock)
    {
      ghost var s0 := State();
      var j := 0;
      while j < |crashedServices|
        invariant 0 <= j <= |crashedServices|
        invariant State() == RestartAll(s0, crashedServices[..j], spawn, clock)
        invariant Valid()
      {
        assert crashedServices[..j + 1][..j] == crashedServices[..j];
        var info := crashedServices[j];
        var _ := StartSingleService(info.groupId, info.config, spawn(info.config.name), clock(info.config.name));
        j := j + 1;
      }
      assert crashedServices[..j] == crashedServices;
    }

    /** One pass of `_monitor_and_restart`, between two sleeps. */
    method MonitorCycle(exited: set<Pid>, spawn: string -> SpawnOutcome, clock: string -> Timestamp)
      requires Valid()
      modifies this
      ensures Valid()
      ensures State() == Supervision.MonitorCycle(old(State()), exited, spawn, clock)
    {
      var crashedServices := ReapExited(exited);
      RestartCrashed(crashedServices, spawn, clock);
    }

    /** One turn of `start_group`'s loop: start the service unless it has an entry, then report its status. */
    method StartOne(groupId: string, config: ServiceConfig, exited: set<Pid>, spawn: string -> SpawnOutcome, clock: string -> Timestamp)
      returns (status: ServiceStatus)
      requires Valid()
      modifies this
      ensures Valid()
      ensures config.name in old(runningProcesses.entries) ==> State() == old(State())
      ensures config.name !in old(runningProcesses.entries) ==>
                State() == StartService(old(State()), groupId, config, spawn(config.name), clock(config.name)).after
      ensures status == StatusFor(runningProcesses, exited, config.name, groupId)
    {
      if config.name !in runningProcesses.entries {
        var _ := StartSingleService(groupId, config, spawn(config.name), clock(config.name));
      }
      status := StatusFor(runningProcesses, exited, config.name, groupId);
    }

    /** `start_group`. */
    method StartGroup(groupId: string, exited: set<Pid>, spawn: string -> SpawnOutcome, clock: string -> Timestamp)
      returns (statuses: seq<ServiceStatus>)
      requires Valid()
      modifies this
      ensures Valid()
      ensures GroupResult(State(), statuses) == Supervision.StartGroup(old(State()), serviceGroups, groupId, exited, spawn, clock)
    {
      var groupServices := LookupGroup(serviceGroups, groupId);
      if groupServices.None? || groupServices.value == [] {
        return [GroupNotFound(groupId)];
      }
      var services := groupServices.value;
      ghost var s0 := State();
      statuses := [];
      var i := 0;
      while i < |services|
        invariant 0 <= i <= |services|
        invariant Valid()
        invariant GroupResult(State(), statuses) == StartEach(s0, groupId, services[..i], exited, spawn, clock)
      {
        ghost var now := GroupResult(State(), statuses);
        var status := StartOne(groupId, services[i], exited, spawn, clock);
        StartEachStep(s0, groupId, services, i, exited, spawn, clock, now, State());
        statuses := statuses + [status];
        i := i + 1;
      }
      assert services[..i] == services;
    }

    /**
     * `get_all_statuses`: one status per configured service, in
     * configuration order, each as `get_status_for_service` gives it.
     */
    method GetAllStatuses(exited: set<Pid>) returns (statuses: seq<ServiceStatus>)
      ensures |statuses| == |Configured(serviceGroups)|
      ensures forall i :: 0 <= i < |statuses| ==>
                statuses[i] == StatusFor(runningProcesses, exited, Configured(serviceGroups)[i].config.name, Configured(serviceGroups)[i].groupId)
    {
      statuses := [];
      var g := 0;
      while g < |serviceGroups|
        invariant 0 <= g <= |serviceGroups|
        invariant statuses == AllStatuses(runningProcesses, exited, serviceGroups[..g])
      {
        assert serviceGroups[..g + 1][..g] == serviceGroups[..g];
        var group := serviceGroups[g];
        ghost var before := statuses;
        var k := 0;
        while k < |group.services|
          invariant 0 <= k <= |group.services|
          invariant statuses == before + GroupStatuses(runningProcesses, exited, group.groupId, group.services[..k])
        {
          assert group.services[..k + 1][..k] == group.services[..k];
          statuses := statuses + [StatusFor(runningProcesses, exited, group.services[k].name, group.groupId)];
          k := k + 1;
        }
        assert group.services[..k] == group.services;
        g := g + 1;
      }
      assert serviceGroups[..g] == serviceGroups;
      AllStatusesSpec(runningProcesses, exited, serviceGroups);
    }
  }
}
