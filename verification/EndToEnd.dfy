/** The stages of the drone together: whatever Docker events have been seen, every job the
    scheduler holds is safe to run. */
module EndToEnd {
  import opened Wrappers
  import opened DroneModel
  import opened Mappers
  import opened DockerCache
  import opened Scheduling
  import opened Pipeline
  import BackupJob

  /** Cached containers are the accepted mapping of some inspected container. */
  lemma CachedIsWellConfigured(cron: CronParser, cache: Cache, history: seq<Event>, p: string, s: string)
    requires Recorded(cron, cache, history) && Cached(cache, p, s).Some?
    ensures WellConfigured(Cached(cache, p, s).value)
  {
    hide MapContainer, MapProject, WellConfigured;
    var e :| e in history && Records(cron, e, p, s) == Cached(cache, p, s);
    AcceptedIsWellConfigured(e.inspect.value, e.order);
  }

  /** The job of a cached project meets the conditions under which jobs are safe. */
  lemma CachedProjectIsComplete(x: Choices, cache: Cache, p: string)
    requires CacheOk(cache) && UniqueIds(cache) && p in cache && Accepted(x, cache[p])
    ensures BackupJob.DistinctIds(cache[p]) && BackupJob.Complete(cache[p])
  {
    var project := cache[p];
    forall s, t | s in project.containers && t in project.containers
      ensures project.containers[s].id == project.containers[t].id ==> s == t
    {
      assert Holds(cache, p, s, project.containers[s].id) && Holds(cache, p, t, project.containers[t].id);
    }
    forall s | s in project.containers
      ensures forall dep :: dep in project.containers[s].dependencies ==> dep in project.containers
    {
      assert ContainerAccepted(x, project, project.containers[s]);
    }
  }

  /** Where paths inside containers are found is the same when a job is made and when it
      runs. */
  ghost predicate SameSources(x: Choices, o: BackupJob.Oracle) {
    forall c, path :: o.source(c, path) == x.source(c, path)
  }

  /** What a run of a project's job may do between two states: it archives containers of the
      project that ask for a backup, each at most once; every archive is made while its
      mode's condition holds, unless the container needs a container that needs it, and
      holds everything that was asked for, which is not nothing for a stopped container. */
  ghost predicate SafeRun(o: BackupJob.Oracle, project: Project, s: BackupJob.State, s': BackupJob.State) {
    && s.archives <= s'.archives
    && (forall k :: |s.archives| <= k < |s'.archives| ==>
          var a := s'.archives[k];
          && a.container in project.containers.Values
          && (a.container.exec.Some? || a.container.backupVolumes != [])
          && (BackupJob.Safe(project, a) <==>
                (a.container.mode.DependentOfflineMode? ==> !BackupJob.NeedsEachOther(project, a.container)))
          && BackupJob.HoldsAllAsked(o.source, a)
          && (a.container.mode.OfflineMode? ==> a.content != BackupJob.Paths([])))
    && (forall j, k :: |s.archives| <= j < k < |s'.archives| ==> s'.archives[j].container != s'.archives[k].container)
  }

  /** After start-up and any further inputs, take any entry of a project and run its job
      at any time, under any engine failures: the run is safe for the project as cached. If
      the final pass works, all containers of the project are running. */
  lemma ScheduledJobsAreSafe(x: Choices, cron: CronParser, found: seq<Event>, projects: seq<Project>, config: Input,
                             start: Drone, inputs: seq<Input>, p: string, o: BackupJob.Oracle, s: BackupJob.State)
    requires Scheduling.Fair(x) && BackupJob.Fair(o) && SameSources(x, o)
    requires StartsUp(x, cron, found, projects, config, start)
    requires FixedLabels(cron, found + EventsOf(inputs))
    requires p in Run(x, cron, start, inputs).board.dockerIds
    ensures var d := Run(x, cron, start, inputs);
      && p in d.cache && d.board.dockerIds[p] in d.board.entries
      && var project := d.cache[p];
      var plan := PlanOf(x, d.board.dockerIds[p], project);
      && d.board.entries[d.board.dockerIds[p]] == Entry(project.schedule, ContainerJob(project, plan))
      && var (s', ok) := BackupJob.RunJob(o, project, s, plan);
      && SafeRun(o, project, s, s')
      && (ok ==> forall t :: t in project.containers ==> project.containers[t].id in s'.running)
  {
    hide StartsUp, Run, AfterAll, FixedLabels, PlanOf, BoardOk, Accepted, Scheduling.Fair, SafeRun, SameSources;
    DroneAgrees(x, cron, found, projects, config, start, inputs);
    var d := Run(x, cron, start, inputs);
    assert Scheduled(x, d.board, d.cache[p]);
    var project := d.cache[p];
    CachedProjectIsComplete(x, d.cache, p);
    JobOfCompleteProject(x, d.board.dockerIds[p], cron, d.cache, found + EventsOf(inputs), p, o, s);
  }

  lemma JobOfCompleteProject(x: Choices, id: nat, cron: CronParser, cache: Cache, history: seq<Event>, p: string,
                             o: BackupJob.Oracle, s: BackupJob.State)
    requires Scheduling.Fair(x) && BackupJob.Fair(o) && SameSources(x, o)
    requires p in cache && Accepted(x, cache[p])
    requires FixedLabels(cron, history) && cache == AfterAll(cron, map[], history)
    requires BackupJob.DistinctIds(cache[p]) && BackupJob.Complete(cache[p])
    ensures var project := cache[p];
      var (s', ok) := BackupJob.RunJob(o, project, s, PlanOf(x, id, project));
      && SafeRun(o, project, s, s')
      && (ok ==> forall t :: t in project.containers ==> project.containers[t].id in s'.running)
  {
    hide AfterAll, FixedLabels, PlanOf, Scheduling.Fair, BackupJob.RunPlan, BackupJob.EnsureAllRunning, BackupJob.Safe,
      BackupJob.NeedsEachOther, BackupJob.Separable, BackupJob.DistinctIds, BackupJob.Complete,
      BackupJob.PathsHaveSources, BackupJob.ContainersOf, Accepted, SameSources;
    var project := cache[p];
    var plan := PlanOf(x, id, project);
    HistoryKeepsOk(cron, history);
    var s0 := s.(panicked := false);
    BackupJob.PlanIsSafe(o, project, s0, plan);
    BackupJob.FinalPass(o, project, s, plan);
    var s' := BackupJob.RunJob(o, project, s, plan).0;
    forall k | |s.archives| <= k < |s'.archives|
      ensures var a := s'.archives[k];
        && a.container in project.containers.Values
        && (BackupJob.Safe(project, a) <==>
              (a.container.mode.DependentOfflineMode? ==> !BackupJob.NeedsEachOther(project, a.container)))
        && BackupJob.HoldsAllAsked(o.source, a)
        && (a.container.mode.OfflineMode? ==> a.content != BackupJob.Paths([]))
    {
      var c := s'.archives[k].container;
      PlanHolds(x, id, project, c);
      var t :| t in project.containers && project.containers[t] == c;
      BackupJob.SeparableUnlessMutual(project, t);
      assert Cached(cache, p, t) == Some(c);
      CachedIsWellConfigured(cron, cache, history, p, t);
      AcceptedHasSources(x, o, project, t);
    }
    PlannedOnce(x, id, project, s.archives, s'.archives);
  }

  /** The same run, when no engine call fails and no command has a bare reference: every
      cached container of the project that asks for a backup is archived, each once, and
      nothing else is; then all containers are running again. */
  lemma ScheduledJobsArchiveAll(x: Choices, cron: CronParser, found: seq<Event>, projects: seq<Project>, config: Input,
                                start: Drone, inputs: seq<Input>, p: string, o: BackupJob.Oracle, s: BackupJob.State)
    requires Scheduling.Fair(x) && BackupJob.Fair(o)
    requires StartsUp(x, cron, found, projects, config, start)
    requires FixedLabels(cron, found + EventsOf(inputs))
    requires p in Run(x, cron, start, inputs).board.dockerIds
    requires var d := Run(x, cron, start, inputs);
      p in d.cache ==> BackupJob.EverythingWorks(o, PlanOf(x, d.board.dockerIds[p], d.cache[p]))
    ensures var d := Run(x, cron, start, inputs);
      && p in d.cache
      && var project := d.cache[p];
      var (s', ok) := BackupJob.RunJob(o, project, s, PlanOf(x, d.board.dockerIds[p], project));
      && ok && |s.archives| <= |s'.archives|
      && var made := multiset(BackupJob.ContainersOf(s'.archives[|s.archives|..]));
      forall c :: made[c] == if c in project.containers.Values && (c.exec.Some? || c.backupVolumes != []) then 1 else 0
  {
    hide StartsUp, Run, AfterAll, FixedLabels, PlanOf, BoardOk, Accepted, Scheduling.Fair, BackupJob.RunJob,
      BackupJob.EverythingWorks, BackupJob.DistinctIds, BackupJob.Complete, BackupJob.ContainersOf;
    DroneAgrees(x, cron, found, projects, config, start, inputs);
    var d := Run(x, cron, start, inputs);
    assert Scheduled(x, d.board, d.cache[p]);
    var project, id := d.cache[p], d.board.dockerIds[p];
    CachedProjectIsComplete(x, d.cache, p);
    var plan := PlanOf(x, id, project);
    BackupJob.WorkingRunArchivesAll(o, project, s, plan);
    var s' := BackupJob.RunJob(o, project, s, plan).0;
    MadeSince(s.archives, s'.archives, BackupJob.Asking(plan));
    var made := BackupJob.ContainersOf(s'.archives[|s.archives|..]);
    forall c ensures multiset(made)[c] ==
      if c in project.containers.Values && (c.exec.Some? || c.backupVolumes != []) then 1 else 0
    {
      AskingCounts(plan, c);
      PlanHolds(x, id, project, c);
      ServesOnce(project, c);
      ServesAtAll(project, c);
    }
  }

  lemma MadeSince(before: seq<BackupJob.Archive>, after: seq<BackupJob.Archive>, made: seq<ContainerBackup>)
    requires BackupJob.ContainersOf(after) == BackupJob.ContainersOf(before) + made
    ensures |before| <= |after| && BackupJob.ContainersOf(after[|before|..]) == made
  {
    assert |BackupJob.ContainersOf(after)| == |after| && |BackupJob.ContainersOf(before)| == |before|;
    forall k | 0 <= k < |made| ensures BackupJob.ContainersOf(after[|before|..])[k] == made[k] {
      assert BackupJob.ContainersOf(after)[|before| + k] == made[k];
    }
  }

  lemma {:induction false} AskingCounts(plan: seq<ContainerBackup>, c: ContainerBackup)
    ensures multiset(BackupJob.Asking(plan))[c] ==
            if c.exec.Some? || c.backupVolumes != [] then multiset(plan)[c] else 0
  {
    if plan != [] {
      AskingCounts(plan[1..], c);
      assert plan == [plan[0]] + plan[1..];
    }
  }

  lemma ServesAtAll(project: Project, c: ContainerBackup)
    ensures ServicesOf(project, project.containers.Keys, c) == {} <==> c !in project.containers.Values
  {
    if c in project.containers.Values {
      var t :| t in project.containers && project.containers[t] == c;
      assert t in ServicesOf(project, project.containers.Keys, c);
    }
  }

  lemma AcceptedHasSources(x: Choices, o: BackupJob.Oracle, project: Project, t: string)
    requires SameSources(x, o) && Accepted(x, project) && t in project.containers
    ensures BackupJob.PathsHaveSources(o.source, project.containers[t])
  {
    assert ContainerAccepted(x, project, project.containers[t]);
  }

  /** A container has one place in the plan of its project, so one archive at most. */
  lemma PlannedOnce(x: Choices, id: nat, project: Project, before: seq<BackupJob.Archive>,
                    after: seq<BackupJob.Archive>)
    requires Scheduling.Fair(x) && BackupJob.DistinctIds(project) && before <= after
    requires multiset(BackupJob.ContainersOf(after[|before|..])) <= multiset(PlanOf(x, id, project))
    ensures forall j, k :: |before| <= j < k < |after| ==> after[j].container != after[k].container
  {
    hide PlanOf, Scheduling.Fair;
    var made := BackupJob.ContainersOf(after[|before|..]);
    forall j, k | |before| <= j < k < |after| ensures after[j].container != after[k].container {
      var c := after[j].container;
      var j0, k0 := j - |before|, k - |before|;
      assert made[j0] == c && made[k0] == after[k].container;
      if after[k].container == c {
        TwiceIn(made, j0, k0);
        PlanHolds(x, id, project, c);
        ServesOnce(project, c);
      }
    }
  }

  lemma ServesOnce(project: Project, c: ContainerBackup)
    requires BackupJob.DistinctIds(project)
    ensures |ServicesOf(project, project.containers.Keys, c)| <= 1
  {
    var serving := ServicesOf(project, project.containers.Keys, c);
    if t :| t in serving {
      assert serving == {t};
    }
  }

  lemma TwiceIn<T>(xs: seq<T>, j: nat, k: nat)
    requires j < k < |xs| && xs[j] == xs[k]
    ensures multiset(xs)[xs[j]] >= 2
  {
    assert xs == xs[..k] + [xs[k]] + xs[k + 1..];
    assert xs[..k][j] in xs[..k];
  }
}
