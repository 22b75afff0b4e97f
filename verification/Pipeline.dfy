/** From Docker events over the cache to cron entries: at every moment the scheduler
    has an entry for exactly the cached projects a job can be made for. */
module Pipeline {
  import opened Wrappers
  import opened DroneModel
  import opened DockerCache
  import opened Scheduling

  datatype Drone = Drone(cache: Cache, board: Board)

  /** What the worker's main loop receives. */
  datatype Input =
    | DockerEvent(event: Event)
    | NewConfig(compaction: Option<Schedule>, backups: seq<StaticBackup>)

  /** The project has its entry. */
  ghost predicate Scheduled(x: Choices, b: Board, project: Project)
    requires Fair(x)
  {
    project.name in b.dockerIds &&
    Find(b.entries, b.dockerIds[project.name]) ==
      Some(Entry(project.schedule, ContainerJob(project, PlanOf(x, b.dockerIds[project.name], project))))
  }

  ghost predicate Agrees(x: Choices, d: Drone)
    requires Fair(x)
  {
    && (forall p :: p in d.board.dockerIds <==> p in d.cache && Accepted(x, d.cache[p]))
    && (forall p :: p in d.board.dockerIds ==> Scheduled(x, d.board, d.cache[p]))
  }

  /** The scheduler runs the compaction and the static backups of this configuration. */
  ghost predicate Configured(b: Board, config: Input)
    requires config.NewConfig?
  {
    && (config.compaction.None? ==> b.compactId == 0)
    && (config.compaction.Some? ==>
          b.compactId != 0 && Find(b.entries, b.compactId) == Some(Entry(config.compaction.value, CompactionJob)))
    && |b.staticIds| == |config.backups|
    && (forall k :: 0 <= k < |config.backups| ==>
          Find(b.entries, b.staticIds[k]) == Some(Entry(config.backups[k].schedule, StaticJob(config.backups[k]))))
  }

  ghost function Step(x: Choices, cron: CronParser, d: Drone, input: Input): Drone
    requires Fair(x)
  {
    match input
    case NewConfig(compaction, backups) => d.(board := SetStatic(SetCompaction(d.board, compaction), backups))
    case DockerEvent(e) =>
      var project := Changed(cron, d.cache, e);
      Drone(After(cron, d.cache, e),
            if project.Some? then ScheduleProject(x, d.board, project.value).0 else d.board)
  }

  lemma StepAgrees(x: Choices, cron: CronParser, d: Drone, input: Input)
    requires Fair(x) && CacheOk(d.cache) && BoardOk(d.board) && Agrees(x, d)
    ensures var d' := Step(x, cron, d, input);
      && BoardOk(d'.board) && Agrees(x, d')
      && (input.NewConfig? ==> Configured(d'.board, input))
      && (input.DockerEvent? ==> SameFixedJobs(d.board, d'.board))
  {
    hide BoardOk, PlanOf, ContainerAccepted, UpdateOf, Fair;
    match input {
      case NewConfig(compaction, backups) =>
        SetCompactionKeepsOk(d.board, compaction);
        SetStaticKeepsOk(SetCompaction(d.board, compaction), backups);
        assert Agrees(x, Step(x, cron, d, input)) by {
          hide SetCompaction, SetStatic, Accepted;
          forall p | p in d.board.dockerIds ensures d.board.dockerIds[p] in d.board.dockerIds.Values {}
        }
      case DockerEvent(e) =>
        ChangeIsAnnounced(cron, d.cache, e);
        var project := Changed(cron, d.cache, e);
        if project.Some? {
          DockerStepAgrees(x, d, project.value, After(cron, d.cache, e));
          FixedJobsStay(x, d.board, project.value);
        }
    }
  }

  /** The compaction and the static backups are as they were. */
  ghost predicate SameFixedJobs(b: Board, b': Board) {
    && b'.compactId == b.compactId && b'.staticIds == b.staticIds
    && forall id :: id == b.compactId != 0 || id in b.staticIds ==> Find(b'.entries, id) == Find(b.entries, id)
  }

  lemma StaysConfigured(b: Board, b': Board, config: Input)
    requires config.NewConfig? && Configured(b, config) && SameFixedJobs(b, b')
    ensures Configured(b', config)
  {
    forall k | 0 <= k < |config.backups| ensures Find(b'.entries, b.staticIds[k]) == Find(b.entries, b.staticIds[k]) {
      assert b.staticIds[k] in b.staticIds;
    }
  }

  lemma FixedJobsStay(x: Choices, b: Board, project: Project)
    requires Fair(x) && BoardOk(b)
    ensures SameFixedJobs(b, ScheduleProject(x, b, project).0)
  {
    hide BoardOk, Accepted, Fair, ScheduleProject;
    ScheduleProjectKeepsFixedJobs(x, b, project);
  }

  lemma DockerStepAgrees(x: Choices, d: Drone, project: Project, cache': Cache)
    requires Fair(x) && CacheOk(d.cache) && BoardOk(d.board) && Agrees(x, d)
    requires Announces(d.cache, cache', Some(project))
    ensures var b' := ScheduleProject(x, d.board, project).0;
      BoardOk(b') && Agrees(x, Drone(cache', b'))
  {
    hide BoardOk, PlanOf, Accepted, Fair, ScheduleProject, SameFixedJobs;
    ScheduleProjectKeepsOk(x, d.board, project);
    NothingToAccept(x, project);
    var b' := ScheduleProject(x, d.board, project).0;
    forall p ensures p in b'.dockerIds <==> p in cache' && Accepted(x, cache'[p])
             ensures p in b'.dockerIds ==> Scheduled(x, b', cache'[p])
    {
      if p != project.name {
        assert Find(cache', p) == Find(d.cache, p);
        assert Find(b'.dockerIds, p) == Find(d.board.dockerIds, p);
        if p in d.board.dockerIds { assert Scheduled(x, d.board, d.cache[p]); }
      } else {
        assert Find(cache', p) == if project.containers == map[] then None else Some(project);
      }
    }
  }

  lemma NothingToAccept(x: Choices, project: Project)
    ensures project.containers == map[] ==> !Accepted(x, project)
  {
  }

  // --------------------------------------------------------------- start-up

  ghost predicate SameEntry(b: Board, b': Board, p: string) {
    && Find(b'.dockerIds, p) == Find(b.dockerIds, p)
    && (p in b.dockerIds ==> Find(b'.entries, b.dockerIds[p]) == Find(b.entries, b.dockerIds[p]))
  }

  ghost predicate Named(projects: seq<Project>, p: string) {
    exists i :: 0 <= i < |projects| && projects[i].name == p
  }

  lemma {:induction false} ScheduleProjectsAgrees(x: Choices, b: Board, projects: seq<Project>)
    requires Fair(x) && BoardOk(b) && ScheduleProjects(x, b, projects).1
    requires forall i, j :: 0 <= i < j < |projects| ==> projects[i].name != projects[j].name
    requires forall q :: q in projects ==> q.engine == DockerEngine && q.containers != map[]
    ensures var b' := ScheduleProjects(x, b, projects).0;
      && BoardOk(b')
      && (forall q :: q in projects ==> Accepted(x, q) && Scheduled(x, b', q))
      && (forall p :: !Named(projects, p) ==> SameEntry(b, b', p))
      && SameFixedJobs(b, b')
    decreases |projects|
  {
    hide BoardOk, PlanOf, Accepted, Fair, ScheduleProject;
    if projects != [] {
      var q, rest := projects[0], projects[1..];
      ScheduleProjectKeepsOk(x, b, q);
      FixedJobsStay(x, b, q);
      var b1 := ScheduleProject(x, b, q).0;
      assert Scheduled(x, b1, q);
      ScheduleProjectsAgrees(x, b1, rest);
      var b' := ScheduleProjects(x, b1, rest).0;
      assert SameEntry(b1, b', q.name) by { assert !Named(rest, q.name); }
      forall p | !Named(projects, p) ensures SameEntry(b, b', p) {
        assert projects[0].name != p;
        forall i | 0 <= i < |rest| ensures rest[i].name != p { assert projects[i + 1].name != p; }
        assert SameEntry(b1, b', p) && SameEntry(b, b1, p);
      }
      forall q' | q' in projects ensures Accepted(x, q') && Scheduled(x, b', q') {
        assert q' == q || q' in rest;
      }
    }
  }

  /** At start-up the containers are listed and inspected, then all projects found are
      scheduled, in any order; a project that is refused ends the program. */
  ghost predicate StartsUp(x: Choices, cron: CronParser, found: seq<Event>, projects: seq<Project>, config: Input,
                           d: Drone)
    requires Fair(x)
  {
    && config.NewConfig?
    && d.cache == AfterAll(cron, map[], found)
    && Enumerates(projects, d.cache.Values)
    && ScheduleProjects(x, SetStatic(SetCompaction(EmptyBoard, config.compaction), config.backups), projects) ==
       (d.board, true)
  }

  /** Before the projects are scheduled, no project has an entry. */
  lemma ConfiguredBoard(config: Input)
    requires config.NewConfig?
    ensures var b := SetStatic(SetCompaction(EmptyBoard, config.compaction), config.backups);
      BoardOk(b) && b.dockerIds == map[] && Configured(b, config)
  {
    assert BoardOk(EmptyBoard);
    hide BoardOk;
    SetCompactionKeepsOk(EmptyBoard, config.compaction);
    SetStaticKeepsOk(SetCompaction(EmptyBoard, config.compaction), config.backups);
  }

  lemma StartUpAgrees(x: Choices, cron: CronParser, found: seq<Event>, projects: seq<Project>, config: Input, d: Drone)
    requires Fair(x) && FixedLabels(cron, found) && StartsUp(x, cron, found, projects, config, d)
    ensures BoardOk(d.board) && Agrees(x, d) && CacheOk(d.cache) && UniqueIds(d.cache)
    ensures config.NewConfig? && Configured(d.board, config)
  {
    hide PlanOf, Accepted, Fair, ScheduleProjects, SetStatic, SetCompaction, AfterAll, BoardOk, FixedLabels, UniqueIds,
      Recorded, Scheduled;
    HistoryKeepsOk(cron, found);
    ConfiguredBoard(config);
    var b := SetStatic(SetCompaction(EmptyBoard, config.compaction), config.backups);
    forall i | 0 <= i < |projects| ensures projects[i].name in d.cache && d.cache[projects[i].name] == projects[i] {
      assert projects[i] in d.cache.Values;
    }
    ScheduleProjectsAgrees(x, b, projects);
    StaysConfigured(b, d.board, config);
    forall p ensures p in d.board.dockerIds <==> p in d.cache && Accepted(x, d.cache[p])
             ensures p in d.board.dockerIds ==> Scheduled(x, d.board, d.cache[p])
    {
      if p in d.cache {
        assert d.cache[p] in projects && d.cache[p].name == p;
        assert p in d.board.dockerIds by { ScheduledHasEntry(x, d.board, d.cache[p]); }
      } else {
        assert !Named(projects, p);
        assert SameEntry(b, d.board, p);
      }
    }
  }

  lemma ScheduledHasEntry(x: Choices, b: Board, project: Project)
    requires Fair(x) && Scheduled(x, b, project)
    ensures project.name in b.dockerIds
  {
  }

  // ------------------------------------------------------------------- runs

  ghost function Run(x: Choices, cron: CronParser, d: Drone, inputs: seq<Input>): Drone
    requires Fair(x)
    decreases |inputs|
  {
    if inputs == [] then d
    else Step(x, cron, Run(x, cron, d, inputs[..|inputs| - 1]), inputs[|inputs| - 1])
  }

  /** The Docker events among the inputs. */
  function EventsOf(inputs: seq<Input>): seq<Event>
    decreases |inputs|
  {
    if inputs == [] then []
    else
      var last := inputs[|inputs| - 1];
      EventsOf(inputs[..|inputs| - 1]) + if last.DockerEvent? then [last.event] else []
  }

  /** The latest configuration received. */
  function LatestConfig(config: Input, inputs: seq<Input>): (latest: Input)
    requires config.NewConfig?
    ensures latest.NewConfig?
    decreases |inputs|
  {
    if inputs == [] then config
    else if inputs[|inputs| - 1].NewConfig? then inputs[|inputs| - 1]
    else LatestConfig(config, inputs[..|inputs| - 1])
  }

  lemma {:induction false} LatestConfigIsLast(config: Input, inputs: seq<Input>)
    requires config.NewConfig?
    ensures (LatestConfig(config, inputs) == config && forall k :: 0 <= k < |inputs| ==> inputs[k].DockerEvent?)
         || (exists k :: 0 <= k < |inputs| && inputs[k] == LatestConfig(config, inputs) &&
                         forall j :: k < j < |inputs| ==> inputs[j].DockerEvent?)
    decreases |inputs|
  {
    if inputs != [] && inputs[|inputs| - 1].DockerEvent? {
      var front := inputs[..|inputs| - 1];
      LatestConfigIsLast(config, front);
      if k :| 0 <= k < |front| && front[k] == LatestConfig(config, front) &&
              forall j :: k < j < |front| ==> front[j].DockerEvent? {
        assert inputs[k] == LatestConfig(config, inputs);
        forall j | k < j < |inputs| ensures inputs[j].DockerEvent? {
          if j < |front| { assert front[j] == inputs[j]; }
        }
      } else {
        forall k | 0 <= k < |inputs| ensures inputs[k].DockerEvent? {
          if k < |front| { assert front[k] == inputs[k]; }
        }
      }
    }
  }

  /** After start-up and after every delivered update: a project has a cron entry if and
      only if it is cached and a job can be made for it, the entry is for the project as
      cached, and the scheduler holds nothing but these entries and the compaction and
      static jobs of the latest configuration. */
  lemma {:induction false} DroneAgrees(x: Choices, cron: CronParser, found: seq<Event>, projects: seq<Project>,
                                       config: Input, start: Drone, inputs: seq<Input>)
    requires Fair(x) && StartsUp(x, cron, found, projects, config, start)
    requires FixedLabels(cron, found + EventsOf(inputs))
    ensures var d := Run(x, cron, start, inputs);
      && d.cache == AfterAll(cron, map[], found + EventsOf(inputs))
      && CacheOk(d.cache) && UniqueIds(d.cache)
      && BoardOk(d.board) && Agrees(x, d)
      && config.NewConfig? && Configured(d.board, LatestConfig(config, inputs))
    decreases |inputs|
  {
    hide BoardOk, Agrees, Step, StartsUp, After, FixedLabels, CacheOk, UniqueIds, Recorded, Fair, Configured,
      SameFixedJobs;
    if inputs == [] {
      assert found + EventsOf(inputs) == found;
      StartUpIs(x, cron, found, projects, config, start);
      StartUpAgrees(x, cron, found, projects, config, start);
    } else {
      var front, last := inputs[..|inputs| - 1], inputs[|inputs| - 1];
      var before, after := found + EventsOf(front), found + EventsOf(inputs);
      if last.DockerEvent? {
        assert after == before + [last.event];
        FrontHasFixedLabels(cron, before, last.event);
        assert after[..|after| - 1] == before;
      } else {
        assert EventsOf(inputs) == EventsOf(front);
      }
      DroneAgrees(x, cron, found, projects, config, start, front);
      HistoryKeepsOk(cron, after);
      var d := Run(x, cron, start, front);
      StepAgrees(x, cron, d, last);
      StepCache(x, cron, d, last);
      if last.DockerEvent? {
        StaysConfigured(d.board, Step(x, cron, d, last).board, LatestConfig(config, front));
      }
    }
  }

  /** When a cached project has an entry: every dependency of its containers is one of its
      services, and every path its commands leave behind has a source. */
  lemma ScheduledExactlyIf(x: Choices, cron: CronParser, found: seq<Event>, projects: seq<Project>, config: Input,
                           start: Drone, inputs: seq<Input>, p: string)
    requires Fair(x) && StartsUp(x, cron, found, projects, config, start)
    requires FixedLabels(cron, found + EventsOf(inputs))
    ensures var d := Run(x, cron, start, inputs);
      p in d.board.dockerIds <==>
        && p in d.cache
        && forall s :: s in d.cache[p].containers ==>
             var c := d.cache[p].containers[s];
             && (forall dep :: dep in c.dependencies ==> dep in d.cache[p].containers)
             && (c.exec.Some? && !c.exec.value.stdout ==>
                   forall path :: path in c.exec.value.paths ==> x.source(c, path).Some?)
  {
    hide BoardOk, StartsUp, AfterAll, FixedLabels, UniqueIds, Fair, Configured, Scheduled, Run;
    DroneAgrees(x, cron, found, projects, config, start, inputs);
    var d := Run(x, cron, start, inputs);
    if p in d.cache {
      forall s | s in d.cache[p].containers
        ensures ContainerAccepted(x, d.cache[p], d.cache[p].containers[s]) <==>
          var c := d.cache[p].containers[s];
          && (forall dep :: dep in c.dependencies ==> dep in d.cache[p].containers)
          && (c.exec.Some? && !c.exec.value.stdout ==>
                forall path :: path in c.exec.value.paths ==> x.source(c, path).Some?)
      {
      }
    }
  }

  lemma StartUpIs(x: Choices, cron: CronParser, found: seq<Event>, projects: seq<Project>, config: Input, d: Drone)
    requires Fair(x) && StartsUp(x, cron, found, projects, config, d)
    ensures d.cache == AfterAll(cron, map[], found)
  {
  }

  lemma StepCache(x: Choices, cron: CronParser, d: Drone, input: Input)
    requires Fair(x)
    ensures Step(x, cron, d, input).cache == if input.DockerEvent? then After(cron, d.cache, input.event) else d.cache
  {
  }
}
