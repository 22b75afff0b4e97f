/** The worker's bookkeeping of cron entries: one compaction job, the static backups,
    and one job for every container project that can be backed up. */
module Scheduling {
  import opened Wrappers
  import opened DroneModel

  datatype StaticBackup = StaticBackup(name: string, schedule: Schedule)

  datatype Job = CompactionJob | StaticJob(backup: StaticBackup)
    | ContainerJob(project: Project, plan: seq<ContainerBackup>)

  datatype Entry = Entry(schedule: Schedule, job: Job)

  /** What the worker leaves to others: where the source of a path inside a container is,
      the order of a Go map, which is a new one each time the map is ranged over, and the
      library's sorting of a plan. */
  datatype Choices = Choices(
    source: (ContainerBackup, string) -> Option<string>,
    visit: (nat, set<string>) -> seq<string>,
    arrange: seq<ContainerBackup> -> seq<ContainerBackup>)

  ghost predicate Fair(x: Choices) {
    && (forall t, names :: Enumerates(x.visit(t, names), names))
    && (forall plan :: multiset(x.arrange(plan)) == multiset(plan))
  }

  // ------------------------------------------------------- accepting a project

  predicate ContainerAccepted(x: Choices, project: Project, c: ContainerBackup) {
    && (c.exec.Some? && !c.exec.value.stdout ==>
          forall path :: path in c.exec.value.paths ==> x.source(c, path).Some?)
    && (forall dep :: dep in c.dependencies ==> dep in project.containers)
  }

  /** When a job can be made for a project. */
  predicate Accepted(x: Choices, project: Project) {
    && project.containers != map[]
    && (forall s | s in project.containers :: ContainerAccepted(x, project, project.containers[s]))
    && project.engine == DockerEngine
  }

  /** The containers that need a backup, in the order visited. */
  function Needing(project: Project, services: seq<string>): seq<ContainerBackup>
    requires forall s :: s in services ==> s in project.containers
  {
    if services == [] then []
    else
      var c := project.containers[services[0]];
      (if NeedsBackup(c) then [c] else []) + Needing(project, services[1..])
  }

  /** The plan of the job that gets the given id. Making a job ranges twice over the
      containers, first for the plan. */
  function PlanOf(x: Choices, id: nat, project: Project): seq<ContainerBackup>
    requires Fair(x)
  {
    assert Enumerates(x.visit(2 * id, project.containers.Keys), project.containers.Keys);
    x.arrange(Needing(project, x.visit(2 * id, project.containers.Keys)))
  }

  /** The services of a project that are backed by this container. */
  function ServicesOf(project: Project, services: set<string>, c: ContainerBackup): set<string>
    requires services <= project.containers.Keys
  {
    set s | s in services && project.containers[s] == c
  }

  lemma {:induction false} NeedingCounts(project: Project, services: seq<string>, left: set<string>, c: ContainerBackup)
    requires Enumerates(services, left) && left <= project.containers.Keys
    ensures multiset(Needing(project, services))[c] ==
            if NeedsBackup(c) then |ServicesOf(project, left, c)| else 0
    decreases |services|
  {
    hide NeedsBackup, ServicesOf, Enumerates;
    if services == [] {
      NoServices(project, left, c);
    } else {
      var s0, rest := services[0], services[1..];
      OneServiceLess(services, left);
      NeedingCounts(project, rest, left - {s0}, c);
      MoreServices(project, left - {s0}, s0, c);
      assert {s0} + (left - {s0}) == left;
      var head := if NeedsBackup(project.containers[s0]) then [project.containers[s0]] else [];
      assert Needing(project, services) == head + Needing(project, rest);
      assert multiset(head + Needing(project, rest)) == multiset(head) + multiset(Needing(project, rest));
    }
  }

  lemma NoServices(project: Project, left: set<string>, c: ContainerBackup)
    requires Enumerates([], left)
    ensures left == {} && ServicesOf(project, left, c) == {}
  {
    assert forall s :: s in left ==> s in [];
  }

  lemma OneServiceLess(services: seq<string>, left: set<string>)
    requires Enumerates(services, left) && services != []
    ensures services[0] in left && Enumerates(services[1..], left - {services[0]})
    ensures forall s :: s in services ==> s in left
  {
    assert services == [services[0]] + services[1..];
  }

  lemma MoreServices(project: Project, services: set<string>, s0: string, c: ContainerBackup)
    requires services <= project.containers.Keys && s0 in project.containers && s0 !in services
    ensures |ServicesOf(project, {s0} + services, c)| ==
            (if project.containers[s0] == c then 1 else 0) + |ServicesOf(project, services, c)|
  {
    var one := if project.containers[s0] == c then {s0} else {};
    assert ServicesOf(project, {s0} + services, c) == one + ServicesOf(project, services, c);
  }

  /** The plan holds exactly the project's containers that need a backup, each as often as
      it serves the project. */
  lemma PlanHolds(x: Choices, id: nat, project: Project, c: ContainerBackup)
    requires Fair(x)
    ensures multiset(PlanOf(x, id, project))[c] ==
            if NeedsBackup(c) then |ServicesOf(project, project.containers.Keys, c)| else 0
    ensures c in PlanOf(x, id, project) <==> NeedsBackup(c) && c in project.containers.Values
  {
    var services := x.visit(2 * id, project.containers.Keys);
    assert Enumerates(services, project.containers.Keys);
    var needing := Needing(project, services);
    assert multiset(x.arrange(needing)) == multiset(needing);
    assert c in x.arrange(needing) <==> c in multiset(x.arrange(needing));
    NeedingCounts(project, services, project.containers.Keys, c);
    var serving := ServicesOf(project, project.containers.Keys, c);
    if c in project.containers.Values {
      var s :| s in project.containers && project.containers[s] == c;
      assert s in serving;
    } else {
      assert serving == {};
    }
  }

  // ------------------------------------------------------------- the board

  /** The scheduler's entries and the ids the worker remembers; an id of 0 is none. */
  datatype Board = Board(entries: map<nat, Entry>, lastId: nat, compactId: nat, staticIds: seq<nat>,
                         dockerIds: map<string, nat>)

  const EmptyBoard := Board(map[], 0, 0, [], map[])

  function WithEntry(b: Board, e: Entry): Board {
    b.(entries := b.entries[b.lastId + 1 := e], lastId := b.lastId + 1)
  }

  function WithoutEntries(b: Board, ids: seq<nat>): Board {
    b.(entries := b.entries - (set id | id in ids))
  }

  function SetCompaction(b: Board, schedule: Option<Schedule>): Board {
    var b1 := if b.compactId != 0 then WithoutEntries(b, [b.compactId]).(compactId := 0) else b;
    if schedule.None? then b1
    else WithEntry(b1, Entry(schedule.value, CompactionJob)).(compactId := b1.lastId + 1)
  }

  function OneStatic(b: Board, backup: StaticBackup): Board {
    WithEntry(b, Entry(backup.schedule, StaticJob(backup))).(staticIds := b.staticIds + [b.lastId + 1])
  }

  function AddStatic(b: Board, backups: seq<StaticBackup>): Board
    decreases |backups|
  {
    if backups == [] then b
    else
      AddStatic(OneStatic(b, backups[0]), backups[1..])
  }

  function SetStatic(b: Board, backups: seq<StaticBackup>): Board {
    AddStatic(WithoutEntries(b, b.staticIds).(staticIds := []), backups)
  }

  function Unschedule(b: Board, name: string): Board {
    if name !in b.dockerIds then b
    else WithoutEntries(b, [b.dockerIds[name]]).(dockerIds := b.dockerIds - {name})
  }

  function WithProject(b: Board, project: Project, plan: seq<ContainerBackup>): Board {
    WithEntry(b, Entry(project.schedule, ContainerJob(project, plan))).
      (dockerIds := b.dockerIds[project.name := b.lastId + 1])
  }

  /** The flag is false when no job can be made; the old entry is gone even so. */
  function ScheduleProject(x: Choices, b: Board, project: Project): (Board, bool)
    requires Fair(x)
  {
    var b1 := Unschedule(b, project.name);
    if project.containers == map[] then (b1, true)
    else if !Accepted(x, project) then (b1, false)
    else
      (WithProject(b1, project, PlanOf(x, b1.lastId + 1, project)), true)
  }

  /** Projects of other engines are skipped; the first failure ends it. */
  function ScheduleProjects(x: Choices, b: Board, projects: seq<Project>): (Board, bool)
    requires Fair(x)
    decreases |projects|
  {
    if projects == [] then (b, true)
    else if projects[0].engine != DockerEngine then ScheduleProjects(x, b, projects[1..])
    else
      var (b1, ok) := ScheduleProject(x, b, projects[0]);
      if ok then ScheduleProjects(x, b1, projects[1..]) else (b1, false)
  }

  // ------------------------------------------------------------- invariant

  /** The entries are exactly the compaction job, the static jobs and the projects' jobs,
      and no two of the remembered ids are the same. */
  ghost predicate BoardOk(b: Board) {
    IdsOk(b) && JobsOk(b)
  }

  ghost predicate IdsOk(b: Board) {
    && (forall id :: id in b.entries <==>
          (id == b.compactId != 0) || id in b.staticIds || id in b.dockerIds.Values)
    && (forall id :: id in b.entries ==> 1 <= id <= b.lastId)
    && Distinct(b.staticIds)
    && (forall p, q :: p in b.dockerIds && q in b.dockerIds && b.dockerIds[p] == b.dockerIds[q] ==> p == q)
  }

  /** Each id is that of the right kind of job, so the kinds share none. */
  ghost predicate JobsOk(b: Board) {
    && (b.compactId != 0 ==> b.compactId in b.entries && b.entries[b.compactId].job.CompactionJob?)
    && (forall id :: id in b.staticIds ==> id in b.entries && b.entries[id].job.StaticJob?)
    && (forall p :: p in b.dockerIds ==>
          var id := b.dockerIds[p];
          id in b.entries && b.entries[id].job.ContainerJob? && b.entries[id].job.project.name == p)
  }

  lemma SetCompactionKeepsOk(b: Board, schedule: Option<Schedule>)
    requires BoardOk(b)
    ensures var b' := SetCompaction(b, schedule);
      && BoardOk(b') && b'.staticIds == b.staticIds && b'.dockerIds == b.dockerIds
      && (forall id :: id in b.staticIds || id in b.dockerIds.Values ==> Find(b'.entries, id) == Find(b.entries, id))
      && (schedule.Some? ==> b'.compactId != 0 && b'.entries[b'.compactId] == Entry(schedule.value, CompactionJob))
      && (schedule.None? ==> b'.compactId == 0)
  {
    forall p | p in b.dockerIds ensures b.dockerIds[p] in b.dockerIds.Values {}
  }

  lemma OneStaticKeepsOk(b: Board, backup: StaticBackup)
    requires BoardOk(b)
    ensures BoardOk(OneStatic(b, backup))
    ensures forall id :: id in b.entries ==> Find(OneStatic(b, backup).entries, id) == Find(b.entries, id)
    ensures (b.lastId + 1) !in b.entries
  {
    var b' := OneStatic(b, backup);
    forall i | 0 <= i < |b.staticIds| ensures b.staticIds[i] <= b.lastId {
      assert b.staticIds[i] in b.staticIds;
    }
    assert Distinct(b'.staticIds);
  }

  lemma {:induction false} AddStaticKeepsOk(b: Board, backups: seq<StaticBackup>)
    requires BoardOk(b)
    ensures var b' := AddStatic(b, backups);
      && BoardOk(b') && b'.compactId == b.compactId && b'.dockerIds == b.dockerIds
      && b.staticIds <= b'.staticIds
      && |b'.staticIds| == |b.staticIds| + |backups|
      && (forall id :: id in b.entries ==> Find(b'.entries, id) == Find(b.entries, id))
      && (forall k :: 0 <= k < |backups| ==>
            Find(b'.entries, b'.staticIds[|b.staticIds| + k]) ==
            Some(Entry(backups[k].schedule, StaticJob(backups[k]))))
    decreases |backups|
  {
    hide BoardOk;
    if backups != [] {
      OneStaticKeepsOk(b, backups[0]);
      AddStaticKeepsOk(OneStatic(b, backups[0]), backups[1..]);
    }
  }

  lemma ClearStaticKeepsOk(b: Board)
    requires BoardOk(b)
    ensures var b1 := WithoutEntries(b, b.staticIds).(staticIds := []);
      && BoardOk(b1)
      && (forall id :: id !in b.staticIds ==> Find(b1.entries, id) == Find(b.entries, id))
      && (forall id :: (id == b.compactId != 0) || id in b.dockerIds.Values ==> id in b1.entries)
  {
    forall p | p in b.dockerIds ensures b.dockerIds[p] in b.dockerIds.Values {}
  }

  lemma SetStaticKeepsOk(b: Board, backups: seq<StaticBackup>)
    requires BoardOk(b)
    ensures var b' := SetStatic(b, backups);
      && BoardOk(b') && b'.compactId == b.compactId && b'.dockerIds == b.dockerIds
      && |b'.staticIds| == |backups|
      && (forall id :: (id == b.compactId != 0) || id in b.dockerIds.Values ==>
            Find(b'.entries, id) == Find(b.entries, id))
      && (forall k :: 0 <= k < |backups| ==>
            Find(b'.entries, b'.staticIds[k]) == Some(Entry(backups[k].schedule, StaticJob(backups[k]))))
  {
    hide BoardOk, AddStatic;
    var b1 := WithoutEntries(b, b.staticIds).(staticIds := []);
    ClearStaticKeepsOk(b);
    AddStaticKeepsOk(b1, backups);
    forall id | (id == b.compactId != 0) || id in b.dockerIds.Values
      ensures Find(SetStatic(b, backups).entries, id) == Find(b.entries, id)
    {
      assert id in b1.entries;
    }
  }

  lemma UnscheduleKeepsOk(b: Board, name: string)
    requires BoardOk(b)
    ensures var b' := Unschedule(b, name);
      && BoardOk(b') && b'.compactId == b.compactId && b'.staticIds == b.staticIds && b'.lastId == b.lastId
      && b'.dockerIds == b.dockerIds - {name}
      && (forall id :: id in b'.entries ==> Find(b'.entries, id) == Find(b.entries, id))
  {
    forall p | p in b.dockerIds ensures b.dockerIds[p] in b.dockerIds.Values {}
    var b' := Unschedule(b, name);
    if name in b.dockerIds {
      forall id ensures id in b'.dockerIds.Values <==> id in b.dockerIds.Values && id != b.dockerIds[name] {
        if id in b.dockerIds.Values && id != b.dockerIds[name] {
          var p :| p in b.dockerIds && b.dockerIds[p] == id;
          assert p in b'.dockerIds;
        }
      }
    }
  }

  lemma ValuesWithOneMore(m: map<string, nat>, k: string, v: nat)
    requires k !in m
    ensures m[k := v].Values == m.Values + {v}
  {
    var m' := m[k := v];
    forall id ensures id in m'.Values <==> id in m.Values || id == v {
      if id in m.Values {
        var p :| p in m && m[p] == id;
        assert m'[p] == id;
      }
      assert m'[k] == v;
    }
  }

  lemma WithProjectKeepsIds(b: Board, project: Project, plan: seq<ContainerBackup>)
    requires IdsOk(b) && project.name !in b.dockerIds
    ensures IdsOk(WithProject(b, project, plan)) && (b.lastId + 1) !in b.entries
  {
    ValuesWithOneMore(b.dockerIds, project.name, b.lastId + 1);
    forall p | p in b.dockerIds ensures b.dockerIds[p] in b.dockerIds.Values && b.dockerIds[p] in b.entries {}
  }

  lemma WithProjectKeepsOk(b: Board, project: Project, plan: seq<ContainerBackup>)
    requires BoardOk(b) && project.name !in b.dockerIds
    ensures BoardOk(WithProject(b, project, plan))
    ensures forall id :: id in b.entries ==> Find(WithProject(b, project, plan).entries, id) == Find(b.entries, id)
  {
    hide IdsOk;
    WithProjectKeepsIds(b, project, plan);
  }

  lemma DockerIdsAreEntries(b: Board)
    requires BoardOk(b)
    ensures forall p :: p in b.dockerIds ==> b.dockerIds[p] in b.entries
  {
  }

  lemma ScheduleProjectKeepsOk(x: Choices, b: Board, project: Project)
    requires Fair(x) && BoardOk(b)
    ensures var (b', ok) := ScheduleProject(x, b, project);
      && BoardOk(b') && b'.compactId == b.compactId && b'.staticIds == b.staticIds
      && (ok <==> project.containers == map[] || Accepted(x, project))
      && (forall p :: p != project.name ==>
            && Find(b'.dockerIds, p) == Find(b.dockerIds, p)
            && (p in b.dockerIds ==> Find(b'.entries, b.dockerIds[p]) == Find(b.entries, b.dockerIds[p])))
      && (project.name in b'.dockerIds <==> Accepted(x, project))
      && (Accepted(x, project) ==>
            var id := b'.dockerIds[project.name];
            Find(b'.entries, id) == Some(Entry(project.schedule, ContainerJob(project, PlanOf(x, id, project)))))
  {
    hide ContainerAccepted, PlanOf, Fair, BoardOk, Unschedule;
    UnscheduleKeepsOk(b, project.name);
    var b1 := Unschedule(b, project.name);
    DockerIdsAreEntries(b1);
    if Accepted(x, project) {
      WithProjectKeepsOk(b1, project, PlanOf(x, b1.lastId + 1, project));
    }
  }

  /** The entries of the compaction and of the static backups stay as they are. */
  lemma ScheduleProjectKeepsFixedJobs(x: Choices, b: Board, project: Project)
    requires Fair(x) && BoardOk(b)
    ensures var b' := ScheduleProject(x, b, project).0;
      && b'.compactId == b.compactId && b'.staticIds == b.staticIds
      && forall id :: id == b.compactId != 0 || id in b.staticIds ==> Find(b'.entries, id) == Find(b.entries, id)
  {
    hide ContainerAccepted, PlanOf, Fair, BoardOk, Unschedule;
    UnscheduleKeepsOk(b, project.name);
    var b1 := Unschedule(b, project.name);
    FixedJobsAreEntries(b1);
    if Accepted(x, project) {
      WithProjectKeepsOk(b1, project, PlanOf(x, b1.lastId + 1, project));
    }
  }

  lemma FixedJobsAreEntries(b: Board)
    requires BoardOk(b)
    ensures forall id :: id == b.compactId != 0 || id in b.staticIds ==> id in b.entries
  {
  }

  /** Scheduling many projects succeeds exactly if each Docker project among them is empty or
      accepted. */
  lemma {:induction false} ScheduleProjectsSucceedsExactlyIf(x: Choices, b: Board, projects: seq<Project>)
    requires Fair(x)
    ensures ScheduleProjects(x, b, projects).1 <==>
      forall q :: q in projects && q.engine == DockerEngine ==> q.containers == map[] || Accepted(x, q)
    decreases |projects|
  {
    hide Accepted, PlanOf, Unschedule, Fair;
    if projects != [] {
      var q, rest := projects[0], projects[1..];
      assert projects == [q] + rest;
      ScheduleProjectsSucceedsExactlyIf(x, if q.engine == DockerEngine then ScheduleProject(x, b, q).0 else b, rest);
    }
  }
}
