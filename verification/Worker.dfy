/** The cron scheduler and the worker as objects updated in place, proved equal to the
    functions on `Board`. */
module Worker {
  import opened Wrappers
  import opened DroneModel
  import opened Scheduling

  class Cron {
    var entries: map<nat, Entry>
    var lastId: nat

    constructor ()
      ensures entries == map[] && lastId == 0
    {
      entries, lastId := map[], 0;
    }

    method Schedule(e: Entry) returns (id: nat)
      modifies this
      ensures id == lastId == old(lastId) + 1
      ensures entries == old(entries)[id := e]
    {
      lastId := lastId + 1;
      id := lastId;
      entries := entries[id := e];
    }

    method Remove(id: nat)
      modifies this
      ensures entries == old(entries) - {id} && lastId == old(lastId)
    {
      entries := entries - {id};
    }
  }

  class Worker {
    const choices: Choices
    const scheduler: Cron
    var compactJobId: nat
    var staticJobIds: seq<nat>
    var dockerJobIds: map<string, nat>

    constructor (choices: Choices, scheduler: Cron)
      ensures this.choices == choices && this.scheduler == scheduler
      ensures Snapshot() == Board(scheduler.entries, scheduler.lastId, 0, [], map[])
    {
      this.choices := choices;
      this.scheduler := scheduler;
      compactJobId, staticJobIds, dockerJobIds := 0, [], map[];
    }

    function Snapshot(): Board
      reads this, scheduler
    {
      Board(scheduler.entries, scheduler.lastId, compactJobId, staticJobIds, dockerJobIds)
    }

    method ScheduleRepoCompaction(schedule: Option<Schedule>)
      modifies this, scheduler
      ensures Snapshot() == SetCompaction(old(Snapshot()), schedule)
    {
      if compactJobId != 0 {
        scheduler.Remove(compactJobId);
        compactJobId := 0;
      }
      if schedule.Some? {
        var id := scheduler.Schedule(Entry(schedule.value, CompactionJob));
        compactJobId := id;
      }
    }

    method ScheduleStaticBackups(backups: seq<StaticBackup>)
      modifies this, scheduler
      ensures Snapshot() == SetStatic(old(Snapshot()), backups)
    {
      for k := 0 to |staticJobIds|
        modifies scheduler
        invariant scheduler.entries == old(scheduler.entries) - (set id | id in staticJobIds[..k])
        invariant scheduler.lastId == old(scheduler.lastId)
      {
        scheduler.Remove(staticJobIds[k]);
        assert staticJobIds[..k + 1] == staticJobIds[..k] + [staticJobIds[k]];
      }
      assert staticJobIds[..|staticJobIds|] == staticJobIds;
      staticJobIds := [];
      for k := 0 to |backups|
        invariant AddStatic(Snapshot(), backups[k..]) == SetStatic(old(Snapshot()), backups)
      {
        assert backups[k..][0] == backups[k] && backups[k..][1..] == backups[k + 1..];
        var id := scheduler.Schedule(Entry(backups[k].schedule, StaticJob(backups[k])));
        staticJobIds := staticJobIds + [id];
      }
    }

    /** Every exec path has a source and every dependency is in the project. */
    method CheckContainer(project: Project, c: ContainerBackup) returns (accepted: bool)
      ensures accepted <==> ContainerAccepted(choices, project, c)
    {
      if c.exec.Some? && !c.exec.value.stdout {
        var paths := c.exec.value.paths;
        for j := 0 to |paths|
          invariant forall i :: 0 <= i < j ==> choices.source(c, paths[i]).Some?
        {
          if choices.source(c, paths[j]).None? {
            return false;
          }
        }
      }
      for j := 0 to |c.dependencies|
        invariant forall i :: 0 <= i < j ==> c.dependencies[i] in project.containers
      {
        if c.dependencies[j] !in project.containers {
          return false;
        }
      }
      accepted := true;
    }

    /** Collects the containers that need a backup. */
    method CollectPlan(project: Project, services: seq<string>) returns (plan: seq<ContainerBackup>)
      requires forall s :: s in services ==> s in project.containers
      ensures plan == Needing(project, services)
    {
      plan := [];
      for k := 0 to |services|
        invariant plan + Needing(project, services[k..]) == Needing(project, services)
      {
        assert services[k..][0] == services[k] && services[k..][1..] == services[k + 1..];
        var c := project.containers[services[k]];
        if NeedsBackup(c) {
          plan := plan + [c];
        }
      }
    }

    /** Checks all containers, up to the first that is not accepted. */
    method CheckContainers(project: Project, services: seq<string>) returns (accepted: bool)
      requires forall s :: s in services ==> s in project.containers
      ensures accepted <==> forall s :: s in services ==> ContainerAccepted(choices, project, project.containers[s])
    {
      hide ContainerAccepted;
      for k := 0 to |services|
        invariant forall j :: 0 <= j < k ==> ContainerAccepted(choices, project, project.containers[services[j]])
      {
        accepted := CheckContainer(project, project.containers[services[k]]);
        if !accepted {
          assert services[k] in services;
          return;
        }
      }
      accepted := true;
    }

    /** Makes the job of a project, or refuses to. */
    method NewContainerProjectBackupJob(project: Project) returns (job: Option<Job>)
      requires Fair(choices)
      ensures job == if Accepted(choices, project)
                     then Some(ContainerJob(project, PlanOf(choices, scheduler.lastId + 1, project)))
                     else None
    {
      hide ContainerAccepted;
      if project.containers == map[] {
        return None;
      }
      var id := scheduler.lastId + 1;
      var services := choices.visit(2 * id, project.containers.Keys);
      assert Enumerates(services, project.containers.Keys);
      var plan := CollectPlan(project, services);
      plan := choices.arrange(plan);
      services := choices.visit(2 * id + 1, project.containers.Keys);
      assert Enumerates(services, project.containers.Keys);
      var accepted := CheckContainers(project, services);
      if !accepted || project.engine != DockerEngine {
        return None;
      }
      job := Some(ContainerJob(project, plan));
    }

    method ScheduleDockerBackup(project: Project) returns (ok: bool)
      requires Fair(choices)
      modifies this, scheduler
      ensures (Snapshot(), ok) == ScheduleProject(choices, old(Snapshot()), project)
    {
      hide ContainerAccepted, PlanOf;
      if project.name in dockerJobIds {
        scheduler.Remove(dockerJobIds[project.name]);
        dockerJobIds := dockerJobIds - {project.name};
      }
      assert Snapshot() == Unschedule(old(Snapshot()), project.name);
      if project.containers != map[] {
        var job := NewContainerProjectBackupJob(project);
        if job.None? {
          return false;
        }
        var id := scheduler.Schedule(Entry(project.schedule, job.value));
        dockerJobIds := dockerJobIds[project.name := id];
      }
      ok := true;
    }

    method ScheduleContainerBackups(projects: seq<Project>) returns (ok: bool)
      requires Fair(choices)
      modifies this, scheduler
      ensures (Snapshot(), ok) == ScheduleProjects(choices, old(Snapshot()), projects)
    {
      hide ScheduleProject;
      for k := 0 to |projects|
        invariant ScheduleProjects(choices, Snapshot(), projects[k..]) ==
            ScheduleProjects(choices, old(Snapshot()), projects)
      {
        assert projects[k..][0] == projects[k] && projects[k..][1..] == projects[k + 1..];
        if projects[k].engine == DockerEngine {
          ok := ScheduleDockerBackup(projects[k]);
          if !ok {
            return;
          }
        }
      }
      ok := true;
    }
  }
}
