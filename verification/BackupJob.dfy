/** The backup job of a container project: it starts and stops containers through an
    engine that may fail at any call, and creates archives. */
module BackupJob {
  import opened Wrappers
  import opened DroneModel
  import opened Expansion
  import opened Mappers

  // ----------------------------------------------------------------- engine

  /** How a call to start or stop a container turns out. A failing call may or may not
      have taken effect. */
  datatype Answer = Works | FailsBefore | FailsAfter

  /** Everything the engine decides, indexed by the number of calls so far. The variables
      of a container are those its inspection shows, if it succeeds. */
  datatype Oracle = Oracle(
    start: nat -> Answer,
    stop: nat -> Answer,
    variables: nat -> Option<Variables>,
    exec: nat -> bool,
    visit: (nat, set<string>) -> seq<string>,
    source: (ContainerBackup, string) -> Option<string>)

  ghost predicate Fair(o: Oracle) {
    forall t, names :: Enumerates(o.visit(t, names), names)
  }

  /** What goes into an archive. */
  datatype Content = Output | Paths(paths: seq<string>)

  /** An archive being created, with the containers running at that moment. */
  datatype Archive = Archive(container: ContainerBackup, running: set<string>, content: Content)

  /** A command with a bare reference makes the engine panic. The scheduler recovers, but
      the run of the job ends there. */
  datatype State = State(running: set<string>, tick: nat, archives: seq<Archive>, panicked: bool)

  function EnsureRunning(o: Oracle, s: State, id: string): (State, bool) {
    var a := o.start(s.tick);
    (s.(tick := s.tick + 1, running := if a.FailsBefore? then s.running else s.running + {id}), a.Works?)
  }

  function EnsureStopped(o: Oracle, s: State, id: string): (State, bool) {
    var a := o.stop(s.tick);
    (s.(tick := s.tick + 1, running := if a.FailsBefore? then s.running else s.running - {id}), a.Works?)
  }

  /** All calls are made, side by side; each concerns one container only. The group
      fails when one of them does. */
  function EnsureAllRunning(o: Oracle, s: State, ids: seq<string>): (State, bool)
    decreases |ids|
  {
    if ids == [] then (s, true)
    else
      var (s1, ok) := EnsureRunning(o, s, ids[0]);
      var (s2, oks) := EnsureAllRunning(o, s1, ids[1..]);
      (s2, ok && oks)
  }

  function EnsureAllStopped(o: Oracle, s: State, ids: seq<string>): (State, bool)
    decreases |ids|
  {
    if ids == [] then (s, true)
    else
      var (s1, ok) := EnsureStopped(o, s, ids[0]);
      var (s2, oks) := EnsureAllStopped(o, s1, ids[1..]);
      (s2, ok && oks)
  }

  /** Inspects the container, expands the command, and executes it. */
  function RunCommand(o: Oracle, s: State, command: seq<string>): (State, bool) {
    var s1 := s.(tick := s.tick + 1);
    match o.variables(s.tick)
    case None => (s1, false)
    case Some(vars) =>
      if ExpandAll(command, vars).None? then (s1.(panicked := true), false) else (s1, o.exec(s.tick))
  }

  function Create(s: State, c: ContainerBackup, content: Content): State {
    s.(archives := s.archives + [Archive(c, s.running, content)])
  }

  // -------------------------------------------------------------------- job

  /** Go's zero value, for a name that is not in the project. */
  const NoContainer := ContainerBackup("", "", DefaultMode, "", None, [], [], [])

  function Lookup(project: Project, service: string): ContainerBackup {
    if service in project.containers then project.containers[service] else NoContainer
  }

  function IdsOf(project: Project, services: seq<string>): seq<string> {
    if services == [] then [] else [Lookup(project, services[0]).id] + IdsOf(project, services[1..])
  }

  /** The services that name `c` as a dependency, in the order visited. */
  function Dependents(project: Project, c: ContainerBackup, services: seq<string>): seq<string> {
    if services == [] then []
    else
      (if c.serviceName in Lookup(project, services[0]).dependencies then [services[0]] else [])
      + Dependents(project, c, services[1..])
  }

  function SourcesOf(o: Oracle, c: ContainerBackup, paths: seq<string>): seq<string> {
    if paths == [] then []
    else
      var source := o.source(c, paths[0]);
      (if source.Some? then [source.value] else []) + SourcesOf(o, c, paths[1..])
  }

  function VolumeSources(volumes: seq<Volume>): seq<string> {
    if volumes == [] then [] else [volumes[0].source] + VolumeSources(volumes[1..])
  }

  function RunVolumeBackup(s: State, c: ContainerBackup): State {
    Create(s, c, Paths(VolumeSources(c.backupVolumes)))
  }

  function RunExecBackup(o: Oracle, s: State, c: ContainerBackup, exec: Exec): State {
    var (s1, ok) := RunCommand(o, s, exec.command);
    if !ok then s1
    else Create(s1, c, if exec.stdout then Output else Paths(SourcesOf(o, c, exec.paths)))
  }

  function RunBackup(o: Oracle, s: State, c: ContainerBackup): State {
    if c.exec.Some? then RunExecBackup(o, s, c, c.exec.value) else RunVolumeBackup(s, c)
  }

  /** The container, then its dependencies. */
  function BringUp(o: Oracle, project: Project, s: State, c: ContainerBackup): (State, bool) {
    var (s1, ok) := EnsureRunning(o, s, c.id);
    if ok then EnsureAllRunning(o, s1, IdsOf(project, c.dependencies)) else (s1, false)
  }

  function RunOnline(o: Oracle, project: Project, s: State, c: ContainerBackup): State {
    var (s1, ok) := BringUp(o, project, s, c);
    if ok then RunBackup(o, s1, c) else s1
  }

  function RunDependentOffline(o: Oracle, project: Project, s: State, c: ContainerBackup): State {
    var (s1, ok) := BringUp(o, project, s, c);
    if !ok then s1
    else
      var dependents := Dependents(project, c, o.visit(s1.tick, project.containers.Keys));
      var (s2, stopped) := EnsureAllStopped(o, s1, IdsOf(project, dependents));
      if stopped then RunBackup(o, s2, c) else s2
  }

  function RunOffline(o: Oracle, s: State, c: ContainerBackup): State {
    var (s1, ok) := EnsureStopped(o, s, c.id);
    if ok then RunVolumeBackup(s1, c) else s1
  }

  function RunOne(o: Oracle, project: Project, s: State, c: ContainerBackup): State {
    if !NeedsBackup(c) then s
    else match c.mode
      case DefaultMode => RunOnline(o, project, s, c)
      case OfflineMode => RunOffline(o, s, c)
      case DependentOfflineMode => RunDependentOffline(o, project, s, c)
  }

  function RunPlan(o: Oracle, project: Project, s: State, plan: seq<ContainerBackup>): State
    decreases |plan|
  {
    if plan == [] || s.panicked then s else RunPlan(o, project, RunOne(o, project, s, plan[0]), plan[1..])
  }

  /** The whole job; the flag says whether the final pass over all containers worked. */
  function RunJob(o: Oracle, project: Project, s: State, plan: seq<ContainerBackup>): (State, bool) {
    var s1 := RunPlan(o, project, s.(panicked := false), plan);
    if s1.panicked then (s1, false)
    else EnsureAllRunning(o, s1, IdsOf(project, o.visit(s1.tick, project.containers.Keys)))
  }

  // ----------------------------------------------------------------- safety

  function DependencyIds(project: Project, c: ContainerBackup): set<string> {
    set dep | dep in c.dependencies :: Lookup(project, dep).id
  }

  function DependentIds(project: Project, c: ContainerBackup): set<string> {
    set s | s in project.containers && c.serviceName in project.containers[s].dependencies :: project.containers[s].id
  }

  /** What must hold at the moment an archive is created. */
  predicate Safe(project: Project, a: Archive) {
    var c := a.container;
    match c.mode
    case DefaultMode => c.id in a.running && DependencyIds(project, c) <= a.running
    case OfflineMode => c.id !in a.running
    case DependentOfflineMode =>
      c.id in a.running && DependencyIds(project, c) <= a.running && DependentIds(project, c) !! a.running
  }

  /** Stopping the dependents stops neither the container nor what it depends on. */
  predicate Separable(project: Project, c: ContainerBackup) {
    DependentIds(project, c) !! {c.id} + DependencyIds(project, c)
  }

  /** When a container's archives are safe. */
  predicate SafeToBackUp(project: Project, c: ContainerBackup) {
    c.mode.DependentOfflineMode? ==> Separable(project, c)
  }

  // ----------------------------------------------- which calls have to work

  /** The next `n` calls start their containers. */
  ghost predicate AllStart(o: Oracle, t: nat, n: nat) {
    forall k :: t <= k < t + n ==> o.start(k).Works?
  }

  ghost predicate AllStop(o: Oracle, t: nat, n: nat) {
    forall k :: t <= k < t + n ==> o.stop(k).Works?
  }

  function DependentServices(project: Project, c: ContainerBackup): set<string> {
    set s | s in project.containers && c.serviceName in project.containers[s].dependencies
  }

  /** When everything that is started or stopped for the backup has been called for. */
  function BackupTick(project: Project, t: nat, c: ContainerBackup): nat {
    match c.mode
    case DefaultMode => t + 1 + |c.dependencies|
    case OfflineMode => t + 1
    case DependentOfflineMode => t + 1 + |c.dependencies| + |DependentServices(project, c)|
  }

  /** From the given moment on, the calls that a container's mode asks for work: it is
      stopped, or it and its dependencies are started and its dependents stopped. */
  ghost predicate GetsReady(o: Oracle, project: Project, t: nat, c: ContainerBackup) {
    match c.mode
    case DefaultMode => AllStart(o, t, 1 + |c.dependencies|)
    case OfflineMode => o.stop(t).Works?
    case DependentOfflineMode =>
      && AllStart(o, t, 1 + |c.dependencies|)
      && AllStop(o, t + 1 + |c.dependencies|, |DependentServices(project, c)|)
  }

  /** A command, if there is one, is found its variables, expanded and executed. */
  predicate CommandWorks(o: Oracle, t: nat, c: ContainerBackup) {
    c.exec.Some? && !c.mode.OfflineMode? ==>
      && o.variables(t).Some?
      && ExpandAll(c.exec.value.command, o.variables(t).value).Some?
      && o.exec(t)
  }

  /** The container's command cannot be expanded with the variables found. */
  predicate CommandPanics(o: Oracle, t: nat, c: ContainerBackup) {
    !c.mode.OfflineMode? && c.exec.Some? && o.variables(t).Some? &&
    ExpandAll(c.exec.value.command, o.variables(t).value).None?
  }

  /** The backup of a container is asked for, and all its calls work. */
  ghost predicate BackupWorks(o: Oracle, project: Project, t: nat, c: ContainerBackup) {
    && (c.exec.Some? || c.backupVolumes != [])
    && GetsReady(o, project, t, c)
    && CommandWorks(o, BackupTick(project, t, c), c)
  }

  ghost predicate BackupPanics(o: Oracle, project: Project, t: nat, c: ContainerBackup) {
    GetsReady(o, project, t, c) && CommandPanics(o, BackupTick(project, t, c), c)
  }

  lemma {:induction false} AllRunning(o: Oracle, s: State, ids: seq<string>)
    ensures var (s', ok) := EnsureAllRunning(o, s, ids);
      && s'.archives == s.archives && s'.tick == s.tick + |ids| && s'.panicked == s.panicked
      && s.running <= s'.running
      && (ok <==> AllStart(o, s.tick, |ids|))
      && (ok ==> s'.running == s.running + (set id | id in ids))
    decreases |ids|
  {
    if ids != [] {
      AllRunning(o, EnsureRunning(o, s, ids[0]).0, ids[1..]);
      assert ids == [ids[0]] + ids[1..];
    }
  }

  lemma {:induction false} AllStopped(o: Oracle, s: State, ids: seq<string>)
    ensures var (s', ok) := EnsureAllStopped(o, s, ids);
      && s'.archives == s.archives && s'.tick == s.tick + |ids| && s'.panicked == s.panicked
      && (ok <==> AllStop(o, s.tick, |ids|))
      && (ok ==> s'.running == s.running - (set id | id in ids))
    decreases |ids|
  {
    if ids != [] {
      AllStopped(o, EnsureStopped(o, s, ids[0]).0, ids[1..]);
      assert ids == [ids[0]] + ids[1..];
    }
  }

  lemma {:induction false} IdsAreThose(project: Project, services: seq<string>)
    ensures (set id | id in IdsOf(project, services)) == set s | s in services :: Lookup(project, s).id
  {
    if services != [] {
      IdsAreThose(project, services[1..]);
      assert services == [services[0]] + services[1..];
      var rest := set s | s in services[1..] :: Lookup(project, s).id;
      assert (set id | id in IdsOf(project, services)) == {Lookup(project, services[0]).id} + rest;
      assert (set s | s in services :: Lookup(project, s).id) == {Lookup(project, services[0]).id} + rest;
    }
  }

  lemma {:induction false} AsManyIds(project: Project, services: seq<string>)
    ensures |IdsOf(project, services)| == |services|
  {
    if services != [] {
      AsManyIds(project, services[1..]);
    }
  }

  lemma {:induction false} DependentsAreThose(project: Project, c: ContainerBackup, services: seq<string>, s: string)
    ensures s in Dependents(project, c, services) <==> s in services && c.serviceName in Lookup(project, s).dependencies
  {
    if services != [] {
      DependentsAreThose(project, c, services[1..], s);
      assert services == [services[0]] + services[1..];
    }
  }

  /** The archive holds what was asked for: the output of the command, the source of every
      path of the command, or the source of every volume to be backed up, in order. */
  ghost predicate HoldsAllAsked(source: (ContainerBackup, string) -> Option<string>, a: Archive) {
    var c := a.container;
    if c.exec.None? || c.mode.OfflineMode? then
      && a.content.Paths? && |a.content.paths| == |c.backupVolumes|
      && forall k :: 0 <= k < |c.backupVolumes| ==> a.content.paths[k] == c.backupVolumes[k].source
    else if c.exec.value.stdout then a.content.Output?
    else
      && a.content.Paths? && |a.content.paths| == |c.exec.value.paths|
      && forall k :: 0 <= k < |c.exec.value.paths| ==> source(c, c.exec.value.paths[k]) == Some(a.content.paths[k])
  }

  /** Every path the container's command leaves behind has a source. */
  ghost predicate PathsHaveSources(source: (ContainerBackup, string) -> Option<string>, c: ContainerBackup) {
    c.exec.Some? && !c.exec.value.stdout ==> forall path :: path in c.exec.value.paths ==> source(c, path).Some?
  }

  lemma {:induction false} VolumeSourcesAt(volumes: seq<Volume>)
    ensures |VolumeSources(volumes)| == |volumes|
    ensures forall k :: 0 <= k < |volumes| ==> VolumeSources(volumes)[k] == volumes[k].source
  {
    if volumes != [] {
      VolumeSourcesAt(volumes[1..]);
    }
  }

  lemma {:induction false} SourcesAt(o: Oracle, c: ContainerBackup, paths: seq<string>)
    ensures |SourcesOf(o, c, paths)| <= |paths|
    ensures |SourcesOf(o, c, paths)| == |paths| <==> forall path :: path in paths ==> o.source(c, path).Some?
    ensures |SourcesOf(o, c, paths)| == |paths| ==>
      forall k :: 0 <= k < |paths| ==> o.source(c, paths[k]) == Some(SourcesOf(o, c, paths)[k])
  {
    if paths != [] {
      SourcesAt(o, c, paths[1..]);
      assert paths == [paths[0]] + paths[1..];
    }
  }

  /** `RunBackup` and `RunVolumeBackup` make their archive exactly if the command works. */
  lemma BackupIsMade(o: Oracle, s: State, c: ContainerBackup)
    requires !s.panicked
    ensures var s' := if c.mode.OfflineMode? then RunVolumeBackup(s, c) else RunBackup(o, s, c);
      && s'.running == s.running
      && (if CommandWorks(o, s.tick, c)
          then |s'.archives| == |s.archives| + 1 && s.archives <= s'.archives &&
               var a := s'.archives[|s.archives|];
               && a.container == c && a.running == s.running
               && (PathsHaveSources(o.source, c) ==> HoldsAllAsked(o.source, a))
          else s'.archives == s.archives)
      && (s'.panicked <==> CommandPanics(o, s.tick, c))
  {
    VolumeSourcesAt(c.backupVolumes);
    if c.exec.Some? {
      SourcesAt(o, c, c.exec.value.paths);
    }
  }

  /** After a container has been brought up, it and its dependencies are running. */
  lemma BroughtUp(o: Oracle, project: Project, s: State, c: ContainerBackup)
    ensures var (s', ok) := BringUp(o, project, s, c);
      && s'.archives == s.archives && s'.panicked == s.panicked
      && (ok <==> AllStart(o, s.tick, 1 + |c.dependencies|))
      && (ok ==> {c.id} + DependencyIds(project, c) <= s'.running && s'.tick == s.tick + 1 + |c.dependencies|)
  {
    var s1 := EnsureRunning(o, s, c.id).0;
    AllRunning(o, s1, IdsOf(project, c.dependencies));
    IdsAreThose(project, c.dependencies);
    AsManyIds(project, c.dependencies);
  }

  lemma StoppedIds(o: Oracle, project: Project, c: ContainerBackup, t: nat)
    requires Fair(o)
    ensures var ids := IdsOf(project, Dependents(project, c, o.visit(t, project.containers.Keys)));
      (set id | id in ids) == DependentIds(project, c) && |ids| == |DependentServices(project, c)|
  {
    var services := o.visit(t, project.containers.Keys);
    assert Enumerates(services, project.containers.Keys);
    var dependents := Dependents(project, c, services);
    IdsAreThose(project, dependents);
    AsManyIds(project, dependents);
    DependentsAreDistinct(project, c, services);
    forall s
      ensures s in dependents <==> s in project.containers && c.serviceName in project.containers[s].dependencies
    {
      DependentsAreThose(project, c, services, s);
    }
    EnumeratedLength(dependents, DependentServices(project, c));
  }

  lemma {:induction false} DependentsAreDistinct(project: Project, c: ContainerBackup, services: seq<string>)
    requires Distinct(services)
    ensures Distinct(Dependents(project, c, services))
  {
    if services != [] {
      var rest := Dependents(project, c, services[1..]);
      DependentsAreDistinct(project, c, services[1..]);
      DependentsAreThose(project, c, services[1..], services[0]);
      assert services[0] !in services[1..];
    }
  }

  lemma {:induction false} EnumeratedLength<T>(order: seq<T>, s: set<T>)
    requires Distinct(order) && forall x :: x in order <==> x in s
    ensures |order| == |s|
    decreases |order|
  {
    if order == [] {
      assert s == {};
    } else {
      var x, rest := order[0], order[1..];
      assert order == [x] + rest && x in order;
      forall y ensures y in rest <==> y in s - {x} {
        assert y in order <==> y == x || y in rest;
      }
      EnumeratedLength(rest, s - {x});
    }
  }

  /** A container of the plan adds one archive, of that container, exactly if its backup is
      asked for and all its calls work. The archive is made when the mode's condition
      holds, exactly if the container is safe to back up. If the command panics what was
      stopped for it stays stopped. */
  lemma OneContainerIsSafe(o: Oracle, project: Project, s: State, c: ContainerBackup)
    requires Fair(o) && !s.panicked
    ensures var s' := RunOne(o, project, s, c);
      && (if BackupWorks(o, project, s.tick, c)
          then |s'.archives| == |s.archives| + 1 && s.archives <= s'.archives &&
               var a := s'.archives[|s.archives|];
               && a.container == c && a.running == s'.running
               && (Safe(project, a) <==> SafeToBackUp(project, c))
               && (PathsHaveSources(o.source, c) ==> HoldsAllAsked(o.source, a))
          else s'.archives == s.archives)
      && (s'.panicked <==> BackupPanics(o, project, s.tick, c))
      && (s'.panicked && c.mode.DependentOfflineMode? ==> DependentIds(project, c) !! s'.running)
  {
    hide EnsureAllRunning, EnsureAllStopped, IdsOf, Dependents, RunBackup, RunVolumeBackup, BringUp, HoldsAllAsked,
      CommandPanics, CommandWorks, PathsHaveSources, AllStart, AllStop;
    NothingAskedNothingDone(o, BackupTick(project, s.tick, c), c);
    match c.mode {
      case DefaultMode =>
        BroughtUp(o, project, s, c);
        BackupIsMade(o, BringUp(o, project, s, c).0, c);
      case OfflineMode =>
        BackupIsMade(o, EnsureStopped(o, s, c.id).0, c);
      case DependentOfflineMode =>
        BroughtUp(o, project, s, c);
        var (s1, ok) := BringUp(o, project, s, c);
        if ok {
          var ids := IdsOf(project, Dependents(project, c, o.visit(s1.tick, project.containers.Keys)));
          StoppedIds(o, project, c, s1.tick);
          AllStopped(o, s1, ids);
          BackupIsMade(o, EnsureAllStopped(o, s1, ids).0, c);
        }
    }
  }

  lemma NothingAskedNothingDone(o: Oracle, t: nat, c: ContainerBackup)
    ensures c.mode.OfflineMode? ==> CommandWorks(o, t, c)
    ensures CommandPanics(o, t, c) ==> c.exec.Some? && !c.mode.OfflineMode?
  {
  }

  function ContainersOf(archives: seq<Archive>): seq<ContainerBackup> {
    seq(|archives|, k requires 0 <= k < |archives| => archives[k].container)
  }

  /** For every plan and every pattern of engine failures, archives are only made of
      containers of the plan that need one, for each place in the plan at most once, and
      each is made while its mode's condition holds, if and only if stopping its dependents
      spares the container and what it depends on. */
  lemma {:induction false} PlanIsSafe(o: Oracle, project: Project, s: State, plan: seq<ContainerBackup>)
    requires Fair(o)
    ensures var s' := RunPlan(o, project, s, plan);
      && s.archives <= s'.archives
      && multiset(ContainersOf(s'.archives[|s.archives|..])) <= multiset(plan)
      && forall k :: |s.archives| <= k < |s'.archives| ==>
           var a := s'.archives[k];
           && a.container in plan && (a.container.exec.Some? || a.container.backupVolumes != [])
           && (Safe(project, a) <==> SafeToBackUp(project, a.container))
           && (PathsHaveSources(o.source, a.container) ==> HoldsAllAsked(o.source, a))
    decreases |plan|
  {
    hide RunOne, Safe, SafeToBackUp, HoldsAllAsked, PathsHaveSources, BackupPanics, GetsReady, CommandWorks;
    if plan != [] && !s.panicked {
      OneContainerIsSafe(o, project, s, plan[0]);
      var s1 := RunOne(o, project, s, plan[0]);
      PlanIsSafe(o, project, s1, plan[1..]);
      var s' := RunPlan(o, project, s, plan);
      var made, rest := s'.archives[|s.archives|..], s'.archives[|s1.archives|..];
      assert plan == [plan[0]] + plan[1..];
      if |s1.archives| > |s.archives| {
        assert ContainersOf(made) == [plan[0]] + ContainersOf(rest);
      }
    } else {
      assert ContainersOf(RunPlan(o, project, s, plan).archives[|s.archives|..]) == [];
    }
  }

  // ------------------------------------------------- what a run archives

  /** After one more container. */
  lemma {:induction false} OneMore(o: Oracle, project: Project, s: State, plan: seq<ContainerBackup>,
                                   c: ContainerBackup)
    ensures var s1 := RunPlan(o, project, s, plan);
      RunPlan(o, project, s, plan + [c]) == if s1.panicked then s1 else RunOne(o, project, s1, c)
    decreases |plan|
  {
    hide RunOne;
    if plan != [] {
      assert (plan + [c])[1..] == plan[1..] + [c];
      OneMore(o, project, RunOne(o, project, s, plan[0]), plan[1..], c);
    } else {
      assert (plan + [c])[1..] == [];
    }
  }

  /** Whatever happened before, the next container of the plan is tried unless a command has
      panicked: it adds its archive exactly if its own calls work, and ends the run exactly
      if its command panics. */
  lemma EveryPlaceIsTried(o: Oracle, project: Project, s: State, plan: seq<ContainerBackup>, k: nat)
    requires Fair(o) && k < |plan|
    ensures var s1, s2 := RunPlan(o, project, s, plan[..k]), RunPlan(o, project, s, plan[..k + 1]);
      && ContainersOf(s2.archives) == ContainersOf(s1.archives) +
           (if !s1.panicked && BackupWorks(o, project, s1.tick, plan[k]) then [plan[k]] else [])
      && (s2.panicked <==> s1.panicked || BackupPanics(o, project, s1.tick, plan[k]))
      && (s1.panicked ==> s2 == s1)
    ensures RunPlan(o, project, s, plan[..0]) == s
    ensures RunPlan(o, project, s, plan[..|plan|]) == RunPlan(o, project, s, plan)
  {
    hide RunOne, RunPlan, BackupWorks, BackupPanics;
    assert plan[..k + 1] == plan[..k] + [plan[k]] && plan[..|plan|] == plan;
    OneMore(o, project, s, plan[..k], plan[k]);
    var s1, s2 := RunPlan(o, project, s, plan[..k]), RunPlan(o, project, s, plan[..k + 1]);
    if !s1.panicked {
      OneContainerIsSafe(o, project, s1, plan[k]);
      if BackupWorks(o, project, s1.tick, plan[k]) {
        assert ContainersOf(s2.archives) == ContainersOf(s1.archives) + [plan[k]];
      }
    }
    EmptyPlan(o, project, s);
  }

  lemma EmptyPlan(o: Oracle, project: Project, s: State)
    ensures RunPlan(o, project, s, []) == s
  {
  }

  /** No call fails, and no command of the plan has a bare reference in it. */
  ghost predicate EverythingWorks(o: Oracle, plan: seq<ContainerBackup>) {
    && (forall t :: o.start(t).Works? && o.stop(t).Works? && o.exec(t) && o.variables(t).Some?)
    && (forall c, t :: c in plan && c.exec.Some? ==> ExpandAll(c.exec.value.command, o.variables(t).value).Some?)
  }

  /** The containers that ask for a backup, in order. */
  function Asking(plan: seq<ContainerBackup>): seq<ContainerBackup> {
    if plan == [] then []
    else (if plan[0].exec.Some? || plan[0].backupVolumes != [] then [plan[0]] else []) + Asking(plan[1..])
  }

  /** When everything works, the plan is archived completely and in order. */
  lemma {:induction false} WorkingPlanArchivesAll(o: Oracle, project: Project, s: State, plan: seq<ContainerBackup>)
    requires Fair(o) && EverythingWorks(o, plan) && !s.panicked
    ensures var s' := RunPlan(o, project, s, plan);
      ContainersOf(s'.archives) == ContainersOf(s.archives) + Asking(plan) && !s'.panicked
    decreases |plan|
  {
    hide RunOne;
    if plan != [] {
      var c := plan[0];
      OneContainerIsSafe(o, project, s, c);
      var s1 := RunOne(o, project, s, c);
      assert BackupWorks(o, project, s.tick, c) <==> c.exec.Some? || c.backupVolumes != [];
      assert c in plan && !BackupPanics(o, project, s.tick, c);
      if BackupWorks(o, project, s.tick, c) {
        assert ContainersOf(s1.archives) == ContainersOf(s.archives) + [c];
      }
      assert forall x :: x in plan[1..] ==> x in plan;
      WorkingPlanArchivesAll(o, project, s1, plan[1..]);
      assert plan == [c] + plan[1..];
    } else {
      assert ContainersOf(s.archives) + [] == ContainersOf(s.archives);
    }
  }

  // ---------------------------------------------------- when it is safe

  ghost predicate DistinctIds(project: Project) {
    forall s, t | s in project.containers && t in project.containers ::
      project.containers[s].id == project.containers[t].id ==> s == t
  }

  /** Keys are service names, and dependencies are in the project. */
  ghost predicate Complete(project: Project) {
    forall s :: s in project.containers ==>
      && project.containers[s].serviceName == s
      && forall dep :: dep in project.containers[s].dependencies ==> dep in project.containers
  }

  /** A service needs itself, or needs one that needs it. */
  predicate NeedsEachOther(project: Project, c: ContainerBackup) {
    || c.serviceName in c.dependencies
    || exists s :: s in c.dependencies && s in project.containers && c.serviceName in project.containers[s].dependencies
  }

  /** With distinct container ids, a container can be separated from its dependents
      exactly when it is in no circle of length one or two. */
  lemma SeparableUnlessMutual(project: Project, s: string)
    requires DistinctIds(project) && Complete(project) && s in project.containers
    ensures Separable(project, project.containers[s]) <==> !NeedsEachOther(project, project.containers[s])
  {
    var c := project.containers[s];
    if !Separable(project, c) {
      var id :| id in DependentIds(project, c) && id in {c.id} + DependencyIds(project, c);
      var t :| t in project.containers && s in project.containers[t].dependencies && project.containers[t].id == id;
      if id != c.id {
        var dep :| dep in c.dependencies && Lookup(project, dep).id == id;
        assert dep == t;
      }
    }
    if c.serviceName in c.dependencies {
      assert c.id in DependentIds(project, c);
    } else if t :| t in c.dependencies && t in project.containers && s in project.containers[t].dependencies {
      assert project.containers[t].id in DependentIds(project, c);
      assert Lookup(project, t).id in DependencyIds(project, c);
    }
  }

  /** The final pass makes no archive. It takes place unless a command has panicked; it works
      exactly if all its calls start their containers, and then all of them are running. */
  lemma FinalPass(o: Oracle, project: Project, s: State, plan: seq<ContainerBackup>)
    requires Fair(o)
    ensures var s1 := RunPlan(o, project, s.(panicked := false), plan);
      var (s', ok) := RunJob(o, project, s, plan);
      && s'.archives == s1.archives && s'.panicked == s1.panicked
      && (ok <==> !s1.panicked && AllStart(o, s1.tick, |project.containers|))
      && (ok ==> forall t :: t in project.containers ==> project.containers[t].id in s'.running)
  {
    hide EnsureAllRunning, IdsOf, RunPlan, AllStart;
    var s1 := RunPlan(o, project, s.(panicked := false), plan);
    var services := o.visit(s1.tick, project.containers.Keys);
    assert Enumerates(services, project.containers.Keys);
    EnumeratedLength(services, project.containers.Keys);
    AsManyIds(project, services);
    AllRunning(o, s1, IdsOf(project, services));
    IdsAreThose(project, services);
    var (s', ok) := RunJob(o, project, s, plan);
    forall t | t in project.containers && ok ensures project.containers[t].id in s'.running {
      assert t in services && Lookup(project, t).id in set u | u in services :: Lookup(project, u).id;
    }
  }

  /** A run in which everything works archives exactly the containers of its plan that ask for
      a backup, in the order of the plan, and ends with a final pass that works. */
  lemma WorkingRunArchivesAll(o: Oracle, project: Project, s: State, plan: seq<ContainerBackup>)
    requires Fair(o) && EverythingWorks(o, plan)
    ensures var (s', ok) := RunJob(o, project, s, plan);
      ContainersOf(s'.archives) == ContainersOf(s.archives) + Asking(plan) && ok
  {
    hide RunJob, RunPlan, ContainersOf;
    var s0 := s.(panicked := false);
    WorkingPlanArchivesAll(o, project, s0, plan);
    FinalPass(o, project, s, plan);
  }

  /** A run of a job panics only at the command of a container of its plan that has a bare
      reference. Then the rest of the plan and the final pass are left out, so containers
      that were stopped for this one stay stopped. */
  lemma PanicSkipsFinalPass(o: Oracle, project: Project, s: State, plan: seq<ContainerBackup>)
    requires Fair(o) && RunJob(o, project, s, plan).0.panicked
    ensures var (s', ok) := RunJob(o, project, s, plan);
      !ok && exists c, t :: c in plan && PanicsAt(o, project, s', c, t)
  {
    hide RunPlan, EnsureAllRunning, IdsOf;
    var s0 := s.(panicked := false);
    var s1 := RunPlan(o, project, s0, plan);
    AllRunning(o, s1, IdsOf(project, o.visit(s1.tick, project.containers.Keys)));
    PlanPanics(o, project, s0, plan);
  }

  /** The run ends at the command of this container, its dependents stopped. */
  ghost predicate PanicsAt(o: Oracle, project: Project, s: State, c: ContainerBackup, t: nat) {
    && BackupPanics(o, project, t, c)
    && (c.mode.DependentOfflineMode? ==> DependentIds(project, c) !! s.running)
  }

  lemma {:induction false} PlanPanics(o: Oracle, project: Project, s: State, plan: seq<ContainerBackup>)
    requires Fair(o) && !s.panicked && RunPlan(o, project, s, plan).panicked
    ensures exists c, t :: c in plan && PanicsAt(o, project, RunPlan(o, project, s, plan), c, t)
    decreases |plan|
  {
    hide RunOne, BackupPanics, BackupWorks, HoldsAllAsked, PathsHaveSources, Safe, SafeToBackUp;
    OneContainerIsSafe(o, project, s, plan[0]);
    var s1 := RunOne(o, project, s, plan[0]);
    if s1.panicked {
      assert PanicsAt(o, project, s1, plan[0], s.tick);
    } else {
      PlanPanics(o, project, s1, plan[1..]);
    }
  }

  /** A job without circular dependencies whose paths have sources makes archives that are
      safe and hold what was asked for, and if its final pass works every container of the
      project is running. An archive of a stopped container never has an empty list of
      paths. */
  lemma JobIsSafe(o: Oracle, project: Project, s: State, plan: seq<ContainerBackup>)
    requires Fair(o) && DistinctIds(project) && Complete(project)
    requires forall c :: c in plan ==>
      c in project.containers.Values && WellConfigured(c) && PathsHaveSources(o.source, c) &&
      !NeedsEachOther(project, c)
    ensures var (s', ok) := RunJob(o, project, s, plan);
      && s.archives <= s'.archives
      && (forall k :: |s.archives| <= k < |s'.archives| ==>
            var a := s'.archives[k];
            && a.container in plan && Safe(project, a) && HoldsAllAsked(o.source, a)
            && (a.container.mode.OfflineMode? ==> a.content != Paths([])))
      && (ok ==> forall t :: t in project.containers ==> project.containers[t].id in s'.running)
  {
    hide EnsureAllRunning, IdsOf, RunPlan, NeedsEachOther, Safe, Separable, PathsHaveSources, ContainersOf;
    var s0 := s.(panicked := false);
    PlanIsSafe(o, project, s0, plan);
    FinalPass(o, project, s, plan);
    var s1 := RunPlan(o, project, s0, plan);
    forall k | |s.archives| <= k < |s1.archives|
      ensures var a := s1.archives[k];
        && a.container in plan && Safe(project, a) && HoldsAllAsked(o.source, a)
        && (a.container.mode.OfflineMode? ==> a.content != Paths([]))
    {
      var c := s1.archives[k].container;
      var t :| t in project.containers && project.containers[t] == c;
      SeparableUnlessMutual(project, t);
    }
  }

  // ---------------------------------------------------- the job as an object

  class Engine {
    const oracle: Oracle
    var running: set<string>
    var calls: nat
    var archives: seq<Archive>
    var panicked: bool

    constructor (oracle: Oracle, running: set<string>)
      ensures this.oracle == oracle && Snapshot() == State(running, 0, [], false)
    {
      this.oracle := oracle;
      this.running := running;
      calls, archives, panicked := 0, [], false;
    }

    function Snapshot(): State
      reads this
    {
      State(running, calls, archives, panicked)
    }

    method EnsureContainerRunning(id: string) returns (ok: bool)
      modifies this
      ensures (Snapshot(), ok) == EnsureRunning(oracle, old(Snapshot()), id)
    {
      var a := oracle.start(calls);
      if !a.FailsBefore? {
        running := running + {id};
      }
      calls := calls + 1;
      ok := a.Works?;
    }

    method EnsureContainerStopped(id: string) returns (ok: bool)
      modifies this
      ensures (Snapshot(), ok) == EnsureStopped(oracle, old(Snapshot()), id)
    {
      var a := oracle.stop(calls);
      if !a.FailsBefore? {
        running := running - {id};
      }
      calls := calls + 1;
      ok := a.Works?;
    }

    method Execute(command: seq<string>) returns (ok: bool)
      modifies this
      ensures (Snapshot(), ok) == RunCommand(oracle, old(Snapshot()), command)
    {
      var vars := oracle.variables(calls);
      calls := calls + 1;
      if vars.None? {
        return false;
      }
      var words := new string[|command|](k requires 0 <= k < |command| => command[k]);
      assert words[..] == command;
      var expanded := ExpandCommand(words, vars.value);
      if !expanded {
        panicked := true;
        return false;
      }
      ok := oracle.exec(calls - 1);
    }

    /** What the scheduler does when a job has panicked. */
    method Recover()
      modifies this`panicked
      ensures !panicked
    {
      panicked := false;
    }

    method CreateArchive(c: ContainerBackup, content: Content)
      modifies this
      ensures Snapshot() == Create(old(Snapshot()), c, content)
    {
      archives := archives + [Archive(c, running, content)];
    }

    /** A group of calls; all are made whether or not one fails. */
    method EnsureGroupRunning(ids: seq<string>) returns (ok: bool)
      modifies this
      ensures (Snapshot(), ok) == EnsureAllRunning(oracle, old(Snapshot()), ids)
    {
      ok := true;
      for k := 0 to |ids|
        invariant EnsureAllRunning(oracle, old(Snapshot()), ids) ==
                  (EnsureAllRunning(oracle, Snapshot(), ids[k..]).0,
                   ok && EnsureAllRunning(oracle, Snapshot(), ids[k..]).1)
      {
        assert ids[k..][0] == ids[k] && ids[k..][1..] == ids[k + 1..];
        var one := EnsureContainerRunning(ids[k]);
        ok := ok && one;
      }
    }

    method EnsureGroupStopped(ids: seq<string>) returns (ok: bool)
      modifies this
      ensures (Snapshot(), ok) == EnsureAllStopped(oracle, old(Snapshot()), ids)
    {
      ok := true;
      for k := 0 to |ids|
        invariant EnsureAllStopped(oracle, old(Snapshot()), ids) ==
                  (EnsureAllStopped(oracle, Snapshot(), ids[k..]).0,
                   ok && EnsureAllStopped(oracle, Snapshot(), ids[k..]).1)
      {
        assert ids[k..][0] == ids[k] && ids[k..][1..] == ids[k + 1..];
        var one := EnsureContainerStopped(ids[k]);
        ok := ok && one;
      }
    }
  }

  class ContainerProjectBackupJob {
    const engine: Engine
    const project: Project
    const plan: seq<ContainerBackup>

    constructor (engine: Engine, project: Project, plan: seq<ContainerBackup>)
      ensures this.engine == engine && this.project == project && this.plan == plan
    {
      this.engine := engine;
      this.project := project;
      this.plan := plan;
    }

    method FindDependencies(c: ContainerBackup) returns (ids: seq<string>)
      ensures ids == IdsOf(project, c.dependencies)
    {
      ids := [];
      for k := 0 to |c.dependencies|
        invariant ids + IdsOf(project, c.dependencies[k..]) == IdsOf(project, c.dependencies)
      {
        assert c.dependencies[k..][0] == c.dependencies[k] && c.dependencies[k..][1..] == c.dependencies[k + 1..];
        ids := ids + [Lookup(project, c.dependencies[k]).id];
      }
    }

    method FindDependents(c: ContainerBackup) returns (services: seq<string>)
      ensures services == Dependents(project, c, engine.oracle.visit(engine.calls, project.containers.Keys))
    {
      var order := engine.oracle.visit(engine.calls, project.containers.Keys);
      services := [];
      for k := 0 to |order|
        invariant services + Dependents(project, c, order[k..]) == Dependents(project, c, order)
      {
        assert order[k..][0] == order[k] && order[k..][1..] == order[k + 1..];
        if c.serviceName in Lookup(project, order[k]).dependencies {
          services := services + [order[k]];
        }
      }
    }

    method RunVolume(c: ContainerBackup)
      modifies engine
      ensures engine.Snapshot() == RunVolumeBackup(old(engine.Snapshot()), c)
    {
      var paths := [];
      for k := 0 to |c.backupVolumes|
        invariant paths + VolumeSources(c.backupVolumes[k..]) == VolumeSources(c.backupVolumes)
      {
        assert c.backupVolumes[k..][0] == c.backupVolumes[k] && c.backupVolumes[k..][1..] == c.backupVolumes[k + 1..];
        paths := paths + [c.backupVolumes[k].source];
      }
      assert paths == VolumeSources(c.backupVolumes);
      engine.CreateArchive(c, Paths(paths));
    }

    method RunExec(c: ContainerBackup, exec: Exec)
      modifies engine
      ensures engine.Snapshot() == RunExecBackup(engine.oracle, old(engine.Snapshot()), c, exec)
    {
      var ok := engine.Execute(exec.command);
      if !ok {
        return;
      }
      if exec.stdout {
        engine.CreateArchive(c, Output);
      } else {
        var paths := [];
        for k := 0 to |exec.paths|
          invariant paths + SourcesOf(engine.oracle, c, exec.paths[k..]) == SourcesOf(engine.oracle, c, exec.paths)
        {
          assert exec.paths[k..][0] == exec.paths[k] && exec.paths[k..][1..] == exec.paths[k + 1..];
          var source := engine.oracle.source(c, exec.paths[k]);
          if source.Some? {
            paths := paths + [source.value];
          }
        }
        assert paths == SourcesOf(engine.oracle, c, exec.paths);
        engine.CreateArchive(c, Paths(paths));
      }
    }

    method RunOnlineBackup(c: ContainerBackup)
      modifies engine
      ensures engine.Snapshot() == RunOnline(engine.oracle, project, old(engine.Snapshot()), c)
    {
      var ok := engine.EnsureContainerRunning(c.id);
      if !ok {
        return;
      }
      var dependencies := FindDependencies(c);
      ok := engine.EnsureGroupRunning(dependencies);
      if !ok {
        return;
      }
      if c.exec.Some? {
        RunExec(c, c.exec.value);
      } else {
        RunVolume(c);
      }
    }

    method RunDependentOfflineBackup(c: ContainerBackup)
      modifies engine
      ensures engine.Snapshot() == RunDependentOffline(engine.oracle, project, old(engine.Snapshot()), c)
    {
      var ok := engine.EnsureContainerRunning(c.id);
      if !ok {
        return;
      }
      var dependencies := FindDependencies(c);
      ok := engine.EnsureGroupRunning(dependencies);
      if !ok {
        return;
      }
      var dependents := FindDependents(c);
      var ids := LookupIds(dependents);
      ok := engine.EnsureGroupStopped(ids);
      if !ok {
        return;
      }
      if c.exec.Some? {
        RunExec(c, c.exec.value);
      } else {
        RunVolume(c);
      }
    }

    method LookupIds(services: seq<string>) returns (ids: seq<string>)
      ensures ids == IdsOf(project, services)
    {
      ids := [];
      for k := 0 to |services|
        invariant ids + IdsOf(project, services[k..]) == IdsOf(project, services)
      {
        assert services[k..][0] == services[k] && services[k..][1..] == services[k + 1..];
        ids := ids + [Lookup(project, services[k]).id];
      }
    }

    method RunOfflineBackup(c: ContainerBackup)
      modifies engine
      ensures engine.Snapshot() == RunOffline(engine.oracle, old(engine.Snapshot()), c)
    {
      var ok := engine.EnsureContainerStopped(c.id);
      if ok {
        RunVolume(c);
      }
    }

    method Run() returns (ok: bool)
      modifies engine
      ensures (engine.Snapshot(), ok) == RunJob(engine.oracle, project, old(engine.Snapshot()), plan)
    {
      hide RunOnline, RunOffline, RunDependentOffline, IdsOf, EnsureAllRunning;
      engine.Recover();
      for k := 0 to |plan|
        invariant RunPlan(engine.oracle, project, old(engine.Snapshot()).(panicked := false), plan) ==
                  RunPlan(engine.oracle, project, engine.Snapshot(), plan[k..])
      {
        if engine.panicked {
          return false;
        }
        assert plan[k..][0] == plan[k] && plan[k..][1..] == plan[k + 1..];
        var c := plan[k];
        if NeedsBackup(c) {
          match c.mode {
            case DefaultMode => RunOnlineBackup(c);
            case OfflineMode => RunOfflineBackup(c);
            case DependentOfflineMode => RunDependentOfflineBackup(c);
          }
        }
      }
      if engine.panicked {
        return false;
      }
      var ids := LookupIds(engine.oracle.visit(engine.calls, project.containers.Keys));
      ok := engine.EnsureGroupRunning(ids);
    }
  }
}
