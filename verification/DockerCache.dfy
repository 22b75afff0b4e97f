/** The cache of backup projects, kept up to date from Docker events. */
module DockerCache {
  import opened Wrappers
  import opened DroneModel
  import opened Mappers

  type Cache = map<string, Project>

  /** `cron.ParseStandard`. */
  type CronParser = string -> Option<Schedule>

  /** `Updated` stands for create and update events, with what inspecting the container
      gives and the order in which its labels are visited. */
  datatype Event =
    | Updated(inspect: Option<Inspect>, order: seq<string>)
    | Destroyed(id: string)
    | Unrelated

  predicate IsEnabled(inspect: Inspect) {
    LabelEnabled in inspect.labels && inspect.labels[LabelEnabled] == "true"
  }

  /** A new, empty project for the container. */
  function MapProject(cron: CronParser, inspect: Inspect): Option<Project> {
    if LabelProjectName !in inspect.labels || inspect.labels[LabelProjectName] == "" then None
    else if LabelProjectWhen !in inspect.labels then None
    else
      var schedule := cron(inspect.labels[LabelProjectWhen]);
      if schedule.None? then None
      else Some(Project(DockerEngine, inspect.labels[LabelProjectName], schedule.value, map[]))
  }

  function FindOrCreateProject(cron: CronParser, cache: Cache, inspect: Inspect): Option<Project> {
    var created := MapProject(cron, inspect);
    if created.Some? && created.value.name in cache then Some(cache[created.value.name]) else created
  }

  /** What an event puts into the cache. */
  datatype Update = Update(project: Project, container: ContainerBackup)

  function UpdateOf(cron: CronParser, e: Event): Option<Update> {
    if !e.Updated? || e.inspect.None? || !IsEnabled(e.inspect.value) then None
    else
      var project := MapProject(cron, e.inspect.value);
      var container := MapContainer(e.inspect.value, e.order);
      if project.None? || container.None? then None else Some(Update(project.value, container.value))
  }

  function WithContainer(cache: Cache, u: Update): Project {
    var base := if u.project.name in cache then cache[u.project.name] else u.project;
    base.(containers := base.containers[u.container.serviceName := u.container])
  }

  predicate Holds(cache: Cache, p: string, s: string, id: string) {
    p in cache && s in cache[p].containers && cache[p].containers[s].id == id
  }

  function WithoutContainer(cache: Cache, p: string, s: string): Project
    requires p in cache && s in cache[p].containers
  {
    cache[p].(containers := cache[p].containers - {cache[p].containers[s].serviceName})
  }

  function Store(cache: Cache, project: Project): Cache {
    if project.containers == map[] then cache - {project.name} else cache[project.name := project]
  }

  /** Where a container is cached. */
  ghost function Place(cache: Cache, id: string): (place: (string, string))
    requires exists p, s :: Holds(cache, p, s, id)
    ensures Holds(cache, place.0, place.1, id)
  {
    var p, s :| Holds(cache, p, s, id);
    (p, s)
  }

  /** The project an event changes, as it is afterwards. */
  ghost function Changed(cron: CronParser, cache: Cache, e: Event): Option<Project> {
    var u := UpdateOf(cron, e);
    if u.Some? then Some(WithContainer(cache, u.value))
    else if e.Destroyed? && exists p, s :: Holds(cache, p, s, e.id) then
      var place := Place(cache, e.id);
      Some(WithoutContainer(cache, place.0, place.1))
    else None
  }

  /** The cache after an event. */
  ghost function After(cron: CronParser, cache: Cache, e: Event): Cache {
    var project := Changed(cron, cache, e);
    if project.Some? then Store(cache, project.value) else cache
  }

  // ------------------------------------------------------------ the client

  /** What `handleEvent` hands on. */
  datatype Delivery = Nothing | Deliver(project: Project) | Problem

  /** A delivered project is the cached one, or has no containers and is not cached;
      nothing else has changed. */
  ghost predicate Announces(cache: Cache, cache': Cache, d: Option<Project>) {
    if d.None? then cache' == cache
    else
      var name := d.value.name;
      && Find(cache', name) == (if d.value.containers == map[] then None else d)
      && d.value.engine == DockerEngine
      && forall p :: p != name ==> Find(cache', p) == Find(cache, p)
  }

  function ProjectOf(d: Delivery): Option<Project> {
    if d.Deliver? then Some(d.project) else None
  }

  lemma ChangeIsAnnounced(cron: CronParser, cache: Cache, e: Event)
    requires CacheOk(cache)
    ensures Announces(cache, After(cron, cache, e), Changed(cron, cache, e))
  {
    hide MapContainer;
  }

  class Client {
    const cron: CronParser
    var cache: Cache

    constructor (cron: CronParser)
      ensures this.cron == cron && cache == map[]
    {
      this.cron := cron;
      cache := map[];
    }

    method HandleContainerUpdated(inspect: Option<Inspect>, order: seq<string>) returns (d: Delivery)
      requires inspect.Some? ==> Enumerates(order, inspect.value.labels.Keys)
      modifies this
      ensures var e := Updated(inspect, order);
        && cache == After(cron, old(cache), e)
        && (d.Problem? <==> inspect.None?)
        && (d.Deliver? <==> UpdateOf(cron, e).Some?)
        && (d.Deliver? ==> d.project == WithContainer(old(cache), UpdateOf(cron, e).value))
    {
      hide MapContainer;
      if inspect.None? {
        return Problem;
      }
      if !IsEnabled(inspect.value) {
        return Nothing;
      }
      var project := FindOrCreateProject(cron, cache, inspect.value);
      if project.None? {
        return Nothing;
      }
      var backup := MapInspectToContainerBackup(inspect.value, order);
      if backup.None? {
        return Nothing;
      }
      var updated := project.value.(containers := project.value.containers[backup.value.serviceName := backup.value]);
      assert backup.value.serviceName in updated.containers;
      cache := cache[updated.name := updated];
      d := Deliver(updated);
    }

    /** Looks through all projects and their containers, in no particular order. */
    method HandleContainerDestroyed(id: string) returns (d: Delivery)
      modifies this
      ensures !d.Problem?
      ensures d.Nothing? <==> !exists p, s :: Holds(old(cache), p, s, id)
      ensures d.Nothing? ==> cache == old(cache)
      ensures d.Deliver? ==>
        exists p, s :: (Holds(old(cache), p, s, id) &&
                        d.project == WithoutContainer(old(cache), p, s) && cache == Store(old(cache), d.project))
    {
      var found: Option<(string, string)> := None;
      var projects := cache.Keys;
      while projects != {}
        invariant projects <= cache.Keys
        invariant found.Some? ==> Holds(cache, found.value.0, found.value.1, id)
        invariant found.None? ==> forall p, s :: Holds(cache, p, s, id) ==> p in projects
        decreases |projects|
      {
        var p :| p in projects;
        projects := projects - {p};
        var services := cache[p].containers.Keys;
        while services != {}
          invariant services <= cache[p].containers.Keys
          invariant found.Some? ==> Holds(cache, found.value.0, found.value.1, id)
          invariant found.None? ==>
            forall p', s :: Holds(cache, p', s, id) ==> p' in projects || (p' == p && s in services)
          decreases |services|
        {
          var s :| s in services;
          services := services - {s};
          if cache[p].containers[s].id == id {
            found := Some((p, s));
            break;
          }
        }
      }
      if found.None? {
        return Nothing;
      }
      var project := WithoutContainer(cache, found.value.0, found.value.1);
      if project.containers == map[] {
        cache := cache - {project.name};
      } else {
        cache := cache[project.name := project];
      }
      d := Deliver(project);
    }

    method HandleEvent(e: Event) returns (d: Delivery)
      requires e.Updated? && e.inspect.Some? ==> Enumerates(e.order, e.inspect.value.labels.Keys)
      modifies this
      ensures UniqueIds(old(cache)) ==> cache == After(cron, old(cache), e)
      ensures UniqueIds(old(cache)) ==> ProjectOf(d) == Changed(cron, old(cache), e)
      ensures d.Problem? <==> e.Updated? && e.inspect.None?
    {
      hide UpdateOf;
      OnlyUpdatesRecord(cron, e);
      match e {
        case Updated(inspect, order) => d := HandleContainerUpdated(inspect, order);
        case Destroyed(id) => d := HandleContainerDestroyed(id);
        case Unrelated => d := Nothing;
      }
    }

    /** Lists and inspects all containers and starts the cache afresh; an inspection
        that fails ends it and leaves the cache alone. */
    method ReadProjects(found: seq<Event>) returns (ok: bool)
      requires forall e :: e in found ==> e.Updated?
      requires forall e :: e in found && e.inspect.Some? ==> Enumerates(e.order, e.inspect.value.labels.Keys)
      modifies this
      ensures ok <==> forall e :: e in found ==> e.inspect.Some?
      ensures cache == if ok then AfterAll(cron, map[], found) else old(cache)
    {
      hide MapContainer, UpdateOf;
      var projects: Cache := map[];
      for k := 0 to |found|
        invariant forall j :: 0 <= j < k ==> found[j].inspect.Some?
        invariant projects == AfterAll(cron, map[], found[..k])
        invariant cache == old(cache)
      {
        var e := found[k];
        assert e in found;
        if e.inspect.None? {
          return false;
        }
        assert found[..k + 1][..k] == found[..k] && found[..k + 1][k] == e;
        projects := Read(projects, e);
      }
      assert found[..|found|] == found;
      cache := projects;
      ok := true;
    }

    /** One round of `ReadProjects`. */
    method Read(projects: Cache, e: Event) returns (projects': Cache)
      requires e.Updated? && e.inspect.Some? && Enumerates(e.order, e.inspect.value.labels.Keys)
      ensures projects' == After(cron, projects, e)
    {
      hide MapContainer;
      var inspect := e.inspect.value;
      if !IsEnabled(inspect) {
        return projects;
      }
      var project := FindOrCreateProject(cron, projects, inspect);
      if project.None? {
        return projects;
      }
      var backup := MapInspectToContainerBackup(inspect, e.order);
      if backup.None? {
        return projects;
      }
      var updated := project.value.(containers := project.value.containers[backup.value.serviceName := backup.value]);
      assert backup.value.serviceName in updated.containers;
      projects' := projects[updated.name := updated];
    }
  }

  // ------------------------------------------------------------- histories

  /** The cache after a history of events, starting from `cache`. */
  ghost function AfterAll(cron: CronParser, cache: Cache, history: seq<Event>): Cache
    decreases |history|
  {
    if history == [] then cache
    else
      var last := |history| - 1;
      After(cron, AfterAll(cron, cache, history[..last]), history[last])
  }

  /** The container an event records for service `s` of project `p`. */
  function Records(cron: CronParser, e: Event, p: string, s: string): Option<ContainerBackup> {
    var u := UpdateOf(cron, e);
    if u.Some? && u.value.project.name == p && u.value.container.serviceName == s then Some(u.value.container) else None
  }

  /** An event records a container exactly if the container is enabled, names its project
      and a valid schedule, and is accepted; what is recorded is configured by its labels. */
  lemma RecordsExactlyIf(cron: CronParser, e: Event, p: string, s: string, c: ContainerBackup)
    ensures Records(cron, e, p, s) == Some(c) <==>
      && e.Updated? && e.inspect.Some?
      && var (inspect, labels) := (e.inspect.value, e.inspect.value.labels);
      && Find(labels, LabelEnabled) == Some("true")
      && Find(labels, LabelProjectName) == Some(p) && p != ""
      && LabelProjectWhen in labels && cron(labels[LabelProjectWhen]).Some?
      && MapContainer(inspect, e.order) == Some(c) && c.serviceName == s
    ensures Records(cron, e, p, s) == Some(c) && Enumerates(e.order, e.inspect.value.labels.Keys) ==>
      LabelsAccepted(e.inspect.value) && ConfiguredBy(e.inspect.value, c)
  {
    hide MapContainer, LabelsAccepted, ConfiguredBy;
    if e.Updated? && e.inspect.Some? && Enumerates(e.order, e.inspect.value.labels.Keys) {
      ConfigurationComesFromLabels(e.inspect.value, e.order);
    }
  }

  /** Labels, and with them project and service, never change for a container id. */
  ghost predicate FixedLabels(cron: CronParser, history: seq<Event>) {
    forall e, e', p, s, p', s' | e in history && e' in history ::
      var (c, c') := (Records(cron, e, p, s), Records(cron, e', p', s'));
      c.Some? && c'.Some? && c.value.id == c'.value.id ==> p == p' && s == s'
  }

  function Cached(cache: Cache, p: string, s: string): Option<ContainerBackup> {
    if p in cache then Find(cache[p].containers, s) else None
  }

  ghost predicate CacheOk(cache: Cache) {
    forall p :: p in cache ==>
      && cache[p].name == p && cache[p].engine == DockerEngine && cache[p].containers != map[]
      && forall s :: s in cache[p].containers ==> cache[p].containers[s].serviceName == s
  }

  /** Each container is in the cache at most once. */
  ghost predicate UniqueIds(cache: Cache) {
    forall p, s, p', s', id :: Holds(cache, p, s, id) && Holds(cache, p', s', id) ==> p == p' && s == s'
  }

  /** Every cached container was recorded by some event. */
  ghost predicate Recorded(cron: CronParser, cache: Cache, history: seq<Event>) {
    forall p, s :: Cached(cache, p, s).Some? ==>
      exists e :: e in history && Records(cron, e, p, s) == Cached(cache, p, s)
  }

  lemma UpdateKeepsOk(cron: CronParser, cache: Cache, e: Event)
    requires CacheOk(cache) && UpdateOf(cron, e).Some?
    ensures CacheOk(After(cron, cache, e))
    ensures forall p, s :: Cached(After(cron, cache, e), p, s) ==
                           if Records(cron, e, p, s).Some? then Records(cron, e, p, s) else Cached(cache, p, s)
  {
    hide MapContainer;
    var u := UpdateOf(cron, e).value;
    var project := WithContainer(cache, u);
    assert u.container.serviceName in project.containers;
  }

  lemma DestroyKeepsOk(cron: CronParser, cache: Cache, id: string, p: string, s: string)
    requires CacheOk(cache) && UniqueIds(cache) && Holds(cache, p, s, id)
    ensures CacheOk(After(cron, cache, Destroyed(id)))
    ensures forall p', s' :: Cached(After(cron, cache, Destroyed(id)), p', s') ==
                             if p' == p && s' == s then None else Cached(cache, p', s')
  {
    assert Place(cache, id) == (p, s);
    var project := WithoutContainer(cache, p, s);
    var cache' := Store(cache, project);
    assert project.containers == cache[p].containers - {s};
    forall p', s' ensures Cached(cache', p', s') == if p' == p && s' == s then None else Cached(cache, p', s') {
      if p' == p && project.containers == map[] && s' != s {
        assert s' !in project.containers;
      }
    }
  }

  /** Cached containers were recorded, so with fixed labels no id is cached twice. */
  lemma RecordedIsUnique(cron: CronParser, cache: Cache, history: seq<Event>)
    requires FixedLabels(cron, history) && Recorded(cron, cache, history)
    ensures UniqueIds(cache)
  {
    hide Records;
    forall p, s, p', s', id | Holds(cache, p, s, id) && Holds(cache, p', s', id) ensures p == p' && s == s' {
      assert Cached(cache, p, s).Some? && Cached(cache, p', s').Some?;
      var e :| e in history && Records(cron, e, p, s) == Cached(cache, p, s);
      var e' :| e' in history && Records(cron, e', p', s') == Cached(cache, p', s');
    }
  }

  /** One more event. */
  lemma EventKeepsOk(cron: CronParser, cache: Cache, e: Event)
    requires CacheOk(cache) && UniqueIds(cache)
    ensures CacheOk(After(cron, cache, e))
    ensures forall p, s :: Cached(After(cron, cache, e), p, s) == CachedNext(cron, Cached(cache, p, s), e, p, s)
  {
    hide UpdateOf;
    if UpdateOf(cron, e).Some? {
      UpdateKeepsOk(cron, cache, e);
      assert !e.Destroyed? by { OnlyUpdatesRecord(cron, e); }
    } else if e.Destroyed? && exists p, s :: Holds(cache, p, s, e.id) {
      var p, s :| Holds(cache, p, s, e.id);
      DestroyKeepsOk(cron, cache, e.id, p, s);
      forall p', s'
        ensures Cached(After(cron, cache, e), p', s') == CachedNext(cron, Cached(cache, p', s'), e, p', s')
      {
        if Cached(cache, p', s').Some? && Cached(cache, p', s').value.id == e.id {
          assert Holds(cache, p', s', e.id);
        }
      }
    } else {
      forall p', s'
        ensures Cached(After(cron, cache, e), p', s') == CachedNext(cron, Cached(cache, p', s'), e, p', s')
      {
        assert !(e.Destroyed? && Holds(cache, p', s', e.id));
      }
    }
  }

  lemma OnlyUpdatesRecord(cron: CronParser, e: Event)
    ensures UpdateOf(cron, e).Some? ==> e.Updated?
  {
    hide MapContainer, MapProject;
  }

  /** What an event does to one place in the cache. */
  function CachedNext(cron: CronParser, c: Option<ContainerBackup>, e: Event, p: string, s: string)
    : Option<ContainerBackup>
  {
    if Records(cron, e, p, s).Some? then Records(cron, e, p, s)
    else if c.Some? && e == Destroyed(c.value.id) then None
    else c
  }

  /** A cached project keeps its schedule; a new one has that of the label it came with. */
  lemma ScheduleOfProject(cron: CronParser, cache: Cache, e: Event, p: string)
    requires CacheOk(cache) && UniqueIds(cache) && p in After(cron, cache, e)
    ensures var project := After(cron, cache, e)[p];
      if p in cache then project.schedule == cache[p].schedule
      else
        && e.Updated? && e.inspect.Some?
        && Find(e.inspect.value.labels, LabelProjectName) == Some(p)
        && LabelProjectWhen in e.inspect.value.labels
        && Some(project.schedule) == cron(e.inspect.value.labels[LabelProjectWhen])
  {
    hide MapContainer;
    ChangeIsAnnounced(cron, cache, e);
  }

  lemma {:induction false} HistoryKeepsOk(cron: CronParser, history: seq<Event>)
    requires FixedLabels(cron, history)
    ensures var cache := AfterAll(cron, map[], history);
      CacheOk(cache) && UniqueIds(cache) && Recorded(cron, cache, history)
    decreases |history|
  {
    hide Records, After;
    if history != [] {
      var front, e := history[..|history| - 1], history[|history| - 1];
      assert front + [e] == history && e in history;
      FrontHasFixedLabels(cron, front, e);
      assert forall e' :: e' in front ==> e' in history;
      HistoryKeepsOk(cron, front);
      EventKeepsOk(cron, AfterAll(cron, map[], front), e);
    }
    RecordedIsUnique(cron, AfterAll(cron, map[], history), history);
  }

  /** Event `i` is the last word on service `s` of project `p`: it recorded the container,
      nothing was recorded there since, and the container was not destroyed since. */
  ghost predicate LastWord(cron: CronParser, history: seq<Event>, i: nat, p: string, s: string, c: ContainerBackup) {
    && i < |history|
    && Records(cron, history[i], p, s) == Some(c)
    && forall j :: i < j < |history| ==> Records(cron, history[j], p, s).None? && history[j] != Destroyed(c.id)
  }

  lemma LastWordOfLonger(cron: CronParser, front: seq<Event>, e: Event, p: string, s: string, c: ContainerBackup)
    ensures (exists i: nat :: LastWord(cron, front + [e], i, p, s, c)) <==>
            (Records(cron, e, p, s) == Some(c) ||
             (Records(cron, e, p, s).None? && e != Destroyed(c.id) &&
              exists i: nat :: LastWord(cron, front, i, p, s, c)))
  {
    hide Records;
    var history, n := front + [e], |front|;
    assert history[n] == e;
    if Records(cron, e, p, s) == Some(c) {
      assert LastWord(cron, history, n, p, s, c);
    } else if Records(cron, e, p, s).None? && e != Destroyed(c.id) {
      if i: nat :| LastWord(cron, front, i, p, s, c) {
        assert LastWord(cron, history, i, p, s, c);
      }
    }
    if i: nat :| LastWord(cron, history, i, p, s, c) {
      if i < n {
        assert Records(cron, history[n], p, s).None? && history[n] != Destroyed(c.id);
        forall j | i <= j < n ensures front[j] == history[j] {}
        assert LastWord(cron, front, i, p, s, c);
      }
    }
  }

  /** The cache holds for each project and service the container of the latest recorded
      create or update event unless it was destroyed since, and nothing else. */
  lemma {:induction false} CacheIsLatest(cron: CronParser, history: seq<Event>, p: string, s: string,
                                         c: ContainerBackup)
    requires FixedLabels(cron, history)
    ensures Cached(AfterAll(cron, map[], history), p, s) == Some(c) <==>
            exists i: nat :: LastWord(cron, history, i, p, s, c)
    decreases |history|
  {
    hide Records, After, LastWord, FixedLabels, CacheOk, UniqueIds, Recorded;
    if history == [] {
      NothingIsLast(cron, p, s, c);
    } else {
      var front, e := history[..|history| - 1], history[|history| - 1];
      assert front + [e] == history;
      FrontHasFixedLabels(cron, front, e);
      HistoryKeepsOk(cron, front);
      EventKeepsOk(cron, AfterAll(cron, map[], front), e);
      CacheIsLatest(cron, front, p, s, c);
      LastWordOfLonger(cron, front, e, p, s, c);
    }
  }

  lemma NothingIsLast(cron: CronParser, p: string, s: string, c: ContainerBackup)
    ensures !exists i: nat :: LastWord(cron, [], i, p, s, c)
  {
  }

  lemma FrontHasFixedLabels(cron: CronParser, front: seq<Event>, e: Event)
    requires FixedLabels(cron, front + [e])
    ensures FixedLabels(cron, front)
  {
    hide Records;
    assert forall e' :: e' in front ==> e' in front + [e];
  }
}
