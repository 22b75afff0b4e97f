/** From a container's labels to its backup configuration. Go ranges over the label
    map in any order. */
module Mappers {
  import opened Wrappers
  import opened DroneModel
  import Tokenizer

  predicate IsSpace(c: char) {
    || '\t' <= c <= '\r' || c == ' '
    || c in {'\U{0085}', '\U{00A0}', '\U{1680}', '\U{2028}', '\U{2029}', '\U{202F}', '\U{205F}', '\U{3000}'}
    || '\U{2000}' <= c <= '\U{200A}'
  }

  function TrimSpace(s: string): string {
    if s == "" then s
    else if IsSpace(s[0]) then TrimSpace(s[1..])
    else if IsSpace(s[|s| - 1]) then TrimSpace(s[..|s| - 1])
    else s
  }

  predicate HasPrefix(s: string, prefix: string) {
    prefix <= s
  }

  function ModeFromString(s: string): Option<Mode> {
    if s == "default" then Some(DefaultMode)
    else if s == "dependent-offline" then Some(DependentOfflineMode)
    else if s == "offline" then Some(OfflineMode)
    else None
  }

  function MapVolume(m: Mount): Option<Volume> {
    if m.kind != "bind" && m.kind != "volume" then None
    else Some(Volume(m.kind, m.name, m.source, m.destination))
  }

  /** The first mount at the destination decides, even when it cannot be mapped. */
  function FindVolume(target: string, mounts: seq<Mount>): Option<Volume> {
    if mounts == [] then None
    else if mounts[0].destination == target then MapVolume(mounts[0])
    else FindVolume(target, mounts[1..])
  }

  function MapVolumes(mounts: seq<Mount>): seq<Volume> {
    if mounts == [] then []
    else
      var v := MapVolume(mounts[0]);
      (if v.Some? then [v.value] else []) + MapVolumes(mounts[1..])
  }

  /** What the loop over the labels has gathered. */
  datatype Gathered = Gathered(mode: Mode, dependencies: seq<string>, command: seq<string>, stdout: bool,
                               paths: seq<string>, serviceName: string, volumes: seq<Volume>)

  const Nothing := Gathered(DefaultMode, [], [], false, [], "", [])

  /** What one label asks for. */
  datatype Effect =
    | Ignored
    | SetMode(mode: Mode)
    | AddDependency(service: string)
    | SetCommand(command: seq<string>)
    | SetStdout
    | AddPath(path: string)
    | SetServiceName(name: string)
    | AddVolume(volume: Volume)
    | Invalid

  function EffectOf(inspect: Inspect, key: string): Effect {
    var value := if key in inspect.labels then TrimSpace(inspect.labels[key]) else "";
    if value == "" then Ignored
    else if key == LabelMode then
      var mode := ModeFromString(value);
      if mode.None? then Invalid else SetMode(mode.value)
    else if HasPrefix(key, LabelDependenciesPrefix) then AddDependency(value)
    else if key == LabelExec then SetCommand(Tokenizer.Split(value))
    else if key == LabelExecStdout then SetStdout
    else if HasPrefix(key, LabelExecPathsPrefix) then AddPath(value)
    else if key == LabelServiceName then SetServiceName(value)
    else if HasPrefix(key, LabelVolumesPrefix) then
      var v := FindVolume(value, inspect.mounts);
      if v.None? then Invalid else AddVolume(v.value)
    else Ignored
  }

  function Apply(g: Gathered, e: Effect): Option<Gathered> {
    match e
    case Ignored => Some(g)
    case SetMode(mode) => Some(g.(mode := mode))
    case AddDependency(service) => Some(g.(dependencies := g.dependencies + [service]))
    case SetCommand(command) => Some(g.(command := command))
    case SetStdout => Some(g.(stdout := true))
    case AddPath(path) => Some(g.(paths := g.paths + [path]))
    case SetServiceName(name) => Some(g.(serviceName := name))
    case AddVolume(volume) => Some(g.(volumes := g.volumes + [volume]))
    case Invalid => None
  }

  /** One round of the loop; `None` is an error. */
  function Gather(inspect: Inspect, g: Gathered, key: string): Option<Gathered> {
    Apply(g, EffectOf(inspect, key))
  }

  function GatherAll(inspect: Inspect, g: Gathered, order: seq<string>): Option<Gathered>
    decreases |order|
  {
    if order == [] then Some(g)
    else
      var g' := Gather(inspect, g, order[0]);
      if g'.None? then None else GatherAll(inspect, g'.value, order[1..])
  }

  /** The checks after the loop. */
  function Finish(inspect: Inspect, g: Gathered): Option<ContainerBackup> {
    var upperDir := if inspect.graphDriver == "overlay2" && "UpperDir" in inspect.graphData
                    then inspect.graphData["UpperDir"] else "";
    var exec := if g.command == [] then None else Some(Exec(g.command, g.stdout, g.paths));
    if g.command != [] && (g.paths == [] <==> !g.stdout) then None
    else if exec.Some? && g.volumes != [] then None
    else if g.serviceName == "" then None
    else if g.mode.OfflineMode? && exec.Some? then None
    else Some(ContainerBackup(inspect.id, g.serviceName, g.mode, upperDir, exec, g.volumes,
                              MapVolumes(inspect.mounts), g.dependencies))
  }

  function MapContainer(inspect: Inspect, order: seq<string>): Option<ContainerBackup> {
    var g := GatherAll(inspect, Nothing, order);
    if g.None? then None else Finish(inspect, g.value)
  }

  /** The loop as it is written, with its early returns. */
  method MapInspectToContainerBackup(inspect: Inspect, order: seq<string>) returns (backup: Option<ContainerBackup>)
    requires Enumerates(order, inspect.labels.Keys)
    ensures backup == MapContainer(inspect, order)
  {
    hide Gather, Finish;
    var g := Nothing;
    for k := 0 to |order|
      invariant GatherAll(inspect, Nothing, order) == GatherAll(inspect, g, order[k..])
    {
      assert order[k..][0] == order[k] && order[k..][1..] == order[k + 1..];
      var next := Gather(inspect, g, order[k]);
      if next.None? {
        return None;
      }
      g := next.value;
    }
    backup := Finish(inspect, g);
  }

  // ----------------------------------------------------- order independence

  ghost predicate Similar(g: Gathered, h: Gathered) {
    && g.(dependencies := [], paths := [], volumes := []) == h.(dependencies := [], paths := [], volumes := [])
    && multiset(g.dependencies) == multiset(h.dependencies)
    && multiset(g.paths) == multiset(h.paths)
    && multiset(g.volumes) == multiset(h.volumes)
  }

  /** Both errors, or the same up to the order of the gathered lists. */
  ghost predicate SimilarResults(g: Option<Gathered>, h: Option<Gathered>) {
    (g.None? <==> h.None?) && (g.Some? ==> Similar(g.value, h.value))
  }

  lemma ApplyRespectsSimilar(g: Gathered, h: Gathered, e: Effect)
    requires Similar(g, h)
    ensures SimilarResults(Apply(g, e), Apply(h, e))
  {
  }

  /** Two labels never set the same thing. */
  lemma SettersDiffer(inspect: Inspect, k1: string, k2: string)
    requires k1 != k2
    ensures var (e1, e2) := (EffectOf(inspect, k1), EffectOf(inspect, k2));
      && !(e1.SetMode? && e2.SetMode?)
      && !(e1.SetCommand? && e2.SetCommand?)
      && !(e1.SetServiceName? && e2.SetServiceName?)
  {
    hide TrimSpace, HasPrefix, ModeFromString, FindVolume, Tokenizer.Split;
  }

  function ApplyBoth(g: Gathered, e1: Effect, e2: Effect): Option<Gathered> {
    var g1 := Apply(g, e1);
    if g1.None? then None else Apply(g1.value, e2)
  }

  predicate SameList(e1: Effect, e2: Effect) {
    (e1.AddDependency? && e2.AddDependency?) || (e1.AddPath? && e2.AddPath?) || (e1.AddVolume? && e2.AddVolume?)
  }

  lemma UnrelatedEffectsCommute(g: Gathered, e1: Effect, e2: Effect)
    requires !(e1.SetMode? && e2.SetMode?) && !(e1.SetCommand? && e2.SetCommand?)
    requires !(e1.SetServiceName? && e2.SetServiceName?) && !SameList(e1, e2)
    ensures ApplyBoth(g, e1, e2) == ApplyBoth(g, e2, e1)
  {
  }

  lemma AppendsCommute<T>(xs: seq<T>, a: T, b: T)
    ensures multiset(xs + [a] + [b]) == multiset(xs + [b] + [a])
  {
  }

  lemma SameListEffectsCommute(g: Gathered, e1: Effect, e2: Effect)
    requires SameList(e1, e2)
    ensures SimilarResults(ApplyBoth(g, e1, e2), ApplyBoth(g, e2, e1))
  {
    match e1 {
      case AddDependency(a) => AppendsCommute(g.dependencies, a, e2.service);
      case AddPath(a) => AppendsCommute(g.paths, a, e2.path);
      case AddVolume(a) => AppendsCommute(g.volumes, a, e2.volume);
    }
  }

  lemma EffectsCommute(g: Gathered, e1: Effect, e2: Effect)
    requires !(e1.SetMode? && e2.SetMode?) && !(e1.SetCommand? && e2.SetCommand?)
    requires !(e1.SetServiceName? && e2.SetServiceName?)
    ensures SimilarResults(ApplyBoth(g, e1, e2), ApplyBoth(g, e2, e1))
  {
    hide ApplyBoth, Apply;
    if SameList(e1, e2) {
      SameListEffectsCommute(g, e1, e2);
    } else {
      UnrelatedEffectsCommute(g, e1, e2);
    }
  }

  lemma {:induction false} GatherAllRespectsSimilar(inspect: Inspect, g: Gathered, h: Gathered, order: seq<string>)
    requires Similar(g, h)
    ensures SimilarResults(GatherAll(inspect, g, order), GatherAll(inspect, h, order))
    decreases |order|
  {
    hide EffectOf, Apply;
    if order != [] {
      ApplyRespectsSimilar(g, h, EffectOf(inspect, order[0]));
      var g', h' := Gather(inspect, g, order[0]), Gather(inspect, h, order[0]);
      if g'.Some? {
        GatherAllRespectsSimilar(inspect, g'.value, h'.value, order[1..]);
      }
    }
  }

  /** Taking a later label first makes no difference. */
  lemma {:induction false} GatherEarlier(inspect: Inspect, g: Gathered, front: seq<string>, key: string,
                                         rest: seq<string>)
    requires key !in front
    ensures SimilarResults(GatherAll(inspect, g, front + [key] + rest), GatherAll(inspect, g, [key] + (front + rest)))
    decreases |front|
  {
    hide EffectOf, Apply;
    if front == [] {
      assert front + [key] + rest == [key] + (front + rest);
    } else {
      var first, front' := front[0], front[1..];
      assert front + [key] + rest == [first] + (front' + [key] + rest);
      assert front + rest == [first] + (front' + rest);
      var e1, e2 := EffectOf(inspect, first), EffectOf(inspect, key);
      SettersDiffer(inspect, first, key);
      EffectsCommute(g, e1, e2);
      var all := [key] + (front + rest);
      assert all[1..] == front + rest && all[1..][1..] == front' + rest;
      var g1 := Apply(g, e1);
      var both, swapped := ApplyBoth(g, e1, e2), ApplyBoth(g, e2, e1);
      if g1.Some? {
        GatherEarlier(inspect, g1.value, front', key, rest);
        var moved := [key] + (front' + rest);
        assert moved[1..] == front' + rest;
      }
      if both.Some? {
        GatherAllRespectsSimilar(inspect, both.value, swapped.value, front' + rest);
      }
    }
  }

  lemma DistinctWithout<T>(front: seq<T>, key: T, rest: seq<T>)
    requires Distinct(front + [key] + rest)
    ensures Distinct(front + rest) && key !in front
  {
    var all := front + [key] + rest;
    forall a, b | 0 <= a < b < |front + rest| ensures (front + rest)[a] != (front + rest)[b] {
      var a', b' := if a < |front| then a else a + 1, if b < |front| then b else b + 1;
      assert (front + rest)[a] == all[a'] && (front + rest)[b] == all[b'];
    }
    forall a | 0 <= a < |front| ensures front[a] != key {
      assert all[a] == front[a] && all[|front|] == key;
    }
  }

  lemma SameWithout<T>(order: seq<T>, front: seq<T>, rest: seq<T>)
    requires order != [] && multiset(order) == multiset(front + [order[0]] + rest)
    ensures multiset(order[1..]) == multiset(front + rest)
  {
    var key := order[0];
    assert order == [key] + order[1..];
    assert multiset(front + [key] + rest) == multiset(front + rest) + multiset{key};
    assert multiset(order) == multiset(order[1..]) + multiset{key};
    forall x ensures multiset(order[1..])[x] == multiset(front + rest)[x] {
      assert (multiset(order[1..]) + multiset{key})[x] == (multiset(front + rest) + multiset{key})[x];
    }
  }

  /** Finds the first label of one order in the other. */
  lemma PullOut<T>(order: seq<T>, other: seq<T>) returns (front: seq<T>, rest: seq<T>)
    requires order != [] && multiset(order) == multiset(other) && Distinct(order) && Distinct(other)
    ensures other == front + [order[0]] + rest && order[0] !in front
    ensures multiset(order[1..]) == multiset(front + rest)
    ensures Distinct(order[1..]) && Distinct(front + rest)
  {
    assert order[0] in multiset(other);
    var j :| 0 <= j < |other| && other[j] == order[0];
    front, rest := other[..j], other[j + 1..];
    assert other == front + [order[0]] + rest;
    DistinctWithout(front, order[0], rest);
    SameWithout(order, front, rest);
  }

  /** Any two orders of the same labels gather the same. */
  lemma {:induction false} GatherAnyOrder(inspect: Inspect, g: Gathered, order: seq<string>, other: seq<string>)
    requires multiset(order) == multiset(other) && Distinct(order) && Distinct(other)
    ensures SimilarResults(GatherAll(inspect, g, order), GatherAll(inspect, g, other))
    decreases |order|
  {
    hide EffectOf, Apply, Distinct;
    if order == [] {
      assert |multiset(other)| == 0;
    } else {
      var key := order[0];
      var front, rest := PullOut(order, other);
      GatherEarlier(inspect, g, front, key, rest);
      var moved := [key] + (front + rest);
      assert moved[1..] == front + rest;
      var g' := Gather(inspect, g, key);
      if g'.Some? {
        GatherAnyOrder(inspect, g'.value, order[1..], front + rest);
      }
    }
  }

  ghost predicate SameUpToOrder(b: ContainerBackup, c: ContainerBackup) {
    && b.(exec := None, backupVolumes := [], dependencies := []) ==
       c.(exec := None, backupVolumes := [], dependencies := [])
    && multiset(b.backupVolumes) == multiset(c.backupVolumes)
    && multiset(b.dependencies) == multiset(c.dependencies)
    && (b.exec.None? <==> c.exec.None?)
    && (b.exec.Some? ==>
          && b.exec.value.(paths := []) == c.exec.value.(paths := [])
          && multiset(b.exec.value.paths) == multiset(c.exec.value.paths))
  }

  lemma FinishRespectsSimilar(inspect: Inspect, g: Gathered, h: Gathered)
    requires Similar(g, h)
    ensures var (b, c) := (Finish(inspect, g), Finish(inspect, h));
      (b.None? <==> c.None?) && (b.Some? ==> SameUpToOrder(b.value, c.value))
  {
    hide MapVolumes;
    assert |multiset(g.paths)| == |g.paths| && |multiset(h.paths)| == |h.paths|;
    assert |multiset(g.volumes)| == |g.volumes| && |multiset(h.volumes)| == |h.volumes|;
  }

  lemma EnumerationsAgree<T>(order: seq<T>, other: seq<T>, s: set<T>)
    requires Distinct(order) && Distinct(other)
    requires forall x :: x in s <==> x in order
    requires forall x :: x in s <==> x in other
    ensures multiset(order) == multiset(other)
  {
    EnumerationIsSet(order, s);
    EnumerationIsSet(other, s);
  }

  lemma {:induction false} EnumerationIsSet<T>(order: seq<T>, s: set<T>)
    requires Distinct(order)
    requires forall x :: x in s <==> x in order
    ensures multiset(order) == multiset(s)
  {
    if order == [] {
      assert s == {};
    } else {
      var last, front := order[|order| - 1], order[..|order| - 1];
      assert order == front + [last];
      assert last in s && last !in front;
      forall x ensures x in s - {last} <==> x in front {
        assert x in order <==> x in front || x == last;
      }
      EnumerationIsSet(front, s - {last});
      assert s == (s - {last}) + {last};
    }
  }

  /** The order in which the labels are visited decides neither whether the container is
      accepted nor, up to the order of its lists, how it is configured. */
  lemma MappingIgnoresLabelOrder(inspect: Inspect, order: seq<string>, other: seq<string>)
    requires Enumerates(order, inspect.labels.Keys) && Enumerates(other, inspect.labels.Keys)
    ensures var (b, c) := (MapContainer(inspect, order), MapContainer(inspect, other));
      (b.None? <==> c.None?) && (b.Some? ==> SameUpToOrder(b.value, c.value))
  {
    hide GatherAll, Finish;
    EnumerationsAgree(order, other, inspect.labels.Keys);
    GatherAnyOrder(inspect, Nothing, order, other);
    var g, h := GatherAll(inspect, Nothing, order), GatherAll(inspect, Nothing, other);
    if g.Some? {
      FinishRespectsSimilar(inspect, g.value, h.value);
    }
  }

  // ------------------------------------------------- what an accepted container is

  /** An accepted container has a name; it is backed up from volumes or by a command,
      never both; a command has either output or paths; and a container that is
      stopped for its backup has volumes only. */
  predicate WellConfigured(c: ContainerBackup) {
    && c.serviceName != ""
    && (c.exec.Some? ==> c.backupVolumes == [] && c.exec.value.command != [])
    && (c.exec.Some? ==> (c.exec.value.stdout <==> c.exec.value.paths == []))
    && (c.mode.OfflineMode? ==> c.exec.None?)
  }

  lemma AcceptedIsWellConfigured(inspect: Inspect, order: seq<string>)
    requires MapContainer(inspect, order).Some?
    ensures var c := MapContainer(inspect, order).value;
      c.id == inspect.id && WellConfigured(c) && (c.mode.OfflineMode? && NeedsBackup(c) ==> c.backupVolumes != [])
  {
    hide GatherAll, MapVolumes;
  }

  // ------------------------------------------------- where a configuration comes from

  /** A non-blank label value, trimmed. */
  ghost predicate Says(inspect: Inspect, key: string, value: string) {
    key in inspect.labels && TrimSpace(inspect.labels[key]) == value && value != ""
  }

  /** Everything outside this part of a text is white space. */
  ghost predicate OnlySpaceOutside(s: string, i: int, j: int) {
    0 <= i <= j <= |s| && forall k :: 0 <= k < |s| && (k < i || j <= k) ==> IsSpace(s[k])
  }

  /** Trimming takes white space off both ends, all of it and nothing else. */
  lemma {:induction false} TrimSpaceIs(s: string)
    ensures var t := TrimSpace(s);
      && (exists i, j :: OnlySpaceOutside(s, i, j) && t == s[i..j])
      && (t != "" ==> !IsSpace(t[0]) && !IsSpace(t[|t| - 1]))
    decreases |s|
  {
    hide IsSpace;
    if s == "" || (!IsSpace(s[0]) && !IsSpace(s[|s| - 1])) {
      assert OnlySpaceOutside(s, 0, |s|) && TrimSpace(s) == s[0..|s|];
    } else {
      var off := if IsSpace(s[0]) then 1 else 0;
      var rest := if off == 1 then s[1..] else s[..|s| - 1];
      TrimSpaceIs(rest);
      var i, j :| OnlySpaceOutside(rest, i, j) && TrimSpace(rest) == rest[i..j];
      MoreSpaceOutside(s, rest, off, i, j);
    }
  }

  lemma MoreSpaceOutside(s: string, rest: string, off: nat, i: int, j: int)
    requires s != "" && (off == 0 || off == 1) && OnlySpaceOutside(rest, i, j)
    requires if off == 1 then IsSpace(s[0]) && rest == s[1..] else IsSpace(s[|s| - 1]) && rest == s[..|s| - 1]
    ensures OnlySpaceOutside(s, i + off, j + off) && s[i + off..j + off] == rest[i..j]
  {
    hide IsSpace;
    forall k | 0 <= k < |s| && (k < i + off || j + off <= k) ensures IsSpace(s[k]) {
      if 0 <= k - off < |rest| { assert rest[k - off] == s[k]; }
    }
  }

  /** The first mount at a destination is a bind mount or a volume, and this is it. */
  ghost predicate FirstMount(mounts: seq<Mount>, target: string, v: Volume) {
    exists k :: 0 <= k < |mounts| && (forall j :: 0 <= j < k ==> mounts[j].destination != target) &&
      IsMount(mounts[k], v) && v.destination == target
  }

  predicate IsMount(m: Mount, v: Volume) {
    m.kind in {"bind", "volume"} && v == Volume(m.kind, m.name, m.source, m.destination)
  }

  lemma {:induction false} FindVolumeIsFirstMount(target: string, mounts: seq<Mount>, v: Volume)
    ensures FindVolume(target, mounts) == Some(v) <==> FirstMount(mounts, target, v)
  {
    if mounts != [] {
      FindVolumeIsFirstMount(target, mounts[1..], v);
      if mounts[0].destination != target {
        if FirstMount(mounts[1..], target, v) {
          var k :| 0 <= k < |mounts[1..]| && (forall j :: 0 <= j < k ==> mounts[1..][j].destination != target) &&
            IsMount(mounts[1..][k], v) && v.destination == target;
          forall j | 0 <= j < k + 1 ensures mounts[j].destination != target {
            if j > 0 { assert mounts[j] == mounts[1..][j - 1]; }
          }
          assert IsMount(mounts[k + 1], v);
        }
        if FirstMount(mounts, target, v) {
          var k :| 0 <= k < |mounts| && (forall j :: 0 <= j < k ==> mounts[j].destination != target) &&
            IsMount(mounts[k], v) && v.destination == target;
          assert IsMount(mounts[1..][k - 1], v);
        }
      }
    }
  }

  /** All bind mounts and volumes, in order. */
  lemma MapVolumesFrom(m: Mount, rest: seq<Mount>)
    ensures var v := if m.kind in {"bind", "volume"} then [Volume(m.kind, m.name, m.source, m.destination)] else [];
      MapVolumes([m] + rest) == v + MapVolumes(rest)
    ensures MapVolumes([]) == []
  {
    assert ([m] + rest)[1..] == rest;
  }

  /** No label is of two kinds. */
  lemma LabelsAreApart(key: string)
    ensures key == LabelMode || key == LabelExec || key == LabelExecStdout || key == LabelServiceName ==>
      && !(LabelDependenciesPrefix <= key) && !(LabelExecPathsPrefix <= key) && !(LabelVolumesPrefix <= key)
    ensures LabelDependenciesPrefix <= key ==> !(LabelExecPathsPrefix <= key) && !(LabelVolumesPrefix <= key)
    ensures LabelExecPathsPrefix <= key ==> !(LabelVolumesPrefix <= key)
  {
    assert LabelMode[21] == 'm' && LabelExec[21] == 'e' && LabelExecStdout[21] == 's' && LabelServiceName[20] == '_';
    assert LabelDependenciesPrefix[20] == '.' && LabelDependenciesPrefix[21] == 'd';
    assert LabelExecPathsPrefix[20] == '.' && LabelExecPathsPrefix[21] == 'p';
    assert LabelVolumesPrefix[20] == '.' && LabelVolumesPrefix[21] == 'v';
    if LabelDependenciesPrefix <= key { assert key[20] == '.' && key[21] == 'd'; }
    if LabelExecPathsPrefix <= key { assert key[20] == '.' && key[21] == 'p'; }
    if LabelVolumesPrefix <= key { assert key[20] == '.' && key[21] == 'v'; }
  }

  lemma FixedLabelsAreApart()
    ensures Distinct([LabelMode, LabelExec, LabelExecStdout, LabelServiceName])
  {
    assert LabelMode[21] == 'm' && LabelExec[21] == 'e' && LabelExecStdout[21] == 's' && LabelServiceName[20] == '_';
    assert LabelMode[20] == '.' && LabelExec[20] == '.' && LabelExecStdout[20] == '.';
  }

  const ModeNames := {"default", "dependent-offline", "offline"}

  /** A label that makes the container be refused: an unknown mode, or a volume whose
      destination is not that of a bind mount or volume. */
  ghost predicate Refuses(inspect: Inspect, key: string) {
    exists x :: Says(inspect, key, x) &&
      ((key == LabelMode && x !in ModeNames) ||
       (LabelVolumesPrefix <= key && forall v :: !FirstMount(inspect.mounts, x, v)))
  }

  lemma ModeIs(inspect: Inspect, key: string, m: Mode)
    ensures EffectOf(inspect, key) == SetMode(m) <==>
      key == LabelMode && match m
        case DefaultMode => Says(inspect, key, "default")
        case OfflineMode => Says(inspect, key, "offline")
        case DependentOfflineMode => Says(inspect, key, "dependent-offline")
  {
    hide TrimSpace, HasPrefix, FindVolume, Tokenizer.Split;
    assert "default" != "offline" && "default" != "dependent-offline" && "offline" != "dependent-offline" by {
      assert |"default"| == 7 && |"offline"| == 7 && "default"[0] == 'd' && "offline"[0] == 'o';
      assert |"dependent-offline"| == 17;
    }
  }

  lemma ListEffectIs(inspect: Inspect, key: string, x: string)
    ensures EffectOf(inspect, key) == AddDependency(x) <==> Says(inspect, key, x) && LabelDependenciesPrefix <= key
    ensures EffectOf(inspect, key) == AddPath(x) <==> Says(inspect, key, x) && LabelExecPathsPrefix <= key
  {
    hide TrimSpace, ModeFromString, FindVolume, Tokenizer.Split;
    LabelsAreApart(key);
  }

  lemma SettingIs(inspect: Inspect, key: string, x: string, command: seq<string>)
    ensures EffectOf(inspect, key) == SetServiceName(x) <==> Says(inspect, key, x) && key == LabelServiceName
    ensures EffectOf(inspect, key) == SetStdout <==> key == LabelExecStdout && exists y :: Says(inspect, key, y)
    ensures EffectOf(inspect, key) == SetCommand(command) <==>
      key == LabelExec && exists y :: Says(inspect, key, y) && command == Tokenizer.Split(y)
  {
    hide TrimSpace, ModeFromString, FindVolume, Tokenizer.Split;
    LabelsAreApart(key);
    FixedLabelsAreApart();
    var fixed := [LabelMode, LabelExec, LabelExecStdout, LabelServiceName];
    assert fixed[0] != fixed[1] && fixed[0] != fixed[2] && fixed[0] != fixed[3];
    assert fixed[1] != fixed[2] && fixed[1] != fixed[3] && fixed[2] != fixed[3];
    if key in inspect.labels && TrimSpace(inspect.labels[key]) != "" {
      assert Says(inspect, key, TrimSpace(inspect.labels[key]));
    }
  }

  lemma VolumeEffectIs(inspect: Inspect, key: string, v: Volume)
    ensures EffectOf(inspect, key) == AddVolume(v) <==>
      LabelVolumesPrefix <= key && exists x :: Says(inspect, key, x) && FirstMount(inspect.mounts, x, v)
  {
    hide TrimSpace, ModeFromString, FindVolume, Tokenizer.Split, FirstMount;
    LabelsAreApart(key);
    if key in inspect.labels && TrimSpace(inspect.labels[key]) != "" {
      assert Says(inspect, key, TrimSpace(inspect.labels[key]));
      FindVolumeIsFirstMount(TrimSpace(inspect.labels[key]), inspect.mounts, v);
    }
  }

  lemma InvalidIs(inspect: Inspect, key: string)
    ensures EffectOf(inspect, key) == Invalid <==> Refuses(inspect, key)
  {
    hide TrimSpace, FindVolume, Tokenizer.Split, FirstMount;
    LabelsAreApart(key);
    if key in inspect.labels && TrimSpace(inspect.labels[key]) != "" {
      var x := TrimSpace(inspect.labels[key]);
      assert Says(inspect, key, x);
      forall v ensures FindVolume(x, inspect.mounts) == Some(v) <==> FirstMount(inspect.mounts, x, v) {
        FindVolumeIsFirstMount(x, inspect.mounts, v);
      }
      if FindVolume(x, inspect.mounts).Some? {
        assert FirstMount(inspect.mounts, x, FindVolume(x, inspect.mounts).value);
      }
    }
  }

  // ----------------------------------------------------- what the loop gathers

  /** The labels with this effect. */
  function KeysWith(inspect: Inspect, keys: set<string>, e: Effect): set<string> {
    set key | key in keys && EffectOf(inspect, key) == e
  }

  /** How often an element has been added to its list. */
  function Added(g: Gathered, e: Effect): nat {
    match e
    case AddDependency(x) => multiset(g.dependencies)[x]
    case AddPath(x) => multiset(g.paths)[x]
    case AddVolume(v) => multiset(g.volumes)[v]
    case _ => 0
  }

  lemma ApplyAdds(g: Gathered, e: Effect, e': Effect)
    requires Apply(g, e').Some?
    ensures Added(Apply(g, e').value, e) ==
            Added(g, e) + if e == e' && (e.AddDependency? || e.AddPath? || e.AddVolume?) then 1 else 0
  {
  }

  lemma OneKeyLess(inspect: Inspect, order: seq<string>, keys: set<string>, e: Effect)
    requires order != [] && Distinct(order) && forall key :: key in order <==> key in keys
    ensures var key := order[0];
      && Distinct(order[1..]) && (forall k :: k in order[1..] <==> k in keys - {key})
      && |KeysWith(inspect, keys, e)| == |KeysWith(inspect, keys - {key}, e)| +
           if EffectOf(inspect, key) == e then 1 else 0
  {
    hide EffectOf;
    var key := order[0];
    assert order == [key] + order[1..] && key in order;
    assert key !in order[1..];
    var one := if EffectOf(inspect, key) == e then {key} else {};
    assert KeysWith(inspect, keys, e) == one + KeysWith(inspect, keys - {key}, e);
  }

  /** Each label adds its value once, and nothing else is added. */
  lemma {:induction false} GatheredOnce(inspect: Inspect, g: Gathered, order: seq<string>, keys: set<string>, e: Effect)
    requires Distinct(order) && forall key :: key in order <==> key in keys
    requires GatherAll(inspect, g, order).Some? && (e.AddDependency? || e.AddPath? || e.AddVolume?)
    ensures Added(GatherAll(inspect, g, order).value, e) == Added(g, e) + |KeysWith(inspect, keys, e)|
    decreases |order|
  {
    hide EffectOf, Apply, Added, KeysWith;
    if order == [] {
      NoKeys(inspect, keys, e);
    } else {
      OneKeyLess(inspect, order, keys, e);
      ApplyAdds(g, e, EffectOf(inspect, order[0]));
      GatheredOnce(inspect, Gather(inspect, g, order[0]).value, order[1..], keys - {order[0]}, e);
    }
  }

  lemma NoKeys(inspect: Inspect, keys: set<string>, e: Effect)
    requires forall key :: key !in keys
    ensures KeysWith(inspect, keys, e) == {}
  {
  }

  /** Nothing goes wrong unless some label refuses. */
  lemma {:induction false} GatheringSucceeds(inspect: Inspect, g: Gathered, order: seq<string>)
    ensures GatherAll(inspect, g, order).Some? <==> forall key :: key in order ==> !EffectOf(inspect, key).Invalid?
    decreases |order|
  {
    hide EffectOf;
    if order != [] {
      assert order[0] in order;
      assert forall key :: key in order <==> key == order[0] || key in order[1..];
      if !EffectOf(inspect, order[0]).Invalid? {
        GatheringSucceeds(inspect, Gather(inspect, g, order[0]).value, order[1..]);
      }
    }
  }

  ghost predicate Asked(inspect: Inspect, order: seq<string>, e: Effect) {
    exists key :: key in order && EffectOf(inspect, key) == e
  }

  lemma AskedFirstOrLater(inspect: Inspect, order: seq<string>, e: Effect)
    requires order != []
    ensures Asked(inspect, order, e) <==> EffectOf(inspect, order[0]) == e || Asked(inspect, order[1..], e)
  {
    hide EffectOf;
    assert order[0] in order;
    if Asked(inspect, order, e) {
      var k :| k in order && EffectOf(inspect, k) == e;
      assert k == order[0] || k in order[1..];
    }
    if Asked(inspect, order[1..], e) {
      var k :| k in order[1..] && EffectOf(inspect, k) == e;
      assert k in order;
    }
  }

  /** A setting is what its label says, or what it was before. */
  lemma {:induction false} GatheredSettings(inspect: Inspect, g: Gathered, order: seq<string>)
    requires Distinct(order) && GatherAll(inspect, g, order).Some?
    ensures var h := GatherAll(inspect, g, order).value;
      && (forall m :: Asked(inspect, order, SetMode(m)) ==> h.mode == m)
      && (h.mode == g.mode || Asked(inspect, order, SetMode(h.mode)))
      && (forall c :: Asked(inspect, order, SetCommand(c)) ==> h.command == c)
      && (h.command == g.command || Asked(inspect, order, SetCommand(h.command)))
      && (forall n :: Asked(inspect, order, SetServiceName(n)) ==> h.serviceName == n)
      && (h.serviceName == g.serviceName || Asked(inspect, order, SetServiceName(h.serviceName)))
      && (h.stdout <==> g.stdout || Asked(inspect, order, SetStdout))
    decreases |order|
  {
    hide EffectOf;
    if order != [] {
      var first, rest := EffectOf(inspect, order[0]), order[1..];
      GatheredSettings(inspect, Gather(inspect, g, order[0]).value, rest);
      forall e ensures Asked(inspect, order, e) <==> first == e || Asked(inspect, rest, e) {
        AskedFirstOrLater(inspect, order, e);
      }
      forall e | Asked(inspect, rest, e)
        ensures !(first.SetMode? && e.SetMode?) && !(first.SetCommand? && e.SetCommand?)
        ensures !(first.SetServiceName? && e.SetServiceName?)
      {
        var k :| k in rest && EffectOf(inspect, k) == e;
        SettersDiffer(inspect, order[0], k);
      }
    }
  }

  // -------------------------------------------------------- the configuration

  /** The labels of a kind, by the beginning of their keys, that say `x`. */
  ghost function Saying(inspect: Inspect, prefix: string, x: string): set<string> {
    set key | key in inspect.labels && prefix <= key && Says(inspect, key, x)
  }

  /** The volume labels that name the destination of this mount. */
  ghost function NamingVolume(inspect: Inspect, v: Volume): set<string> {
    set key | key in inspect.labels && LabelVolumesPrefix <= key &&
              Says(inspect, key, v.destination) && FirstMount(inspect.mounts, v.destination, v)
  }

  /** The command the labels ask for. */
  ghost predicate CommandIs(inspect: Inspect, command: seq<string>) {
    || (command == [] && forall x :: !Says(inspect, LabelExec, x))
    || (exists x :: Says(inspect, LabelExec, x) && command == Tokenizer.Split(x))
  }

  ghost predicate WantsPaths(inspect: Inspect) {
    exists key, x :: LabelExecPathsPrefix <= key && Says(inspect, key, x)
  }

  ghost predicate WantsVolumes(inspect: Inspect) {
    exists key, x :: LabelVolumesPrefix <= key && Says(inspect, key, x)
  }

  /** When the labels of a container are accepted: none of them is invalid, there is a name,
      and a command has output or paths, not both, and neither volumes nor the offline mode
      beside it. */
  ghost predicate LabelsAccepted(inspect: Inspect) {
    && (forall key :: !Refuses(inspect, key))
    && (exists x :: Says(inspect, LabelServiceName, x))
    && (forall command :: CommandIs(inspect, command) && command != [] ==>
          && (WantsPaths(inspect) <==> !exists x :: Says(inspect, LabelExecStdout, x))
          && !WantsVolumes(inspect)
          && !Says(inspect, LabelMode, "offline"))
  }

  /** The configuration, setting by setting, in terms of the labels. */
  ghost predicate ConfiguredBy(inspect: Inspect, c: ContainerBackup) {
    && c.id == inspect.id
    && Says(inspect, LabelServiceName, c.serviceName)
    && (c.mode.OfflineMode? <==> Says(inspect, LabelMode, "offline"))
    && (c.mode.DependentOfflineMode? <==> Says(inspect, LabelMode, "dependent-offline"))
    && (forall x :: multiset(c.dependencies)[x] == |Saying(inspect, LabelDependenciesPrefix, x)|)
    && (forall v :: multiset(c.backupVolumes)[v] == |NamingVolume(inspect, v)|)
    && CommandIs(inspect, if c.exec.Some? then c.exec.value.command else [])
    && (c.exec.Some? ==>
          && (c.exec.value.stdout <==> exists x :: Says(inspect, LabelExecStdout, x))
          && forall x :: multiset(c.exec.value.paths)[x] == |Saying(inspect, LabelExecPathsPrefix, x)|)
    && c.allVolumes == MapVolumes(inspect.mounts)
    && c.upperDir == (if inspect.graphDriver == "overlay2" && "UpperDir" in inspect.graphData
                      then inspect.graphData["UpperDir"] else "")
  }

  lemma SameKeys(inspect: Inspect, x: string, v: Volume)
    ensures KeysWith(inspect, inspect.labels.Keys, AddDependency(x)) == Saying(inspect, LabelDependenciesPrefix, x)
    ensures KeysWith(inspect, inspect.labels.Keys, AddPath(x)) == Saying(inspect, LabelExecPathsPrefix, x)
    ensures KeysWith(inspect, inspect.labels.Keys, AddVolume(v)) == NamingVolume(inspect, v)
  {
    hide EffectOf, TrimSpace;
    forall key
      ensures EffectOf(inspect, key) == AddDependency(x) <==> Says(inspect, key, x) && LabelDependenciesPrefix <= key
      ensures EffectOf(inspect, key) == AddPath(x) <==> Says(inspect, key, x) && LabelExecPathsPrefix <= key
      ensures EffectOf(inspect, key) == AddVolume(v) <==>
        LabelVolumesPrefix <= key && exists y :: Says(inspect, key, y) && FirstMount(inspect.mounts, y, v)
    {
      ListEffectIs(inspect, key, x);
      VolumeEffectIs(inspect, key, v);
    }
  }

  lemma GatheredLists(inspect: Inspect, order: seq<string>, x: string, v: Volume)
    requires Enumerates(order, inspect.labels.Keys) && GatherAll(inspect, Nothing, order).Some?
    ensures var g := GatherAll(inspect, Nothing, order).value;
      && multiset(g.dependencies)[x] == |Saying(inspect, LabelDependenciesPrefix, x)|
      && multiset(g.paths)[x] == |Saying(inspect, LabelExecPathsPrefix, x)|
      && multiset(g.volumes)[v] == |NamingVolume(inspect, v)|
  {
    hide GatherAll, EffectOf, KeysWith, Saying, NamingVolume;
    GatheredOnce(inspect, Nothing, order, inspect.labels.Keys, AddDependency(x));
    GatheredOnce(inspect, Nothing, order, inspect.labels.Keys, AddPath(x));
    GatheredOnce(inspect, Nothing, order, inspect.labels.Keys, AddVolume(v));
    SameKeys(inspect, x, v);
  }

  /** Only one label can have the effect. */
  lemma AskedAt(inspect: Inspect, order: seq<string>, e: Effect, key: string)
    requires Enumerates(order, inspect.labels.Keys) && !e.Ignored?
    requires forall k :: EffectOf(inspect, k) == e ==> k == key
    ensures Asked(inspect, order, e) <==> EffectOf(inspect, key) == e
  {
    hide TrimSpace, ModeFromString, FindVolume, Tokenizer.Split, HasPrefix;
    if EffectOf(inspect, key) == e { assert key in order; }
  }

  lemma AskedMode(inspect: Inspect, order: seq<string>, m: Mode)
    requires Enumerates(order, inspect.labels.Keys)
    ensures Asked(inspect, order, SetMode(m)) <==> match m
      case DefaultMode => Says(inspect, LabelMode, "default")
      case OfflineMode => Says(inspect, LabelMode, "offline")
      case DependentOfflineMode => Says(inspect, LabelMode, "dependent-offline")
  {
    hide EffectOf, Says;
    forall k | EffectOf(inspect, k) == SetMode(m) ensures k == LabelMode { ModeIs(inspect, k, m); }
    AskedAt(inspect, order, SetMode(m), LabelMode);
    ModeIs(inspect, LabelMode, m);
  }

  lemma AskedName(inspect: Inspect, order: seq<string>, x: string)
    requires Enumerates(order, inspect.labels.Keys)
    ensures Asked(inspect, order, SetServiceName(x)) <==> Says(inspect, LabelServiceName, x)
  {
    hide EffectOf, Says;
    forall k | EffectOf(inspect, k) == SetServiceName(x) ensures k == LabelServiceName { SettingIs(inspect, k, x, []); }
    AskedAt(inspect, order, SetServiceName(x), LabelServiceName);
    SettingIs(inspect, LabelServiceName, x, []);
  }

  lemma AskedStdout(inspect: Inspect, order: seq<string>)
    requires Enumerates(order, inspect.labels.Keys)
    ensures Asked(inspect, order, SetStdout) <==> exists x :: Says(inspect, LabelExecStdout, x)
  {
    hide EffectOf, Says;
    forall k | EffectOf(inspect, k) == SetStdout ensures k == LabelExecStdout { SettingIs(inspect, k, "", []); }
    AskedAt(inspect, order, SetStdout, LabelExecStdout);
    SettingIs(inspect, LabelExecStdout, "", []);
  }

  lemma AskedCommand(inspect: Inspect, order: seq<string>, c: seq<string>)
    requires Enumerates(order, inspect.labels.Keys)
    ensures Asked(inspect, order, SetCommand(c)) <==> exists x :: Says(inspect, LabelExec, x) && c == Tokenizer.Split(x)
  {
    hide EffectOf, Says, Tokenizer.Split;
    forall k | EffectOf(inspect, k) == SetCommand(c) ensures k == LabelExec { SettingIs(inspect, k, "", c); }
    AskedAt(inspect, order, SetCommand(c), LabelExec);
    SettingIs(inspect, LabelExec, "", c);
  }

  /** The settings the loop ends with, in terms of the labels. */
  lemma GatheredSettingsAreSaid(inspect: Inspect, order: seq<string>)
    requires Enumerates(order, inspect.labels.Keys) && GatherAll(inspect, Nothing, order).Some?
    ensures var g := GatherAll(inspect, Nothing, order).value;
      && (g.mode.OfflineMode? <==> Says(inspect, LabelMode, "offline"))
      && (g.mode.DependentOfflineMode? <==> Says(inspect, LabelMode, "dependent-offline"))
      && (if g.serviceName == "" then forall x :: !Says(inspect, LabelServiceName, x)
          else Says(inspect, LabelServiceName, g.serviceName))
      && (g.stdout <==> exists x :: Says(inspect, LabelExecStdout, x))
      && CommandIs(inspect, g.command)
  {
    hide GatherAll, Asked, TrimSpace, Tokenizer.Split;
    GatheredSettings(inspect, Nothing, order);
    var g := GatherAll(inspect, Nothing, order).value;
    AskedMode(inspect, order, OfflineMode);
    AskedMode(inspect, order, DependentOfflineMode);
    AskedStdout(inspect, order);
    forall x ensures Asked(inspect, order, SetServiceName(x)) <==> Says(inspect, LabelServiceName, x) {
      AskedName(inspect, order, x);
    }
    AskedCommand(inspect, order, g.command);
    if x :| Says(inspect, LabelExec, x) {
      AskedCommand(inspect, order, Tokenizer.Split(x));
    }
  }

  lemma NoneRefuses(inspect: Inspect, order: seq<string>)
    requires Enumerates(order, inspect.labels.Keys)
    ensures GatherAll(inspect, Nothing, order).Some? <==> forall key :: !Refuses(inspect, key)
  {
    hide EffectOf, TrimSpace, GatherAll, FirstMount;
    GatheringSucceeds(inspect, Nothing, order);
    forall key ensures EffectOf(inspect, key).Invalid? <==> Refuses(inspect, key)
               ensures Refuses(inspect, key) ==> key in order {
      InvalidIs(inspect, key);
    }
  }

  /** The gathered lists are empty exactly if no label asks for an element. */
  lemma ListsAreWanted(inspect: Inspect, order: seq<string>)
    requires Enumerates(order, inspect.labels.Keys) && GatherAll(inspect, Nothing, order).Some?
    ensures var g := GatherAll(inspect, Nothing, order).value;
      (g.paths != [] <==> WantsPaths(inspect)) && (g.volumes != [] <==> WantsVolumes(inspect))
  {
    hide GatherAll, TrimSpace, FirstMount;
    var g := GatherAll(inspect, Nothing, order).value;
    NoneRefuses(inspect, order);
    var noVolume := Volume("", "", "", "");
    if g.paths != [] {
      var x := g.paths[0];
      GatheredLists(inspect, order, x, noVolume);
      assert multiset(g.paths)[x] > 0 by { assert x in g.paths; }
      var key :| key in Saying(inspect, LabelExecPathsPrefix, x);
    }
    if key, x :| LabelExecPathsPrefix <= key && Says(inspect, key, x) {
      GatheredLists(inspect, order, x, noVolume);
      assert key in Saying(inspect, LabelExecPathsPrefix, x);
      assert x in multiset(g.paths);
    }
    if g.volumes != [] {
      var v := g.volumes[0];
      GatheredLists(inspect, order, "", v);
      assert multiset(g.volumes)[v] > 0 by { assert v in g.volumes; }
      var key :| key in NamingVolume(inspect, v);
    }
    if key, x :| LabelVolumesPrefix <= key && Says(inspect, key, x) {
      assert !Refuses(inspect, key);
      var v :| FirstMount(inspect.mounts, x, v);
      MountIsAtTarget(inspect.mounts, x, v);
      GatheredLists(inspect, order, "", v);
      assert key in NamingVolume(inspect, v);
      assert v in multiset(g.volumes);
    }
  }

  lemma MountIsAtTarget(mounts: seq<Mount>, target: string, v: Volume)
    requires FirstMount(mounts, target, v)
    ensures v.destination == target
  {
  }

  /** For any order of the labels, a container is accepted exactly if its labels are, and
      then it is configured by them. */
  lemma ConfigurationComesFromLabels(inspect: Inspect, order: seq<string>)
    requires Enumerates(order, inspect.labels.Keys)
    ensures MapContainer(inspect, order).Some? <==> LabelsAccepted(inspect)
    ensures MapContainer(inspect, order).Some? ==> ConfiguredBy(inspect, MapContainer(inspect, order).value)
  {
    hide GatherAll, TrimSpace, MapVolumes, Saying, NamingVolume, WantsPaths, WantsVolumes, Refuses, Tokenizer.Split;
    NoneRefuses(inspect, order);
    if GatherAll(inspect, Nothing, order).Some? {
      var g := GatherAll(inspect, Nothing, order).value;
      GatheredSettingsAreSaid(inspect, order);
      ListsAreWanted(inspect, order);
      CommandIsUnique(inspect, g.command);
      forall x
        ensures multiset(g.dependencies)[x] == |Saying(inspect, LabelDependenciesPrefix, x)|
        ensures multiset(g.paths)[x] == |Saying(inspect, LabelExecPathsPrefix, x)|
      {
        GatheredLists(inspect, order, x, Volume("", "", "", ""));
      }
      forall v ensures multiset(g.volumes)[v] == |NamingVolume(inspect, v)| {
        GatheredLists(inspect, order, "", v);
      }
    }
  }

  lemma CommandIsUnique(inspect: Inspect, command: seq<string>)
    requires CommandIs(inspect, command)
    ensures forall c :: CommandIs(inspect, c) <==> c == command
  {
  }
}
