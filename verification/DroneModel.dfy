/** Containers, their backup configuration, and what the Docker daemon reports. */
module DroneModel {
  import opened Wrappers

  /** In the order of their numeric values. */
  datatype Mode = DefaultMode | OfflineMode | DependentOfflineMode

  datatype Volume = Volume(kind: string, name: string, source: string, destination: string)

  datatype Exec = Exec(command: seq<string>, stdout: bool, paths: seq<string>)

  datatype ContainerBackup = ContainerBackup(
    id: string,
    serviceName: string,
    mode: Mode,
    upperDir: string,
    exec: Option<Exec>,
    backupVolumes: seq<Volume>,
    allVolumes: seq<Volume>,
    dependencies: seq<string>)

  predicate NeedsBackup(c: ContainerBackup) {
    c.exec.Some? || c.backupVolumes != []
  }

  datatype Schedule = Schedule(spec: string)

  datatype Project = Project(engine: string, name: string, schedule: Schedule, containers: map<string, ContainerBackup>)

  const DockerEngine := "docker"

  datatype Mount = Mount(kind: string, name: string, source: string, destination: string)

  /** The part of a container inspection that is looked at. */
  datatype Inspect = Inspect(id: string, graphDriver: string, graphData: map<string, string>, mounts: seq<Mount>,
                             labels: map<string, string>)

  const LabelEnabled := "io.v47.borgd.enabled"
  const LabelProjectName := "io.v47.borgd.project_name"
  const LabelProjectWhen := "io.v47.borgd.when"
  const LabelMode := "io.v47.borgd.service.mode"
  const LabelDependenciesPrefix := "io.v47.borgd.service.dependencies."
  const LabelExec := "io.v47.borgd.service.exec"
  const LabelExecStdout := "io.v47.borgd.service.stdout"
  const LabelExecPathsPrefix := "io.v47.borgd.service.paths."
  const LabelServiceName := "io.v47.borgd.service_name"
  const LabelVolumesPrefix := "io.v47.borgd.service.volumes."
}
