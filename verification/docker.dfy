/** The part of the Docker engine's container-creation configuration the converter writes. */
module Docker {
  import opened Ints

  /** A port key as nat.NewPort builds it: container port and protocol. */
  datatype Port = Port(protocol: string, port: int)

  datatype PortBinding = PortBinding(hostIP: string, hostPort: string)

  datatype Resources = Resources(cpuShares: Int64, memoryReservation: Int64, nanoCPUs: Int64, memory: Int64)

  /** The zero value of Resources: no request and no limit. */
  const NoResources: Resources := Resources(0, 0, 0, 0)

  datatype Config = Config(
    image: string,
    labels: map<string, string>,
    env: seq<string>,
    entrypoint: seq<string>,
    cmd: seq<string>,
    exposedPorts: set<Port>,
    user: string)

  datatype HostConfig = HostConfig(
    extraHosts: seq<string>,
    binds: seq<string>,
    portBindings: map<Port, seq<PortBinding>>,
    resources: Resources,
    restartPolicy: string,
    privileged: bool)

  datatype ContainerConfiguration = ContainerConfiguration(containerConfig: Config, hostConfig: HostConfig)

  /** A bind-mount entry: host path, colon, container path. */
  function BindSpec(hostPath: string, containerPath: string): string {
    hostPath + ":" + containerPath
  }
}
