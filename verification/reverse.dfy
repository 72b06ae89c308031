/**
 * The reverse converter: a Docker container, as the engine lists it, observed as a pod. It
 * never fails.
 */
module Reverse {
  import opened Wrappers

  /** The fields of a listed Docker container the conversion reads. */
  datatype DockerContainer = DockerContainer(names: seq<string>, image: string, created: int, state: string, id: string)

  datatype PodPhase = PodRunning | PodUnknown

  datatype ContainerStateRunning = ContainerStateRunning(startedAt: int)

  datatype ContainerStatus = ContainerStatus(
    name: string,
    containerID: string,
    restartCount: int,
    ready: bool,
    started: Option<bool>,
    running: Option<ContainerStateRunning>)

  datatype PodContainer = PodContainer(name: string, image: string)

  datatype Pod = Pod(
    kind: string,
    apiVersion: string,
    name: string,
    namespace: string,
    creationTimestamp: int,
    containers: seq<PodContainer>,
    phase: PodPhase,
    containerStatuses: seq<ContainerStatus>)

  const RunningState: string := "running"

  /** strings.TrimPrefix(name, "/"): at most one leading slash is removed. */
  function TrimLeadingSlash(name: string): (r: string)
    ensures |name| > 0 && name[0] == '/' ==> name == "/" + r
    ensures (|name| == 0 || name[0] != '/') ==> r == name
  {
    if |name| > 0 && name[0] == '/' then name[1..] else name
  }

  /** ConvertContainerToPod, for the container's first name; timestamps stay Unix seconds. */
  function ConvertContainerToPod(c: DockerContainer): (p: Pod)
    requires |c.names| > 0
    ensures p.kind == "Pod" && p.apiVersion == "v1" && p.namespace == "default"
    ensures p.name == c.names[0] || "/" + p.name == c.names[0]
    ensures |c.names[0]| > 0 && c.names[0][0] == '/' ==> "/" + p.name == c.names[0]
    ensures p.creationTimestamp == c.created
    ensures p.containers == [PodContainer(p.name, c.image)]
    ensures |p.containerStatuses| == 1
    ensures var st := p.containerStatuses[0];
            st.name == p.name && st.containerID == c.id && st.restartCount == 0
    ensures p.phase == PodRunning <==> c.state == RunningState
    ensures var st := p.containerStatuses[0];
            c.state == RunningState ==>
              st.ready && st.started == Some(true) && st.running == Some(ContainerStateRunning(c.created))
    ensures var st := p.containerStatuses[0];
            c.state != RunningState ==>
              p.phase == PodUnknown && !st.ready && st.started.None? && st.running.None?
  {
    var name := TrimLeadingSlash(c.names[0]);
    var status := ContainerStatus(name, c.id, 0, false, None, None);
    var pod := Pod("Pod", "v1", name, "default", c.created, [PodContainer(name, c.image)], PodUnknown, [status]);
    if c.state == RunningState then
      pod.(phase := PodRunning,
           containerStatuses := [status.(ready := true, started := Some(true),
                                         running := Some(ContainerStateRunning(c.created)))])
    else
      pod
  }
}
