/**
 * The part of the Kubernetes pod object model the converter reads. Pointer fields of the
 * original types become Option; Go maps become Dafny maps.
 */
module Kube {
  import opened Wrappers
  import opened Ints

  const ResourceCPU: string := "cpu"
  const ResourceMemory: string := "memory"

  datatype ContainerPort = ContainerPort(hostPort: int, containerPort: int, protocol: string)

  /** A reference to one key of a named config map or secret. */
  datatype KeySelector = KeySelector(name: string, key: string)

  /** The indirect part of an environment variable; other kinds of source are ignored. */
  datatype EnvVarSource = EnvVarSource(configMapKeyRef: Option<KeySelector>, secretKeyRef: Option<KeySelector>)

  datatype EnvVar = EnvVar(name: string, value: string, valueFrom: Option<EnvVarSource>)

  /** A whole config map or secret imported as environment variables, by name. */
  datatype EnvFromSource = EnvFromSource(configMapRef: Option<string>, secretRef: Option<string>)

  /** A resource quantity, read only through MilliValue() and Value(). */
  datatype Quantity = Quantity(milliValue: Int64, value: Int64)

  datatype ResourceRequirements = ResourceRequirements(requests: map<string, Quantity>, limits: map<string, Quantity>)

  datatype SecurityContext = SecurityContext(privileged: Option<bool>)

  datatype PodSecurityContext = PodSecurityContext(runAsUser: Option<Int64>, runAsGroup: Option<Int64>)

  datatype VolumeMount = VolumeMount(name: string, mountPath: string)

  /** The sources of a volume, by config-map name, secret name and host path. */
  datatype VolumeSource = VolumeSource(configMap: Option<string>, secret: Option<string>, hostPath: Option<string>)

  datatype Volume = Volume(name: string, source: VolumeSource)

  datatype Container = Container(
    image: string,
    command: seq<string>,
    args: seq<string>,
    env: seq<EnvVar>,
    envFrom: seq<EnvFromSource>,
    ports: seq<ContainerPort>,
    resources: ResourceRequirements,
    volumeMounts: seq<VolumeMount>,
    securityContext: Option<SecurityContext>)

  datatype PodSpec = PodSpec(
    containers: seq<Container>,
    volumes: seq<Volume>,
    restartPolicy: string,
    securityContext: Option<PodSecurityContext>)
}
