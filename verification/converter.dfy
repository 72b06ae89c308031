/**
 * The forward converter: a pod spec, the labels to put on the container, and the converter's
 * configuration become one Docker container configuration, or an error and no configuration.
 */
module Converter {
  import opened Wrappers
  import opened Decimal
  import opened Kube
  import opened Docker
  import opened Store
  import opened FieldMappers
  import opened Resolver

  /** Where the containers reach the API server. */
  datatype ServerConfiguration = ServerConfiguration(serverIpAddr: string, serverPort: int)

  /**
   * What the conversion reads besides its arguments: the server configuration, the
   * config-map and secret stores, the name of the service-account secret, and nat.NewPort.
   */
  datatype DockerAPIConverter = DockerAPIConverter(
    server: ServerConfiguration,
    store: Store,
    serviceAccountSecretName: string,
    portParses: PortParser)

  const ServiceHostVariable: string := "KUBERNETES_SERVICE_HOST"
  const ServicePortVariable: string := "KUBERNETES_SERVICE_PORT"
  const ServiceAlias: string := "kubernetes.default.svc"

  /** The two environment entries every container starts with. */
  function ServiceEnv(server: ServerConfiguration): seq<string> {
    [EnvEntry(ServiceHostVariable, server.serverIpAddr), EnvEntry(ServicePortVariable, IntToString(server.serverPort))]
  }

  /** The host-name alias that resolves the API server's service name to its address. */
  function ServiceExtraHost(server: ServerConfiguration): string {
    ServiceAlias + ":" + server.serverIpAddr
  }

  /** The user the security context asks for, or the empty default. */
  function RequestedUser(pod: Option<PodSecurityContext>): string {
    if pod.Some? && pod.value.runAsUser.Some? && pod.value.runAsGroup.Some?
    then FormatUser(pod.value.runAsUser.value, pod.value.runAsGroup.value)
    else ""
  }

  /** The privileged flag the security contexts ask for, or the false default. */
  function RequestedPrivileged(pod: Option<PodSecurityContext>, container: Option<SecurityContext>): bool {
    pod.Some? && container.Some? && container.value.privileged.Some? && container.value.privileged.value
  }

  /**
   * The configuration the steps build once every lookup has succeeded, from the results of the
   * steps that can fail.
   */
  ghost function Assemble(c: DockerAPIConverter, spec: PodSpec, labels: map<string, string>,
                          accountBinds: seq<string>, ports: PortMappings, env: seq<string>,
                          volumeBinds: seq<string>): (r: ContainerConfiguration)
    requires |spec.containers| > 0
    ensures var ctr := spec.containers[0];
            var cfg := r.containerConfig;
            var hc := r.hostConfig;
            && cfg.image == ctr.image
            && cfg.labels == labels
            && cfg.env == ServiceEnv(c.server) + env
            && cfg.entrypoint == ctr.command
            && cfg.cmd == ctr.args
            && cfg.exposedPorts == ports.exposed
            && hc.portBindings == ports.bindings
            && cfg.user == RequestedUser(spec.securityContext)
            && hc.extraHosts == [ServiceExtraHost(c.server)]
            && hc.binds == accountBinds + volumeBinds
            && hc.resources == ResourceRequirementsOf(ctr.resources)
            && hc.restartPolicy == RestartPolicyName(spec.restartPolicy)
            && hc.privileged == RequestedPrivileged(spec.securityContext, ctr.securityContext)
  {
    var ctr := spec.containers[0];
    var config0 := Config(ctr.image, labels, ServiceEnv(c.server), [], [], {}, "");
    var host0 := HostConfig([ServiceExtraHost(c.server)], [], map[], NoResources, "", false);
    // service account
    var host1 := host0.(binds := host0.binds + accountBinds);
    // ports
    var config1 := config0.(exposedPorts := ports.exposed);
    var host2 := host1.(portBindings := ports.bindings);
    // environment
    var config2 := config1.(env := config1.env + env);
    // command and args, restart policy, security context, resources
    var config3 := CommandAndArgs(config2, ctr.command, ctr.args);
    var host3 := host2.(restartPolicy := RestartPolicyName(spec.restartPolicy));
    var secured := SecurityContextApplied(config3, host3, spec.securityContext, ctr.securityContext);
    var host4 := secured.1.(resources := ResourceRequirementsOf(ctr.resources));
    // volumes
    var host5 := host4.(binds := host4.binds + volumeBinds);
    ContainerConfiguration(secured.0, host5)
  }

  /**
   * ConvertPodSpecToContainerConfiguration, for the first container of the spec. The steps run
   * in the source's order: service account, ports, environment, command and args, restart
   * policy, security context, resources, volumes. The first failing step decides the error, and
   * a failure carries no configuration at all.
   */
  ghost function ConvertPodSpec(c: DockerAPIConverter, spec: PodSpec, labels: map<string, string>)
    : (r: Result<ContainerConfiguration, Error>)
    requires |spec.containers| > 0
    ensures var ctr := spec.containers[0];
            r.Success? <==>
              && ServiceAccountBinds(c.store, c.serviceAccountSecretName).Success?
              && HostPorts(ctr.ports, c.portParses).Success?
              && EnvVars(c.store, ctr.env, ctr.envFrom).Success?
              && VolumeBinds(c.store, spec.volumes, ctr.volumeMounts).Success?
    // error precedence: each step's error surfaces only when every earlier step succeeded
    ensures c.serviceAccountSecretName !in c.store.secrets ==> r == Failure(NotFound(SecretKind, c.serviceAccountSecretName))
    ensures ServiceAccountBinds(c.store, c.serviceAccountSecretName).Failure? ==>
              r == Failure(ServiceAccountBinds(c.store, c.serviceAccountSecretName).error)
    ensures var ctr := spec.containers[0];
            ServiceAccountBinds(c.store, c.serviceAccountSecretName).Success? && HostPorts(ctr.ports, c.portParses).Failure? ==>
              r == Failure(HostPorts(ctr.ports, c.portParses).error)
    ensures var ctr := spec.containers[0];
            && ServiceAccountBinds(c.store, c.serviceAccountSecretName).Success?
            && HostPorts(ctr.ports, c.portParses).Success?
            && EnvVars(c.store, ctr.env, ctr.envFrom).Failure? ==>
              r == Failure(EnvVars(c.store, ctr.env, ctr.envFrom).error)
    ensures var ctr := spec.containers[0];
            && ServiceAccountBinds(c.store, c.serviceAccountSecretName).Success?
            && HostPorts(ctr.ports, c.portParses).Success?
            && EnvVars(c.store, ctr.env, ctr.envFrom).Success?
            && VolumeBinds(c.store, spec.volumes, ctr.volumeMounts).Failure? ==>
              r == Failure(VolumeBinds(c.store, spec.volumes, ctr.volumeMounts).error)
    // the configuration on success
    ensures r.Success? ==>
              var ctr := spec.containers[0];
              var cfg := r.value.containerConfig;
              var hc := r.value.hostConfig;
              var ports := HostPorts(ctr.ports, c.portParses).value;
              && cfg.image == ctr.image
              && cfg.labels == labels
              && cfg.env == ServiceEnv(c.server) + EnvVars(c.store, ctr.env, ctr.envFrom).value
              && cfg.entrypoint == ctr.command
              && cfg.cmd == ctr.args
              && cfg.exposedPorts == hc.portBindings.Keys
              && cfg.exposedPorts == ports.exposed
              && hc.portBindings == ports.bindings
              && cfg.user == RequestedUser(spec.securityContext)
              && hc.extraHosts == [ServiceExtraHost(c.server)]
              && hc.binds == ServiceAccountBinds(c.store, c.serviceAccountSecretName).value
                             + VolumeBinds(c.store, spec.volumes, ctr.volumeMounts).value
              && hc.resources == ResourceRequirementsOf(ctr.resources)
              && hc.restartPolicy == RestartPolicyName(spec.restartPolicy)
              && hc.privileged == RequestedPrivileged(spec.securityContext, ctr.securityContext)
  {
    var ctr := spec.containers[0];
    var account := ServiceAccountBinds(c.store, c.serviceAccountSecretName);
    var ports := HostPorts(ctr.ports, c.portParses);
    var env := EnvVars(c.store, ctr.env, ctr.envFrom);
    var volumes := VolumeBinds(c.store, spec.volumes, ctr.volumeMounts);
    if account.Failure? then Failure(account.error)
    else if ports.Failure? then Failure(ports.error)
    else if env.Failure? then Failure(env.error)
    else if volumes.Failure? then Failure(volumes.error)
    else Success(Assemble(c, spec, labels, account.value, ports.value, env.value, volumes.value))
  }
}
