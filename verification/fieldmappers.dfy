/**
 * The stateless field mappers of the forward conversion: restart policy, host ports, resource
 * requirements, entrypoint and command, and security context.
 */
module FieldMappers {
  import opened Wrappers
  import opened Ints
  import opened Decimal
  import opened GoMaps
  import opened Kube
  import opened Docker
  import opened Store

  // ---------------------------------------------------------------- restart policy

  const RestartAlways: string := "always"
  const RestartOnFailure: string := "on-failure"
  const RestartNever: string := "no"

  /** The Docker restart policy name for a pod restart policy (setRestartPolicy). */
  function RestartPolicyName(policy: string): (name: string)
    ensures name == RestartOnFailure <==> policy == "OnFailure"
    ensures name == RestartNever <==> policy == "Never"
    ensures name == RestartAlways <==> policy != "OnFailure" && policy != "Never"
  {
    if policy == "OnFailure" then RestartOnFailure
    else if policy == "Never" then RestartNever
    else RestartAlways
  }

  // ---------------------------------------------------------------- host ports

  /**
   * nat.NewPort's verdict on a (protocol, decimal container port) pair: true when it builds a
   * port key, false when it reports an error. Its parsing rules are not modelled.
   */
  type PortParser = (string, string) -> bool

  /** The exposed-port set and the port-binding map, as setHostPorts builds them side by side. */
  datatype PortMappings = PortMappings(exposed: set<Port>, bindings: map<Port, seq<PortBinding>>)

  const AnyAddress: string := "0.0.0.0"

  /** Only ports with a non-zero host port are published. */
  predicate Published(p: ContainerPort) {
    p.hostPort != 0
  }

  function KeyOf(p: ContainerPort): Port {
    Port(p.protocol, p.containerPort)
  }

  function BindingOf(p: ContainerPort): PortBinding {
    PortBinding(AnyAddress, IntToString(p.hostPort))
  }

  predicate Parses(parses: PortParser, p: ContainerPort) {
    parses(p.protocol, IntToString(p.containerPort))
  }

  /** ports[i] is the last published port with key k: a Go map keeps the last assignment. */
  predicate LastPublishedAt(ports: seq<ContainerPort>, i: int, k: Port) {
    && 0 <= i < |ports|
    && Published(ports[i])
    && KeyOf(ports[i]) == k
    && forall j :: i < j < |ports| && Published(ports[j]) ==> KeyOf(ports[j]) != k
  }

  /** setHostPorts: the exposed ports and host bindings of a container's port list. */
  function HostPorts(ports: seq<ContainerPort>, parses: PortParser): (r: Result<PortMappings, Error>)
    ensures r.Success? ==> r.value.exposed == r.value.bindings.Keys
    decreases |ports|
  {
    if |ports| == 0 then Success(PortMappings({}, map[]))
    else
      var init := ports[..|ports| - 1];
      var p := ports[|ports| - 1];
      var pm :- HostPorts(init, parses);
      if !Published(p) then Success(pm)
      else if !Parses(parses, p) then Failure(PortParseFailure(p.protocol, IntToString(p.containerPort)))
      else Success(PortMappings(pm.exposed + {KeyOf(p)}, pm.bindings[KeyOf(p) := [BindingOf(p)]]))
  }

  /** The conversion fails exactly when some published port is rejected by nat.NewPort. */
  lemma {:induction false} HostPortsSucceedsIff(ports: seq<ContainerPort>, parses: PortParser)
    ensures HostPorts(ports, parses).Success? <==>
              forall i :: 0 <= i < |ports| && Published(ports[i]) ==> Parses(parses, ports[i])
    decreases |ports|
  {
    if |ports| > 0 {
      var init := ports[..|ports| - 1];
      HostPortsSucceedsIff(init, parses);
      assert forall i :: 0 <= i < |init| ==> init[i] == ports[i];
    }
  }

  /** A failure reports the first published port nat.NewPort rejects. */
  lemma {:induction false} HostPortsFirstError(ports: seq<ContainerPort>, parses: PortParser)
    requires HostPorts(ports, parses).Failure?
    ensures exists i ::
              && 0 <= i < |ports| && Published(ports[i]) && !Parses(parses, ports[i])
              && HostPorts(ports, parses).error == PortParseFailure(ports[i].protocol, IntToString(ports[i].containerPort))
              && forall j :: 0 <= j < i && Published(ports[j]) ==> Parses(parses, ports[j])
    decreases |ports|
  {
    var init := ports[..|ports| - 1];
    assert forall i :: 0 <= i < |init| ==> init[i] == ports[i];
    if HostPorts(init, parses).Failure? {
      HostPortsFirstError(init, parses);
      var i :| && 0 <= i < |init| && Published(init[i]) && !Parses(parses, init[i])
                && HostPorts(init, parses).error == PortParseFailure(init[i].protocol, IntToString(init[i].containerPort))
                && forall j :: 0 <= j < i && Published(init[j]) ==> Parses(parses, init[j]);
      assert init[i] == ports[i];
    } else {
      HostPortsSucceedsIff(init, parses);
      var i := |ports| - 1;
      assert forall j :: 0 <= j < i && Published(ports[j]) ==> Parses(parses, ports[j]);
    }
  }

  /** A port key is exposed, and bound, exactly when some published port has that key. */
  lemma {:induction false} HostPortsKeys(ports: seq<ContainerPort>, parses: PortParser, k: Port)
    requires HostPorts(ports, parses).Success?
    ensures k in HostPorts(ports, parses).value.exposed <==>
              exists i :: 0 <= i < |ports| && Published(ports[i]) && KeyOf(ports[i]) == k
    ensures k in HostPorts(ports, parses).value.bindings <==> k in HostPorts(ports, parses).value.exposed
    decreases |ports|
  {
    if |ports| > 0 {
      var init := ports[..|ports| - 1];
      HostPortsKeys(init, parses, k);
      assert forall i :: 0 <= i < |init| ==> init[i] == ports[i];
      if exists i :: 0 <= i < |ports| && Published(ports[i]) && KeyOf(ports[i]) == k {
        var i :| 0 <= i < |ports| && Published(ports[i]) && KeyOf(ports[i]) == k;
        if i < |init| {
          assert Published(init[i]) && KeyOf(init[i]) == k;
        }
      }
    }
  }

  /**
   * Each bound key carries exactly one binding, on the wildcard address, whose host port is the
   * decimal host port of the last published port with that key.
   */
  lemma {:induction false} HostPortsBindings(ports: seq<ContainerPort>, parses: PortParser, k: Port)
    requires HostPorts(ports, parses).Success?
    requires k in HostPorts(ports, parses).value.bindings
    ensures exists i :: LastPublishedAt(ports, i, k) && HostPorts(ports, parses).value.bindings[k] == [BindingOf(ports[i])]
    decreases |ports|
  {
    var init := ports[..|ports| - 1];
    var p := ports[|ports| - 1];
    var last := |ports| - 1;
    var result := HostPorts(ports, parses).value;
    if Published(p) && KeyOf(p) == k {
      assert result.bindings[k] == [BindingOf(p)];
      assert LastPublishedAt(ports, last, k);
    } else {
      var pm := HostPorts(init, parses).value;
      assert result.bindings == pm.bindings || result.bindings == pm.bindings[KeyOf(p) := [BindingOf(p)]];
      assert k in pm.bindings && result.bindings[k] == pm.bindings[k];
      HostPortsBindings(init, parses, k);
      var i :| LastPublishedAt(init, i, k) && pm.bindings[k] == [BindingOf(init[i])];
      assert init[i] == ports[i];
      forall j | i < j < |ports| && Published(ports[j])
        ensures KeyOf(ports[j]) != k
      {
        if j < last {
          assert ports[j] == init[j];
        }
      }
      assert LastPublishedAt(ports, i, k);
    }
  }

  /** With no published port, nothing is exposed and nothing is bound. */
  lemma {:induction false} HostPortsNonePublished(ports: seq<ContainerPort>, parses: PortParser)
    requires forall i :: 0 <= i < |ports| ==> !Published(ports[i])
    ensures HostPorts(ports, parses) == Success(PortMappings({}, map[]))
    decreases |ports|
  {
    if |ports| > 0 {
      HostPortsNonePublished(ports[..|ports| - 1], parses);
    }
  }

  // ---------------------------------------------------------------- resources

  /** One iteration of the loop over resource requests. */
  function ApplyRequest(r: Resources, name: string, q: Quantity): Resources {
    if name == ResourceCPU then r.(cpuShares := q.milliValue)
    else if name == ResourceMemory then r.(memoryReservation := q.value)
    else r
  }

  /** One iteration of the loop over resource limits; int64 multiplication wraps. */
  function ApplyLimit(r: Resources, name: string, q: Quantity): Resources {
    if name == ResourceCPU then r.(nanoCPUs := Wrap64(q.milliValue as int * 1_000_000))
    else if name == ResourceMemory then r.(memory := q.value)
    else r
  }

  function ApplyRequests(r: Resources, e: seq<(string, Quantity)>): Resources {
    if |e| == 0 then r else ApplyRequest(ApplyRequests(r, e[..|e| - 1]), e[|e| - 1].0, e[|e| - 1].1)
  }

  function ApplyLimits(r: Resources, e: seq<(string, Quantity)>): Resources {
    if |e| == 0 then r else ApplyLimit(ApplyLimits(r, e[..|e| - 1]), e[|e| - 1].0, e[|e| - 1].1)
  }

  /** Requests set CPU shares and memory reservation from the last cpu and memory entries. */
  lemma {:induction false} ApplyRequestsFields(r: Resources, e: seq<(string, Quantity)>)
    ensures ApplyRequests(r, e).cpuShares ==
              (match LastValue(e, ResourceCPU) case Some(q) => q.milliValue case None => r.cpuShares)
    ensures ApplyRequests(r, e).memoryReservation ==
              (match LastValue(e, ResourceMemory) case Some(q) => q.value case None => r.memoryReservation)
    ensures ApplyRequests(r, e).nanoCPUs == r.nanoCPUs && ApplyRequests(r, e).memory == r.memory
    decreases |e|
  {
    if |e| > 0 {
      ApplyRequestsFields(r, e[..|e| - 1]);
    }
  }

  /** Limits set the CPU quota and the memory ceiling from the last cpu and memory entries. */
  lemma {:induction false} ApplyLimitsFields(r: Resources, e: seq<(string, Quantity)>)
    ensures ApplyLimits(r, e).nanoCPUs ==
              (match LastValue(e, ResourceCPU) case Some(q) => Wrap64(q.milliValue as int * 1_000_000) case None => r.nanoCPUs)
    ensures ApplyLimits(r, e).memory ==
              (match LastValue(e, ResourceMemory) case Some(q) => q.value case None => r.memory)
    ensures ApplyLimits(r, e).cpuShares == r.cpuShares && ApplyLimits(r, e).memoryReservation == r.memoryReservation
    decreases |e|
  {
    if |e| > 0 {
      ApplyLimitsFields(r, e[..|e| - 1]);
    }
  }

  /**
   * setResourceRequirements: a fresh Resources value filled by ranging over the requests and
   * then the limits, whatever order each map is ranged over in.
   */
  ghost function ResourceRequirementsOf(req: ResourceRequirements): (r: Resources)
    ensures r.cpuShares == if ResourceCPU in req.requests then req.requests[ResourceCPU].milliValue else 0
    ensures r.memoryReservation == if ResourceMemory in req.requests then req.requests[ResourceMemory].value else 0
    ensures r.nanoCPUs ==
              if ResourceCPU in req.limits then Wrap64(req.limits[ResourceCPU].milliValue as int * 1_000_000) else 0
    ensures r.memory == if ResourceMemory in req.limits then req.limits[ResourceMemory].value else 0
    ensures ResourceCPU in req.limits && InInt64Range(req.limits[ResourceCPU].milliValue as int * 1_000_000) ==>
              r.nanoCPUs as int == req.limits[ResourceCPU].milliValue as int * 1_000_000
  {
    var requests := Enumerate(req.requests);
    var limits := Enumerate(req.limits);
    var afterRequests := ApplyRequests(NoResources, requests);
    ApplyRequestsFields(NoResources, requests);
    LastValueOfEnumeration(requests, req.requests, ResourceCPU);
    LastValueOfEnumeration(requests, req.requests, ResourceMemory);
    ApplyLimitsFields(afterRequests, limits);
    LastValueOfEnumeration(limits, req.limits, ResourceCPU);
    LastValueOfEnumeration(limits, req.limits, ResourceMemory);
    ApplyLimits(afterRequests, limits)
  }

  // ---------------------------------------------------------------- command and args

  /** setCommandAndArgs: a non-empty command replaces the entrypoint, non-empty args the command. */
  function CommandAndArgs(config: Config, command: seq<string>, args: seq<string>): (r: Config)
    ensures r.entrypoint == if |command| > 0 then command else config.entrypoint
    ensures r.cmd == if |args| > 0 then args else config.cmd
    ensures r == config.(entrypoint := r.entrypoint, cmd := r.cmd)
  {
    var withEntrypoint := if |command| > 0 then config.(entrypoint := command) else config;
    if |args| > 0 then withEntrypoint.(cmd := args) else withEntrypoint
  }

  // ---------------------------------------------------------------- security context

  /** The "uid:gid" user string, each number in decimal. */
  function FormatUser(uid: Int64, gid: Int64): string {
    IntToString(uid as int) + ":" + IntToString(gid as int)
  }

  /** The position of the first c in s. */
  function IndexOf(s: string, c: char): (r: Option<nat>)
    ensures r.None? <==> c !in s
    ensures r.Some? ==> r.value < |s| && s[r.value] == c && forall j :: 0 <= j < r.value ==> s[j] != c
  {
    if |s| == 0 then None
    else if s[0] == c then Some(0)
    else
      match IndexOf(s[1..], c)
      case None => None
      case Some(i) =>
        assert forall j :: 1 <= j < |s| ==> s[j] == s[1..][j - 1];
        Some(i + 1)
  }

  lemma {:induction false} IndexOfAfter(a: string, c: char, b: string)
    requires c !in a
    ensures IndexOf(a + [c] + b, c) == Some(|a|)
    decreases |a|
  {
    if |a| > 0 {
      assert (a + [c] + b)[1..] == a[1..] + [c] + b;
      IndexOfAfter(a[1..], c, b);
    }
  }

  /** Reads a "uid:gid" user string back into its two numbers. */
  function ParseUser(s: string): Option<(int, int)> {
    match IndexOf(s, ':')
    case None => None
    case Some(i) =>
      match (ParseInt(s[..i]), ParseInt(s[i + 1..]))
      case (Some(u), Some(g)) => Some((u, g))
      case _ => None
  }

  /** The user string names exactly the uid and gid it was made from. */
  lemma UserRoundTrip(uid: Int64, gid: Int64)
    ensures ParseUser(FormatUser(uid, gid)) == Some((uid as int, gid as int))
  {
    var u := IntToString(uid as int);
    var g := IntToString(gid as int);
    var s := FormatUser(uid, gid);
    assert ':' !in u;
    assert s == u + [':'] + g;
    IndexOfAfter(u, ':', g);
    assert s[..|u|] == u;
    assert s[|u| + 1..] == g;
    IntToStringRoundTrip(uid as int);
    IntToStringRoundTrip(gid as int);
    assert ParseInt(s[..|u|]) == Some(uid as int);
    assert ParseInt(s[|u| + 1..]) == Some(gid as int);
  }

  /**
   * setSecurityContext: nothing changes without a pod context; the user is set when the pod
   * context names both a uid and a gid; the privileged flag is copied only when the pod context,
   * the container context and its flag are all present.
   */
  function SecurityContextApplied(config: Config, hostConfig: HostConfig, pod: Option<PodSecurityContext>,
                                  container: Option<SecurityContext>): (r: (Config, HostConfig))
    ensures r.0 == config.(user := r.0.user)
    ensures r.1 == hostConfig.(privileged := r.1.privileged)
    ensures pod.None? ==> r == (config, hostConfig)
    ensures r.0.user ==
              if pod.Some? && pod.value.runAsUser.Some? && pod.value.runAsGroup.Some?
              then FormatUser(pod.value.runAsUser.value, pod.value.runAsGroup.value)
              else config.user
    ensures r.1.privileged ==
              if pod.Some? && container.Some? && container.value.privileged.Some?
              then container.value.privileged.value
              else hostConfig.privileged
  {
    match pod
    case None => (config, hostConfig)
    case Some(p) =>
      var config' :=
        if p.runAsUser.Some? && p.runAsGroup.Some?
        then config.(user := FormatUser(p.runAsUser.value, p.runAsGroup.value))
        else config;
      match container
      case None => (config', hostConfig)
      case Some(c) =>
        if c.privileged.Some? then (config', hostConfig.(privileged := c.privileged.value)) else (config', hostConfig)
  }
}
