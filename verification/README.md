# k2d pod converter — a Dafny model

k2d presents a Kubernetes-compatible API on top of a single Docker engine. Its adapter turns a
Kubernetes `PodSpec` into the Docker configuration of one container
(`ConvertPodSpecToContainerConfiguration`). It also turns a Docker container back into a
minimal `Pod` (`ConvertContainerToPod`). This project models both directions as pure Dafny
functions, together with every helper the forward direction uses:

- the service-account binds;
- host ports;
- environment variables from literals, config-map and secret keys, and whole config maps or
  secrets;
- command and args;
- the restart policy;
- the security context;
- resource requests and limits;
- volume mounts backed by config maps, secrets or host paths.

The config-map and secret stores become an immutable `Store.Store` record. A name missing from
one of its maps is a failed lookup. `nat.NewPort` becomes an injected predicate
(`FieldMappers.PortParser`). Go's unspecified map iteration order becomes the ghost
`GoMaps.Enumerate`, an enumeration nobody fixes. For that reason every contract about
map-derived entries says that they are the entries of *some* enumeration of the map, one per
key, never which one. The int64 multiplication
behind `NanoCPUs` wraps explicitly (`Ints.Wrap64`).

Modules:

- `Wrappers`: `Option` and `Result`.
- `Ints`: int64 range and wrap-around.
- `Decimal`: `strconv.Itoa` and its inverse.
- `Paths`: `path.Join`.
- `GoMaps`: map ranging.
- `Kube` and `Docker`: the data types.
- `Store`: the stores.
- `FieldMappers`: the per-field setters.
- `Resolver`: store-backed env vars and binds.
- `Converter`: the forward conversion.
- `Reverse`: container to pod.

Behaviour of the code worth knowing:

- **Volume iteration.** `setVolumeMounts` iterates the *volumes* in the outer loop. Each volume
  is bound at the first mount that carries its name, and later same-named mounts are ignored.
  A mount that names no volume is ignored too. `Resolver.VolumeBinds`,
  `Resolver.VolumeBindsIgnoreShadowedMount` and `Resolver.VolumeBindsIgnoreOrphanMount` state
  this order.
- **Step order.** Volumes are resolved last, after the command, restart policy, security
  context and resources. They are not resolved together with the environment.
- **Absent versus zero.** An absent resource request or limit and a zero one are
  indistinguishable in the result: both leave the int64 field at 0.
- **Privileged flag.** `Privileged` is copied only when the pod-level security context is also
  present (pod.go:331-333).

## Model

| member | source | states |
|---|---|---|
| Converter.ConvertPodSpec | internal/adapter/converter/pod.go:78-126 | Success exactly when the service-account binds, port mapping, environment and volume binds all succeed. Otherwise the error of the first failing step, in source order, is returned, with no configuration. A missing service-account secret is reported as NotFound for that secret. On success: image, labels, the two service variables followed by the user environment, entrypoint, cmd, exposed ports equal to the port-binding keys, extra host, service-account binds followed by volume binds, resources, restart policy, user and privileged. |
| Converter.Assemble | internal/adapter/converter/pod.go:81-94 | Once the fallible steps have succeeded, every field of the assembled configuration comes from the spec's first container, the pod spec, the server configuration or a step result, in the order the steps append. |
| Reverse.ConvertContainerToPod | internal/adapter/converter/pod.go:21-73 | Kind "Pod", API version "v1", namespace "default". The name is the first Docker name with at most one leading slash removed. The creation time is the container's. There is one container (name, image) and one status with restart count 0. The phase is Running exactly when the Docker state is "running". Readiness, started flag and running state are set only then. |
| Reverse.TrimLeadingSlash | internal/adapter/converter/pod.go:22 | Removes a single leading '/' when there is one and otherwise returns the name unchanged. |
| FieldMappers.RestartPolicyName | internal/adapter/converter/pod.go:303-312 | "on-failure" exactly for OnFailure, "no" exactly for Never, "always" exactly for everything else (including the empty policy). |
| FieldMappers.HostPorts | internal/adapter/converter/pod.go:194-219 | On success, the exposed port set and the binding map have the same keys. |
| FieldMappers.HostPortsSucceedsIff | internal/adapter/converter/pod.go:198-203 | The port step fails exactly when some port with a non-zero host port does not parse. Ports with host port 0 are never parsed. |
| FieldMappers.HostPortsFirstError | internal/adapter/converter/pod.go:199-203 | The error is the parse failure of the first published port that does not parse. Every earlier published port parses. |
| FieldMappers.HostPortsKeys | internal/adapter/converter/pod.go:198-216 | A (protocol, container port) key is exposed, and bound, exactly when some port with a non-zero host port carries it. |
| FieldMappers.HostPortsBindings | internal/adapter/converter/pod.go:205-210 | Each bound key maps to a single binding on 0.0.0.0 whose host port is the decimal host port of the last published port with that key. |
| FieldMappers.HostPortsNonePublished | internal/adapter/converter/pod.go:198-199 | When no port has a non-zero host port, the step succeeds with no exposed ports and no bindings. |
| FieldMappers.ApplyRequestsFields | internal/adapter/converter/pod.go:133-142 | Ranging over the requests sets CPU shares to the last "cpu" quantity's milli-value and memory reservation to the last "memory" quantity's value. Every other resource name is ignored, and the limit fields are untouched. |
| FieldMappers.ApplyLimitsFields | internal/adapter/converter/pod.go:144-153 | Ranging over the limits sets NanoCPUs to the last "cpu" milli-value times 1 000 000, wrapped to int64, and memory to the last "memory" value. The request fields are untouched. |
| FieldMappers.ResourceRequirementsOf | internal/adapter/converter/pod.go:131-156 | The resources start from zero. CPU shares, memory reservation and memory are the quantities under "cpu" and "memory" in requests and limits, or 0 when absent. NanoCPUs is the cpu limit's milli-value times 10^6 modulo 2^64, and exactly that product when it fits in int64. |
| FieldMappers.CommandAndArgs | internal/adapter/converter/pod.go:317-325 | The entrypoint is replaced only by a non-empty command and cmd only by non-empty args. Every other field is unchanged. |
| FieldMappers.SecurityContextApplied | internal/adapter/converter/pod.go:330-346 | Without a pod security context nothing changes. The user becomes "uid:gid" only when both IDs are set. Privileged is overwritten only when both contexts exist and the container sets it. No other field changes. |
| FieldMappers.UserRoundTrip | internal/adapter/converter/pod.go:335-337 | The "uid:gid" user string parses back to exactly the two IDs, negative ones included, so distinct ID pairs give distinct users. |
| Decimal.IntToStringRoundTrip | internal/adapter/converter/pod.go:200-207 | The decimal rendering used for ports and the server port parses back to the same integer. |
| Decimal.IntToStringInjective | internal/adapter/converter/pod.go:207 | Distinct integers render as distinct decimal strings. |
| Decimal.NatToStringOfCanonical | internal/adapter/converter/pod.go:207 | Every canonical digit string is the rendering of the number it denotes. |
| Paths.JoinPath | internal/adapter/converter/pod.go:182 | For a clean directory and a clean relative name: joining with an empty directory gives the name; otherwise the result is the directory, exactly one '/', and the name, with no second slash after a directory that ends in '/'. |
| Ints.Wrap64 | internal/adapter/converter/pod.go:148 | The result is congruent to the input modulo 2^64, lies in int64 range, and equals the input when it is already in range. |
| GoMaps.LastValueOfEnumeration | internal/adapter/converter/pod.go:134-141 | Ranging over a map and keeping the last value seen per key yields the map's own value for every key, whatever the iteration order. So the resource result does not depend on the order. |
| GoMaps.CollectEntries | internal/adapter/converter/pod.go:262-264 | The collected list is, position by position, the formatted entries of some enumeration of the map that lists every key exactly once. So there is one element per key, each key's entry is present, and nothing else is, even when two entries format alike. |
| Resolver.ServiceAccountBinds | internal/adapter/converter/pod.go:170-187 | A missing secret gives NotFound for it, and missing binds give BindsUnavailable. Otherwise the binds are, position by position, "host:/var/run/secrets/kubernetes.io/serviceaccount/rel" for the mappings of the secret's binds in some enumeration: one per mapping and nothing else. |
| Resolver.ResourceBinds | internal/adapter/converter/pod.go:395-398 | Position by position, the "host:join(mountPath, rel)" entries of some enumeration of the bind map: one per mapping and nothing else. |
| Resolver.DataEntries | internal/adapter/converter/pod.go:262-264 | Position by position, the "KEY=VALUE" entries of some enumeration of the data: one per key, and nothing else. |
| Resolver.ResolveEnvVar | internal/adapter/converter/pod.go:282-299 | A literal gives "NAME=VALUE". A config-map key reference is tried before a secret key reference. The referenced resource must exist, or NotFound names it. A missing key yields an empty value. A value source with neither reference adds nothing. |
| Resolver.ResolveEnv | internal/adapter/converter/pod.go:225-234 | The variables resolve exactly when every variable's lookups succeed. |
| Resolver.ResolveEnvFirstError | internal/adapter/converter/pod.go:227-230 | A failure is the failure of the first variable whose lookup fails. All earlier variables resolve. |
| Resolver.ResolveEnvAppend | internal/adapter/converter/pod.go:225-234 | Entries keep input order: resolving a concatenation is resolving each half, entries appended. |
| Resolver.ResolveEnvLiterals | internal/adapter/converter/pod.go:231-233 | Without value sources, entry i is "NAME=VALUE" of variable i, one per variable. |
| Resolver.ExpandEnvFrom | internal/adapter/converter/pod.go:255-277 | A config-map reference is tried before a secret reference. A missing resource gives NotFound. Otherwise every key of its data is added as an entry, and nothing is added when neither reference is set. |
| Resolver.ExpandEnvFroms | internal/adapter/converter/pod.go:236-240 | The env-from entries expand exactly when each referenced resource exists. |
| Resolver.ExpandEnvFromsAppend | internal/adapter/converter/pod.go:236-240 | Env-from entries keep input order across a concatenation. |
| Resolver.EnvVars | internal/adapter/converter/pod.go:224-243 | Success exactly when every variable and every env-from entry resolves. A variable's failure takes precedence. The entries are the resolved variables followed by the expanded env-from entries. |
| Resolver.Then | internal/adapter/converter/pod.go:225-240 | Sequencing two steps: the first failure wins, and on success the entries are concatenated. |
| Resolver.RunAllAppend | internal/adapter/converter/pod.go:352-362 | Running the loop over a concatenation is running it over each half in order. |
| Resolver.RunAllFirstError | internal/adapter/converter/pod.go:352-362 | A failing loop returns exactly the failure of its first failing element. |
| Resolver.RunAllCongruent | internal/adapter/converter/pod.go:352-362 | Two loops whose steps agree on every element produce the same result, entries and error alike. |
| Resolver.FirstMount | internal/adapter/converter/pod.go:353-359 | The result is the first mount carrying the name, and none exactly when no mount carries it. |
| Resolver.HandleVolumeSource | internal/adapter/converter/pod.go:383-419 | A config map is tried before a secret, and a secret before a host path. For a store source, a missing resource gives NotFound and missing binds give BindsUnavailable, both naming the resource itself. Otherwise the result is one bind per mapping under the mount path. A host path gives "path:mountPath", and no source gives nothing. |
| Resolver.VolumeBind | internal/adapter/converter/pod.go:353-360 | A volume fails exactly when a mount names it and its source's lookups fail. |
| Resolver.VolumeBinds | internal/adapter/converter/pod.go:351-363 | The volume step succeeds exactly when every mounted volume's lookups succeed. |
| Resolver.VolumeBindsFirstError | internal/adapter/converter/pod.go:352-357 | A failure is that of the first volume, in declaration order, whose lookups fail. |
| Resolver.VolumeBindsAppend | internal/adapter/converter/pod.go:352-362 | Binds follow the order in which the volumes are declared. |
| Resolver.VolumeBindsSkipsUnmounted | internal/adapter/converter/pod.go:353-354 | A volume that no mount names contributes neither a bind nor an error, wherever it is declared. |
| Resolver.FirstMountIgnoresShadowed | internal/adapter/converter/pod.go:354-358 | Removing a mount whose name an earlier mount already carries does not change any lookup. |
| Resolver.FirstMountSkips | internal/adapter/converter/pod.go:354 | Removing a mount with a different name does not change the lookup. |
| Resolver.VolumeBindsIgnoreShadowedMount | internal/adapter/converter/pod.go:351-363 | With duplicate mount names, later duplicates never affect the binds or the error. |
| Resolver.VolumeBindsIgnoreOrphanMount | internal/adapter/converter/pod.go:352-354 | A mount that names no volume contributes neither a bind nor an error. |
| Resolver.SecretBindsErrorAsWritten | internal/adapter/converter/pod.go:405-408 | As written, the secret branch's bind error takes its name from the config-map reference. That reference is nil on the branch, so no error value can be built. |
| Resolver.HandleVolumeSourceAsWritten | internal/adapter/converter/pod.go:383-419 | handleVolumeSource as written, with None for the nil dereference. For every input it panics exactly when the volume has no config map, has a secret, the secret exists and its binds are unavailable. On every other input it equals the corrected HandleVolumeSource. |
| Resolver.SecretBindsErrorPanics | internal/adapter/converter/pod.go:399-408 | For a secret volume whose secret exists without binds, the as-written function panics. The corrected HandleVolumeSource reports BindsUnavailable naming the secret. |

## Left out

- Store I/O: how the stores read config maps and secrets from disk, their locking, and how bind
  maps are produced. The model states only which lookups succeed (internal/adapter/store is
  otherwise not part of this model).
- `nat.NewPort`'s parsing rules: an injected predicate stands in for them. Which
  protocol/port strings it rejects is not modelled.
- `resource.Quantity` parsing: each quantity is given as its int64 milli-value and value.
- Time: `time.Unix(created, 0)` is modelled as the seconds value itself.
- Paths.JoinPath: agrees with `path.Join` only for a clean directory (optionally ending in '/')
  and a non-empty relative name with no leading or trailing '/'. `path.Join` also cleans its
  result, which the model does not. So `JoinPath("/a/", "")` is "/a/" where Go gives "/a",
  `JoinPath("/a", "/b")` is "/a//b" where Go gives "/a/b", and `..`, `.` and repeated slashes
  are kept. A service-account mapping with an empty relative name would therefore end in
  ".../serviceaccount/" here and in ".../serviceaccount" in Go.
- Go map iteration order: unspecified, so no contract fixes the order of map-derived entries.
  The model's enumeration is chosen once per map value, so two ranges over the same map within
  one conversion enumerate it in the same order. Go may choose a new order on each range. No
  contract depends on this, since each only says "some enumeration".
- Error message text: errors are modelled by kind and resource name only.
- The container labels passed through in the forward direction are modelled, but the
  last-applied-configuration annotation of the reverse direction is not, and neither is the
  Docker network attachment (`NetworkConfig`). Both need constants from packages outside this
  model.
- The service-account secret's name and the network name are constants of a package that is
  not part of this model. The secret's name is a field of `Converter.DockerAPIConverter`.
- The `Prefix` of an env-from source, the field and resource-field references of an env var,
  and volume kinds other than config map, secret and host path. The source ignores all of
  them, and so does the model.
- Port numbers are unbounded integers. The source converts int32 to int without arithmetic, so
  no wrap-around can occur.
- `spec.Containers[0]` and `container.Names[0]` panic on an empty list in the source. The
  model requires a non-empty list.
- Resolver.DataEntries: does not state which order the entries come in, because Go leaves the
  iteration order unspecified.
- Resolver.ResourceBinds: does not state the order of the binds, for the same reason.
- Resolver.ServiceAccountBinds: does not state the order of the binds, for the same reason.

## Findings

| source | as written | input that shows it | evidently intended | confidence | as-written member | corrected member |
|---|---|---|---|---|---|---|
| internal/adapter/converter/pod.go:405-408 | the secret branch of handleVolumeSource builds its bind-lookup error from `volume.VolumeSource.ConfigMap.Name`; ConfigMap is nil on that branch | a secret volume, mounted, whose secret exists but whose binds cannot be produced | an error naming the secret (`Secret.SecretName`) | high; not executed | Resolver.HandleVolumeSourceAsWritten | Resolver.HandleVolumeSource |
