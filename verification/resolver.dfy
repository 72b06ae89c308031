/**
 * The reference resolver: environment variables and bind mounts whose content comes from
 * config maps and secrets in the store, and the service-account credentials every container
 * receives.
 */
module Resolver {
  import opened Wrappers
  import opened GoMaps
  import opened Paths
  import opened Kube
  import opened Docker
  import opened Store

  /** Appends the entries of two steps run in order; the first failure wins. */
  function Then(a: Result<seq<string>, Error>, b: Result<seq<string>, Error>): (r: Result<seq<string>, Error>)
    ensures a.Failure? ==> r == a
    ensures a.Success? && b.Failure? ==> r == b
    ensures r.Success? <==> a.Success? && b.Success?
    ensures r.Success? ==> r.value == a.value + b.value
  {
    var x :- a;
    var y :- b;
    Success(x + y)
  }

  lemma ThenAssociative(a: Result<seq<string>, Error>, b: Result<seq<string>, Error>, c: Result<seq<string>, Error>)
    ensures Then(Then(a, b), c) == Then(a, Then(b, c))
  {
    if a.Success? && b.Success? && c.Success? {
      assert (a.value + b.value) + c.value == a.value + (b.value + c.value);
    }
  }

  lemma ThenEmptyLeft(b: Result<seq<string>, Error>)
    ensures Then(Success([]), b) == b
  {
    if b.Success? {
      assert [] + b.value == b.value;
    }
  }

  /**
   * The shape shared by the loops of setEnvVars and setVolumeMounts: run a step on each element
   * in order, append the entries each step produces, and abort at the first failure.
   */
  ghost function RunAll<T>(xs: seq<T>, step: T -> Result<seq<string>, Error>): (r: Result<seq<string>, Error>)
    ensures r.Success? <==> forall i :: 0 <= i < |xs| ==> step(xs[i]).Success?
    decreases |xs|
  {
    if |xs| == 0 then Success([])
    else
      var r := Then(step(xs[0]), RunAll(xs[1..], step));
      assert forall i :: 1 <= i < |xs| ==> xs[1..][i - 1] == xs[i];
      r
  }

  /** Running a list is running its two halves one after the other. */
  lemma {:induction false} RunAllAppend<T>(a: seq<T>, b: seq<T>, step: T -> Result<seq<string>, Error>)
    ensures RunAll(a + b, step) == Then(RunAll(a, step), RunAll(b, step))
    decreases |a|
  {
    if |a| > 0 {
      assert (a + b)[0] == a[0];
      assert (a + b)[1..] == a[1..] + b;
      RunAllAppend(a[1..], b, step);
      ThenAssociative(step(a[0]), RunAll(a[1..], step), RunAll(b, step));
    } else {
      assert a + b == b;
      ThenEmptyLeft(RunAll(b, step));
    }
  }

  /** A failure is exactly the failure of the first element whose step fails. */
  lemma {:induction false} RunAllFirstError<T>(xs: seq<T>, step: T -> Result<seq<string>, Error>)
    requires RunAll(xs, step).Failure?
    ensures exists i :: && 0 <= i < |xs| && step(xs[i]).Failure? && RunAll(xs, step) == step(xs[i])
                        && forall j :: 0 <= j < i ==> step(xs[j]).Success?
    decreases |xs|
  {
    var rest := xs[1..];
    if step(xs[0]).Success? {
      RunAllFirstError(rest, step);
      var i :| && 0 <= i < |rest| && step(rest[i]).Failure? && RunAll(rest, step) == step(rest[i])
               && forall j :: 0 <= j < i ==> step(rest[j]).Success?;
      assert rest[i] == xs[i + 1];
      assert forall j :: 1 <= j < i + 1 ==> xs[j] == rest[j - 1];
    }
  }

  /** Steps that agree on every element give the same run. */
  lemma {:induction false} RunAllCongruent<T>(xs: seq<T>, f: T -> Result<seq<string>, Error>, g: T -> Result<seq<string>, Error>)
    requires forall i :: 0 <= i < |xs| ==> f(xs[i]) == g(xs[i])
    ensures RunAll(xs, f) == RunAll(xs, g)
    decreases |xs|
  {
    if |xs| > 0 {
      assert forall i :: 0 <= i < |xs| - 1 ==> xs[1..][i] == xs[i + 1];
      RunAllCongruent(xs[1..], f, g);
    }
  }

  // ---------------------------------------------------------------- formatting map entries

  /** A "NAME=VALUE" environment entry. */
  function EnvEntry(name: string, value: string): string {
    name + "=" + value
  }

  /** One "KEY=VALUE" entry per key of the data, in the order the map is ranged over. */
  ghost function DataEntries(data: Data): (r: seq<string>)
    ensures |r| == |data|
    ensures CollectedFrom(r, data, EnvEntry)
    ensures forall k :: k in data ==> EnvEntry(k, data[k]) in r
    ensures forall i :: 0 <= i < |r| ==> exists k :: k in data && r[i] == EnvEntry(k, data[k])
  {
    CollectEntries(data, EnvEntry)
  }

  /** The bind entry "<hostPath>:<join(mountPath, relative)>" of one mapping. */
  function BindEntry(mountPath: string): (string, string) -> string {
    (rel, host) => BindSpec(host, JoinPath(mountPath, rel))
  }

  /**
   * One bind entry "<hostPath>:<join(mountPath, relative)>" per mapping of a resource, in the
   * order the bind map is ranged over.
   */
  ghost function ResourceBinds(binds: Binds, mountPath: string): (r: seq<string>)
    ensures |r| == |binds|
    ensures CollectedFrom(r, binds, BindEntry(mountPath))
    ensures forall rel :: rel in binds ==> BindSpec(binds[rel], JoinPath(mountPath, rel)) in r
    ensures forall i :: 0 <= i < |r| ==> exists rel :: rel in binds && r[i] == BindSpec(binds[rel], JoinPath(mountPath, rel))
  {
    CollectEntries(binds, BindEntry(mountPath))
  }

  // ---------------------------------------------------------------- service account

  const ServiceAccountMountRoot: string := "/var/run/secrets/kubernetes.io/serviceaccount/"

  /**
   * setServiceAccountTokenAndCACert: the binds of the service-account secret, each anchored
   * under the service-account mount root.
   */
  ghost function ServiceAccountBinds(s: Store, secretName: string): (r: Result<seq<string>, Error>)
    ensures secretName !in s.secrets ==> r == Failure(NotFound(SecretKind, secretName))
    ensures secretName in s.secrets && secretName !in s.secretBinds ==> r == Failure(BindsUnavailable(SecretKind, secretName))
    ensures r.Success? <==> secretName in s.secrets && secretName in s.secretBinds
    ensures r.Success? ==> CollectedFrom(r.value, s.secretBinds[secretName], BindEntry(ServiceAccountMountRoot))
    ensures r.Success? ==>
              && |r.value| == |s.secretBinds[secretName]|
              && forall rel :: rel in s.secretBinds[secretName] ==>
                                 BindSpec(s.secretBinds[secretName][rel], ServiceAccountMountRoot + rel) in r.value
    ensures r.Success? ==>
              forall i :: 0 <= i < |r.value| ==>
                            exists rel :: && rel in s.secretBinds[secretName]
                                          && r.value[i] == BindSpec(s.secretBinds[secretName][rel], ServiceAccountMountRoot + rel)
  {
    var _ :- s.Get(SecretKind, secretName);
    var binds :- s.GetBinds(SecretKind, secretName);
    Success(ResourceBinds(binds, ServiceAccountMountRoot))
  }

  // ---------------------------------------------------------------- environment

  /** The lookups an environment variable needs all succeed. */
  predicate EnvVarResolvable(s: Store, e: EnvVar) {
    match e.valueFrom
    case None => true
    case Some(src) =>
      if src.configMapKeyRef.Some? then src.configMapKeyRef.value.name in s.configMaps
      else if src.secretKeyRef.Some? then src.secretKeyRef.value.name in s.secrets
      else true
  }

  /** handleValueFromEnvVars, and the literal branch of setEnvVars, for one variable. */
  function ResolveEnvVar(s: Store, e: EnvVar): (r: Result<seq<string>, Error>)
    ensures r.Success? <==> EnvVarResolvable(s, e)
    ensures e.valueFrom.None? ==> r == Success([EnvEntry(e.name, e.value)])
    ensures e.valueFrom.Some? && e.valueFrom.value.configMapKeyRef.Some? ==>
              var ref := e.valueFrom.value.configMapKeyRef.value;
              r == if ref.name in s.configMaps
                   then Success([EnvEntry(e.name, IndexOrEmpty(s.configMaps[ref.name], ref.key))])
                   else Failure(NotFound(ConfigMapKind, ref.name))
    ensures e.valueFrom.Some? && e.valueFrom.value.configMapKeyRef.None? && e.valueFrom.value.secretKeyRef.Some? ==>
              var ref := e.valueFrom.value.secretKeyRef.value;
              r == if ref.name in s.secrets
                   then Success([EnvEntry(e.name, IndexOrEmpty(s.secrets[ref.name], ref.key))])
                   else Failure(NotFound(SecretKind, ref.name))
    ensures e.valueFrom.Some? && e.valueFrom.value.configMapKeyRef.None? && e.valueFrom.value.secretKeyRef.None? ==>
              r == Success([])
  {
    match e.valueFrom
    case None => Success([EnvEntry(e.name, e.value)])
    case Some(src) =>
      if src.configMapKeyRef.Some? then
        var data :- s.Get(ConfigMapKind, src.configMapKeyRef.value.name);
        Success([EnvEntry(e.name, IndexOrEmpty(data, src.configMapKeyRef.value.key))])
      else if src.secretKeyRef.Some? then
        var data :- s.Get(SecretKind, src.secretKeyRef.value.name);
        Success([EnvEntry(e.name, IndexOrEmpty(data, src.secretKeyRef.value.key))])
      else
        Success([])
  }

  /** The first loop of setEnvVars: the variables in input order; the first failed lookup aborts. */
  ghost function ResolveEnv(s: Store, envs: seq<EnvVar>): (r: Result<seq<string>, Error>)
    ensures r.Success? <==> forall i :: 0 <= i < |envs| ==> EnvVarResolvable(s, envs[i])
  {
    RunAll(envs, e => ResolveEnvVar(s, e))
  }

  /** A failure reports the missing resource of the first variable whose lookup fails. */
  lemma ResolveEnvFirstError(s: Store, envs: seq<EnvVar>)
    requires ResolveEnv(s, envs).Failure?
    ensures exists i :: && 0 <= i < |envs| && !EnvVarResolvable(s, envs[i])
                        && ResolveEnv(s, envs) == ResolveEnvVar(s, envs[i])
                        && forall j :: 0 <= j < i ==> EnvVarResolvable(s, envs[j])
  {
    RunAllFirstError(envs, e => ResolveEnvVar(s, e));
  }

  /** Entries keep input order: resolving a list is resolving its halves one after the other. */
  lemma ResolveEnvAppend(s: Store, a: seq<EnvVar>, b: seq<EnvVar>)
    ensures ResolveEnv(s, a + b) == Then(ResolveEnv(s, a), ResolveEnv(s, b))
  {
    RunAllAppend(a, b, e => ResolveEnvVar(s, e));
  }

  /** Without indirect references every variable becomes "NAME=VALUE", in input order. */
  lemma {:induction false} ResolveEnvLiterals(s: Store, envs: seq<EnvVar>)
    requires forall i :: 0 <= i < |envs| ==> envs[i].valueFrom.None?
    ensures ResolveEnv(s, envs).Success?
    ensures |ResolveEnv(s, envs).value| == |envs|
    ensures forall i :: 0 <= i < |envs| ==> ResolveEnv(s, envs).value[i] == EnvEntry(envs[i].name, envs[i].value)
    decreases |envs|
  {
    if |envs| > 0 {
      ResolveEnvLiterals(s, envs[1..]);
      var rest := ResolveEnv(s, envs[1..]).value;
      assert ResolveEnv(s, envs).value == [EnvEntry(envs[0].name, envs[0].value)] + rest;
    }
  }

  /** The lookup an env-from entry needs succeeds. */
  predicate EnvFromResolvable(s: Store, f: EnvFromSource) {
    if f.configMapRef.Some? then f.configMapRef.value in s.configMaps
    else if f.secretRef.Some? then f.secretRef.value in s.secrets
    else true
  }

  /** handleValueFromEnvFromSource: every key of the referenced config map or secret. */
  ghost function ExpandEnvFrom(s: Store, f: EnvFromSource): (r: Result<seq<string>, Error>)
    ensures r.Success? <==> EnvFromResolvable(s, f)
    ensures f.configMapRef.Some? && f.configMapRef.value !in s.configMaps ==>
              r == Failure(NotFound(ConfigMapKind, f.configMapRef.value))
    ensures f.configMapRef.None? && f.secretRef.Some? && f.secretRef.value !in s.secrets ==>
              r == Failure(NotFound(SecretKind, f.secretRef.value))
    ensures f.configMapRef.None? && f.secretRef.None? ==> r == Success([])
    ensures r.Success? && f.configMapRef.Some? ==> r.value == DataEntries(s.configMaps[f.configMapRef.value])
    ensures r.Success? && f.configMapRef.None? && f.secretRef.Some? ==> r.value == DataEntries(s.secrets[f.secretRef.value])
  {
    if f.configMapRef.Some? then
      var data :- s.Get(ConfigMapKind, f.configMapRef.value);
      Success(DataEntries(data))
    else if f.secretRef.Some? then
      var data :- s.Get(SecretKind, f.secretRef.value);
      Success(DataEntries(data))
    else
      Success([])
  }

  /** The second loop of setEnvVars, over the env-from entries in input order. */
  ghost function ExpandEnvFroms(s: Store, froms: seq<EnvFromSource>): (r: Result<seq<string>, Error>)
    ensures r.Success? <==> forall i :: 0 <= i < |froms| ==> EnvFromResolvable(s, froms[i])
  {
    RunAll(froms, f => ExpandEnvFrom(s, f))
  }

  /** Expanding a list is expanding its two halves one after the other. */
  lemma ExpandEnvFromsAppend(s: Store, a: seq<EnvFromSource>, b: seq<EnvFromSource>)
    ensures ExpandEnvFroms(s, a + b) == Then(ExpandEnvFroms(s, a), ExpandEnvFroms(s, b))
  {
    RunAllAppend(a, b, f => ExpandEnvFrom(s, f));
  }

  /** setEnvVars: the resolved variables, then the expanded env-from entries. */
  ghost function EnvVars(s: Store, envs: seq<EnvVar>, froms: seq<EnvFromSource>): (r: Result<seq<string>, Error>)
    ensures r.Success? <==>
              && (forall i :: 0 <= i < |envs| ==> EnvVarResolvable(s, envs[i]))
              && (forall i :: 0 <= i < |froms| ==> EnvFromResolvable(s, froms[i]))
    ensures ResolveEnv(s, envs).Failure? ==> r == ResolveEnv(s, envs)
    ensures r.Success? ==>
              && |ResolveEnv(s, envs).value| <= |r.value|
              && r.value[..|ResolveEnv(s, envs).value|] == ResolveEnv(s, envs).value
              && r.value[|ResolveEnv(s, envs).value|..] == ExpandEnvFroms(s, froms).value
  {
    Then(ResolveEnv(s, envs), ExpandEnvFroms(s, froms))
  }

  // ---------------------------------------------------------------- volumes

  /** The first mount with the given name: the inner loop of setVolumeMounts breaks there. */
  function FirstMount(mounts: seq<VolumeMount>, name: string): (r: Option<VolumeMount>)
    ensures r.None? <==> forall i :: 0 <= i < |mounts| ==> mounts[i].name != name
    ensures r.Some? ==>
              exists i :: && 0 <= i < |mounts| && mounts[i] == r.value && mounts[i].name == name
                          && forall j :: 0 <= j < i ==> mounts[j].name != name
    decreases |mounts|
  {
    if |mounts| == 0 then None
    else if mounts[0].name == name then Some(mounts[0])
    else
      var r := FirstMount(mounts[1..], name);
      assert forall i :: 1 <= i < |mounts| ==> mounts[1..][i - 1] == mounts[i];
      r
  }

  /** The store resource behind a volume, if any: a config map is tried before a secret. */
  function StoreSource(src: VolumeSource): Option<(Kind, string)> {
    if src.configMap.Some? then Some((ConfigMapKind, src.configMap.value))
    else if src.secret.Some? then Some((SecretKind, src.secret.value))
    else None
  }

  /** The lookups a volume bound at a mount needs all succeed. */
  predicate VolumeSourceResolvable(s: Store, src: VolumeSource) {
    match StoreSource(src)
    case None => true
    case Some((kind, name)) => name in s.Resources(kind) && name in s.BindMaps(kind)
  }

  /** handleVolumeSource: the binds of one volume at one mount. */
  ghost function HandleVolumeSource(s: Store, v: Volume, m: VolumeMount): (r: Result<seq<string>, Error>)
    ensures r.Success? <==> VolumeSourceResolvable(s, v.source)
    ensures StoreSource(v.source).Some? ==>
              var (kind, name) := StoreSource(v.source).value;
              && (name !in s.Resources(kind) ==> r == Failure(NotFound(kind, name)))
              && (name in s.Resources(kind) && name !in s.BindMaps(kind) ==> r == Failure(BindsUnavailable(kind, name)))
              && (r.Success? ==> r.value == ResourceBinds(s.BindMaps(kind)[name], m.mountPath))
    ensures StoreSource(v.source).None? && v.source.hostPath.Some? ==>
              r == Success([BindSpec(v.source.hostPath.value, m.mountPath)])
    ensures StoreSource(v.source).None? && v.source.hostPath.None? ==> r == Success([])
  {
    if v.source.configMap.Some? then
      var _ :- s.Get(ConfigMapKind, v.source.configMap.value);
      var binds :- s.GetBinds(ConfigMapKind, v.source.configMap.value);
      Success(ResourceBinds(binds, m.mountPath))
    else if v.source.secret.Some? then
      var _ :- s.Get(SecretKind, v.source.secret.value);
      var binds :- s.GetBinds(SecretKind, v.source.secret.value);
      Success(ResourceBinds(binds, m.mountPath))
    else if v.source.hostPath.Some? then
      Success([BindSpec(v.source.hostPath.value, m.mountPath)])
    else
      Success([])
  }

  /** A volume is bound without error: it has no mount, or its lookups succeed. */
  predicate VolumeResolvable(s: Store, v: Volume, mounts: seq<VolumeMount>) {
    FirstMount(mounts, v.name).None? || VolumeSourceResolvable(s, v.source)
  }

  /** The binds one volume contributes: none when no mount carries its name. */
  ghost function VolumeBind(s: Store, v: Volume, mounts: seq<VolumeMount>): (r: Result<seq<string>, Error>)
    ensures r.Success? <==> VolumeResolvable(s, v, mounts)
  {
    match FirstMount(mounts, v.name)
    case None => Success([])
    case Some(m) => HandleVolumeSource(s, v, m)
  }

  /**
   * setVolumeMounts: volumes in declaration order (outer loop), each bound at its first
   * same-named mount (inner loop); the first failure aborts.
   */
  ghost function VolumeBinds(s: Store, volumes: seq<Volume>, mounts: seq<VolumeMount>): (r: Result<seq<string>, Error>)
    ensures r.Success? <==> forall i :: 0 <= i < |volumes| ==> VolumeResolvable(s, volumes[i], mounts)
  {
    RunAll(volumes, v => VolumeBind(s, v, mounts))
  }

  /** A failure is the failure of the first mounted volume whose lookups fail. */
  lemma VolumeBindsFirstError(s: Store, volumes: seq<Volume>, mounts: seq<VolumeMount>)
    requires VolumeBinds(s, volumes, mounts).Failure?
    ensures exists i :: && 0 <= i < |volumes| && !VolumeResolvable(s, volumes[i], mounts)
                        && VolumeBinds(s, volumes, mounts) == VolumeBind(s, volumes[i], mounts)
                        && forall j :: 0 <= j < i ==> VolumeResolvable(s, volumes[j], mounts)
  {
    RunAllFirstError(volumes, v => VolumeBind(s, v, mounts));
  }

  /** Binds follow volume order: binding a list is binding its halves one after the other. */
  lemma VolumeBindsAppend(s: Store, a: seq<Volume>, b: seq<Volume>, mounts: seq<VolumeMount>)
    ensures VolumeBinds(s, a + b, mounts) == Then(VolumeBinds(s, a, mounts), VolumeBinds(s, b, mounts))
  {
    RunAllAppend(a, b, v => VolumeBind(s, v, mounts));
  }

  /** A volume that no mount names contributes no bind and no error, wherever it is declared. */
  lemma VolumeBindsSkipsUnmounted(s: Store, a: seq<Volume>, v: Volume, b: seq<Volume>, mounts: seq<VolumeMount>)
    requires forall i :: 0 <= i < |mounts| ==> mounts[i].name != v.name
    ensures VolumeBinds(s, a + [v] + b, mounts) == VolumeBinds(s, a + b, mounts)
  {
    VolumeBindsAppend(s, a + [v], b, mounts);
    VolumeBindsAppend(s, a, [v], mounts);
    VolumeBindsAppend(s, a, b, mounts);
    assert VolumeBinds(s, [v], mounts) == Success([]) by {
      var step := u => VolumeBind(s, u, mounts);
      assert step(v) == Success([]);
      assert [v][1..] == [];
      assert RunAll([v], step) == Then(step(v), RunAll([], step));
    }
    var x := VolumeBinds(s, a, mounts);
    if x.Success? {
      assert x.value + [] == x.value;
    }
    assert Then(x, Success([])) == x;
  }

  /** A mount whose name an earlier mount already carries is never consulted. */
  lemma {:induction false} FirstMountIgnoresShadowed(mounts: seq<VolumeMount>, i: int, j: int, name: string)
    requires 0 <= i < j < |mounts|
    requires mounts[i].name == mounts[j].name
    ensures FirstMount(mounts[..j] + mounts[j + 1..], name) == FirstMount(mounts, name)
    decreases |mounts|
  {
    var rest := mounts[..j] + mounts[j + 1..];
    if mounts[0].name != name {
      if j > 0 {
        assert rest[0] == mounts[0];
        assert rest[1..] == mounts[1..][..j - 1] + mounts[1..][j..];
        if i > 0 {
          assert mounts[1..][i - 1].name == mounts[1..][j - 1].name;
          FirstMountIgnoresShadowed(mounts[1..], i - 1, j - 1, name);
        } else {
          // mounts[0] carries the shadowed name, which is not the name looked up
          assert mounts[j].name != name;
          FirstMountSkips(mounts[1..], j - 1, name);
        }
      }
    } else {
      assert rest[0] == mounts[0];
    }
  }

  /** Removing a mount of another name does not change the first match. */
  lemma {:induction false} FirstMountSkips(mounts: seq<VolumeMount>, j: int, name: string)
    requires 0 <= j < |mounts|
    requires mounts[j].name != name
    ensures FirstMount(mounts[..j] + mounts[j + 1..], name) == FirstMount(mounts, name)
    decreases |mounts|
  {
    var rest := mounts[..j] + mounts[j + 1..];
    if j == 0 {
      assert rest == mounts[1..];
    } else {
      assert rest[0] == mounts[0];
      if mounts[0].name != name {
        assert rest[1..] == mounts[1..][..j - 1] + mounts[1..][j..];
        FirstMountSkips(mounts[1..], j - 1, name);
      }
    }
  }

  /** With duplicate mount names, only the first such mount is ever bound. */
  lemma VolumeBindsIgnoreShadowedMount(s: Store, volumes: seq<Volume>, mounts: seq<VolumeMount>, i: int, j: int)
    requires 0 <= i < j < |mounts|
    requires mounts[i].name == mounts[j].name
    ensures VolumeBinds(s, volumes, mounts[..j] + mounts[j + 1..]) == VolumeBinds(s, volumes, mounts)
  {
    var rest := mounts[..j] + mounts[j + 1..];
    forall k | 0 <= k < |volumes|
      ensures VolumeBind(s, volumes[k], rest) == VolumeBind(s, volumes[k], mounts)
    {
      FirstMountIgnoresShadowed(mounts, i, j, volumes[k].name);
    }
    RunAllCongruent(volumes, v => VolumeBind(s, v, rest), v => VolumeBind(s, v, mounts));
  }

  /** A mount naming no volume contributes no bind and no error. */
  lemma VolumeBindsIgnoreOrphanMount(s: Store, volumes: seq<Volume>, mounts: seq<VolumeMount>, j: int)
    requires 0 <= j < |mounts|
    requires forall k :: 0 <= k < |volumes| ==> volumes[k].name != mounts[j].name
    ensures VolumeBinds(s, volumes, mounts[..j] + mounts[j + 1..]) == VolumeBinds(s, volumes, mounts)
  {
    var rest := mounts[..j] + mounts[j + 1..];
    forall k | 0 <= k < |volumes|
      ensures VolumeBind(s, volumes[k], rest) == VolumeBind(s, volumes[k], mounts)
    {
      FirstMountSkips(mounts, j, volumes[k].name);
    }
    RunAllCongruent(volumes, v => VolumeBind(s, v, rest), v => VolumeBind(s, v, mounts));
  }

  // ---------------------------------------------------------------- the secret-volume error report

  /**
   * The error the secret branch of handleVolumeSource builds when the bind lookup fails, as the
   * branch is written: it names the volume's config-map reference, which is nil on that branch.
   * None stands for the resulting nil-pointer dereference.
   */
  function SecretBindsErrorAsWritten(src: VolumeSource): (r: Option<Error>)
    requires src.secret.Some?
    ensures r.Some? <==> src.configMap.Some?
    ensures r.Some? ==> r.value == BindsUnavailable(SecretKind, src.configMap.value)
  {
    match src.configMap
    case Some(name) => Some(BindsUnavailable(SecretKind, name))
    case None => None
  }

  /**
   * handleVolumeSource as written, with None for the nil dereference of the secret branch's
   * error report. It agrees with the corrected HandleVolumeSource except exactly when a secret
   * volume's secret exists but its binds cannot be produced.
   */
  ghost function HandleVolumeSourceAsWritten(s: Store, v: Volume, m: VolumeMount): (r: Option<Result<seq<string>, Error>>)
    ensures r.None? <==>
              && v.source.configMap.None? && v.source.secret.Some?
              && v.source.secret.value in s.secrets && v.source.secret.value !in s.secretBinds
    ensures r.Some? ==> r.value == HandleVolumeSource(s, v, m)
  {
    if v.source.configMap.Some? then
      Some(HandleVolumeSource(s, v, m))
    else if v.source.secret.Some? then
      var name := v.source.secret.value;
      if name in s.secrets && name !in s.secretBinds then
        match SecretBindsErrorAsWritten(v.source)
        case None => None
        case Some(err) => Some(Failure(err))
      else
        Some(HandleVolumeSource(s, v, m))
    else
      Some(HandleVolumeSource(s, v, m))
  }

  /**
   * A secret volume whose secret exists but whose binds cannot be produced: as written, the
   * branch dereferences nil; the corrected HandleVolumeSource reports the secret's name.
   */
  lemma SecretBindsErrorPanics()
    ensures var src := VolumeSource(None, Some("credentials"), None);
            var s := Store(map[], map["credentials" := map[]], map[], map[]);
            var v := Volume("creds", src);
            var m := VolumeMount("creds", "/etc/creds");
            && StoreSource(src) == Some((SecretKind, "credentials"))
            && SecretBindsErrorAsWritten(src) == None
            && HandleVolumeSourceAsWritten(s, v, m) == None
            && HandleVolumeSource(s, v, m) == Failure(BindsUnavailable(SecretKind, "credentials"))
  {
  }

}
