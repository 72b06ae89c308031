/**
 * The read-only view of the config-map and secret stores the converter is given. A name that
 * is absent from a map is a lookup that fails.
 */
module Store {
  import opened Wrappers

  datatype Kind = ConfigMapKind | SecretKind

  /** The conversion errors; their message text is not modelled. */
  datatype Error =
    | NotFound(kind: Kind, name: string)
    | BindsUnavailable(kind: Kind, name: string)
    | PortParseFailure(protocol: string, port: string)

  /** The key-value data of a config map or secret. */
  type Data = map<string, string>

  /** Bind mappings of a resource: resource-relative path to host path. */
  type Binds = map<string, string>

  datatype Store = Store(
    configMaps: map<string, Data>,
    secrets: map<string, Data>,
    configMapBinds: map<string, Binds>,
    secretBinds: map<string, Binds>)
  {
    function Resources(kind: Kind): map<string, Data> {
      match kind
      case ConfigMapKind => configMaps
      case SecretKind => secrets
    }

    function BindMaps(kind: Kind): map<string, Binds> {
      match kind
      case ConfigMapKind => configMapBinds
      case SecretKind => secretBinds
    }

    /** GetConfigMap / GetSecret. */
    function Get(kind: Kind, name: string): Result<Data, Error> {
      if name in Resources(kind) then Success(Resources(kind)[name]) else Failure(NotFound(kind, name))
    }

    /** GetConfigMapBinds / GetSecretBinds, for the resource of that name. */
    function GetBinds(kind: Kind, name: string): Result<Binds, Error> {
      if name in BindMaps(kind) then Success(BindMaps(kind)[name]) else Failure(BindsUnavailable(kind, name))
    }
  }
}
