/**
 * backend/src/config.ts: `getEnvVar` and the `CONFIG` object it fills from
 * the process environment (an input here; loading the .env file is I/O).
 */
module Config {
  import opened Wrappers
  import opened Types

  /** The process environment. */
  type Env = map<string, string>

  const ModuleName: string := "vote"
  const DefaultSuiNetwork: string := "testnet"
  const DefaultSuiRpcUrl: string := "https://fullnode.testnet.sui.io:443"
  const DefaultPort: string := "3001"
  const DefaultPollingIntervalMs: string := "5000"

  const MissingVarPrefix: string := "Missing required environment variable: "

  /** The value of `name` in the environment, `undefined` when unset. */
  function EnvValue(env: Env, name: string): Option<string> {
    if name in env then Some(env[name]) else None
  }

  /** The message of the error thrown for a missing variable; the variable's name can be read back from it. */
  function MissingVarMessage(name: string): (msg: string)
    ensures |msg| == |MissingVarPrefix| + |name|
    ensures msg[|MissingVarPrefix|..] == name
  {
    MissingVarPrefix + name
  }

  /**
   * `getEnvVar(name, defaultValue?)`: a non-empty environment value wins,
   * otherwise the default; when neither is a non-empty string it throws, and
   * the message names the variable.
   */
  function GetEnvVar(env: Env, name: string, defaultValue: Option<string>): (r: Result<string, string>)
    ensures r.Success? ==> r.value != ""
    ensures Truthy(EnvValue(env, name)) ==> r == Success(env[name])
    ensures !Truthy(EnvValue(env, name)) && Truthy(defaultValue) ==> r == Success(defaultValue.value)
    ensures r.Failure? <==> !Truthy(EnvValue(env, name)) && !Truthy(defaultValue)
    ensures r.Failure? ==> r.error == MissingVarMessage(name)
  {
    var value := if Truthy(EnvValue(env, name)) then EnvValue(env, name) else defaultValue;
    if !Truthy(value) then Failure(MissingVarMessage(name)) else Success(value.value)
  }

  /**
   * The `CONFIG` object. `PORT` and `POLLING_INTERVAL_MS` are kept as the
   * text handed to `parseInt`.
   */
  datatype AppConfig = AppConfig(
    databaseUrl: string,
    suiNetwork: string,
    suiRpcUrl: string,
    packageId: string,
    moduleName: string,
    port: string,
    pollingIntervalMs: string)

  /** The value `getEnvVar` gives a variable with a default: the environment's when non-empty. */
  function OrDefault(env: Env, name: string, default: string): string {
    if Truthy(EnvValue(env, name)) then env[name] else default
  }

  /**
   * Building `CONFIG`, entries in declaration order: the first entry whose
   * `getEnvVar` throws aborts the load. Only `DATABASE_URL` and `PACKAGE_ID`
   * have no default, so exactly they are required.
   */
  function LoadConfig(env: Env): (r: Result<AppConfig, string>)
    ensures r.Success? <==> Truthy(EnvValue(env, "DATABASE_URL")) && Truthy(EnvValue(env, "PACKAGE_ID"))
    ensures !Truthy(EnvValue(env, "DATABASE_URL")) ==> r == Failure(MissingVarMessage("DATABASE_URL"))
    ensures Truthy(EnvValue(env, "DATABASE_URL")) && !Truthy(EnvValue(env, "PACKAGE_ID")) ==>
      r == Failure(MissingVarMessage("PACKAGE_ID"))
    ensures r.Success? ==>
      && r.value.databaseUrl == env["DATABASE_URL"]
      && r.value.packageId == env["PACKAGE_ID"]
      && r.value.moduleName == "vote"
      && r.value.suiNetwork == OrDefault(env, "SUI_NETWORK", "testnet")
      && r.value.suiRpcUrl == OrDefault(env, "SUI_RPC_URL", "https://fullnode.testnet.sui.io:443")
      && r.value.port == OrDefault(env, "PORT", "3001")
      && r.value.pollingIntervalMs == OrDefault(env, "POLLING_INTERVAL_MS", "5000")
  {
    var databaseUrl :- GetEnvVar(env, "DATABASE_URL", None);
    // entries with a non-empty default cannot throw
    var suiNetwork := GetEnvVar(env, "SUI_NETWORK", Some(DefaultSuiNetwork)).value;
    var suiRpcUrl := GetEnvVar(env, "SUI_RPC_URL", Some(DefaultSuiRpcUrl)).value;
    var packageId :- GetEnvVar(env, "PACKAGE_ID", None);
    var port := GetEnvVar(env, "PORT", Some(DefaultPort)).value;
    var pollingIntervalMs := GetEnvVar(env, "POLLING_INTERVAL_MS", Some(DefaultPollingIntervalMs)).value;
    Success(AppConfig(databaseUrl, suiNetwork, suiRpcUrl, packageId, ModuleName, port, pollingIntervalMs))
  }
}
