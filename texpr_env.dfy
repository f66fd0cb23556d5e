/**
 * The publish configuration read from the process environment
 * (src/texpr/texpr_env.py). The environment is an explicit map from
 * variable names to values; `os.getenv` becomes a lookup in it and a
 * raised `ValueError` becomes an `Err` result.
 */
module TexprEnv {
  import opened Wrappers

  type Env = map<string, string>

  const ApiRootVar: string := "TEXTPRESS_API_ROOT"
  const ApiKeyVar: string := "TEXTPRESS_API_KEY"

  /** The `ValueError` raised when a required variable is missing or empty. */
  datatype ConfigError = NotSet(variable: string)

  /** The text of the raised error: the variable's name comes first. */
  function Message(e: ConfigError): (m: string)
    ensures |m| > |e.variable| && m[..|e.variable|] == e.variable
  {
    e.variable + " environment variable not set."
  }

  /** `os.getenv(name)`: the value, or `None` when the variable is unset. */
  function Getenv(env: Env, name: string): (v: Option<string>)
    ensures v.Some? <==> name in env
    ensures v.Some? ==> v.value == env[name]
  {
    if name in env then Some(env[name]) else None
  }

  /** Python truthiness of an `Optional[str]`: `None` and `""` are false. */
  predicate Truthy(v: Option<string>) {
    v.Some? && v.value != ""
  }

  /** `get_api_root()`: the publish API's base URL. */
  function GetApiRoot(env: Env): (r: Result<string, ConfigError>)
    ensures r.Ok? <==> ApiRootVar in env && env[ApiRootVar] != ""
    ensures r.Ok? ==> r.value == env[ApiRootVar] && r.value != ""
    ensures r.Err? ==> r.error == NotSet(ApiRootVar)
  {
    var apiRoot := Getenv(env, ApiRootVar);
    if !Truthy(apiRoot) then Err(NotSet(ApiRootVar)) else Ok(apiRoot.value)
  }

  /** `get_api_key()`: the bearer credential for the publish API. */
  function GetApiKey(env: Env): (r: Result<string, ConfigError>)
    ensures r.Ok? <==> ApiKeyVar in env && env[ApiKeyVar] != ""
    ensures r.Ok? ==> r.value == env[ApiKeyVar] && r.value != ""
    ensures r.Err? ==> r.error == NotSet(ApiKeyVar)
  {
    var apiKey := Getenv(env, ApiKeyVar);
    if !Truthy(apiKey) then Err(NotSet(ApiKeyVar)) else Ok(apiKey.value)
  }

  /** Two environments that agree on one variable: both lack it, or both hold the same value. */
  predicate AgreeOn(env1: Env, env2: Env, name: string) {
    (name in env1 <==> name in env2) && (name in env1 ==> env1[name] == env2[name])
  }

  /** `get_api_root` reads only `TEXTPRESS_API_ROOT`: every other entry may change freely. */
  lemma ApiRootReadsOnlyItsVariable(env1: Env, env2: Env)
    requires AgreeOn(env1, env2, ApiRootVar)
    ensures GetApiRoot(env1) == GetApiRoot(env2)
  {
  }

  /** `get_api_key` reads only `TEXTPRESS_API_KEY`: every other entry may change freely. */
  lemma ApiKeyReadsOnlyItsVariable(env1: Env, env2: Env)
    requires AgreeOn(env1, env2, ApiKeyVar)
    ensures GetApiKey(env1) == GetApiKey(env2)
  {
  }

  /** Setting the key leaves the root's outcome alone, and setting the root leaves the key's. */
  lemma GettersIndependent(env: Env, v: string)
    ensures GetApiRoot(env[ApiKeyVar := v]) == GetApiRoot(env)
    ensures GetApiKey(env[ApiRootVar := v]) == GetApiKey(env)
  {
    ApiRootReadsOnlyItsVariable(env[ApiKeyVar := v], env);
    ApiKeyReadsOnlyItsVariable(env[ApiRootVar := v], env);
  }

  /** An unset variable and one set to the empty string fail alike. */
  lemma EmptyIsUnset(env: Env)
    ensures GetApiRoot(env[ApiRootVar := ""]) == GetApiRoot(env - {ApiRootVar})
    ensures GetApiKey(env[ApiKeyVar := ""]) == GetApiKey(env - {ApiKeyVar})
    ensures GetApiRoot(env - {ApiRootVar}).Err?
    ensures GetApiKey(env - {ApiKeyVar}).Err?
  {
  }
}
