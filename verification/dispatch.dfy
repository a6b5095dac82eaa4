/**
 * How a Ridge decides where it runs and how it serves: the environment
 * tests, the API type a buffered response is built for, the mount point
 * of the user's handler, and the streaming switch read from the
 * environment. The environment is a map from variable name to value.
 */
module Dispatch {
  import opened Results
  import opened GoStrings
  import Requests
  import Responses

  type Env = map<string, string>

  /** os.Getenv: "" for a variable that is not set. */
  function Getenv(env: Env, name: string): string {
    if name in env then env[name] else ""
  }

  /**
   * OnLambdaRuntime: AWS_EXECUTION_ENV starts with "AWS_Lambda" (the go1.x
   * runtime), or AWS_LAMBDA_RUNTIME_API is set (custom runtimes).
   */
  predicate OnLambdaRuntime(env: Env) {
    HasPrefix(Getenv(env, "AWS_EXECUTION_ENV"), "AWS_Lambda") || Getenv(env, "AWS_LAMBDA_RUNTIME_API") != ""
  }

  /** AsLambdaExtension: on the Lambda runtime with no _HANDLER. */
  function AsLambdaExtension(env: Env): (r: bool)
    ensures r ==> OnLambdaRuntime(env)
    ensures r <==> OnLambdaRuntime(env) && Getenv(env, "_HANDLER") == ""
  {
    OnLambdaRuntime(env) && Getenv(env, "_HANDLER") == ""
  }

  /** AsLambdaHandler: on the Lambda runtime with a _HANDLER. */
  function AsLambdaHandler(env: Env): (r: bool)
    ensures r ==> OnLambdaRuntime(env)
    ensures r <==> OnLambdaRuntime(env) && Getenv(env, "_HANDLER") != ""
  {
    OnLambdaRuntime(env) && Getenv(env, "_HANDLER") != ""
  }

  /** On the runtime a process is exactly one of handler and extension; off it, neither. */
  lemma HandlerOrExtension(env: Env)
    ensures !(AsLambdaHandler(env) && AsLambdaExtension(env))
    ensures AsLambdaHandler(env) || AsLambdaExtension(env) <==> OnLambdaRuntime(env)
  {
  }

  /**
   * detectAPIType: an event with a non-empty version field is from an HTTP
   * API; anything else, including an event whose version does not decode,
   * is from a REST API.
   */
  function DetectAPIType(version: Result<string, string>): (a: int)
    ensures a == Responses.REST || a == Responses.HTTP
    ensures a == Responses.HTTP <==> version.Success? && version.value != ""
  {
    if version.Success? && version.value != "" then Responses.HTTP else Responses.REST
  }

  /** The writer the buffered handler creates for an event never panics. */
  lemma DetectedTypeIsValid(ev: Requests.Event)
    ensures Responses.NewResponseWriter(DetectAPIType(ev.version)).Success?
  {
  }

  /** Versions 1.0 and 2.0 are HTTP APIs; an event without a version is a REST API. */
  lemma VersionedEventsAreHTTP(ev: Requests.Event)
    requires ev.version in {Success("1.0"), Success("2.0")}
    ensures DetectAPIType(ev.version) == Responses.HTTP
  {
  }

  // ---------------------------------------------------------------- mounting

  /**
   * Where mountMux registers the user's handler: a ServeMux pattern, and
   * the prefix http.StripPrefix removes before the handler sees the path
   * (None when nothing is stripped).
   */
  datatype Mount = Mount(pattern: string, strip: Option<string>)

  /**
   * mountMux: "" and "/" mount at "/" unchanged; a prefix without a
   * trailing slash mounts at prefix + "/" and strips the prefix; one with
   * a trailing slash mounts at itself and strips it minus that slash.
   */
  function MountMux(prefix: string): (m: Mount)
    ensures prefix == "" || prefix == "/" ==> m == Mount("/", None)
    ensures prefix != "" && prefix != "/" ==>
      m.strip == Some(TrimSuffix(prefix, "/")) && m.pattern == TrimSuffix(prefix, "/") + "/"
    ensures HasSuffix(m.pattern, "/")
    ensures m.strip.Some? ==> m.strip.value + "/" == m.pattern
  {
    if prefix == "/" || prefix == "" then Mount("/", None)
    else if !HasSuffix(prefix, "/") then
      assert HasSuffix(prefix + "/", "/") by { assert (prefix + "/")[|prefix|..] == "/"; }
      Mount(prefix + "/", Some(prefix))
    else Mount(prefix, Some(TrimSuffix(prefix, "/")))
  }

  /** A trailing slash on the prefix makes no difference to the mount. */
  lemma TrailingSlashIrrelevant(prefix: string)
    requires prefix != "" && !HasSuffix(prefix, "/")
    ensures MountMux(prefix + "/") == MountMux(prefix)
  {
    var p := prefix + "/";
    assert p[|p| - 1..] == "/";
    assert p[..|p| - 1] == prefix;
    assert p != "/" by { assert |p| >= 2; }
  }

  /**
   * The path the user's handler sees for a request path: None when the
   * pattern does not cover the path (a 404 from the ServeMux), else the
   * path with the strip prefix removed. Mounted at the root, every
   * absolute path reaches the handler unchanged; mounted at "/api" or
   * "/api/", exactly the paths under "/api/" do, with "/api" cut off.
   */
  function Route(prefix: string, path: string): (r: Option<string>)
    ensures prefix == "" || prefix == "/" ==> r == (if HasPrefix(path, "/") then Some(path) else None)
    ensures prefix != "" && prefix != "/" ==>
      var base := TrimSuffix(prefix, "/");
      r == (if HasPrefix(path, base + "/") then Some(path[|base|..]) else None)
  {
    var m := MountMux(prefix);
    if !HasPrefix(path, m.pattern) then None
    else if m.strip.None? then Some(path)
    else Some(TrimPrefix(path, m.strip.value))
  }

  /** Whatever the prefix, the handler sees an absolute path, and putting the prefix back gives the request path. */
  lemma RouteKeepsAbsolutePath(prefix: string, path: string)
    requires Route(prefix, path).Some?
    ensures HasPrefix(Route(prefix, path).value, "/")
    ensures var m := MountMux(prefix);
      path == (if m.strip.Some? then m.strip.value else "") + Route(prefix, path).value
  {
    var m := MountMux(prefix);
    var r := Route(prefix, path).value;
    if m.strip.Some? {
      var s := m.strip.value;
      assert path[..|s| + 1] == s + "/";
      assert HasPrefix(path, s) by { assert path[..|s|] == (s + "/")[..|s|]; }
      assert r == path[|s|..];
      assert r[..1] == path[|s|..|s| + 1];
    } else {
      assert m.pattern == "/";
    }
  }

  // ---------------------------------------------------------------- streaming switch

  /** The environment variable that switches streaming responses on. */
  const StreamingResponseEnv: string := "RIDGE_STREAMING_RESPONSE"

  /** strconv.ParseBool: None for every string it refuses. */
  function ParseBool(s: string): (r: Option<bool>)
    ensures r == Some(true) <==> s in ["1", "t", "T", "TRUE", "true", "True"]
    ensures r == Some(false) <==> s in ["0", "f", "F", "FALSE", "false", "False"]
  {
    if s in ["1", "t", "T", "TRUE", "true", "True"] then Some(true)
    else if s in ["0", "f", "F", "FALSE", "false", "False"] then Some(false)
    else None
  }

  /**
   * setStreamingResponse: a flag already on stays on; otherwise the
   * variable, when set and a valid boolean, decides; when unset or
   * invalid the flag keeps its value.
   */
  function SetStreamingResponse(streaming: bool, env: Env): (r: bool)
    ensures streaming ==> r
    ensures !streaming ==> (r <==> StreamingResponseEnv in env && ParseBool(env[StreamingResponseEnv]) == Some(true))
  {
    if streaming then true
    else if StreamingResponseEnv !in env then streaming
    else match ParseBool(env[StreamingResponseEnv])
      case None => streaming
      case Some(b) => b
  }


  /** How RunWithContext serves. */
  datatype Mode = LambdaHandler(streaming: bool) | NetHTTPServer

  /**
   * RunWithContext: as a Lambda handler (the streaming switch read from
   * the environment first), otherwise a net/http server, which is also
   * what a Lambda extension runs.
   */
  function RunMode(streaming: bool, env: Env): (m: Mode)
    ensures m.LambdaHandler? <==> AsLambdaHandler(env)
    ensures AsLambdaExtension(env) ==> m == NetHTTPServer
    ensures m.LambdaHandler? ==> m.streaming == SetStreamingResponse(streaming, env)
  {
    if AsLambdaHandler(env) then LambdaHandler(SetStreamingResponse(streaming, env)) else NetHTTPServer
  }

  /**
   * With the package default (streaming off), a Lambda handler streams
   * exactly when the variable is set to a spelling ParseBool reads as
   * true; an unset, false or unparsable value leaves it buffered.
   */
  lemma HandlerStreamsOnlyWhenAsked(env: Env)
    requires AsLambdaHandler(env)
    ensures RunMode(false, env).streaming <==>
      StreamingResponseEnv in env && ParseBool(env[StreamingResponseEnv]) == Some(true)
    ensures StreamingResponseEnv in env && ParseBool(env[StreamingResponseEnv]).None? ==> !RunMode(false, env).streaming
  {
  }
}
