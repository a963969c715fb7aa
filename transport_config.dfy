/**
 * word_document_server/main.py, `get_transport_config`: the server's
 * transport settings, read from the process environment.
 */
module TransportConfig {
  import opened Wrappers
  import opened PyStr

  type Env = map<string, string>

  /** The six settings; a record, so no other key can appear and none can be missing. */
  datatype Config = Config(
    transport: string,
    host: string,
    port: int,
    path: string,
    ssePath: string,
    debug: bool)

  const Defaults := Config("stdio", "0.0.0.0", 8000, "/mcp", "/sse", false)

  const ValidTransports: seq<string> := ["stdio", "streamable-http", "sse"]

  const DebugWords: seq<string> := ["1", "true", "yes", "on"]

  /** `os.getenv(key, default)`. */
  function GetEnv(env: Env, key: string, default: string): (v: string)
    ensures key in env ==> v == env[key]
    ensures key !in env ==> v == default
  {
    if key in env then env[key] else default
  }

  /** The lower-cased `MCP_TRANSPORT` when it names a known transport, `stdio` otherwise. */
  function Transport(env: Env): (t: string)
    ensures t in ValidTransports
    ensures t == "stdio" || ("MCP_TRANSPORT" in env && t == Lower(env["MCP_TRANSPORT"]))
  {
    var requested := Lower(GetEnv(env, "MCP_TRANSPORT", "stdio"));
    if requested in ValidTransports then requested else "stdio"
  }

  /** The text `int()` is applied to: `PORT`, else `MCP_PORT`; `None` means the default 8000. */
  function PortText(env: Env): (r: Option<string>)
    ensures r.None? <==> "PORT" !in env && "MCP_PORT" !in env
  {
    if "PORT" in env then Some(env["PORT"])
    else if "MCP_PORT" in env then Some(env["MCP_PORT"])
    else None
  }

  /** `MCP_DEBUG`, trimmed and lower-cased, is one of the truthy words. */
  function DebugFlag(env: Env): (b: bool)
    ensures "MCP_DEBUG" !in env ==> !b
  {
    Lower(Strip(GetEnv(env, "MCP_DEBUG", ""))) in DebugWords
  }

  /**
   * `get_transport_config()`: `Err` where `int()` raises `ValueError` on the
   * port text, which the function does not catch.
   */
  function GetTransportConfig(env: Env): (r: Result<Config>)
    ensures r.Ok? <==> PortText(env).None? || ParseInt(PortText(env).value).Some?
    ensures r.Ok? ==> r.value.transport in ValidTransports
    ensures r.Err? ==> r.msg == "invalid literal for int() with base 10: '" + PortText(env).value + "'"
  {
    var text := PortText(env);
    var port := if text.None? then Some(Defaults.port) else ParseInt(text.value);
    if port.None? then
      Err("invalid literal for int() with base 10: '" + text.value + "'")
    else
      Ok(Config(
        Transport(env),
        GetEnv(env, "MCP_HOST", Defaults.host),
        port.value,
        GetEnv(env, "MCP_PATH", Defaults.path),
        GetEnv(env, "MCP_SSE_PATH", Defaults.ssePath),
        DebugFlag(env)))
  }

  /** With no variable set, every setting is its default. */
  lemma EmptyEnvironmentGivesDefaults()
    ensures GetTransportConfig(map[]) == Ok(Defaults)
  {
    assert Lower("stdio") == "stdio" by { LowerOfLower("stdio"); }
    assert Strip("") == "";
    assert Lower("") == "";
  }

  /** The transport is the requested one, lower-cased, when valid; otherwise `stdio`. */
  lemma TransportChoice(env: Env)
    requires "MCP_TRANSPORT" in env
    ensures Lower(env["MCP_TRANSPORT"]) in ValidTransports ==> Transport(env) == Lower(env["MCP_TRANSPORT"])
    ensures Lower(env["MCP_TRANSPORT"]) !in ValidTransports ==> Transport(env) == "stdio"
  {
  }

  /** `PORT` wins over `MCP_PORT`: a `PORT` that `int()` accepts is the port, whatever `MCP_PORT` holds. */
  lemma PortWins(env: Env, n: int)
    requires "PORT" in env && ParseInt(env["PORT"]) == Some(n)
    ensures GetTransportConfig(env).Ok? && GetTransportConfig(env).value.port == n
  {
  }

  /** Once `PORT` is set, `MCP_PORT` is ignored: the outcome, error included, is the same for every value of it. */
  lemma PortIgnoresMcpPort(env: Env, x: string)
    requires "PORT" in env
    ensures GetTransportConfig(env["MCP_PORT" := x]) == GetTransportConfig(env)
  {
  }

  /** Without `PORT`, an `MCP_PORT` that `int()` accepts is the port. */
  lemma McpPortFallback(env: Env, n: int)
    requires "PORT" !in env && "MCP_PORT" in env && ParseInt(env["MCP_PORT"]) == Some(n)
    ensures GetTransportConfig(env).Ok? && GetTransportConfig(env).value.port == n
  {
  }

  /** A decimal port, as `str(n)` writes it, with any padding `int()` skips, is read back as `n`. */
  lemma PaddedDecimalPort(env: Env, pre: string, n: int, post: string)
    requires IntPadding(pre) && IntPadding(post)
    requires "PORT" in env && env["PORT"] == pre + ShowInt(n) + post
    ensures GetTransportConfig(env).Ok? && GetTransportConfig(env).value.port == n
  {
    ParsePaddedShowInt(pre, n, post);
  }


  /** With neither variable, the port is 8000. */
  lemma DefaultPort(env: Env)
    requires "PORT" !in env && "MCP_PORT" !in env
    ensures GetTransportConfig(env).Ok? && GetTransportConfig(env).value.port == 8000
  {
  }

  /** A set but empty `PORT` is an error, even when `MCP_PORT` holds a valid number. */
  lemma EmptyPortIsAnError(env: Env)
    requires "PORT" in env && env["PORT"] == ""
    ensures GetTransportConfig(env).Err?
  {
  }

  /** Debug is on for a truthy word in any case, surrounded by any white space. */
  lemma DebugWordsPadded(env: Env, pre: string, word: string, post: string)
    requires AllSpace(pre) && AllSpace(post) && Lower(word) in DebugWords
    requires "MCP_DEBUG" in env && env["MCP_DEBUG"] == pre + word + post
    ensures DebugFlag(env)
  {
    var l := Lower(word);
    DebugWordTrimmed(l);
    LowerCharSpace(word[0]);
    LowerCharSpace(word[|word| - 1]);
    assert Trimmed(word);
    StripPadded(pre, word, post);
  }

  lemma DebugWordTrimmed(w: string)
    requires w in DebugWords
    ensures w != [] && !IsSpace(w[0]) && !IsSpace(w[|w| - 1])
  {
  }

  /** Host, path and SSE path each come from their own variable, with their defaults. */
  lemma ReadsOwnVariables(env: Env)
    requires GetTransportConfig(env).Ok?
    ensures var c := GetTransportConfig(env).value;
      && c.host == GetEnv(env, "MCP_HOST", Defaults.host)
      && c.path == GetEnv(env, "MCP_PATH", Defaults.path)
      && c.ssePath == GetEnv(env, "MCP_SSE_PATH", Defaults.ssePath)
  {
  }
}
