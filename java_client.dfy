/**
 * Protocol selection at the start of the Java client's main. The client
 * resolves the name with the same code as the server, and the resulting
 * selections are proved equal below. The module also models the unit tests'
 * re-implementation of the environment/argument priority, which counts only
 * null as unset.
 */
module JavaClient {
  import opened Wrappers
  import opened Text
  import opened Protocol
  import JavaServer

  /** `argProtocol`: the first argument, or null when there is none. */
  function FirstArgument(args: seq<string>): Option<string> {
    if |args| > 0 then Some(args[0]) else None
  }

  /** The name before normalisation: a non-empty environment value, else the argument, else "binary". */
  function ProtocolName(env: Option<string>, args: seq<string>): string {
    var arg := FirstArgument(args);
    if env.Some? && env.value != "" then env.value
    else if arg.Some? then arg.value
    else "binary"
  }

  /** The `switch` creating the protocol; every other name falls to the default branch. */
  function ProtocolFor(name: string): Codec {
    match name
    case "compact" => Compact
    case "json" => Json
    case "simplejson" => SimpleJson
    case _ => Binary
  }

  function SelectProtocol(env: Option<string>, args: seq<string>): Selection {
    var name := Normalise(JavaTrim, ProtocolName(env, args));
    Selection(name, ProtocolFor(name))
  }

  /**
   * For every environment value and argument list the client and the server
   * record the same name and use the same codec, so everything proved about
   * the server's selection holds for the client's.
   */
  lemma {:induction false} AgreesWithServer(env: Option<string>, args: seq<string>)
    ensures SelectProtocol(env, args) == JavaServer.SelectProtocol(env, args)
  {
    assert ProtocolName(env, args) == JavaServer.ProtocolName(env, args);
    SameSwitchAsServer(Normalise(JavaTrim, ProtocolName(env, args)));
  }

  /** The client's `switch` and the server's map every name to the same codec. */
  lemma {:induction false} SameSwitchAsServer(name: string)
    ensures ProtocolFor(name) == JavaServer.FactoryFor(name)
  {
  }

  /** `getProtocolFromEnvOrArg` of the client's unit tests: only a null environment value is unset. */
  function TestHelperProtocolName(env: Option<string>, arg: Option<string>): string {
    var fromEnv := env;
    var fromArg := if fromEnv.None? && arg.Some? then arg else fromEnv;
    if fromArg.None? then "binary" else fromArg.value
  }

  /**
   * The test helper and the client pick the same raw name exactly when the
   * environment value is not the empty string, or when it is and the first
   * argument is the empty string too.
   */
  lemma {:induction false} TestHelperAgreement(env: Option<string>, args: seq<string>)
    ensures TestHelperProtocolName(env, FirstArgument(args)) == ProtocolName(env, args) <==>
      env != Some("") || (|args| > 0 && args[0] == "")
  {
    if env == Some("") && |args| == 0 {
      assert ProtocolName(env, args) == "binary";
      assert TestHelperProtocolName(env, FirstArgument(args)) == "";
    }
  }
}
