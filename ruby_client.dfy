/**
 * Protocol selection in the Ruby client's `run`: ENV['THRIFT_PROTOCOL'] if
 * set and non-empty, else ARGV[0], else 'binary'; then `strip.downcase`, and a
 * `case` that knows only compact and json.
 */
module RubyClient {
  import opened Wrappers
  import opened Text
  import opened Protocol
  import JavaServer

  /** The name before normalisation. A present ARGV[0] is a String, hence truthy even when empty. */
  function ProtocolName(env: Option<string>, argv: seq<string>): string {
    if env.Some? && env.value != "" then env.value
    else if |argv| > 0 then argv[0]
    else "binary"
  }

  /** `protocol_name.strip.downcase`. */
  function NormaliseName(raw: string): string {
    Normalise(RubyStrip, raw)
  }

  /** The `case` expression: no branch for simplejson, so it falls to BinaryProtocol. */
  function ProtocolFor(name: string): Codec {
    match name
    case "compact" => Compact
    case "json" => Json
    case _ => Binary
  }

  function SelectProtocol(env: Option<string>, argv: seq<string>): Selection {
    var name := NormaliseName(ProtocolName(env, argv));
    Selection(name, ProtocolFor(name))
  }

  /** The Ruby client never selects SimpleJson; it selects Compact and Json exactly by their names. */
  lemma {:induction false} ProtocolForExactly(name: string)
    ensures ProtocolFor(name) != SimpleJson
    ensures ProtocolFor(name) == Compact <==> name == "compact"
    ensures ProtocolFor(name) == Json <==> name == "json"
  {
  }

  /** On the same normalised name the Ruby client and the Java server choose alike except for "simplejson". */
  lemma {:induction false} AgreesWithServerOnName(name: string)
    ensures ProtocolFor(name) == JavaServer.FactoryFor(name) <==> name != "simplejson"
  {
  }

  /** Both resolve the raw name with the same priority. */
  lemma {:induction false} SamePriorityAsServer(env: Option<string>, argv: seq<string>)
    ensures ProtocolName(env, argv) == JavaServer.ProtocolName(env, argv)
  {
  }

  /**
   * When the raw name contains no character that trim removes but strip keeps
   * (the controls U+0001-U+0008 and U+000E-U+001F), both processes record the
   * same name, and they use the same codec unless that name is "simplejson".
   */
  lemma {:induction false} AgreesWithServer(env: Option<string>, argv: seq<string>)
    requires var raw := ProtocolName(env, argv);
      forall i :: 0 <= i < |raw| ==> (IsSpace(JavaTrim, raw[i]) <==> IsSpace(RubyStrip, raw[i]))
    ensures SelectProtocol(env, argv).name == JavaServer.SelectProtocol(env, argv).name
    ensures SelectProtocol(env, argv).codec == JavaServer.SelectProtocol(env, argv).codec <==>
      SelectProtocol(env, argv).name != "simplejson"
  {
    var raw := ProtocolName(env, argv);
    SamePriorityAsServer(env, argv);
    StripRulesAgree(raw);
    AgreesWithServerOnName(NormaliseName(raw));
  }

  /**
   * A leading control character that trim removes but strip keeps (U+0001, say)
   * makes the two disagree: Java selects Json on it and Ruby falls back to Binary.
   */
  lemma {:induction false} ControlCharacterDisagreement(c: char)
    requires IsSpace(JavaTrim, c) && !IsSpace(RubyStrip, c)
    ensures JavaServer.SelectProtocol(Some([c] + "json"), []) == Selection("json", Json)
    ensures SelectProtocol(Some([c] + "json"), []) == Selection([c] + "json", Binary)
  {
    var raw := [c] + "json";
    JavaTrimsControl(c, raw);
    JavaServer.SelectByNormalName(Json, raw, []);
    JsonIsLowerWord();
    RubyKeepsControl(c, "json");
    RubyFallsBack(raw);
  }

  lemma {:induction false} JsonIsLowerWord()
    ensures forall i :: 0 <= i < |"json"| ==> 'a' <= "json"[i] <= 'z'
  {
  }

  /** A name that normalises to five characters matches no branch of the `case` and selects Binary. */
  lemma {:induction false} RubyFallsBack(raw: string)
    requires raw != "" && |NormaliseName(raw)| == 5
    ensures SelectProtocol(Some(raw), []) == Selection(NormaliseName(raw), Binary)
  {
    FiveLettersFallBack(NormaliseName(raw));
  }

  lemma {:induction false} FiveLettersFallBack(name: string)
    requires |name| == 5
    ensures ProtocolFor(name) == Binary
  {
    assert name != "compact" && name != "json";
  }

  lemma {:induction false} JavaTrimsControl(c: char, raw: string)
    requires IsSpace(JavaTrim, c) && raw == [c] + CodecName(Json)
    ensures JavaServer.NormaliseName(raw) == CodecName(Json)
  {
    var w := CodecName(Json);
    assert AllSpace(JavaTrim, [c]);
    assert raw == [c] + w + [];
    JavaServer.CodecNameIsLower(Json);
    StripUnique(JavaTrim, [c], w, []);
  }

  lemma {:induction false} RubyKeepsControl(c: char, w: string)
    requires IsSpace(JavaTrim, c) && !IsSpace(RubyStrip, c)
    requires w != [] && forall i :: 0 <= i < |w| ==> 'a' <= w[i] <= 'z'
    ensures NormaliseName([c] + w) == [c] + w
  {
    var raw := [c] + w;
    NoUpperAfterControl(c, w);
    StrippedAfterControl(c, w);
    NormaliseOfNormal(RubyStrip, raw);
  }

  lemma {:induction false} StrippedAfterControl(c: char, w: string)
    requires !IsSpace(RubyStrip, c)
    requires w != [] && !IsSpace(RubyStrip, w[|w| - 1])
    ensures Stripped(RubyStrip, [c] + w)
  {
    var raw := [c] + w;
    assert raw[0] == c;
    assert raw[|raw| - 1] == w[|w| - 1];
  }

  lemma {:induction false} NoUpperAfterControl(c: char, w: string)
    requires c <= ' '
    requires forall i :: 0 <= i < |w| ==> 'a' <= w[i] <= 'z'
    ensures forall i :: 0 <= i < |[c] + w| ==> !('A' <= ([c] + w)[i] <= 'Z')
  {
    var raw := [c] + w;
    forall i | 0 <= i < |raw| ensures !('A' <= raw[i] <= 'Z') {
      if i == 0 {
        assert raw[i] == c;
      } else {
        assert raw[i] == w[i - 1];
      }
    }
  }

  /**
   * With ENV['THRIFT_PROTOCOL'] unset or empty, a non-empty ARGV[0] is
   * selected exactly as the same value in ENV would be; an empty one, still a
   * truthy String, strips to nothing and selects Binary under the name "".
   */
  lemma {:induction false} ArgumentActsAsEnvironment(env: Option<string>, a: string, rest: seq<string>)
    requires env.None? || env == Some("")
    ensures a != "" ==> SelectProtocol(env, [a] + rest) == SelectProtocol(Some(a), [])
    ensures a == "" ==> SelectProtocol(env, [a] + rest) == Selection("", Binary)
  {
    var args := [a] + rest;
    assert args[0] == a;
    assert ProtocolName(env, args) == a;
    if a == "" {
      StripEmptyIff(RubyStrip, a);
      assert NormaliseName(a) == "";
    } else {
      assert ProtocolName(Some(a), []) == a;
    }
  }

  /** A blank ENV value still overrides ARGV[0] and, stripped to nothing, selects Binary. */
  lemma {:induction false} BlankEnvironmentOverrides(w: string, argv: seq<string>)
    requires w != "" && AllSpace(RubyStrip, w)
    ensures SelectProtocol(Some(w), argv) == Selection("", Binary)
  {
    StripEmptyIff(RubyStrip, w);
  }

  /** Case and surrounding whitespace of the ENV value do not matter. */
  lemma {:induction false} SelectionIgnoresCaseAndPadding(pre: string, e: string, post: string, argv: seq<string>)
    requires AllSpace(RubyStrip, pre) && AllSpace(RubyStrip, post)
    requires e != ""
    ensures SelectProtocol(Some(pre + e + post), argv) == SelectProtocol(Some(AsciiLower(e)), argv)
  {
    NormaliseIgnoresPadding(RubyStrip, pre, e, post);
    AsciiLowerIdempotent(e);
    NormaliseIgnoresCase(RubyStrip, e, AsciiLower(e));
  }
}
