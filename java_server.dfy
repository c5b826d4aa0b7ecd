/**
 * Protocol selection at the start of the Java server's main: the name comes
 * from the THRIFT_PROTOCOL environment variable, else the first
 * command-line argument, else "binary"; it is trimmed and lower-cased and then
 * picks the protocol factory.
 */
module JavaServer {
  import opened Wrappers
  import opened Text
  import opened Protocol

  /** The name before normalisation: a non-empty environment value wins, then the first argument. */
  function ProtocolName(env: Option<string>, args: seq<string>): string {
    if env.Some? && env.value != "" then env.value
    else if |args| > 0 then args[0]
    else "binary"
  }

  /** `protocolName.trim().toLowerCase()`. */
  function NormaliseName(raw: string): string {
    Normalise(JavaTrim, raw)
  }

  /** The `switch` choosing the protocol factory; every other name falls to the default branch. */
  function FactoryFor(name: string): Codec {
    match name
    case "compact" => Compact
    case "json" => Json
    case "simplejson" => SimpleJson
    case _ => Binary
  }

  function SelectProtocol(env: Option<string>, args: seq<string>): Selection {
    var name := NormaliseName(ProtocolName(env, args));
    Selection(name, FactoryFor(name))
  }

  /** Each codec is chosen exactly by its own name, and Binary also by every unknown name. */
  lemma {:induction false} FactoryForExactly(name: string, c: Codec)
    ensures FactoryFor(name) == c <==>
      name == CodecName(c) || (c == Binary && name !in {"compact", "json", "simplejson"})
  {
  }

  /** The codec's own name, in any ASCII case and with any surrounding spaces, selects it. */
  lemma {:induction false} SelectsNamedCodec(c: Codec, pre: string, spelling: string, post: string, args: seq<string>)
    requires AllSpace(JavaTrim, pre) && AllSpace(JavaTrim, post)
    requires AsciiLower(spelling) == CodecName(c)
    ensures SelectProtocol(Some(pre + spelling + post), args) == Selection(CodecName(c), c)
  {
    var e := pre + spelling + post;
    assert |e| >= |spelling| == |CodecName(c)| > 0;
    SpelledNameNormalises(c, pre, spelling, post);
    SelectByNormalName(c, e, args);
  }

  lemma {:induction false} SpelledNameNormalises(c: Codec, pre: string, spelling: string, post: string)
    requires AllSpace(JavaTrim, pre) && AllSpace(JavaTrim, post)
    requires AsciiLower(spelling) == CodecName(c)
    ensures NormaliseName(pre + spelling + post) == CodecName(c)
  {
    NormaliseIgnoresPadding(JavaTrim, pre, spelling, post);
    CodecNameIsLower(c);
    NormaliseIgnoresCase(JavaTrim, spelling, CodecName(c));
    CodecNameIsNormal(c);
  }

  lemma {:induction false} SelectByNormalName(c: Codec, e: string, args: seq<string>)
    requires e != "" && NormaliseName(e) == CodecName(c)
    ensures SelectProtocol(Some(e), args) == Selection(CodecName(c), c)
  {
    FactoryForCodecName(c);
  }

  lemma {:induction false} CodecNameIsLower(c: Codec)
    ensures AsciiLower(CodecName(c)) == CodecName(c)
  {
    var n := CodecName(c);
    assert forall i :: 0 <= i < |n| ==> 'a' <= n[i] <= 'z';
    AsciiLowerOfLower(n);
  }

  /** Every codec's name is in normal form. */
  lemma {:induction false} CodecNameIsNormal(c: Codec)
    ensures NormaliseName(CodecName(c)) == CodecName(c)
  {
    var n := CodecName(c);
    assert forall i :: 0 <= i < |n| ==> 'a' <= n[i] <= 'z';
    NormaliseOfLowerWord(JavaTrim, n);
  }

  /** The `switch` maps each codec's name back to the codec. */
  lemma {:induction false} FactoryForCodecName(c: Codec)
    ensures FactoryFor(CodecName(c)) == c
  {
  }

  /**
   * Priority: a set, non-empty environment value decides alone; an unset or
   * empty one is as if absent; then only the first argument matters; with
   * neither, the default is binary.
   */
  lemma {:induction false} SelectionPriority(env: Option<string>, args: seq<string>)
    ensures env.Some? && env.value != "" ==> SelectProtocol(env, args) == SelectProtocol(env, [])
    ensures env == Some("") ==> SelectProtocol(env, args) == SelectProtocol(None, args)
    ensures SelectProtocol(None, args) == SelectProtocol(None, args[..if |args| > 0 then 1 else 0])
    ensures SelectProtocol(None, []) == Selection("binary", Binary)
  {
    assert ProtocolName(None, []) == "binary";
    NormaliseOfLowerWord(JavaTrim, "binary");
    assert NormaliseName("binary") == "binary";
    assert FactoryFor("binary") == Binary;
  }

  /**
   * With the environment unset or empty, a non-empty first argument is
   * selected exactly as the same value in the environment would be; an empty
   * one is trimmed to nothing and selects Binary under the name "".
   */
  lemma {:induction false} ArgumentActsAsEnvironment(env: Option<string>, a: string, rest: seq<string>)
    requires env.None? || env == Some("")
    ensures a != "" ==> SelectProtocol(env, [a] + rest) == SelectProtocol(Some(a), [])
    ensures a == "" ==> SelectProtocol(env, [a] + rest) == Selection("", Binary)
  {
    var args := [a] + rest;
    assert args[0] == a;
    assert ProtocolName(env, args) == a;
    if a == "" {
      EmptyNameSelectsBinary(env, args);
    } else {
      SameNameSameSelection(env, args, Some(a), []);
    }
  }

  /** The selection depends on the raw name alone. */
  lemma {:induction false} SameNameSameSelection(env: Option<string>, args: seq<string>, env': Option<string>, args': seq<string>)
    requires ProtocolName(env, args) == ProtocolName(env', args')
    ensures SelectProtocol(env, args) == SelectProtocol(env', args')
  {
  }

  lemma {:induction false} EmptyNameSelectsBinary(env: Option<string>, args: seq<string>)
    requires ProtocolName(env, args) == ""
    ensures SelectProtocol(env, args) == Selection("", Binary)
  {
    StripEmptyIff(JavaTrim, "");
    assert NormaliseName("") == "";
  }

  /**
   * With the environment unset or empty, a first argument spelling a codec's
   * name in any ASCII case and with any surrounding spaces selects that codec.
   */
  lemma {:induction false} ArgumentNamesCodec(c: Codec, env: Option<string>, pre: string, spelling: string, post: string, rest: seq<string>)
    requires env.None? || env == Some("")
    requires AllSpace(JavaTrim, pre) && AllSpace(JavaTrim, post)
    requires AsciiLower(spelling) == CodecName(c)
    ensures SelectProtocol(env, [pre + spelling + post] + rest) == Selection(CodecName(c), c)
  {
    var e := pre + spelling + post;
    assert |e| >= |spelling| == |CodecName(c)| > 0;
    ArgumentActsAsEnvironment(env, e, rest);
    SelectsNamedCodec(c, pre, spelling, post, []);
  }

  /** Matching ignores ASCII case and surrounding spaces of the configured name. */
  lemma {:induction false} SelectionIgnoresCaseAndPadding(pre: string, e: string, post: string, args: seq<string>)
    requires AllSpace(JavaTrim, pre) && AllSpace(JavaTrim, post)
    requires e != ""
    ensures SelectProtocol(Some(pre + e + post), args) == SelectProtocol(Some(AsciiLower(e)), args)
  {
    NormaliseIgnoresPadding(JavaTrim, pre, e, post);
    AsciiLowerIdempotent(e);
    NormaliseIgnoresCase(JavaTrim, e, AsciiLower(e));
  }

  /**
   * A blank environment value counts as set: it overrides every argument and,
   * trimmed to nothing, selects Binary under the name "".
   */
  lemma {:induction false} BlankEnvironmentOverrides(w: string, args: seq<string>)
    requires w != "" && AllSpace(JavaTrim, w)
    ensures SelectProtocol(Some(w), args) == Selection("", Binary)
  {
    StripEmptyIff(JavaTrim, w);
  }

  /** The reported name is the normalised input; it names the codec in use only when it is a known name. */
  lemma {:induction false} ReportedNameIsInput(env: Option<string>, args: seq<string>)
    ensures SelectProtocol(env, args).name == NormaliseName(ProtocolName(env, args))
    ensures SelectProtocol(env, args).name == CodecName(SelectProtocol(env, args).codec) <==>
      SelectProtocol(env, args).name in {"binary", "compact", "json", "simplejson"}
  {
  }

  /** A lower-case word that is not a known name is reported as itself while Binary is used. */
  lemma {:induction false} UnknownWordFallsBack(w: string, args: seq<string>)
    requires w != [] && forall i :: 0 <= i < |w| ==> 'a' <= w[i] <= 'z'
    requires w !in {"compact", "json", "simplejson"}
    ensures SelectProtocol(Some(w), args) == Selection(w, Binary)
    ensures SelectProtocol(None, [w] + args) == Selection(w, Binary)
  {
    NormaliseOfLowerWord(JavaTrim, w);
  }

  /** "unknown" is reported as "unknown" while Binary is used. */
  lemma {:induction false} UnknownNameFallsBack(args: seq<string>)
    ensures SelectProtocol(Some("unknown"), args) == Selection("unknown", Binary)
    ensures SelectProtocol(None, ["unknown"]) == Selection("unknown", Binary)
  {
    var w := "unknown";
    assert |w| == 7;
    assert w != "compact" && w != "json" && w != "simplejson" by { assert w[0] == 'u'; }
    UnknownWordFallsBack(w, args);
    UnknownWordFallsBack(w, []);
    assert [w] + [] == ["unknown"];
  }
}
