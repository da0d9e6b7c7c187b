/**
 * GrokMatcher: compiles a grok template to a regular expression and uses it
 * to match lines and extract the properties the message schema names. The
 * grok compiler and the .NET regular-expression engine are parameters: the
 * compiler's outcome is given as a value, the engine as functions.
 */
module Matcher {
  import opened Common
  import opened Schema

  /** What `GrokCompiler.Compile` did with the grok text. */
  datatype CompileOutcome =
    | Translated(template: string, schema: seq<Semantic>)  // the regular expression and the compiler's schema
    | GrokSyntaxError                                      // a GrokSyntaxException
    | OtherError                                           // any other exception while compiling

  /**
   * The regular-expression engine: matching `input` against `pattern` gives
   * the named groups' values on success.
   */
  type Engine = (string, string) -> Option<map<string, string>>

  /** `match.Groups[name].Value`: the empty string for a group that did not take part. */
  function GroupValue(groups: map<string, string>, name: string): string {
    if name in groups then groups[name] else ""
  }

  /** The state a `GrokMatcher` is left in once its constructor returns, or has thrown. */
  datatype Built = Built(regex: string, schema: seq<Semantic>, template: string, failed: bool, escaped: bool)

  /**
   * What the constructor does with `grok`, as written. On success the
   * template and the schema are the compiler's. On a grok syntax error the
   * grok text itself becomes the regular expression; the `new Regex` for it
   * runs outside any handler, so when the engine rejects the grok text too,
   * the `ArgumentException` escapes the constructor (`escaped`). On any other
   * error, including a compiled template the engine rejects, a pattern that
   * matches everything is used. `isValid` says which patterns the engine
   * accepts.
   */
  function Construct(grok: string, outcome: CompileOutcome, isValid: string -> bool): (b: Built)
    ensures outcome.Translated? ==> b.schema == outcome.schema
    ensures !outcome.Translated? ==> b.schema == []
    ensures b.escaped <==> outcome.GrokSyntaxError? && !isValid(grok)
    ensures b.failed <==> !(outcome.Translated? && isValid(outcome.template))
    ensures !b.failed ==> b.template == outcome.template && b.regex == outcome.template
    ensures b.failed ==> b.template == grok
    ensures outcome.GrokSyntaxError? && !b.escaped ==> b.regex == grok
    ensures !outcome.GrokSyntaxError? && b.failed ==> b.regex == ""
    ensures !b.escaped && isValid("") ==> isValid(b.regex)
  {
    match outcome
    case Translated(template, schema) =>
      if isValid(template) then Built(template, schema, template, false, false)
      // ArgumentException from `new Regex`: HandleRegexpException(grok, "")
      else Built("", schema, grok, true, false)
    case GrokSyntaxError =>
      // HandleRegexpException(grok, grok): `new Regex(grok)` outside the try
      if isValid(grok) then Built(grok, [], grok, true, false)
      else Built("", [], grok, true, true)
    case OtherError => Built("", [], grok, true, false)
  }

  /**
   * A grok text that is neither valid grok nor a valid regular expression,
   * such as `(%{`, makes the constructor throw instead of leaving a matcher
   * in degraded mode.
   */
  lemma OpenGroupEscapes(isValid: string -> bool)
    requires !isValid("(%{")
    ensures Construct("(%{", GrokSyntaxError, isValid).escaped
    ensures Construct("(%{", GrokSyntaxError, isValid).regex != "(%{"
  {
  }

  /**
   * The constructor as evidently intended: a grok text the engine rejects
   * falls back to the match-everything pattern, like every other failure,
   * so the constructor never throws.
   */
  function ConstructDegraded(grok: string, outcome: CompileOutcome, isValid: string -> bool): (b: Built)
    ensures !b.escaped
    ensures isValid("") ==> isValid(b.regex)
    ensures b.failed <==> !(outcome.Translated? && isValid(outcome.template))
    ensures !(outcome.GrokSyntaxError? && !isValid(grok)) ==> b == Construct(grok, outcome, isValid)
    ensures outcome.GrokSyntaxError? && !isValid(grok) ==> b == Construct(grok, outcome, isValid).(escaped := false)
  {
    if outcome.GrokSyntaxError? && !isValid(grok) then Built("", [], grok, true, false)
    else Construct(grok, outcome, isValid)
  }

  class GrokMatcher {
    /** The pattern of the `Regex` object in use. */
    var regex: string
    /** Every property the template captures, with its casting rules, in order. */
    var messageSchema: seq<Semantic>
    /** The compiled regular expression, or the grok text itself when compilation failed. */
    var Template: string
    /** Whether compilation failed and the matcher runs in degraded mode. */
    var CompilationFailed: bool
    /** Whether the constructor threw: no usable matcher exists then. */
    var Escaped: bool

    /** Compile `grok`, leaving the state `Construct` describes. */
    constructor(grok: string, outcome: CompileOutcome, isValid: string -> bool)
      ensures var b := Construct(grok, outcome, isValid);
                regex == b.regex && messageSchema == b.schema && Template == b.template
                && CompilationFailed == b.failed && Escaped == b.escaped
    {
      messageSchema := [];
      CompilationFailed := false;
      Escaped := false;
      match outcome {
        case Translated(template, schema) =>
          messageSchema := messageSchema + schema;
          Template := template;
          if isValid(template) {
            regex := template;
          } else {
            // ArgumentException from `new Regex`: HandleRegexpException(grok, "")
            CompilationFailed := true;
            Template := grok;
            regex := "";
          }
        case GrokSyntaxError =>
          CompilationFailed := true;
          Template := grok;
          if isValid(grok) {
            regex := grok;
          } else {
            // `new Regex(grok)` throws ArgumentException out of the constructor
            regex := "";
            Escaped := true;
          }
        case OtherError =>
          CompilationFailed := true;
          Template := grok;
          regex := "";
      }
    }

    /** Whether the line matches the regular expression. */
    predicate Match(s: string, engine: Engine): (r: bool)
      reads this
      ensures r <==> engine(regex, s).Some?
    {
      engine(regex, s).Some?
    }

    /**
     * Extract the schema's properties from a matching line: one pair per
     * schema entry, in schema order, keyed by the property name; `None` when
     * the line does not match.
     */
    method Parse(input: string, engine: Engine) returns (r: Option<seq<(string, string)>>)
      ensures r.None? <==> !Match(input, engine)
      ensures r.Some? ==>
                |r.value| == |messageSchema|
                && forall i :: 0 <= i < |messageSchema| ==>
                     r.value[i] == (messageSchema[i].Property,
                                    GroupValue(engine(regex, input).value, messageSchema[i].Property))
    {
      var m := engine(regex, input);
      if m.None? {
        return None;
      }
      var result := new (string, string)[|messageSchema|];
      for i := 0 to |messageSchema|
        invariant forall j :: 0 <= j < i ==>
                    result[j] == (messageSchema[j].Property, GroupValue(m.value, messageSchema[j].Property))
      {
        var property := messageSchema[i].Property;
        result[i] := (property, GroupValue(m.value, property));
      }
      r := Some(result[..]);
    }
  }
}
