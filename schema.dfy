/**
 * The value types the grok engine passes between its parts. Their declaring
 * files (LogLevel, ParserType, GrokRule, Semantic) are not part of this
 * model; these are minimal stand-ins with the members the core uses.
 */
module Schema {

  /** Severity of a message; `NoLevel` is the source's `LogLevel.None`, "no level recognised". */
  datatype LogLevel = NoLevel | Trace | Debug | Info | Warn | Error | Fatal

  /** The integer each level is stored as (`(int)level`). */
  function LevelValue(l: LogLevel): (v: int)
    ensures -1 <= v <= 5
    ensures l != NoLevel <==> v >= 0
  {
    match l
    case NoLevel => -1
    case Trace => 0
    case Debug => 1
    case Info => 2
    case Warn => 3
    case Error => 4
    case Fatal => 5
  }

  /** The level's name, as `ToString` writes it. */
  function LevelName(l: LogLevel): string {
    match l
    case NoLevel => "None"
    case Trace => "Trace"
    case Debug => "Debug"
    case Info => "Info"
    case Warn => "Warn"
    case Error => "Error"
    case Fatal => "Fatal"
  }

  /** How a captured value is cast; the source spells the integer member `Interger`. */
  datatype ParserType = PlainString | Integer | Datetime | LogLevelParser

  /** One casting rule: a pattern that selects a level, for a given parser type. */
  datatype GrokRule = GrokRule(Type: ParserType, Pattern: string, Level: LogLevel)

  /** The pattern text that marks a LogLevel property's fallback rule. */
  const DefaultPattern: string := "*"

  /** One schema entry: a captured property and its casting rules, in insertion order. */
  datatype Semantic = Semantic(Property: string, CastingRules: seq<GrokRule>)

  /**
   * What a message's schema knows about one property (the value of the
   * schema dictionary, keyed by property name): its parser and its rules.
   */
  datatype PropertySchema = PropertySchema(Parser: ParserType, Rules: seq<GrokRule>)
}
