/**
 * LogMessage: a log record built line by line. The first line is the header;
 * every later line goes to a body builder followed by a newline. `Cache`
 * fixes the body and casts the raw properties the template extracted into
 * typed integer and string properties, following the message schema.
 * Date parsing is a parameter (`parseDate`, giving the instant parsed, in
 * .NET ticks); its conversion to a file time is modelled.
 */
module Messages {
  import opened Common
  import opened Schema

  const NewLine: char := '\n'

  /** The range of a 64-bit signed integer (`long`). */
  const LongMin: int := -0x8000_0000_0000_0000
  const LongMax: int := 0x7FFF_FFFF_FFFF_FFFF

  // ---------------------------------------------------------------------------
  // Lines and the body builder

  /** The lines, each followed by a newline: what `AddLine` writes to the builder. */
  function Terminated(lines: seq<string>): string
    decreases |lines|
  {
    if lines == [] then [] else Terminated(lines[..|lines| - 1]) + lines[|lines| - 1] + [NewLine]
  }

  /** The lines separated by newlines. */
  function JoinLines(lines: seq<string>): string
    requires |lines| > 0
    decreases |lines|
  {
    if |lines| == 1 then lines[0] else lines[0] + [NewLine] + JoinLines(lines[1..])
  }

  /** The pieces of `s` between newlines. */
  function SplitLines(s: string): (r: seq<string>)
    ensures |r| > 0
    decreases |s|
  {
    match FirstIndexOf(s, NewLine)
    case None => [s]
    case Some(k) => [s[..k]] + SplitLines(s[k + 1..])
  }

  lemma {:induction false} JoinLinesAppend(lines: seq<string>, line: string)
    requires |lines| > 0
    ensures JoinLines(lines + [line]) == JoinLines(lines) + [NewLine] + line
    decreases |lines|
  {
    if |lines| > 1 {
      assert (lines + [line])[1..] == lines[1..] + [line];
      JoinLinesAppend(lines[1..], line);
    }
  }

  /** The builder holds the joined lines plus one trailing newline. */
  lemma {:induction false} TerminatedIsJoined(lines: seq<string>)
    requires |lines| > 0
    ensures Terminated(lines) == JoinLines(lines) + [NewLine]
    decreases |lines|
  {
    var n := |lines|;
    if n > 1 {
      TerminatedIsJoined(lines[..n - 1]);
      JoinLinesAppend(lines[..n - 1], lines[n - 1]);
      assert lines[..n - 1] + [lines[n - 1]] == lines;
    } else {
      assert lines[..0] == [];
    }
  }

  /** Joining newline-free lines and splitting the result gives the lines back. */
  lemma {:induction false} SplitJoin(lines: seq<string>)
    requires |lines| > 0
    requires forall i, j :: 0 <= i < |lines| && 0 <= j < |lines[i]| ==> lines[i][j] != NewLine
    ensures SplitLines(JoinLines(lines)) == lines
    decreases |lines|
  {
    var s := JoinLines(lines);
    if |lines| == 1 {
      assert FirstIndexOf(s, NewLine).None?;
    } else {
      var a := lines[0];
      assert forall j :: 0 <= j < |a| ==> a[j] != NewLine;
      SplitFirst(a, JoinLines(lines[1..]));
      SplitJoin(lines[1..]);
    }
  }

  /** A text that starts with a newline-free line splits into that line and the rest's pieces. */
  lemma SplitFirst(a: string, rest: string)
    requires forall j :: 0 <= j < |a| ==> a[j] != NewLine
    ensures SplitLines(a + [NewLine] + rest) == [a] + SplitLines(rest)
  {
    var s := a + [NewLine] + rest;
    assert s[|a|] == NewLine;
    assert forall j :: 0 <= j < |a| ==> s[j] == a[j];
    assert FirstIndexOf(s, NewLine) == Some(|a|);
    assert s[..|a|] == a;
    assert s[|a| + 1..] == rest;
  }

  /** Splitting a text at its newlines and joining the pieces gives the text back. */
  lemma {:induction false} JoinSplit(s: string)
    ensures JoinLines(SplitLines(s)) == s
    decreases |s|
  {
    match FirstIndexOf(s, NewLine)
    case None =>
    case Some(k) =>
      JoinSplit(s[k + 1..]);
      JoinAtNewline(s, k, SplitLines(s[k + 1..]));
  }

  /** Joining the piece before a newline with pieces that join to the text after it gives the text. */
  lemma JoinAtNewline(s: string, k: nat, rest: seq<string>)
    requires k < |s| && s[k] == NewLine && |rest| > 0 && JoinLines(rest) == s[k + 1..]
    ensures JoinLines([s[..k]] + rest) == s
  {
    var parts := [s[..k]] + rest;
    assert parts[0] == s[..k] && parts[1..] == rest;
    assert s[..k] + [NewLine] + s[k + 1..] == s;
  }

  /** The builder with its last character removed, as `Cache` leaves it. */
  function DropLast(s: string): string {
    if |s| > 0 then s[..|s| - 1] else s
  }

  /** Removing the builder's last newline leaves exactly the joined body lines. */
  lemma CachedBodyIsJoined(lines: seq<string>)
    requires |lines| > 0
    ensures DropLast(Terminated(lines)) == JoinLines(lines)
  {
    TerminatedIsJoined(lines);
  }

  // ---------------------------------------------------------------------------
  // Levels

  /** The level vocabulary, compared case-insensitively; `None` when the text is no level. */
  function TryParseLogLevel(s: string): (r: Option<LogLevel>)
    ensures r.Some? ==> r.value != NoLevel
  {
    var u := ToUpper(s);
    if u == "TRACE" then Some(Trace)
    else if u == "DEBUG" || u == "DEBUGGING" then Some(Debug)
    else if u == "INFO" || u == "NOTICE" || u == "INFORMATIONAL" then Some(Info)
    else if u == "WARN" || u == "WARNING" then Some(Warn)
    else if u == "ERROR" || u == "ERR" || u == "CRITICAL" then Some(Error)
    else if u == "FATAL" || u == "SEVERE" || u == "EMERG" || u == "EMERGENCY" || u == "PANIC" || u == "ALERT" then Some(Fatal)
    else None
  }

  /** Case does not matter: a text and its upper-case form are recognised alike. */
  lemma TryParseLogLevelIgnoresCase(s: string, t: string)
    requires EqualsIgnoreCase(s, t)
    ensures TryParseLogLevel(s) == TryParseLogLevel(t)
    ensures TryParseLogLevel(s) == TryParseLogLevel(ToUpper(s))
  {
    ToUpperIdempotent(s);
  }

  /** Every level's own name (upper or mixed case) is recognised as that level; "None" is not a level. */
  lemma LevelNamesParse(l: LogLevel)
    ensures l != NoLevel ==> TryParseLogLevel(LevelName(l)) == Some(l)
    ensures l == NoLevel ==> TryParseLogLevel(LevelName(l)) == None
  {
    var u := ToUpper(LevelName(l));
    match l
    case NoLevel => assert u == "NONE";
    case Trace => assert u == "TRACE";
    case Debug => assert u == "DEBUG";
    case Info => assert u == "INFO";
    case Warn => assert u == "WARN";
    case Error => assert u == "ERROR";
    case Fatal => assert u == "FATAL";
  }

  /** "Warning" is a warning (an older unit test expects Trace; the code says Warn). */
  lemma WarningIsWarn()
    ensures TryParseLogLevel("Warning") == Some(Warn)
  {
    assert ToUpper("Warning") == "WARNING";
  }

  /** A rule whose pattern occurs in the data. */
  predicate RuleMatches(data: string, rule: GrokRule) {
    ContainsStr(data, rule.Pattern)
  }

  /** The fallback rule: its pattern is the default pattern, ignoring case. */
  predicate IsDefaultRule(rule: GrokRule) {
    EqualsIgnoreCase(rule.Pattern, DefaultPattern)
  }

  /**
   * The level chosen by a property's casting rules: that of the first rule
   * (in rule order) whose pattern occurs in the data, otherwise that of the
   * first default rule; `None` when there is neither, where the source's
   * `First` throws.
   */
  function SemanticAction(data: string, rules: seq<GrokRule>): (r: Option<LogLevel>)
    ensures (exists i :: 0 <= i < |rules| && RuleMatches(data, rules[i])) ==>
              exists i :: 0 <= i < |rules| && RuleMatches(data, rules[i]) && r == Some(rules[i].Level)
                          && forall j :: 0 <= j < i ==> !RuleMatches(data, rules[j])
    ensures (forall i :: 0 <= i < |rules| ==> !RuleMatches(data, rules[i])) ==>
              (r.Some? <==> exists i :: 0 <= i < |rules| && IsDefaultRule(rules[i]))
    ensures r.Some? && (forall i :: 0 <= i < |rules| ==> !RuleMatches(data, rules[i])) ==>
              exists i :: 0 <= i < |rules| && IsDefaultRule(rules[i]) && r.value == rules[i].Level
                          && forall j :: 0 <= j < i ==> !IsDefaultRule(rules[j])
  {
    match FirstWhere(rules, (g: GrokRule) => RuleMatches(data, g))
    case Some(i) => Some(rules[i].Level)
    case None =>
      match FirstWhere(rules, (g: GrokRule) => IsDefaultRule(g))
      case Some(i) => Some(rules[i].Level)
      case None => None
  }

  /** `TryRunSemanticAction`: the two searches, as loops; `None` stands for the exception. */
  method TryRunSemanticAction(data: string, rules: seq<GrokRule>) returns (r: Option<LogLevel>)
    ensures r == SemanticAction(data, rules)
  {
    for i := 0 to |rules|
      invariant forall j :: 0 <= j < i ==> !RuleMatches(data, rules[j])
    {
      if ContainsStr(data, rules[i].Pattern) {
        assert FirstWhere(rules, (g: GrokRule) => RuleMatches(data, g)) == Some(i);
        return Some(rules[i].Level);
      }
    }
    assert FirstWhere(rules, (g: GrokRule) => RuleMatches(data, g)).None?;
    for i := 0 to |rules|
      invariant forall j :: 0 <= j < i ==> !IsDefaultRule(rules[j])
    {
      if EqualsIgnoreCase(rules[i].Pattern, DefaultPattern) {
        assert FirstWhere(rules, (g: GrokRule) => IsDefaultRule(g)) == Some(i);
        return Some(rules[i].Level);
      }
    }
    assert FirstWhere(rules, (g: GrokRule) => IsDefaultRule(g)).None?;
    return None;
  }

  /**
   * The level stored for a LogLevel property: the rules decide when there
   * are more than one, the vocabulary otherwise. The outer `None` is the
   * exception; `Some(None)` means nothing is stored.
   */
  function CastLevel(data: string, rules: seq<GrokRule>): (r: Option<Option<LogLevel>>)
    ensures |rules| <= 1 ==> r == Some(TryParseLogLevel(data))
    ensures r.None? <==> |rules| > 1 && SemanticAction(data, rules).None?
    ensures |rules| > 1 && r.Some? ==> r.value.Some? && r.value == SemanticAction(data, rules)
  {
    if |rules| > 1 then
      (match SemanticAction(data, rules)
       case None => None
       case Some(l) => Some(Some(l)))
    else Some(TryParseLogLevel(data))
  }

  // ---------------------------------------------------------------------------
  // Integers

  /** The white space `NumberStyles.Integer` allows around a number. */
  predicate IsNumberWhite(c: char) {
    c == ' ' || '\t' <= c <= '\r'
  }

  predicate IsDigit(c: char) {
    '0' <= c <= '9'
  }

  predicate AllDigits(s: string) {
    forall i :: 0 <= i < |s| ==> IsDigit(s[i])
  }

  /** `s` without leading and trailing number white space. */
  function Trim(s: string): (t: string)
    ensures |t| <= |s|
    ensures |t| > 0 ==> !IsNumberWhite(t[0]) && !IsNumberWhite(t[|t| - 1])
    ensures exists i, j :: 0 <= i <= j <= |s| && t == s[i..j] && WhiteOutside(s, i, j)
    decreases |s|
  {
    if |s| > 0 && IsNumberWhite(s[0]) then
      var t := Trim(s[1..]);
      WhiteOutsideFront(s, t);
      t
    else if |s| > 0 && IsNumberWhite(s[|s| - 1]) then
      var t := Trim(s[..|s| - 1]);
      WhiteOutsideBack(s, s[..|s| - 1], t);
      t
    else
      assert s == s[0..|s|];
      s
  }

  /** Everything of `s` before index `i` and from index `j` on is number white space. */
  predicate WhiteOutside(s: string, i: int, j: int)
    requires 0 <= i <= j <= |s|
  {
    (forall k :: 0 <= k < i ==> IsNumberWhite(s[k])) && (forall k :: j <= k < |s| ==> IsNumberWhite(s[k]))
  }

  /** A trimmed slice of `s` without its leading white space character is a trimmed slice of `s`. */
  lemma WhiteOutsideFront(s: string, t: string)
    requires |s| > 0 && IsNumberWhite(s[0])
    requires exists i, j :: 0 <= i <= j <= |s| - 1 && t == s[1..][i..j] && WhiteOutside(s[1..], i, j)
    ensures exists i, j :: 0 <= i <= j <= |s| && t == s[i..j] && WhiteOutside(s, i, j)
  {
    var i, j :| 0 <= i <= j <= |s| - 1 && t == s[1..][i..j] && WhiteOutside(s[1..], i, j);
    assert t == s[i + 1..j + 1] && WhiteOutside(s, i + 1, j + 1);
  }

  /** A trimmed slice of `s` without its trailing white space character is a trimmed slice of `s`. */
  lemma WhiteOutsideBack(s: string, init: string, t: string)
    requires |s| > 0 && IsNumberWhite(s[|s| - 1]) && init == s[..|s| - 1]
    requires exists i, j :: 0 <= i <= j <= |init| && t == init[i..j] && WhiteOutside(init, i, j)
    ensures exists i, j :: 0 <= i <= j <= |s| && t == s[i..j] && WhiteOutside(s, i, j)
  {
    var i, j :| 0 <= i <= j <= |init| && t == init[i..j] && WhiteOutside(init, i, j);
    assert t == s[i..j] && WhiteOutside(s, i, j);
  }

  /** The value of a string of decimal digits. */
  function DigitsValue(s: string): nat
    requires AllDigits(s)
    decreases |s|
  {
    if s == [] then 0 else DigitsValue(s[..|s| - 1]) * 10 + (s[|s| - 1] as int - '0' as int)
  }

  /**
   * `long.TryParse` with the invariant culture's integer style: optional
   * surrounding white space, an optional sign, one or more decimal digits,
   * and a value within the 64-bit range.
   */
  function ParseLong(s: string): (r: Option<int>)
    ensures r.Some? ==> LongMin <= r.value <= LongMax
  {
    var t := Trim(s);
    if |t| == 0 then None
    else
      var negative := t[0] == '-';
      var digits := if t[0] == '-' || t[0] == '+' then t[1..] else t;
      if |digits| == 0 || !AllDigits(digits) then None
      else
        var magnitude: int := DigitsValue(digits);
        var v := if negative then -magnitude else magnitude;
        if LongMin <= v <= LongMax then Some(v) else None
  }

  /** The decimal digits of `n`. */
  function Digits(n: nat): (s: string)
    ensures |s| > 0 && AllDigits(s)
    decreases n
  {
    if n < 10 then [('0' as int + n) as char] else Digits(n / 10) + [('0' as int + n % 10) as char]
  }

  /** `long.ToString()`: an optional minus sign and the decimal digits. */
  function FormatLong(n: int): string {
    if n < 0 then "-" + Digits(-n) else Digits(n)
  }

  lemma {:induction false} DigitsValueOfDigits(n: nat)
    ensures DigitsValue(Digits(n)) == n
    decreases n
  {
    if n >= 10 {
      DigitsValueOfDigits(n / 10);
      var d := Digits(n);
      assert d[..|d| - 1] == Digits(n / 10);
    }
  }

  /** Every 64-bit integer, written out, parses back to itself. */
  lemma ParseFormatLong(n: int)
    requires LongMin <= n <= LongMax
    ensures ParseLong(FormatLong(n)) == Some(n)
  {
    var s := FormatLong(n);
    var m: nat := if n < 0 then -n else n;
    var d := Digits(m);
    DigitsValueOfDigits(m);
    assert IsDigit(d[0]) && IsDigit(d[|d| - 1]);
    if n < 0 {
      assert s[0] == '-' && s[1..] == d && s[|s| - 1] == d[|d| - 1];
    } else {
      assert s == d;
    }
    TrimUntouched(s);
  }

  /** A text with no white space at either end trims to itself. */
  lemma TrimUntouched(s: string)
    requires |s| > 0 && !IsNumberWhite(s[0]) && !IsNumberWhite(s[|s| - 1])
    ensures Trim(s) == s
  {
  }

  // ---------------------------------------------------------------------------
  // Casting the raw properties

  /** `DateTime.FileTimeOffset`: the ticks from 0001-01-01 to 1601-01-01. */
  const FileTimeOffset: int := 504_911_232_000_000_000

  /**
   * `DateTime.ToFileTime` of the instant with UTC ticks `ticks`: the ticks
   * since 1601-01-01; `None` is the `ArgumentOutOfRangeException` for an
   * earlier instant.
   */
  function ToFileTime(ticks: int): (r: Option<int>)
    ensures r.Some? <==> ticks >= FileTimeOffset
    ensures r.Some? ==> r.value >= 0 && r.value + FileTimeOffset == ticks
  {
    if ticks - FileTimeOffset < 0 then None else Some(ticks - FileTimeOffset)
  }

  /** The typed properties of a message. */
  datatype Props = Props(ints: map<string, int>, strs: map<string, string>)

  /**
   * Cast one raw property. A name the schema does not know is skipped; a
   * value that does not parse leaves the properties as they are; `None` is
   * an exception: from a LogLevel property without a matching or default
   * rule, or from a date before 1601, which has no file time.
   */
  function ApplyOne(p: Props, key: string, data: string, schema: map<string, PropertySchema>,
                    parseDate: string -> Option<int>): (r: Option<Props>)
    ensures r.None? <==> CastThrows(key, data, schema, parseDate)
    ensures key !in schema ==> r == Some(p)
    ensures r.Some? ==> r.value.strs == (if key in schema && schema[key].Parser == PlainString then p.strs[key := data] else p.strs)
    ensures r.Some? ==> r.value.ints == p.ints || (key in r.value.ints && r.value.ints == p.ints[key := r.value.ints[key]])
    ensures key in schema && schema[key].Parser == Integer ==>
              r == Some(if ParseLong(data).Some? then p.(ints := p.ints[key := ParseLong(data).value]) else p)
    ensures key in schema && schema[key].Parser == Datetime && r.Some? && key in r.value.ints && r.value.ints != p.ints ==>
              parseDate(data).Some? && r.value.ints[key] == parseDate(data).value - FileTimeOffset
  {
    if key !in schema then Some(p)
    else
      match schema[key].Parser
      case LogLevelParser =>
        (match CastLevel(data, schema[key].Rules)
         case None => None
         case Some(None) => Some(p)
         case Some(Some(l)) => Some(p.(ints := p.ints[key := LevelValue(l)])))
      case Datetime =>
        (match parseDate(data)
         case None => Some(p)
         case Some(t) =>
           (match ToFileTime(t)
            case None => None
            case Some(f) => Some(p.(ints := p.ints[key := f]))))
      case Integer =>
        (match ParseLong(data)
         case None => Some(p)
         case Some(v) => Some(p.(ints := p.ints[key := v])))
      case PlainString => Some(p.(strs := p.strs[key := data]))
  }

  /**
   * Casting a property throws: a LogLevel property with several rules, none
   * matching and no default rule, or a Datetime property whose text parses
   * to an instant before 1601.
   */
  predicate CastThrows(key: string, data: string, schema: map<string, PropertySchema>, parseDate: string -> Option<int>) {
    key in schema
    && ((schema[key].Parser == LogLevelParser && CastLevel(data, schema[key].Rules).None?)
        || (schema[key].Parser == Datetime && parseDate(data).Some? && parseDate(data).value < FileTimeOffset))
  }

  /** The properties reached and whether every raw property was cast (false: an exception stopped it). */
  datatype Applied = Applied(props: Props, completed: bool)

  /** Cast the raw properties in order, stopping at the first exception. */
  function ApplyAll(p: Props, raw: seq<(string, string)>, schema: map<string, PropertySchema>,
                    parseDate: string -> Option<int>): (a: Applied)
    ensures a.completed <==> forall i :: 0 <= i < |raw| ==> !CastThrows(raw[i].0, raw[i].1, schema, parseDate)
    ensures raw == [] ==> a.props == p
    decreases |raw|
  {
    if raw == [] then Applied(p, true)
    else
      match ApplyOne(p, raw[0].0, raw[0].1, schema, parseDate)
      case None => Applied(p, false)
      case Some(q) =>
        var a := ApplyAll(q, raw[1..], schema, parseDate);
        assert forall i :: 1 <= i < |raw| ==> raw[i] == raw[1..][i - 1];
        a
  }

  /**
   * Casting touches only properties that were extracted and that the schema
   * knows: any other name keeps its integer and string values (or absence).
   */
  lemma {:induction false} ApplyAllFrame(p: Props, raw: seq<(string, string)>, schema: map<string, PropertySchema>,
                                         parseDate: string -> Option<int>, key: string)
    requires key !in schema || forall i :: 0 <= i < |raw| ==> raw[i].0 != key
    ensures var q := ApplyAll(p, raw, schema, parseDate).props;
            (key in q.ints <==> key in p.ints) && (key in q.ints ==> q.ints[key] == p.ints[key])
            && (key in q.strs <==> key in p.strs) && (key in q.strs ==> q.strs[key] == p.strs[key])
    decreases |raw|
  {
    if raw != [] {
      var r := ApplyOne(p, raw[0].0, raw[0].1, schema, parseDate);
      if r.Some? {
        ApplyAllFrame(r.value, raw[1..], schema, parseDate, key);
      }
    }
  }

  /** An integer property whose text does not parse stays absent. */
  lemma FailedIntegerStaysAbsent(p: Props, key: string, data: string, schema: map<string, PropertySchema>,
                                 parseDate: string -> Option<int>)
    requires key in schema && schema[key].Parser == Integer && ParseLong(data).None?
    ensures ApplyOne(p, key, data, schema, parseDate) == Some(p)
  {
  }

  /** The value a property dictionary holds for a name, or the type's default. */
  function GetProperty<T>(dict: map<string, T>, property: string, default: T): (r: T)
    ensures property in dict ==> r == dict[property]
    ensures property !in dict ==> r == default
  {
    if property in dict then dict[property] else default
  }

  // ---------------------------------------------------------------------------
  // The message

  class LogMessage {
    var head: Option<string>
    var body: Option<string>
    /** The body text being built; the two-argument constructor leaves it null. */
    var bodyBuilder: Option<string>
    /** The properties the template extracted, in extraction order. */
    var rawProperties: Option<seq<(string, string)>>
    var integerProperties: map<string, int>
    var stringProperties: map<string, string>

    /** A message with the given header and body and no builder. */
    constructor(header: Option<string>, body: Option<string>)
      ensures head == header && this.body == body && bodyBuilder.None? && rawProperties.None?
      ensures integerProperties == map[] && stringProperties == map[]
    {
      head := header;
      this.body := body;
      bodyBuilder := None;
      rawProperties := None;
      integerProperties := map[];
      stringProperties := map[];
    }

    /** An empty message ready to take lines. */
    constructor Create()
      ensures head.None? && body.None? && bodyBuilder == Some([]) && rawProperties.None?
      ensures integerProperties == map[] && stringProperties == map[]
      ensures IsEmpty() && Header() == [] && Body() == [] && !HasHeader()
    {
      head := None;
      body := None;
      bodyBuilder := Some([]);
      rawProperties := None;
      integerProperties := map[];
      stringProperties := map[];
    }

    /** The typed properties. */
    function Current(): Props
      reads this
    {
      Props(integerProperties, stringProperties)
    }

    /** Header and body are blank and nothing is being built. */
    predicate IsEmpty(): (r: bool)
      reads this
      requires IsNullOrWhiteSpace(head) && IsNullOrWhiteSpace(body) ==> bodyBuilder.Some?
      ensures r <==> IsNullOrWhiteSpace(head) && IsNullOrWhiteSpace(body) && bodyBuilder == Some([])
    {
      IsNullOrWhiteSpace(head) && IsNullOrWhiteSpace(body) && |bodyBuilder.value| == 0
    }

    function Header(): (r: string)
      reads this
      ensures head.Some? ==> r == head.value
      ensures head.None? ==> r == []
    {
      head.GetOr([])
    }

    /** The fixed body, or else the builder's text, where a lone newline counts as empty. */
    function Body(): (r: string)
      reads this
      requires body.Some? || bodyBuilder.Some?
      ensures body.Some? ==> r == body.value
      ensures body.None? ==> r == (if bodyBuilder.value == [NewLine] then [] else bodyBuilder.value)
      ensures r == [NewLine] ==> body == Some([NewLine])
    {
      if body.Some? then body.value
      else if bodyBuilder.value == [NewLine] then []
      else bodyBuilder.value
    }

    predicate HasHeader(): (r: bool)
      reads this
      ensures r <==> rawProperties.Some?
    {
      rawProperties.Some?
    }

    /** The first line becomes the header; later ones go to the builder, newline-terminated. */
    method AddLine(line: string)
      requires head.Some? ==> bodyBuilder.Some?
      modifies this
      ensures old(head).None? ==> head == Some(line) && bodyBuilder == old(bodyBuilder)
      ensures old(head).Some? ==> head == old(head) && bodyBuilder == Some(old(bodyBuilder).value + line + [NewLine])
      ensures body == old(body) && rawProperties == old(rawProperties) && Current() == old(Current())
    {
      if head.None? {
        head := Some(line);
      } else {
        bodyBuilder := Some(bodyBuilder.value + line);
        bodyBuilder := Some(bodyBuilder.value + [NewLine]);
      }
    }

    method AddProperties(extractedProperties: seq<(string, string)>)
      modifies this
      ensures rawProperties == Some(extractedProperties)
      ensures head == old(head) && body == old(body) && bodyBuilder == old(bodyBuilder) && Current() == old(Current())
    {
      rawProperties := Some(extractedProperties);
    }

    /** Store the level the rules or the vocabulary give; `false` when the rules throw. */
    method ParseLogLevel(dataToParse: string, rules: seq<GrokRule>, property: string) returns (ok: bool)
      modifies this
      ensures CastLevel(dataToParse, rules).None? ==> !ok && Current() == old(Current())
      ensures CastLevel(dataToParse, rules) == Some(None) ==> ok && Current() == old(Current())
      ensures CastLevel(dataToParse, rules).Some? && CastLevel(dataToParse, rules).value.Some? ==>
                ok && integerProperties == old(integerProperties)[property := LevelValue(CastLevel(dataToParse, rules).value.value)]
                && stringProperties == old(stringProperties)
      ensures head == old(head) && body == old(body) && bodyBuilder == old(bodyBuilder) && rawProperties == old(rawProperties)
    {
      var level: Option<LogLevel>;
      if |rules| > 1 {
        level := TryRunSemanticAction(dataToParse, rules);
        if level.None? {
          return false;
        }
      } else {
        level := TryParseLogLevel(dataToParse);
      }
      if level.Some? {
        integerProperties := integerProperties[property := LevelValue(level.value)];
      }
      ok := true;
    }

    /**
     * Store the parsed date's file time; nothing when the text is no date;
     * `false` when `ToFileTime` throws for a date before 1601.
     */
    method ParseDateTime(dataToParse: string, property: string, parseDate: string -> Option<int>) returns (ok: bool)
      modifies this
      ensures parseDate(dataToParse).None? ==> ok && Current() == old(Current())
      ensures parseDate(dataToParse).Some? && parseDate(dataToParse).value < FileTimeOffset ==>
                !ok && Current() == old(Current())
      ensures parseDate(dataToParse).Some? && parseDate(dataToParse).value >= FileTimeOffset ==>
                ok && integerProperties == old(integerProperties)[property := parseDate(dataToParse).value - FileTimeOffset]
                && stringProperties == old(stringProperties)
      ensures head == old(head) && body == old(body) && bodyBuilder == old(bodyBuilder) && rawProperties == old(rawProperties)
    {
      var r := parseDate(dataToParse);
      if r.Some? {
        var fileTime := ToFileTime(r.value);
        if fileTime.None? {
          return false;
        }
        integerProperties := integerProperties[property := fileTime.value];
      }
      ok := true;
    }

    method ParseInteger(dataToParse: string, property: string)
      modifies this
      ensures ParseLong(dataToParse).None? ==> Current() == old(Current())
      ensures ParseLong(dataToParse).Some? ==>
                integerProperties == old(integerProperties)[property := ParseLong(dataToParse).value]
                && stringProperties == old(stringProperties)
      ensures head == old(head) && body == old(body) && bodyBuilder == old(bodyBuilder) && rawProperties == old(rawProperties)
    {
      var r := ParseLong(dataToParse);
      if r.Some? {
        integerProperties := integerProperties[property := r.value];
      }
    }

    method ParseString(dataToParse: string, property: string)
      modifies this
      ensures stringProperties == old(stringProperties)[property := dataToParse]
      ensures integerProperties == old(integerProperties)
      ensures head == old(head) && body == old(body) && bodyBuilder == old(bodyBuilder) && rawProperties == old(rawProperties)
    {
      stringProperties := stringProperties[property := dataToParse];
    }

    /**
     * Cast every extracted property the schema knows, in extraction order.
     * Nothing happens without extracted properties or without a schema;
     * `false` when a cast throws (a LogLevel property's rules, or a date
     * before 1601), with the properties cast so far kept.
     */
    method ApplySemanticRules(schema: Option<map<string, PropertySchema>>, parseDate: string -> Option<int>)
      returns (completed: bool)
      modifies this
      ensures rawProperties.None? || schema.None? ==> completed && Current() == old(Current())
      ensures rawProperties.Some? && schema.Some? ==>
                Applied(Current(), completed) == ApplyAll(old(Current()), rawProperties.value, schema.value, parseDate)
      ensures head == old(head) && body == old(body) && bodyBuilder == old(bodyBuilder) && rawProperties == old(rawProperties)
    {
      if rawProperties.None? || schema.None? {
        return true;
      }
      var raw := rawProperties.value;
      var s := schema.value;
      for i := 0 to |raw|
        invariant ApplyAll(Current(), raw[i..], s, parseDate) == ApplyAll(old(Current()), raw, s, parseDate)
        invariant head == old(head) && body == old(body) && bodyBuilder == old(bodyBuilder) && rawProperties == old(rawProperties)
      {
        assert raw[i..][1..] == raw[i + 1..];
        var ok := CastProperty(raw[i].0, raw[i].1, s, parseDate);
        if !ok {
          return false;
        }
      }
      completed := true;
    }

    /** Cast one extracted property as `ApplyOne` does; `false` when the cast throws. */
    method CastProperty(key: string, matchedData: string, s: map<string, PropertySchema>, parseDate: string -> Option<int>)
      returns (ok: bool)
      modifies this
      ensures ok <==> ApplyOne(old(Current()), key, matchedData, s, parseDate).Some?
      ensures ok ==> Current() == ApplyOne(old(Current()), key, matchedData, s, parseDate).value
      ensures !ok ==> Current() == old(Current())
      ensures head == old(head) && body == old(body) && bodyBuilder == old(bodyBuilder) && rawProperties == old(rawProperties)
    {
      if key !in s {
        return true;
      }
      match s[key].Parser {
        case LogLevelParser =>
          ok := ParseLogLevel(matchedData, s[key].Rules, key);
        case Datetime =>
          ok := ParseDateTime(matchedData, key, parseDate);
        case Integer =>
          ParseInteger(matchedData, key);
          ok := true;
        case PlainString =>
          ParseString(matchedData, key);
          ok := true;
      }
    }

    /**
     * Fix the body: unless header and body are both set already, drop the
     * builder's last character, cast the properties, take the builder's text
     * as the body and empty the builder. When casting throws, the builder
     * stays trimmed and the body unset.
     */
    method Cache(schema: Option<map<string, PropertySchema>>, parseDate: string -> Option<int>)
      returns (completed: bool)
      requires !(head.Some? && body.Some?) ==> bodyBuilder.Some?
      modifies this
      ensures old(head.Some? && body.Some?) ==>
                completed && body == old(body) && bodyBuilder == old(bodyBuilder) && Current() == old(Current())
      ensures !old(head.Some? && body.Some?) ==>
                var trimmed := DropLast(old(bodyBuilder).value);
                (completed ==> body == Some(trimmed) && bodyBuilder == Some([]))
                && (!completed ==> body == old(body) && bodyBuilder == Some(trimmed))
                && (rawProperties.Some? && schema.Some? ==>
                      Applied(Current(), completed) == ApplyAll(old(Current()), rawProperties.value, schema.value, parseDate))
                && (rawProperties.None? || schema.None? ==> completed && Current() == old(Current()))
      ensures head == old(head) && rawProperties == old(rawProperties)
    {
      if head.Some? && body.Some? {
        return true;
      }
      if |bodyBuilder.value| > 0 {
        bodyBuilder := Some(bodyBuilder.value[..|bodyBuilder.value| - 1]);
      }
      completed := ApplySemanticRules(schema, parseDate);
      if !completed {
        return;
      }
      body := Some(bodyBuilder.value);
      Clear();
    }

    method Clear()
      requires bodyBuilder.Some?
      modifies this
      ensures bodyBuilder == Some([])
      ensures head == old(head) && body == old(body) && rawProperties == old(rawProperties) && Current() == old(Current())
    {
      bodyBuilder := Some([]);
    }

    /** The integer property's value, 0 when it is absent. */
    function IntegerProperty(property: string): (r: int)
      reads this
      ensures property in integerProperties ==> r == integerProperties[property]
      ensures property !in integerProperties ==> r == 0
    {
      GetProperty(integerProperties, property, 0)
    }

    /** The string property's value, null when it is absent. */
    function StringProperty(property: string): (r: Option<string>)
      reads this
      ensures r.Some? <==> property in stringProperties
      ensures r.Some? ==> r.value == stringProperties[property]
    {
      if property in stringProperties then Some(stringProperties[property]) else None
    }

    method UpdateIntegerProperty(property: string, value: int)
      modifies this
      ensures integerProperties == old(integerProperties)[property := value]
      ensures stringProperties == old(stringProperties)
      ensures head == old(head) && body == old(body) && bodyBuilder == old(bodyBuilder) && rawProperties == old(rawProperties)
    {
      integerProperties := integerProperties[property := value];
    }

    method UpdateStringProperty(property: string, value: string)
      modifies this
      ensures stringProperties == old(stringProperties)[property := value]
      ensures integerProperties == old(integerProperties)
      ensures head == old(head) && body == old(body) && bodyBuilder == old(bodyBuilder) && rawProperties == old(rawProperties)
    {
      stringProperties := stringProperties[property := value];
    }
  }

  /**
   * A fresh message fed some lines: the first is the header and the builder
   * holds the others, each newline-terminated; its body is that text, or
   * empty for a single empty body line.
   */
  method FromLines(lines: seq<string>) returns (m: LogMessage)
    requires |lines| > 0
    ensures fresh(m)
    ensures m.Header() == lines[0] && m.body.None? && m.bodyBuilder == Some(Terminated(lines[1..]))
    ensures m.Body() == (if lines[1..] == [[]] then [] else Terminated(lines[1..]))
  {
    m := new LogMessage.Create();
    m.AddLine(lines[0]);
    for i := 1 to |lines|
      invariant m.head == Some(lines[0]) && m.body.None?
      invariant m.bodyBuilder == Some(Terminated(lines[1..i]))
    {
      assert lines[1..i + 1][..i - 1] == lines[1..i];
      m.AddLine(lines[i]);
    }
    assert lines[1..|lines|] == lines[1..];
    if lines[1..] == [[]] {
      assert Terminated(lines[1..]) == [NewLine];
    }
  }
}
