/**
 * The pure helpers of logviewer.logic/Extensions.cs: the colour parameter
 * name of a level, schema queries by parser type, the text-filter check,
 * percentage clamping and the word declension after a number.
 */
module Extensions {
  import opened Common
  import opened Schema

  /** `ToParameterName`: the level's name followed by "Color". */
  function ToParameterName(level: LogLevel): (r: string)
    ensures IsPrefix(LevelName(level), r) && r[|LevelName(level)|..] == "Color"
  {
    LevelName(level) + "Color"
  }

  /** Different levels have different colour parameters. */
  lemma ParameterNamesDiffer(a: LogLevel, b: LogLevel)
    requires a != b
    ensures ToParameterName(a) != ToParameterName(b)
  {
    var na, nb := ToParameterName(a), ToParameterName(b);
    assert na[..|na| - 5] == LevelName(a);
    assert nb[..|nb| - 5] == LevelName(b);
  }

  /** The number of casting rules of `s` with parser type `t`. */
  function MatchingRules(rules: seq<GrokRule>, t: ParserType): (n: nat)
    ensures n == 0 <==> forall i | 0 <= i < |rules| :: rules[i].Type != t
    ensures n <= |rules|
    decreases |rules|
  {
    if rules == [] then 0 else (if rules[0].Type == t then 1 else 0) + MatchingRules(rules[1..], t)
  }

  /** `count` copies of `s`. */
  function Copies(s: Semantic, count: nat): (r: seq<Semantic>)
    ensures |r| == count && forall i | 0 <= i < count :: r[i] == s
  {
    if count == 0 then [] else [s] + Copies(s, count - 1)
  }

  /** Some casting rule of `s` has parser type `t`. */
  predicate HasRule(s: Semantic, t: ParserType) {
    exists i | 0 <= i < |s.CastingRules| :: s.CastingRules[i].Type == t
  }

  /**
   * `FilterSchema`: each semantic once per casting rule of type `t`, in
   * schema order, so a semantic with two such rules comes twice.
   */
  function FilterSchema(schema: seq<Semantic>, t: ParserType): (r: seq<Semantic>)
    decreases |schema|
  {
    if schema == [] then []
    else Copies(schema[0], MatchingRules(schema[0].CastingRules, t)) + FilterSchema(schema[1..], t)
  }

  /**
   * The filtered schema holds exactly the semantics with a rule of type
   * `t`, and starts with the first of them.
   */
  lemma {:induction false} FilterSchemaSelects(schema: seq<Semantic>, t: ParserType)
    ensures forall s | s in FilterSchema(schema, t) :: s in schema && HasRule(s, t)
    ensures forall s | s in schema && HasRule(s, t) :: s in FilterSchema(schema, t)
    ensures FilterSchema(schema, t) != [] ==>
              match FirstWhere(schema, s => HasRule(s, t))
              case Some(i) => FilterSchema(schema, t)[0] == schema[i]
              case None => false
    decreases |schema|
  {
    if schema != [] {
      FilterSchemaSelects(schema[1..], t);
      var head := Copies(schema[0], MatchingRules(schema[0].CastingRules, t));
      var rest := FilterSchema(schema[1..], t);
      assert FilterSchema(schema, t) == head + rest;
      assert HasRule(schema[0], t) <==> head != [];
      forall s | s in schema && HasRule(s, t)
        ensures s in FilterSchema(schema, t)
      {
        if s != schema[0] {
          assert s in schema[1..];
        }
      }
      if head == [] {
        var f := FirstWhere(schema[1..], s => HasRule(s, t));
        var g := FirstWhere(schema, s => HasRule(s, t));
        if rest != [] {
          assert f.Some?;
          assert g == Some(f.value + 1);
        }
      }
    }
  }

  /** `HasProperty`: the filtered schema is not empty. */
  function HasProperty(schema: seq<Semantic>, t: ParserType): bool {
    |FilterSchema(schema, t)| > 0
  }

  /** A schema has a property of type `t` exactly when one of its semantics has a rule of that type. */
  lemma HasPropertyIff(schema: seq<Semantic>, t: ParserType)
    ensures HasProperty(schema, t) <==> exists s | s in schema :: HasRule(s, t)
  {
    FilterSchemaSelects(schema, t);
    if HasProperty(schema, t) {
      assert FilterSchema(schema, t)[0] in FilterSchema(schema, t);
    }
  }

  /** `PropertyNameOf`: the property of the first filtered semantic, or null. */
  function PropertyNameOf(schema: seq<Semantic>, t: ParserType): Option<string> {
    var filtered := FilterSchema(schema, t);
    if filtered == [] then None else Some(filtered[0].Property)
  }

  /** The property named is that of the first semantic in the schema with a rule of type `t`. */
  lemma PropertyNameOfFirst(schema: seq<Semantic>, t: ParserType)
    ensures PropertyNameOf(schema, t)
            == match FirstWhere(schema, s => HasRule(s, t))
               case Some(i) => Some(schema[i].Property)
               case None => None
  {
    FilterSchemaSelects(schema, t);
    var f := FirstWhere(schema, s => HasRule(s, t));
    if f.Some? {
      assert schema[f.value] in schema;
      assert FilterSchema(schema, t) != [];
    }
  }

  /**
   * `IsValid`: an empty filter, or regular expressions off, is always
   * valid; otherwise the answer is `regexAccepted`, which stands for the
   * regular-expression engine compiling the filter.
   */
  function IsValid(messageTextFilter: Option<string>, useRegularExpressions: bool, regexAccepted: bool): (r: bool)
    ensures IsNullOrEmpty(messageTextFilter) || !useRegularExpressions ==> r
    ensures !r ==> useRegularExpressions && !regexAccepted
    ensures r == (IsNullOrEmpty(messageTextFilter) || !useRegularExpressions || regexAccepted)
  {
    if IsNullOrEmpty(messageTextFilter) || !useRegularExpressions then true else regexAccepted
  }

  /** `ToSafePercent`: `value` clamped to `[min, max]`, the upper bound checked first. */
  function ToSafePercent(value: int, min: int, max: int): (r: int)
    ensures value > max ==> r == max
    ensures value <= max && value < min ==> r == min
    ensures min <= value <= max ==> r == value
    ensures min <= max ==> min <= r <= max
  {
    if value > max then max else if value < min then min else value
  }

  /** Clamping a clamped value changes nothing. */
  lemma ToSafePercentIdempotent(value: int, min: int, max: int)
    requires min <= max
    ensures ToSafePercent(ToSafePercent(value, min, max), min, max) == ToSafePercent(value, min, max)
  {
  }

  /** The three forms of a counted noun. */
  datatype Form = Nominative | GenitiveSingular | GenitivePlural

  /**
   * The form `DeclensionRu` picks, from C#'s truncating `number % 10` and
   * `number % 100`: so every negative number takes the genitive plural.
   */
  function RuForm(number: int): (f: Form)
    ensures number >= 0 ==> (f == Nominative <==> number % 10 == 1 && number % 100 != 11)
    ensures number >= 0 ==> (f == GenitiveSingular <==> 2 <= number % 10 <= 4 && !(12 <= number % 100 <= 14))
    ensures number < 0 ==> f == GenitivePlural
  {
    QuotRem(number, 10);
    QuotRem(number, 100);
    var lastDigit := Rem(number, 10);
    var lastTwoDigits := Rem(number, 100);
    if lastDigit == 1 && lastTwoDigits != 11 then Nominative
    else if (lastDigit == 2 && lastTwoDigits != 12) || (lastDigit == 3 && lastTwoDigits != 13)
         || (lastDigit == 4 && lastTwoDigits != 14) then GenitiveSingular
    else GenitivePlural
  }

  /** For non-negative numbers the form depends only on the last two digits. */
  lemma {:induction false} RuFormPeriodic(number: int)
    requires number >= 0
    ensures RuForm(number + 100) == RuForm(number)
  {
    LastDigitsShift(number);
  }

  lemma LastDigitsShift(number: int)
    requires number >= 0
    ensures (number + 100) % 10 == number % 10 && (number + 100) % 100 == number % 100
  {
    var q, r := number / 10, number % 10;
    assert number + 100 == 10 * (q + 10) + r && 0 <= r < 10;
    var q', r' := number / 100, number % 100;
    assert number + 100 == 100 * (q' + 1) + r' && 0 <= r' < 100;
  }

  /** `DeclensionRu`: the word in the form `RuForm` picks. */
  function DeclensionRu(number: int, nominative: Option<string>, genitiveSingular: Option<string>,
                        genitivePlural: Option<string>): (r: Option<string>)
    ensures RuForm(number) == Nominative ==> r == nominative
    ensures RuForm(number) == GenitiveSingular ==> r == genitiveSingular
    ensures RuForm(number) == GenitivePlural ==> r == genitivePlural
    ensures number < 0 ==> r == genitivePlural
  {
    match RuForm(number)
    case Nominative => nominative
    case GenitiveSingular => genitiveSingular
    case GenitivePlural => genitivePlural
  }

  /** `DeclensionEn`: the nominative for one and minus one, else the genitive singular unless it is null. */
  function DeclensionEn(number: int, nominative: Option<string>, genitiveSingular: Option<string>,
                        genitivePlural: Option<string>): (r: Option<string>)
    ensures number == 1 || number == -1 ==> r == nominative
    ensures number != 1 && number != -1 ==> r == (if genitiveSingular.Some? then genitiveSingular else genitivePlural)
  {
    if number == 1 || number == -1 then nominative
    else if genitiveSingular.Some? then genitiveSingular else genitivePlural
  }

  /** The English form ignores the sign. */
  lemma DeclensionEnSymmetric(number: int, nominative: Option<string>, genitiveSingular: Option<string>,
                              genitivePlural: Option<string>)
    ensures DeclensionEn(-number, nominative, genitiveSingular, genitivePlural)
            == DeclensionEn(number, nominative, genitiveSingular, genitivePlural)
  {
  }

  /** The Russian culture identifier, the one culture with its own declension. */
  const RussianLcid: int := 1049

  /** `Declension`: the Russian rule for the Russian UI culture, the English one for any other. */
  function Declension(number: int, lcid: int, nominative: Option<string>, genitiveSingular: Option<string>,
                      genitivePlural: Option<string>): (r: Option<string>)
    ensures r == nominative || r == genitiveSingular || r == genitivePlural
    ensures lcid != RussianLcid && (number == 1 || number == -1) ==> r == nominative
    ensures lcid == RussianLcid ==> r == DeclensionRu(number, nominative, genitiveSingular, genitivePlural)
    ensures lcid != RussianLcid ==> r == DeclensionEn(number, nominative, genitiveSingular, genitivePlural)
  {
    if lcid == RussianLcid then DeclensionRu(number, nominative, genitiveSingular, genitivePlural)
    else DeclensionEn(number, nominative, genitiveSingular, genitivePlural)
  }
}
