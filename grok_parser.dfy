/**
 * The grok grammar's semantic actions (GrokParser) and the pattern tree they
 * build. A pattern composes to regular-expression text and may append
 * entries to the message schema while doing so. The pattern classes other
 * than ReferencePattern (Composer, CompilePattern, NamedPattern,
 * PassthroughPattern) are not part of this model; the `Pattern` datatype
 * gives them minimal stand-in meanings.
 */
module Grammar {
  import opened Common
  import opened Schema

  /** The pattern tree. */
  datatype Pattern =
    | Passthrough(name: string)                  // an unknown macro: written back as `%{name}`
    | Compiled(body: string)                     // a macro body, translated by the compiler function
    | Named(property: string, inner: Pattern)    // a compiled macro captured under a property name
    | Sequence(parts: seq<Pattern>)              // a composer: its parts, in order
    | Reference(grok: string, capture: Option<string>, semantic: Option<Semantic>)
                                                 // a reference to a definition, optionally captured and typed

  /** The text a pattern composes to and the message schema after composing it. */
  datatype Composed = Composed(text: string, schema: seq<Semantic>)

  /** A named capture group `(?<name>text)`. */
  function NamedCapture(name: string, text: string): string {
    "(?<" + name + ">" + text + ")"
  }

  /** The capture group's name and content, if `s` has the form `(?<name>text)`. */
  function ParseNamedCapture(s: string): (r: Option<(string, string)>)
    ensures r.Some? ==> |r.value.0| + |r.value.1| + 5 == |s|
  {
    if |s| < 5 || s[..3] != "(?<" || s[|s| - 1] != ')' then None
    else
      match FirstIndexOf(s[3..|s| - 1], '>')
      case None => None
      case Some(k) => Some((s[3..3 + k], s[4 + k..|s| - 1]))
  }

  /** Reading the name and the content back out of a named capture gives them back. */
  lemma NamedCaptureRoundTrip(name: string, text: string)
    requires forall j :: 0 <= j < |name| ==> name[j] != '>'
    ensures ParseNamedCapture(NamedCapture(name, text)) == Some((name, text))
  {
    var s := NamedCapture(name, text);
    var mid := s[3..|s| - 1];
    assert mid == name + ">" + text;
    assert mid[|name|] == '>';
    var k := FirstIndexOf(mid, '>');
    assert k == Some(|name|);
    assert s[3..3 + |name|] == name;
    assert s[4 + |name|..|s| - 1] == text;
  }

  /** `ReferencePattern`'s result: the inner text, captured under `property` unless it is null or blank. */
  function WrapIfNamed(property: Option<string>, text: string): string {
    if IsNullOrWhiteSpace(property) then text else NamedCapture(property.value, text)
  }

  /**
   * Compose a pattern, appending to `schema` the semantics of the references
   * met, in composition order. Following a reference uses one unit of
   * `fuel`; `None` means the definitions refer to each other more deeply
   * than `fuel` allows (in the program: unbounded recursion).
   */
  function Compose(p: Pattern, defs: map<string, Pattern>, compiler: string -> string,
                   schema: seq<Semantic>, fuel: nat): Option<Composed>
    decreases fuel, p
  {
    match p
    case Passthrough(name) => Some(Composed("%{" + name + "}", schema))
    case Compiled(body) => Some(Composed(compiler(body), schema))
    case Named(property, inner) =>
      (match Compose(inner, defs, compiler, schema, fuel)
       case None => None
       case Some(c) => Some(Composed(NamedCapture(property, c.text), c.schema)))
    case Sequence(parts) => ComposeAll(parts, defs, compiler, schema, fuel)
    case Reference(grok, property, semantic) =>
      if fuel == 0 then None
      else
        var target := if grok in defs then defs[grok] else Passthrough(grok);
        var before := if semantic.Some? then schema + [semantic.value] else schema;
        (match Compose(target, defs, compiler, before, fuel - 1)
         case None => None
         case Some(c) => Some(Composed(WrapIfNamed(property, c.text), c.schema)))
  }

  /** Compose the parts of a composer one after the other and concatenate their texts. */
  function ComposeAll(parts: seq<Pattern>, defs: map<string, Pattern>, compiler: string -> string,
                      schema: seq<Semantic>, fuel: nat): Option<Composed>
    decreases fuel, parts
  {
    if parts == [] then Some(Composed([], schema))
    else
      match Compose(parts[0], defs, compiler, schema, fuel)
      case None => None
      case Some(first) =>
        (match ComposeAll(parts[1..], defs, compiler, first.schema, fuel)
         case None => None
         case Some(rest) => Some(Composed(first.text + rest.text, rest.schema)))
  }

  /**
   * Composing only appends to the schema: what was there stays, in place,
   * and what is added does not depend on what was there; neither does the
   * text, nor whether composition finishes.
   */
  lemma {:induction false} ComposeAppendsOnly(p: Pattern, defs: map<string, Pattern>, compiler: string -> string,
                                              schema: seq<Semantic>, other: seq<Semantic>, fuel: nat)
    ensures Compose(p, defs, compiler, schema, fuel).Some? <==> Compose(p, defs, compiler, other, fuel).Some?
    ensures Compose(p, defs, compiler, schema, fuel).Some? ==>
              var c := Compose(p, defs, compiler, schema, fuel).value;
              var d := Compose(p, defs, compiler, other, fuel).value;
              IsPrefix(schema, c.schema) && IsPrefix(other, d.schema) && c.text == d.text
              && c.schema[|schema|..] == d.schema[|other|..]
    decreases fuel, p, 0
  {
    match p
    case Passthrough(_) =>
    case Compiled(_) =>
    case Named(property, inner) =>
      ComposeAppendsOnly(inner, defs, compiler, schema, other, fuel);
    case Sequence(parts) =>
      ComposeAllAppendsOnly(parts, defs, compiler, schema, other, fuel);
    case Reference(grok, property, semantic) =>
      if fuel > 0 {
        var target := if grok in defs then defs[grok] else Passthrough(grok);
        var before := if semantic.Some? then schema + [semantic.value] else schema;
        var otherBefore := if semantic.Some? then other + [semantic.value] else other;
        ComposeAppendsOnly(target, defs, compiler, before, otherBefore, fuel - 1);
        var c := Compose(target, defs, compiler, before, fuel - 1);
        if c.Some? {
          var d := Compose(target, defs, compiler, otherBefore, fuel - 1);
          PrefixChain(schema, before, c.value.schema);
          PrefixChain(other, otherBefore, d.value.schema);
        }
      }
  }

  lemma {:induction false} ComposeAllAppendsOnly(parts: seq<Pattern>, defs: map<string, Pattern>, compiler: string -> string,
                                                 schema: seq<Semantic>, other: seq<Semantic>, fuel: nat)
    ensures ComposeAll(parts, defs, compiler, schema, fuel).Some? <==> ComposeAll(parts, defs, compiler, other, fuel).Some?
    ensures ComposeAll(parts, defs, compiler, schema, fuel).Some? ==>
              var c := ComposeAll(parts, defs, compiler, schema, fuel).value;
              var d := ComposeAll(parts, defs, compiler, other, fuel).value;
              IsPrefix(schema, c.schema) && IsPrefix(other, d.schema) && c.text == d.text
              && c.schema[|schema|..] == d.schema[|other|..]
    decreases fuel, parts
  {
    if parts != [] {
      ComposeAppendsOnly(parts[0], defs, compiler, schema, other, fuel);
      var f := Compose(parts[0], defs, compiler, schema, fuel);
      if f.Some? {
        var g := Compose(parts[0], defs, compiler, other, fuel);
        ComposeAllAppendsOnly(parts[1..], defs, compiler, f.value.schema, g.value.schema, fuel);
        var c := ComposeAll(parts[1..], defs, compiler, f.value.schema, fuel);
        if c.Some? {
          var d := ComposeAll(parts[1..], defs, compiler, g.value.schema, fuel);
          PrefixChain(schema, f.value.schema, c.value.schema);
          PrefixChain(other, g.value.schema, d.value.schema);
        }
      }
    }
  }

  /**
   * A typed reference appends its own semantic first, ahead of anything its
   * definition appends.
   */
  lemma ReferenceSchemaOrder(grok: string, capture: Option<string>, semantic: Semantic,
                             defs: map<string, Pattern>, compiler: string -> string,
                             schema: seq<Semantic>, fuel: nat)
    requires Compose(Reference(grok, capture, Some(semantic)), defs, compiler, schema, fuel).Some?
    ensures var c := Compose(Reference(grok, capture, Some(semantic)), defs, compiler, schema, fuel).value;
            |c.schema| > |schema| && c.schema[..|schema| + 1] == schema + [semantic]
  {
    var target := if grok in defs then defs[grok] else Passthrough(grok);
    var before := schema + [semantic];
    var inner := Compose(target, defs, compiler, before, fuel - 1);
    ComposeAppendsOnly(target, defs, compiler, before, before, fuel - 1);
    assert inner.value.schema[..|before|] == before;
  }

  /** A name without a definition composes as the passthrough `%{name}`, wrapped if captured. */
  lemma UndefinedReferencePassesThrough(grok: string, capture: Option<string>, semantic: Option<Semantic>,
                                        defs: map<string, Pattern>, compiler: string -> string,
                                        schema: seq<Semantic>, fuel: nat)
    requires fuel > 0 && grok !in defs
    ensures var c := Compose(Reference(grok, capture, semantic), defs, compiler, schema, fuel);
            c.Some? && c.value.text == WrapIfNamed(capture, "%{" + grok + "}")
            && c.value.schema == (if semantic.Some? then schema + [semantic.value] else schema)
  {
    var before := if semantic.Some? then schema + [semantic.value] else schema;
    assert Compose(Passthrough(grok), defs, compiler, before, fuel - 1) == Some(Composed("%{" + grok + "}", before));
  }

  /** A captured, non-blank property name wraps the reference's text; a null or blank one leaves it as it is. */
  lemma WrapIfNamedCases(property: Option<string>, text: string)
    ensures IsNullOrWhiteSpace(property) ==> WrapIfNamed(property, text) == text
    ensures !IsNullOrWhiteSpace(property) ==>
              WrapIfNamed(property, text) == "(?<" + property.value + ">" + text + ")"
              && IsPrefix("(?<", WrapIfNamed(property, text))
  {
  }

  /** The message-schema list a reference appends to (the caller's `IList<Semantic>`). */
  class SchemaList {
    var items: seq<Semantic>

    constructor()
      ensures items == []
    {
      items := [];
    }
  }

  /** `ReferencePattern.Compose`: look the name up, append the semantic, compose, wrap. */
  method ComposeReference(grok: string, capture: Option<string>, semantic: Option<Semantic>,
                          defs: map<string, Pattern>, compiler: string -> string,
                          messageSchema: SchemaList, fuel: nat) returns (text: Option<string>)
    modifies messageSchema
    ensures var c := Compose(Reference(grok, capture, semantic), defs, compiler, old(messageSchema.items), fuel);
            (c.None? <==> text.None?)
            && (c.Some? ==> text == Some(c.value.text) && messageSchema.items == c.value.schema)
  {
    if fuel == 0 {
      return None;
    }
    var pattern := if grok in defs then defs[grok] else Passthrough(grok);
    if semantic.Some? {
      messageSchema.items := messageSchema.items + [semantic.value];
    }
    var result := Compose(pattern, defs, compiler, messageSchema.items, fuel - 1);
    if result.None? {
      return None;
    }
    messageSchema.items := result.value.schema;
    text := Some(WrapIfNamed(capture, result.value.text));
  }

  /** A pattern the parser's composer can hold: no references. */
  predicate ReferenceFree(p: Pattern) {
    match p
    case Reference(_, _, _) => false
    case Named(_, inner) => ReferenceFree(inner)
    case Sequence(parts) => forall i :: 0 <= i < |parts| ==> ReferenceFree(parts[i])
    case _ => true
  }

  /** Reference-free patterns compose without fuel and append nothing to the schema. */
  lemma {:induction false} ReferenceFreeComposes(p: Pattern, compiler: string -> string, schema: seq<Semantic>)
    requires ReferenceFree(p)
    ensures Compose(p, map[], compiler, schema, 0).Some?
    ensures Compose(p, map[], compiler, schema, 0).value.schema == schema
    decreases p, 0
  {
    match p
    case Named(_, inner) => ReferenceFreeComposes(inner, compiler, schema);
    case Sequence(parts) => ReferenceFreeComposesAll(parts, compiler, schema);
    case _ =>
  }

  lemma {:induction false} ReferenceFreeComposesAll(parts: seq<Pattern>, compiler: string -> string, schema: seq<Semantic>)
    requires forall i :: 0 <= i < |parts| ==> ReferenceFree(parts[i])
    ensures ComposeAll(parts, map[], compiler, schema, 0).Some?
    ensures ComposeAll(parts, map[], compiler, schema, 0).value.schema == schema
    decreases parts
  {
    if parts != [] {
      ReferenceFreeComposes(parts[0], compiler, schema);
      ReferenceFreeComposesAll(parts[1..], compiler, schema);
    }
  }

  /** The semantic actions of the grok grammar. */
  class GrokParser {
    /** The patterns composed so far, in order. */
    var composer: seq<Pattern>
    /** The macro library: name to body. */
    const templates: map<string, string>
    /** The function that turns a macro body into regular-expression text. */
    const compiler: string -> string
    /** The message schema, one entry per semantic action, in order. */
    var schema: seq<Semantic>
    /** Casting rules not yet attached to a property; the top of the stack is the last element. */
    var rulesStack: seq<GrokRule>
    /** Property names waiting for the pattern they capture; the top is the last element. */
    var propertiesStack: seq<string>

    predicate Valid()
      reads this
    {
      forall i :: 0 <= i < |composer| ==> ReferenceFree(composer[i])
    }

    constructor(templates: map<string, string>, compiler: string -> string)
      ensures Valid()
      ensures this.templates == templates && this.compiler == compiler
      ensures composer == [] && schema == [] && rulesStack == [] && propertiesStack == []
    {
      this.templates := templates;
      this.compiler := compiler;
      composer := [];
      schema := [];
      rulesStack := [];
      propertiesStack := [];
    }

    /** The composer's content: the parts' texts concatenated in order. */
    function Template(): (r: string)
      reads this
      requires Valid()
      ensures ComposeAll(composer, map[], compiler, [], 0).Some?
      ensures composer == [] ==> r == []
    {
      ReferenceFreeComposesAll(composer, compiler, []);
      ComposeAll(composer, map[], compiler, [], 0).value.text
    }

    /**
     * A macro reference. A known macro becomes a compiled pattern, captured
     * under the top pending property if there is one (which is popped); an
     * unknown one passes through. Either way exactly one pattern is added.
     */
    method OnPattern(patternName: string)
      requires Valid()
      modifies this
      ensures Valid()
      ensures patternName in templates && |old(propertiesStack)| > 0 ==>
                var top := old(propertiesStack)[|old(propertiesStack)| - 1];
                propertiesStack == old(propertiesStack)[..|old(propertiesStack)| - 1]
                && composer == old(composer) + [Named(top, Compiled(templates[patternName]))]
      ensures patternName in templates && |old(propertiesStack)| == 0 ==>
                propertiesStack == old(propertiesStack) && composer == old(composer) + [Compiled(templates[patternName])]
      ensures patternName !in templates ==>
                propertiesStack == old(propertiesStack) && composer == old(composer) + [Passthrough(patternName)]
      ensures schema == old(schema) && rulesStack == old(rulesStack)
    {
      var pattern: Pattern;
      if patternName in templates {
        pattern := Compiled(templates[patternName]);
        if |propertiesStack| > 0 {
          var property := propertiesStack[|propertiesStack| - 1];
          propertiesStack := propertiesStack[..|propertiesStack| - 1];
          pattern := Named(property, pattern);
        }
      } else {
        pattern := Passthrough(patternName);
      }
      composer := composer + [pattern];
    }

    /**
     * A semantic action: a new schema entry for `property` takes every pending
     * rule in pop order (last declared first), and the property waits for
     * the pattern it captures.
     */
    method OnSemantic(property: string)
      requires Valid()
      modifies this
      ensures Valid()
      ensures rulesStack == []
      ensures schema == old(schema) + [Semantic(property, Reverse(old(rulesStack)))]
      ensures propertiesStack == old(propertiesStack) + [property]
      ensures composer == old(composer)
    {
      var castingRules: seq<GrokRule> := [];
      while |rulesStack| > 0
        invariant rulesStack == old(rulesStack)[..|rulesStack|]
        invariant castingRules == Reverse(old(rulesStack)[|rulesStack|..])
        invariant composer == old(composer) && schema == old(schema) && propertiesStack == old(propertiesStack)
        decreases |rulesStack|
      {
        var k := |rulesStack|;
        ghost var rest := old(rulesStack)[k - 1..];
        assert rest[1..] == old(rulesStack)[k..];
        castingRules := castingRules + [rulesStack[k - 1]];
        rulesStack := rulesStack[..k - 1];
      }
      assert old(rulesStack)[0..] == old(rulesStack);
      schema := schema + [Semantic(property, castingRules)];
      propertiesStack := propertiesStack + [property];
    }

    /** A casting rule: pushed onto the rule stack; nothing else changes. */
    method AddRule(rule: GrokRule)
      modifies this
      ensures rulesStack == old(rulesStack) + [rule]
      ensures composer == old(composer) && schema == old(schema) && propertiesStack == old(propertiesStack)
    {
      rulesStack := rulesStack + [rule];
    }
  }
}
