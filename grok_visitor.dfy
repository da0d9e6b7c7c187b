/**
 * GrokVisitor: walks a parsed grok string and writes the regular expression
 * it stands for. A `%{NAME}` whose NAME is a built-in macro is replaced by the
 * macro's body, with nested references expanded pass by pass; any other
 * `%{NAME}` is written back unchanged; literal text is copied.
 */
module Visitor {
  import opened Common

  /** The pass limit of the expansion loop. */
  const MaxDepth: nat := 20

  /** The built-in macros, in the order the expansion pass visits them. */
  const Templates: seq<(string, string)> := [
    ("USERNAME", "[a-zA-Z0-9._-]+"),
    ("WORD", @"\b\w+\b"),
    ("SPACE", @"\s*"),
    ("DATA", @".*?"),
    ("GREEDYDATA", @".*"),
    ("INT", @"(?:[+-]?(?:[0-9]+))"),
    ("BASE10NUM", @"(?<![0-9.+-])(?>[+-]?(?:(?:[0-9]+(?:\.[0-9]+)?)|(?:\.[0-9]+)))"),
    ("BASE16NUM", @"(?<![0-9A-Fa-f])(?:[+-]?(?:0x)?(?:[0-9A-Fa-f]+))"),
    ("BASE16FLOAT", @"\b(?<![0-9A-Fa-f.])(?:[+-]?(?:0x)?(?:(?:[0-9A-Fa-f]+(?:\.[0-9A-Fa-f]*)?)|(?:\.[0-9A-Fa-f]+)))\b"),
    ("POSINT", @"\b(?:[1-9][0-9]*)\b"),
    ("NONNEGINT", @"\b(?:[0-9]+)\b"),
    ("NOTSPACE", @"\S+"),
    ("QUOTEDSTRING", "(?>(?<!\\\\)(?>\"(?>\\\\.|[^\\\\\"]+)+\"|\"\"|(?>'(?>\\\\.|[^\\\\']+)+')|''|(?>`(?>\\\\.|[^\\\\`]+)+`)|``))"),
    ("YEAR", @"(?>\d\d){1,2}"),
    ("HOUR", @"(?:2[0123]|[01]?[0-9])"),
    ("MINUTE", @"(?:[0-5][0-9])"),
    ("SECOND", @"(?:(?:[0-5][0-9]|60)(?:[:.,][0-9]+)?)"),
    ("MONTH", @"\b(?:Jan(?:uary)?|Feb(?:ruary)?|Mar(?:ch)?|Apr(?:il)?|May|Jun(?:e)?|Jul(?:y)?|Aug(?:ust)?|Sep(?:tember)?|Oct(?:ober)?|Nov(?:ember)?|Dec(?:ember)?)\b"),
    ("MONTHNUM", @"(?:0?[1-9]|1[0-2])"),
    ("MONTHDAY", @"(?:(?:0[1-9])|(?:[12][0-9])|(?:3[01])|[1-9])"),
    ("TIME", @"(?!<[0-9])%{HOUR}:%{MINUTE}(?::%{SECOND})(?![0-9])"),
    ("DATE_US", @"%{MONTHNUM}[/-]%{MONTHDAY}[/-]%{YEAR}"),
    ("DATE_EU", @"%{MONTHDAY}[./-]%{MONTHNUM}[./-]%{YEAR}"),
    ("ISO8601_TIMEZONE", @"(?:Z|[+-]%{HOUR}(?::?%{MINUTE}))"),
    ("ISO8601_SECOND", @"(?:%{SECOND}|60)"),
    ("TIMESTAMP_ISO8601", @"%{YEAR}-%{MONTHNUM}-%{MONTHDAY}[T ]%{HOUR}:?%{MINUTE}(?::?%{SECOND})?%{ISO8601_TIMEZONE}?")
  ]

  /** The reference text `%{name}`. */
  function Link(name: string): (l: string)
    ensures IsPrefix("%{", l) && |l| == |name| + 3
  {
    "%{" + name + "}"
  }

  /** The body of macro `name`, if the table defines it (first entry wins). */
  function Lookup(table: seq<(string, string)>, name: string): Option<string>
    decreases |table|
  {
    if table == [] then None
    else if table[0].0 == name then Some(table[0].1)
    else Lookup(table[1..], name)
  }

  /** A name is found exactly when some entry has it, and what is found is that entry's body. */
  lemma {:induction false} LookupFindsEntry(table: seq<(string, string)>, name: string)
    ensures Lookup(table, name).Some? <==> exists i :: 0 <= i < |table| && table[i].0 == name
    ensures Lookup(table, name).Some? ==>
              exists i :: 0 <= i < |table| && table[i] == (name, Lookup(table, name).value)
    decreases |table|
  {
    if table != [] && table[0].0 != name {
      LookupFindsEntry(table[1..], name);
      if exists i :: 0 <= i < |table| && table[i].0 == name {
        var i :| 0 <= i < |table| && table[i].0 == name;
        assert table[1..][i - 1].0 == name;
      }
      if Lookup(table, name).Some? {
        var i :| 0 <= i < |table[1..]| && table[1..][i] == (name, Lookup(table, name).value);
        assert table[i + 1] == (name, Lookup(table, name).value);
      }
    } else if table != [] {
      assert table[0] == (name, Lookup(table, name).value);
    }
  }

  /** One step of the expansion pass: replace every reference to one macro. */
  function ExpandOne(regex: string, entry: (string, string)): string {
    var link := Link(entry.0);
    if ContainsStr(regex, link) then ReplaceAll(regex, link, entry.1) else regex
  }

  /** One whole expansion pass: every macro of the table, in table order. */
  function Pass(table: seq<(string, string)>, regex: string): string
    decreases |table|
  {
    if table == [] then regex else Pass(table[1..], ExpandOne(regex, table[0]))
  }

  /**
   * What the expansion loop yields once `depth` passes have been made and
   * `regex` is the text after the last of them: `Some` with the expanded
   * text when the loop exits, `None` when it never does.
   */
  function AfterPass(table: seq<(string, string)>, regex: string, depth: nat): Option<string>
    decreases MaxDepth + 1 - depth, 1
  {
    if depth > MaxDepth then None
    else if !ContainsStr(regex, "%{") then Some(regex)
    else ResolveFrom(table, regex, depth)
  }

  /**
   * The expansion loop started with `depth` passes made: one more pass,
   * then exit when no `%{` is left and the pass limit is not exceeded.
   * Once the limit is exceeded the loop condition stays true forever.
   */
  function ResolveFrom(table: seq<(string, string)>, regex: string, depth: nat): (r: Option<string>)
    ensures r.Some? ==> !ContainsStr(r.value, "%{")
    decreases MaxDepth + 1 - depth, 0
  {
    if depth > MaxDepth then None
    else AfterPass(table, Pass(table, regex), depth + 1)
  }

  /** The `do { pass } while (contains "%{" || depth > MaxDepth)` loop run for at most `fuel` passes. */
  function DoWhile(table: seq<(string, string)>, regex: string, depth: nat, fuel: nat): Option<string>
    decreases fuel
  {
    if fuel == 0 then None
    else
      var next := Pass(table, regex);
      if ContainsStr(next, "%{") || depth + 1 > MaxDepth then DoWhile(table, next, depth + 1, fuel - 1)
      else Some(next)
  }

  /** Past the pass limit the literal loop, counting passes without bound, never exits, whatever the fuel. */
  lemma {:induction false} DoWhilePastLimit(table: seq<(string, string)>, regex: string, depth: nat, fuel: nat)
    requires depth >= MaxDepth
    ensures DoWhile(table, regex, depth, fuel) == None
    decreases fuel
  {
    if fuel > 0 {
      DoWhilePastLimit(table, Pass(table, regex), depth + 1, fuel - 1);
    }
  }

  /**
   * The decided outcome agrees with the literal loop: when it is `Some(x)`,
   * the loop exits with `x` within the pass limit, and when it is `None`,
   * no number of passes makes the loop exit.
   */
  lemma {:induction false} ResolveMatchesLoop(table: seq<(string, string)>, regex: string, depth: nat, fuel: nat)
    ensures ResolveFrom(table, regex, depth).Some? && fuel + depth >= MaxDepth ==>
              DoWhile(table, regex, depth, fuel) == ResolveFrom(table, regex, depth)
    ensures ResolveFrom(table, regex, depth).None? ==> DoWhile(table, regex, depth, fuel) == None
    decreases fuel
  {
    var next := Pass(table, regex);
    if depth >= MaxDepth {
      DoWhilePastLimit(table, regex, depth, fuel);
    } else if fuel > 0 && ContainsStr(next, "%{") {
      assert ResolveFrom(table, regex, depth) == ResolveFrom(table, next, depth + 1);
      assert DoWhile(table, regex, depth, fuel) == DoWhile(table, next, depth + 1, fuel - 1);
      ResolveMatchesLoop(table, next, depth + 1, fuel - 1);
    } else if !ContainsStr(next, "%{") {
      assert ResolveFrom(table, regex, depth) == Some(next);
    }
  }

  /** A pass leaves a text without any `%{` unchanged. */
  lemma {:induction false} PassWithoutReferences(table: seq<(string, string)>, regex: string)
    requires !ContainsStr(regex, "%{")
    ensures Pass(table, regex) == regex
    decreases |table|
  {
    if table != [] {
      var link := Link(table[0].0);
      if ContainsStr(regex, link) {
        ContainsStrPrefixOfPattern(regex, link, "%{");
      }
      PassWithoutReferences(table[1..], regex);
    }
  }

  /** A pass leaves unchanged a text that names no macro of the table. */
  lemma {:induction false} PassWithoutKnownReferences(table: seq<(string, string)>, regex: string)
    requires forall i :: 0 <= i < |table| ==> !ContainsStr(regex, Link(table[i].0))
    ensures Pass(table, regex) == regex
    decreases |table|
  {
    if table != [] {
      assert !ContainsStr(regex, Link(table[0].0));
      PassWithoutKnownReferences(table[1..], regex);
    }
  }

  /** A macro body with no references is written out as it is. */
  lemma PlainBodyResolves(table: seq<(string, string)>, body: string)
    requires !ContainsStr(body, "%{")
    ensures ResolveFrom(table, body, 0) == Some(body)
  {
    PassWithoutReferences(table, body);
  }

  /**
   * A `%{` that no pass can remove (an unknown or malformed reference)
   * keeps the loop condition true forever: the expansion never finishes.
   */
  lemma {:induction false} StuckReferenceDiverges(table: seq<(string, string)>, regex: string, depth: nat)
    requires ContainsStr(regex, "%{")
    requires forall i :: 0 <= i < |table| ==> !ContainsStr(regex, Link(table[i].0))
    ensures ResolveFrom(table, regex, depth) == None
    decreases MaxDepth + 1 - depth
  {
    if depth <= MaxDepth {
      PassWithoutKnownReferences(table, regex);
      StuckReferenceDiverges(table, regex, depth + 1);
    }
  }

  /** A node of the parsed grok string, in document order. */
  datatype GrokNode =
    | Find(id: Option<string>)   // `%{...}`; `id` is absent when the parser found no ID token
    | Paste(strings: seq<string>) // literal text between references

  /** What `VisitFind`/`VisitPaste` append for one node; `None` when the visit never finishes. */
  function NodeText(table: seq<(string, string)>, n: GrokNode): Option<string> {
    match n
    case Find(None) => Some([])
    case Find(Some(name)) =>
      (match Lookup(table, name)
       case None => Some(Link(name))
       case Some(body) => ResolveFrom(table, body, 0))
    case Paste(strings) => Some(Concat(strings))
  }

  /** The regular expression a whole grok string is turned into; `None` when the visit never finishes. */
  function TemplateOf(table: seq<(string, string)>, nodes: seq<GrokNode>): Option<string>
    decreases |nodes|
  {
    if nodes == [] then Some([])
    else
      match NodeText(table, nodes[0])
      case None => None
      case Some(head) =>
        (match TemplateOf(table, nodes[1..])
         case None => None
         case Some(tail) => Some(head + tail))
  }

  /** Translation is compositional: a grok string split in two translates piece by piece. */
  lemma {:induction false} TemplateOfAppend(table: seq<(string, string)>, a: seq<GrokNode>, b: seq<GrokNode>)
    ensures TemplateOf(table, a + b).Some? <==> TemplateOf(table, a).Some? && TemplateOf(table, b).Some?
    ensures TemplateOf(table, a + b).Some? ==>
              TemplateOf(table, a + b).value == TemplateOf(table, a).value + TemplateOf(table, b).value
    decreases |a|
  {
    if a == [] {
      assert a + b == b;
    } else {
      assert (a + b)[0] == a[0] && (a + b)[1..] == a[1..] + b;
      TemplateOfAppend(table, a[1..], b);
      var head := NodeText(table, a[0]);
      var restA := TemplateOf(table, a[1..]);
      var restAB := TemplateOf(table, a[1..] + b);
      var tb := TemplateOf(table, b);
      if head.Some? && restAB.Some? {
        assert restA.Some? && tb.Some?;
        assert head.value + (restA.value + tb.value) == (head.value + restA.value) + tb.value;
      }
    }
  }

  /** Translating one more node: the prefix's text followed by the node's, and `None` if either is. */
  lemma PrefixStep(table: seq<(string, string)>, nodes: seq<GrokNode>, i: nat)
    requires i < |nodes|
    ensures TemplateOf(table, nodes[..i + 1]).Some? <==>
              TemplateOf(table, nodes[..i]).Some? && NodeText(table, nodes[i]).Some?
    ensures TemplateOf(table, nodes[..i + 1]).Some? ==>
              TemplateOf(table, nodes[..i + 1]).value == TemplateOf(table, nodes[..i]).value + NodeText(table, nodes[i]).value
  {
    assert nodes[..i + 1] == nodes[..i] + [nodes[i]];
    TemplateOfAppend(table, nodes[..i], [nodes[i]]);
    assert [nodes[i]][1..] == [];
    if NodeText(table, nodes[i]).Some? {
      assert NodeText(table, nodes[i]).value + [] == NodeText(table, nodes[i]).value;
    }
  }

  /** A node whose visit never finishes makes the whole translation diverge. */
  lemma DivergesAt(table: seq<(string, string)>, nodes: seq<GrokNode>, i: nat)
    requires i < |nodes| && NodeText(table, nodes[i]).None?
    ensures TemplateOf(table, nodes).None?
  {
    TemplateOfAppend(table, nodes[..i], nodes[i..]);
    assert nodes[..i] + nodes[i..] == nodes;
    assert nodes[i..][0] == nodes[i];
  }

  /** A grok string without references translates to its literal text. */
  lemma {:induction false} LiteralsOnly(table: seq<(string, string)>, nodes: seq<GrokNode>)
    requires forall i :: 0 <= i < |nodes| ==> nodes[i].Paste?
    ensures TemplateOf(table, nodes).Some?
    ensures |nodes| == 1 ==> TemplateOf(table, nodes).value == Concat(nodes[0].strings)
    decreases |nodes|
  {
    if nodes != [] {
      LiteralsOnly(table, nodes[1..]);
    }
  }

  /** Whether a visit ran to the end or entered the endless expansion loop. */
  datatype VisitStatus = Finished | Diverged

  /** One pass of the expansion loop over the macro table (the `foreach` of `VisitFind`). */
  method ExpansionPass(table: seq<(string, string)>, regex: string) returns (r: string)
    ensures r == Pass(table, regex)
  {
    r := regex;
    var i := 0;
    while i < |table|
      invariant 0 <= i <= |table|
      invariant Pass(table[i..], r) == Pass(table, regex)
    {
      assert table[i..][1..] == table[i + 1..];
      var link := "%{" + table[i].0 + "}";
      if ContainsStr(r, link) {
        r := ReplaceAll(r, link, table[i].1);
      }
      i := i + 1;
    }
  }

  class GrokVisitor {
    /** The macro table (shared by every visitor). */
    const templates: seq<(string, string)>
    /** The regular expression written so far. */
    var stringBuilder: string

    constructor()
      ensures templates == Templates && stringBuilder == []
    {
      templates := Templates;
      stringBuilder := [];
    }

    /** The regular expression written so far. */
    function Template(): string
      reads this
    {
      stringBuilder
    }

    /**
     * Visit one `%{...}` node. A known macro is expanded by passes until no
     * `%{` is left; when that never happens the visit does not return
     * (`Diverged`) and nothing is appended.
     */
    method VisitFind(id: Option<string>) returns (status: VisitStatus)
      modifies this
      ensures NodeText(templates, Find(id)).Some? ==>
                status == Finished && stringBuilder == old(stringBuilder) + NodeText(templates, Find(id)).value
      ensures NodeText(templates, Find(id)).None? ==> status == Diverged && stringBuilder == old(stringBuilder)
    {
      if id.None? {
        return Finished;
      }
      var name := id.value;
      var body := Lookup(templates, name);
      if body.Some? {
        var regex := body.value;
        var depth := 0;
        regex := ExpansionPass(templates, regex);
        depth := depth + 1;
        while ContainsStr(regex, "%{") && depth <= MaxDepth
          invariant 1 <= depth <= MaxDepth + 1
          invariant AfterPass(templates, regex, depth) == ResolveFrom(templates, body.value, 0)
          invariant stringBuilder == old(stringBuilder)
          decreases MaxDepth + 1 - depth
        {
          regex := ExpansionPass(templates, regex);
          depth := depth + 1;
        }
        if depth > MaxDepth {
          return Diverged;
        }
        stringBuilder := stringBuilder + regex;
      } else {
        stringBuilder := stringBuilder + "%{";
        stringBuilder := stringBuilder + name;
        stringBuilder := stringBuilder + "}";
        assert stringBuilder == old(stringBuilder) + Link(name);
      }
      status := Finished;
    }

    /** Visit a literal node: its strings are copied in order. */
    method VisitPaste(strings: seq<string>)
      modifies this
      ensures stringBuilder == old(stringBuilder) + Concat(strings)
    {
      var i := 0;
      while i < |strings|
        invariant 0 <= i <= |strings|
        invariant stringBuilder == old(stringBuilder) + Concat(strings[..i])
      {
        ConcatAppend(strings[..i], [strings[i]]);
        assert strings[..i + 1] == strings[..i] + [strings[i]];
        stringBuilder := stringBuilder + strings[i];
        i := i + 1;
      }
      assert strings[..i] == strings;
    }

    /** Visit a whole parsed grok string, stopping where a visit never returns. */
    method Visit(nodes: seq<GrokNode>) returns (status: VisitStatus)
      modifies this
      ensures TemplateOf(templates, nodes).Some? ==>
                status == Finished && stringBuilder == old(stringBuilder) + TemplateOf(templates, nodes).value
      ensures TemplateOf(templates, nodes).None? ==> status == Diverged
    {
      var i := 0;
      while i < |nodes|
        invariant 0 <= i <= |nodes|
        invariant TemplateOf(templates, nodes[..i]).Some?
        invariant stringBuilder == old(stringBuilder) + TemplateOf(templates, nodes[..i]).value
      {
        var s := VisitNode(nodes[i]);
        PrefixStep(templates, nodes, i);
        if s == Diverged {
          DivergesAt(templates, nodes, i);
          return Diverged;
        }
        i := i + 1;
      }
      assert nodes[..i] == nodes;
      status := Finished;
    }

    /** Visit one node of either kind. */
    method VisitNode(n: GrokNode) returns (status: VisitStatus)
      modifies this
      ensures NodeText(templates, n).Some? ==>
                status == Finished && stringBuilder == old(stringBuilder) + NodeText(templates, n).value
      ensures NodeText(templates, n).None? ==> status == Diverged
    {
      match n {
        case Find(id) =>
          status := VisitFind(id);
        case Paste(strings) =>
          VisitPaste(strings);
          status := Finished;
      }
    }
  }
}
