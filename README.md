# logviewer core, modelled in Dafny

This project models the log-structuring engine of logviewer, a desktop viewer for
large log files. It also models the in-memory structures and pure helpers around that
engine.

- **Grok compilation.** `GrokVisitor` expands `%{NAME}` macros from a fixed table. The
  grok parser's semantic actions build an ordered message schema. `ReferencePattern`
  wraps a composed fragment as a named capture.
- **Matching and casting.** `GrokMatcher` turns a regular-expression match into
  properties in schema order. `LogMessage` collects a header and a body line by line.
  Its `Cache` casts the raw properties into typed ones.
- **Aho–Corasick keyword automaton.** A trie with breadth-first failure links. Three
  queries: `Contains`, `ContainsThatStart` and `FindAll`.
- **Containers.** `FixedSizeDictionary`, an integer-keyed map over two arrays.
  `VirtualizingCollection`, a page cache with eviction by touch time.
- **Line grouping and controller arithmetic.** `LogReader.Read` groups lines into
  messages. `MainController` handles paging counts, level detection, filter
  normalisation, the recent-files list and per-level counters.
- **Pure helpers.** `Extensions` and `Maybe`.

## How the model is organised

There is one module per source file:

| module | file |
|---|---|
| `Visitor` | `grok_visitor.dfy` |
| `Grammar` | `grok_parser.dfy`; it also holds `ReferencePattern` |
| `Matcher` | `grok_matcher.dfy` |
| `Messages` | `log_message.dfy` |
| `AhoCorasick` | `aho_corasick.dfy` |
| `FixedSize` | `fixed_size_dictionary.dfy` |
| `Virtualizing` | `virtualizing_collection.dfy` |
| `Reader` | `log_reader.dfy` |
| `Controller` | `main_controller.dfy` |
| `Extensions` | `extensions.dfy` |
| `Maybe` | `maybe.dfy` |

Three support modules add no behaviour of their own:

- `Common` holds `Option`, string searching and replacing, the ASCII upper-casing the
  code relies on, and C#'s truncating `/` and `%` as `Quot`/`Rem`.
- `Schema` holds stand-ins for the value types whose files are not part of this model:
  `LogLevel`, `ParserType`, `GrokRule` and `Semantic`.
- `KeywordAutomaton` states on words what the Aho–Corasick node table means. Its
  definitions are the longest trie suffix, the failure walk, the result lists and the
  three queries; its lemmas prove them sound and complete.

Imperative source becomes imperative Dafny. The visitor's string builder, the parser's
stacks, the matcher's fields, the message's fields, the dictionary's arrays, the page
cache's maps and the controller's fields are class fields, changed by methods with
`modifies` clauses. Each of these methods is proved against a specification function.

The Aho–Corasick nodes live in a node table: a `seq` of `Node` values held by the tree.
A node reference is an index into that table.

Four behaviours of the code as written are modelled as they are:

- **Macro expansion can run forever.** The loop condition is
  `regex.Contains("%{") || depth > MaxDepth`, so once 20 passes are exceeded the loop
  keeps going for as long as the pass counter stays above 20: in the code, until that
  32-bit `int` wraps after about 2^31 passes (see "## Left out"). The model counts passes
  without bound, so there the loop never ends. The model computes the outcome (`Visitor.ResolveFrom`: `None` means the
  loop never exits). It proves that this agrees with a fuel-bounded literal loop
  (`Visitor.ResolveMatchesLoop`). A reference that no pass can remove diverges
  (`Visitor.StuckReferenceDiverges`). `GrokVisitor.VisitFind` returns `Diverged`
  where the program would hang.
- **`FixedSizeDictionary.Count`** is the capacity, not the number of keys.
- **`ContainsThatStart` is not a prefix test** (see Findings).
- **The `GrokMatcher` constructor can throw** on grok text that is neither valid grok
  nor a valid regular expression. The model records this as `Escaped` (see Findings).

## Model

A function whose properties are stated by lemmas has its row under those lemmas: `Extensions.FilterSchemaSelects`, `HasPropertyIff` and `PropertyNameOfFirst` specify `FilterSchema`, `HasProperty` and `PropertyNameOf`; the `SavedRecent…` lemmas specify `Controller.SavedRecent`; and `Controller.TallyCounts` specifies `Controller.Tally`.

| member | source | states |
|---|---|---|
| Visitor.LookupFindsEntry | logviewer.core/GrokVisitor.cs:64-66 | a macro name is found exactly when the table has an entry for it, and the body found is that entry's |
| Visitor.ExpansionPass | logviewer.core/GrokVisitor.cs:72-79 | one pass replaces, key by key in table order, every occurrence of `%{k}` with k's body (equals `Pass`) |
| Visitor.ResolveFrom | logviewer.core/GrokVisitor.cs:70-83 | whenever the expansion loop exits, its text contains no `%{` |
| Visitor.DoWhilePastLimit | logviewer.core/GrokVisitor.cs:81 | once `depth` exceeds `MaxDepth` (20) the loop condition stays true: with an unbounded pass counter, no number of further passes makes it exit |
| Visitor.ResolveMatchesLoop | logviewer.core/GrokVisitor.cs:70-81 | the decided outcome agrees with the literal do-while loop: a result is reached within the pass limit, and `None` means that no amount of fuel ends the loop |
| Visitor.PassWithoutReferences | logviewer.core/GrokVisitor.cs:72-79 | a pass leaves a text without `%{` unchanged |
| Visitor.PassWithoutKnownReferences | logviewer.core/GrokVisitor.cs:72-79 | a pass leaves unchanged a text that names no macro of the table |
| Visitor.PlainBodyResolves | logviewer.core/GrokVisitor.cs:70-83 | a body with no `%{` is written out unchanged after its single mandatory pass |
| Visitor.StuckReferenceDiverges | logviewer.core/GrokVisitor.cs:81 | a `%{` that no macro of the table can remove makes the expansion never finish |
| Visitor.TemplateOfAppend | logviewer.core/GrokVisitor.cs:94-102 | translation is compositional: the template of two node lists is the concatenation of their templates, and it finishes exactly when both do |
| Visitor.LiteralsOnly | logviewer.core/GrokVisitor.cs:94-102 | a grok string of literal text only translates to that text |
| Visitor.GrokVisitor.constructor | logviewer.core/GrokVisitor.cs:14-46 | the visitor starts with the built-in macro table and an empty builder |
| Visitor.GrokVisitor.VisitFind | logviewer.core/GrokVisitor.cs:53-92 | an ID-less find appends nothing; an unknown name appends exactly `%{name}`; a known one appends its full expansion, or the visit diverges and appends nothing |
| Visitor.GrokVisitor.VisitPaste | logviewer.core/GrokVisitor.cs:94-102 | the literal strings are appended in order |
| Visitor.GrokVisitor.Visit | logviewer.core/GrokVisitor.cs:48-102 | the builder gains `TemplateOf(nodes)`: every paste and every expanded or passthrough find, in order; it diverges exactly when some find does |
| Visitor.GrokVisitor.VisitNode | logviewer.core/GrokVisitor.cs:53-102 | one node appends its `NodeText`, or diverges exactly when that text is undefined |
| Visitor.PrefixStep | logviewer.core/GrokVisitor.cs:94-102 | translating one more node appends its text, and is undefined when either part is |
| Visitor.DivergesAt | logviewer.core/GrokVisitor.cs:70-81 | a node whose expansion never finishes makes the whole translation diverge |
| Grammar.ParseNamedCapture | logviewer.engine/grammar/ReferencePattern.cs:37 | a named capture is the name and the content plus five characters of syntax |
| Grammar.NamedCaptureRoundTrip | logviewer.engine/grammar/ReferencePattern.cs:37 | the name and the content can be read back out of `(?<name>content)` when the name has no `>` |
| Grammar.WrapIfNamedCases | logviewer.engine/grammar/ReferencePattern.cs:35-37 | a null or blank property leaves the composed text unchanged; otherwise it becomes `(?<property>text)` |
| Grammar.UndefinedReferencePassesThrough | logviewer.engine/grammar/ReferencePattern.cs:25-37 | a name missing from the definitions composes through the passthrough `%{name}`, appending just its own semantic |
| Grammar.ReferenceSchemaOrder | logviewer.engine/grammar/ReferencePattern.cs:29-34 | a typed reference appends its semantic first, ahead of anything its definition appends |
| Grammar.ComposeAppendsOnly | logviewer.engine/grammar/ReferencePattern.cs:23-38 | composing only appends to the schema; what it appends and the text do not depend on what was there |
| Grammar.ComposeAllAppendsOnly | logviewer.engine/grammar/ReferencePattern.cs:34 | the same for the parts of a composer composed in order |
| Grammar.ComposeReference | logviewer.engine/grammar/ReferencePattern.cs:23-38 | `Compose` on the caller's schema list: its text and the list's new contents are those of the `Compose` function |
| Grammar.ReferenceFreeComposes | logviewer.engine/grammar/Grok.Parser.cs:33-61 | the patterns the parser's composer holds compose without definitions and add nothing to the schema |
| Grammar.ReferenceFreeComposesAll | logviewer.engine/grammar/Grok.Parser.cs:33-36 | the composer's content is defined for any list of such patterns |
| Grammar.GrokParser.constructor | logviewer.engine/grammar/Grok.Parser.cs:9-23 | empty composer, schema and stacks, with the given macro library and compiler |
| Grammar.GrokParser.Template | logviewer.engine/grammar/Grok.Parser.cs:33-36 | the composer's content is always defined for the parser's patterns, and it is empty for an empty composer |
| Grammar.GrokParser.OnPattern | logviewer.engine/grammar/Grok.Parser.cs:43-61 | exactly one pattern is appended; a known name pops at most one property and wraps the compiled pattern with it; an unknown name passes through and leaves the property stack alone |
| Grammar.GrokParser.OnSemantic | logviewer.engine/grammar/Grok.Parser.cs:63-72 | the rule stack is emptied into one new schema entry in pop order (the reverse of declaration), and the property is pushed |
| Grammar.GrokParser.AddRule | logviewer.engine/grammar/Grok.Parser.cs:74-77 | exactly one rule is pushed and nothing else changes |
| Matcher.Construct | logviewer.engine/GrokMatcher.cs:39-73 | on success the template and regex are the compiled text, the schema is the compiler's, and compilation has not failed; otherwise compilation has failed and the template is the grok text; after a grok syntax error the regex is the grok text, and the constructor throws exactly when the engine rejects that text too; after any other error the regex is the empty pattern; whenever nothing was thrown and the engine accepts the empty pattern, the regex in use is one the engine accepts |
| Matcher.OpenGroupEscapes | logviewer.engine/GrokMatcher.cs:46-72 | for grok text `(%{`, a grok syntax error that the engine also rejects as a regular expression, the constructor throws |
| Matcher.ConstructDegraded | logviewer.engine/GrokMatcher.cs:39-73 | never throws; leaves a regex the engine accepts when it accepts the empty pattern; compilation fails in the same cases; otherwise agrees with `Construct` everywhere except in the escaping case |
| Matcher.GrokMatcher.constructor | logviewer.engine/GrokMatcher.cs:33-73 | the fields are the state `Construct` describes, including whether the constructor threw |
| Matcher.GrokMatcher.Match | logviewer.engine/GrokMatcher.cs:103-106 | a line matches exactly when the engine finds the regex in use in it; `Parse` returns `None` exactly on the lines that do not match |
| Matcher.GrokMatcher.Parse | logviewer.engine/GrokMatcher.cs:113-129 | `None` exactly when the line does not match; otherwise one pair per schema entry, in order, with the property name and that group's value |
| Messages.SplitLines | logviewer.engine/LogMessage.cs:108-119 | splitting a text at newlines yields at least one piece |
| Messages.TerminatedIsJoined | logviewer.engine/LogMessage.cs:108-119 | the body builder holds the body lines joined by newlines, plus one trailing newline |
| Messages.SplitJoin | logviewer.engine/LogMessage.cs:108-119 | joining newline-free lines and splitting the result gives the lines back |
| Messages.SplitFirst | logviewer.engine/LogMessage.cs:108-119 | a text starting with a newline-free line and a newline splits into that line followed by the rest's pieces |
| Messages.JoinSplit | logviewer.engine/LogMessage.cs:108-119 | splitting a text and joining the pieces gives the text back |
| Messages.CachedBodyIsJoined | logviewer.engine/LogMessage.cs:321-326 | dropping the builder's last character leaves exactly the body lines joined by newlines |
| Messages.TryParseLogLevel | logviewer.engine/LogMessage.cs:131-168 | the vocabulary never yields `LogLevel.None` |
| Messages.TryParseLogLevelIgnoresCase | logviewer.engine/LogMessage.cs:133 | texts equal up to case are recognised alike |
| Messages.LevelNamesParse | logviewer.engine/LogMessage.cs:131-168 | every level's own name is recognised as that level, and "None" is not recognised |
| Messages.WarningIsWarn | logviewer.engine/LogMessage.cs:147-150 | "Warning" is recognised as `Warn` |
| Messages.SemanticAction | logviewer.engine/LogMessage.cs:251-261 | the level of the first rule whose pattern occurs in the data; otherwise that of the first default rule; none when there is no default rule |
| Messages.TryRunSemanticAction | logviewer.engine/LogMessage.cs:251-261 | the two searches as loops compute `SemanticAction` |
| Messages.Trim | logviewer.engine/LogMessage.cs:202 | the trimmed text is a slice of the input with only number white space outside it, and it neither starts nor ends with number white space |
| Messages.ParseLong | logviewer.engine/LogMessage.cs:199-207 | a parsed value lies in the 64-bit range |
| Messages.Digits | logviewer.engine/LogMessage.cs:199-207 | the decimal digits of a number are a non-empty string of digits |
| Messages.DigitsValueOfDigits | logviewer.engine/LogMessage.cs:199-207 | the value of a number's digits is the number |
| Messages.ParseFormatLong | logviewer.engine/LogMessage.cs:199-207 | every 64-bit integer written out parses back to itself |
| Messages.CastLevel | logviewer.engine/LogMessage.cs:171-181 | with at most one rule, the vocabulary's level (or nothing); with several rules, the level `SemanticAction` picks, never "nothing stored", and the exception exactly when it picks none |
| Messages.ToFileTime | logviewer.engine/LogMessage.cs:194 | the file time is defined exactly for instants from 1601-01-01 on, and is then the non-negative tick count since that day |
| Messages.ApplyOne | logviewer.engine/LogMessage.cs:222-246 | an exception exactly when a LogLevel property's rules throw or a Datetime property's text parses to an instant before 1601, which has no file time; a name the schema does not know changes nothing; a string property stores the text and touches no integer; any other cast changes at most the integer under that name; an integer property stores the parsed value, or nothing when the text does not parse; a date is stored as its ticks since 1601 |
| Messages.ApplyAll | logviewer.engine/LogMessage.cs:216-248 | every raw property is cast exactly when none of them throws, neither a LogLevel property's rules nor a date before 1601; no raw properties change nothing |
| Messages.GetProperty | logviewer.engine/LogMessage.cs:284-289 | the stored value for a present name, the type's default for an absent one |
| Messages.ApplyAllFrame | logviewer.engine/LogMessage.cs:216-248 | casting touches only properties that were extracted and that the schema knows |
| Messages.FailedIntegerStaysAbsent | logviewer.engine/LogMessage.cs:199-207 | an integer property whose text does not parse leaves the properties unchanged |
| Messages.LogMessage.constructor | logviewer.engine/LogMessage.cs:42-51 | the header and body given, no builder, no properties |
| Messages.LogMessage.Create | logviewer.engine/LogMessage.cs:343-351 | no header or body, an empty builder, no properties; the message is empty, with an empty header and body and no raw properties |
| Messages.LogMessage.IsEmpty | logviewer.engine/LogMessage.cs:56-62 | empty exactly when header and body are null or white space and the builder is empty |
| Messages.LogMessage.Header | logviewer.engine/LogMessage.cs:77-80 | the header, or the empty string when there is none |
| Messages.LogMessage.Body | logviewer.engine/LogMessage.cs:85-94 | the fixed body when there is one, else the builder's text with a lone newline shown as empty; so a built body is never a lone newline |
| Messages.LogMessage.HasHeader | logviewer.engine/LogMessage.cs:99-102 | true exactly when raw properties were added |
| Messages.LogMessage.AddLine | logviewer.engine/LogMessage.cs:108-119 | the first line becomes the header; every later line is appended to the builder followed by a newline |
| Messages.LogMessage.AddProperties | logviewer.engine/LogMessage.cs:125-128 | the raw properties are replaced and nothing else changes |
| Messages.LogMessage.ParseLogLevel | logviewer.engine/LogMessage.cs:171-181 | with more than one rule the rules decide, otherwise the vocabulary does; an unrecognised text stores nothing; no matching and no default rule is the exception |
| Messages.LogMessage.ParseDateTime | logviewer.engine/LogMessage.cs:184-196 | a parsed date from 1601 on is stored as its file time, the ticks since 1601-01-01; an earlier date makes `ToFileTime` throw and stores nothing; a failed parse stores nothing |
| Messages.LogMessage.ParseInteger | logviewer.engine/LogMessage.cs:199-207 | a parsed integer is stored; a failed parse leaves the property absent |
| Messages.LogMessage.ParseString | logviewer.engine/LogMessage.cs:210-213 | the text is stored as a string property |
| Messages.LogMessage.ApplySemanticRules | logviewer.engine/LogMessage.cs:216-248 | nothing happens without raw properties or without a schema; otherwise the properties are `ApplyAll` of the raw ones in order, skipping names the schema does not know |
| Messages.LogMessage.CastProperty | logviewer.engine/LogMessage.cs:224-246 | one extracted property is cast as `ApplyOne` says: skipped when the schema does not know it, otherwise dispatched on its parser; false with nothing changed exactly when the cast throws |
| Messages.LogMessage.Cache | logviewer.engine/LogMessage.cs:315-328 | a no-op when both header and body are set; otherwise it drops the builder's last character, casts the properties, fixes the body to the rest and empties the builder |
| Messages.LogMessage.Clear | logviewer.engine/LogMessage.cs:333-336 | the builder is emptied and nothing else changes |
| Messages.LogMessage.IntegerProperty | logviewer.engine/LogMessage.cs:268-289 | the stored value, or 0 for an absent name |
| Messages.LogMessage.StringProperty | logviewer.engine/LogMessage.cs:278-289 | the stored value, or null for an absent name |
| Messages.LogMessage.UpdateIntegerProperty | logviewer.engine/LogMessage.cs:296-299 | the integer property is overwritten and nothing else changes |
| Messages.LogMessage.UpdateStringProperty | logviewer.engine/LogMessage.cs:306-309 | the string property is overwritten and nothing else changes |
| Messages.FromLines | logviewer.engine/LogMessage.cs:85-119 | after adding lines to a new message, the header is the first line and the builder holds the others, each followed by a newline; `Body` is that text, or empty when it is a lone newline |
| AhoCorasick.AhoCorasickTree.constructor | logviewer.engine/strings/AhoCorasickTree.cs:22-37 | a null keyword list leaves just the root; otherwise every keyword is inserted, the failure links are set and the root fails to itself |
| AhoCorasick.AhoCorasickTree.GetChild | logviewer.engine/strings/AhoCorasickTree.cs:149 | the child by an edge exists exactly when the node has that transition |
| AhoCorasick.AhoCorasickTree.AddTransition | logviewer.engine/strings/AhoCorasickTree.cs:150 | a new node hangs below the node by the edge, and its word is the parent's word extended by the edge |
| AhoCorasick.AhoCorasickTree.AddPatternToTree | logviewer.engine/strings/AhoCorasickTree.cs:144-154 | the trie gains exactly the prefixes of the keyword, and the keyword is recorded at its own node |
| AhoCorasick.AhoCorasickTree.AddPatterns | logviewer.engine/strings/AhoCorasickTree.cs:31-34 | the keywords are inserted in order: the keyword list is extended by them and the trie words are the prefixes of all keywords |
| AhoCorasick.AhoCorasickTree.AddPath | logviewer.engine/strings/AhoCorasickTree.cs:146-151 | the walk along a keyword ends at the node whose word is the keyword, and the trie gains exactly the keyword's prefixes |
| AhoCorasick.AhoCorasickTree.Extend | logviewer.engine/strings/AhoCorasickTree.cs:149-150 | one step reaches the node of the current word extended by the character, hanging it first if missing |
| AhoCorasick.AhoCorasickTree.AddResult | logviewer.engine/strings/AhoCorasickTree.cs:153 | the keyword is appended to the result list of the node with its word |
| AhoCorasick.EdgeTargets | logviewer.engine/strings/AhoCorasickTree.cs:159-162 | the targets of a node's transitions, each once |
| AhoCorasick.Children | logviewer.engine/strings/AhoCorasickTree.cs:195 | the nodes hanging from a node, each once |
| AhoCorasick.FailToRootNode | logviewer.engine/strings/AhoCorasickTree.cs:156-166 | every depth-1 node fails to the root, and the nodes of depth 2 are returned |
| AhoCorasick.FindFailure | logviewer.engine/strings/AhoCorasickTree.cs:177-183 | the walk up the parent's failure chain finds the node whose extension is the longest proper suffix in the trie, or none when that suffix is empty |
| AhoCorasick.LinkNode | logviewer.engine/strings/AhoCorasickTree.cs:185-193 | a node's failure is set to that suffix's node, and it takes in that node's results |
| AhoCorasick.FailUsingBfs | logviewer.engine/strings/AhoCorasickTree.cs:168-200 | level by level, every node of depth 2 or more gets its longest-suffix failure link and the merged results |
| AhoCorasick.LinkLevel | logviewer.engine/strings/AhoCorasickTree.cs:172-196 | every node of one level is linked, and the next level is gathered from their children |
| AhoCorasick.SetFailureNodes | logviewer.engine/strings/AhoCorasickTree.cs:137-142 | after the two phases every node is linked and the root fails to itself |
| AhoCorasick.NodeResults | logviewer.engine/strings/AhoCorasickTree.cs:189-193 | a node's result list is its own keywords, then its failure target's list |
| AhoCorasick.OwnKeywordFirst | logviewer.engine/strings/AhoCorasickTree.cs:192 | a node's word is a keyword exactly when the first result is as long as the word |
| AhoCorasick.AhoCorasickTree.KeywordAtItsNode | logviewer.engine/strings/AhoCorasickTree.cs:144-154 | the terminal node of each inserted keyword lists that keyword |
| AhoCorasick.AhoCorasickTree.FailureIsLongestSuffix | logviewer.engine/strings/AhoCorasickTree.cs:137-193 | the root fails to itself, every depth-1 node fails to the root, and every other node fails to the node of the longest proper suffix of its word in the trie |
| AhoCorasick.AhoCorasickTree.ResultsIncludeFailure | logviewer.engine/strings/AhoCorasickTree.cs:189-193 | a node's results include all of its failure target's results, except those of the root |
| AhoCorasick.AhoCorasickTree.GetTransition | logviewer.engine/strings/AhoCorasickTree.cs:116-135 | the failure walk's target for the character; null only when the cursor has fallen back to the root and the root has no transition for it |
| AhoCorasick.AhoCorasickTree.Search | logviewer.engine/strings/AhoCorasickTree.cs:53-86 | the cursor loop computes `ContainsFrom`: true at the first cursor with results; with `onlyStarts`, false the first time the walk falls off the root |
| AhoCorasick.AhoCorasickTree.Contains | logviewer.engine/strings/AhoCorasickTree.cs:44-86 | true only when some keyword ends inside the text, and true whenever a non-empty keyword occurs in it |
| AhoCorasick.AhoCorasickTree.QueryFacts | logviewer.engine/strings/AhoCorasickTree.cs:53-86 | the soundness and completeness of `Contains`, on the text itself |
| AhoCorasick.AhoCorasickTree.ContainsThatStart | logviewer.engine/strings/AhoCorasickTree.cs:51-86 | the search that gives up at the root: true only when some keyword ends inside the text, and true whenever a non-empty keyword starts the text |
| AhoCorasick.AhoCorasickTree.StartQueryFacts | logviewer.engine/strings/AhoCorasickTree.cs:51-76 | the soundness of that search, and its completeness for non-empty keywords starting the text, on the text itself |
| AhoCorasick.StartSearchMatchesInside | logviewer.engine/strings/AhoCorasickTree.cs:51-135 | with keywords "abc" and "b", `ContainsThatStart("ab")` is true, though "ab" starts with neither |
| AhoCorasick.AhoCorasickTree.StartsWithKeyword | logviewer.engine/strings/AhoCorasickTree.cs:46-51 | the documented prefix test: true exactly when some non-empty keyword is a prefix of the text |
| AhoCorasick.AhoCorasickTree.FindAll | logviewer.engine/strings/AhoCorasickTree.cs:93-114 | after each character, the cursor's result list in order; each result is a keyword ending at that position, and every non-empty keyword occurrence is reported |
| AhoCorasick.AhoCorasickTree.Collect | logviewer.engine/strings/AhoCorasickTree.cs:97-113 | the loop appends the cursor's result list after each character, computing `FindAllFrom` |
| AhoCorasick.AhoCorasickTree.Advance | logviewer.engine/strings/AhoCorasickTree.cs:99-106 | one step moves the cursor to the failure walk's target and yields that node's `ResultsAt` list |
| AhoCorasick.AhoCorasickTree.FindAllFacts | logviewer.engine/strings/AhoCorasickTree.cs:93-114 | the soundness and completeness of `FindAll`, on the text itself |
| AhoCorasick.AhoCorasickTree.NoKeywordsNoMatches | logviewer.engine/strings/AhoCorasickTree.cs:26-114 | with no keywords, every query is false or empty |
| KeywordAutomaton.Longest | logviewer.engine/strings/AhoCorasickTree.cs:168-193 | the longest suffix of a text that is a trie word: a suffix, in the trie, and no shorter than any other |
| KeywordAutomaton.LongestUnique | logviewer.engine/strings/AhoCorasickTree.cs:168-193 | that suffix is the only one with these properties |
| KeywordAutomaton.Walk | logviewer.engine/strings/AhoCorasickTree.cs:116-135 | the failure walk for a character ends at the root's empty word or at a trie word |
| KeywordAutomaton.WalkFromLongest | logviewer.engine/strings/AhoCorasickTree.cs:99-104 | from the longest trie suffix of what was read, the walk reaches the longest trie suffix after one more character |
| KeywordAutomaton.WalkReachesLongest | logviewer.engine/strings/AhoCorasickTree.cs:116-135 | the walk from any suffix node above which no longer suffix extends reaches that longest suffix |
| KeywordAutomaton.FailureFromParent | logviewer.engine/strings/AhoCorasickTree.cs:177-191 | the failure target of a node is the walk from its parent's failure target by its own character |
| KeywordAutomaton.OwnAppend | logviewer.engine/strings/AhoCorasickTree.cs:144-154 | inserting a keyword adds it at the end of its own node's list only |
| KeywordAutomaton.ResultsSound | logviewer.engine/strings/AhoCorasickTree.cs:189-193 | every result at a node is a keyword that is a suffix of the node's word |
| KeywordAutomaton.ResultsComplete | logviewer.engine/strings/AhoCorasickTree.cs:189-193 | every non-empty keyword that is a suffix of the node's word is among its results |
| KeywordAutomaton.ContainsSound | logviewer.engine/strings/AhoCorasickTree.cs:53-86 | a true answer has a keyword ending at some position of the text |
| KeywordAutomaton.ContainsComplete | logviewer.engine/strings/AhoCorasickTree.cs:44-86 | without the cut-off, a non-empty keyword ending in the text makes the answer true |
| KeywordAutomaton.AnchoredComplete | logviewer.engine/strings/AhoCorasickTree.cs:51-86 | with the cut-off, a cursor at a proper prefix of a keyword that the rest of the text completes follows that keyword's trie edges, never falls back to the root, and answers true |
| KeywordAutomaton.FindAllSound | logviewer.engine/strings/AhoCorasickTree.cs:93-114 | every keyword yielded ends at some position of the text |
| KeywordAutomaton.FindAllComplete | logviewer.engine/strings/AhoCorasickTree.cs:93-114 | every non-empty keyword occurrence is yielded |
| KeywordAutomaton.NoKeywordsNoResults | logviewer.engine/strings/AhoCorasickTree.cs:26-114 | with no keywords, every query is false or empty from any cursor |
| FixedSize.FixedSizeDictionary.constructor | logviewer.core/FixedSizeDictionary.cs:22-27 | two arrays of the capacity, every slot empty and holding the default |
| FixedSize.FixedSizeDictionary.ContainsKey | logviewer.core/FixedSizeDictionary.cs:85-95 | false for every key at or beyond the capacity; otherwise whether the key is present |
| FixedSize.FixedSizeDictionary.Add | logviewer.core/FixedSizeDictionary.cs:97-105 | a no-op beyond the capacity; otherwise the key becomes present with the value and no other slot changes |
| FixedSize.FixedSizeDictionary.Remove | logviewer.core/FixedSizeDictionary.cs:107-116 | false beyond the capacity; otherwise the slot is cleared and the answer is true even if the key was absent |
| FixedSize.FixedSizeDictionary.Keys | logviewer.core/FixedSizeDictionary.cs:84-95 | the present keys are exactly the slot indexes whose index entry is positive |
| FixedSize.FixedSizeDictionary.Count | logviewer.core/FixedSizeDictionary.cs:77-81 | the capacity given to the constructor, which is the length of both arrays |
| FixedSize.FixedSizeDictionary.KeysWithinCapacity | logviewer.core/FixedSizeDictionary.cs:77-95 | `Count` bounds the number of present keys but does not count them |
| FixedSize.PresentCount | logviewer.core/FixedSizeDictionary.cs:84-95 | at most `i` of the first `i` slots are marked present |
| FixedSize.FixedSizeDictionary.TryGetValue | logviewer.core/FixedSizeDictionary.cs:118-134 | true with the stored value exactly when the key is present, else false with the default |
| FixedSize.FixedSizeDictionary.Get | logviewer.core/FixedSizeDictionary.cs:136-138 | the indexer reads the slot whether the key is present or not |
| FixedSize.FixedSizeDictionary.Set | logviewer.core/FixedSizeDictionary.cs:136-140 | the indexer writes the value without marking the key present |
| FixedSize.FixedSizeDictionary.Clear | logviewer.core/FixedSizeDictionary.cs:50-54 | afterwards no key is present |
| FixedSize.FixedSizeDictionary.Entries | logviewer.core/FixedSizeDictionary.cs:29-38 | the enumeration is `Enumerated`: the present keys in ascending order, with their values |
| FixedSize.EnumeratedArePresent | logviewer.core/FixedSizeDictionary.cs:29-38 | `Enumerated` has strictly ascending keys, only present keys with their stored values, and every present key |
| FixedSize.FixedSizeDictionary.KeyList | logviewer.core/FixedSizeDictionary.cs:142-164 | `Keys` lists the keys of the enumeration, in order |
| FixedSize.FixedSizeDictionary.ValueList | logviewer.core/FixedSizeDictionary.cs:147-164 | `Values` lists the values of the enumeration, in order |
| Virtualizing.VirtualizingCollection.constructor | logviewer.core/VirtualizingCollection.cs:32-37 | the given page size and timeout, no items and no pages |
| Virtualizing.VirtualizingCollection.WithPageSize | logviewer.core/VirtualizingCollection.cs:39-56 | the given page size and the default timeout of 10000 ms |
| Virtualizing.VirtualizingCollection.Default | logviewer.core/VirtualizingCollection.cs:45-56 | the default page size of 100 and the default timeout |
| Common.QuotRem | logviewer.core/VirtualizingCollection.cs:157-158 | C#'s truncating division and remainder recombine to the index |
| Virtualizing.PageHoldsIndex | logviewer.core/VirtualizingCollection.cs:152-178 | an index maps to page `index / PageSize` at offset `index % PageSize`, and that page's fetch range contains it |
| Virtualizing.VirtualizingCollection.Get | logviewer.core/VirtualizingCollection.cs:152-178 | only a visible index requests its page, stamped at the first clock reading, and cleans up as of the second; the requested page survives exactly when it is page 0 or no more than the timeout passed between the readings, and otherwise the default is returned; the item read is the one at the offset of a loaded page, else the default |
| Virtualizing.LookupAfterPopulate | logviewer.core/VirtualizingCollection.cs:316-323 | after a page is populated, reading it yields the item at the offset, or the default past the page's end |
| Virtualizing.VirtualizingCollection.RequestPage | logviewer.core/VirtualizingCollection.cs:329-342 | a new page gets an empty slot, a touch time and one fetch; a known page only has its touch time refreshed |
| Virtualizing.VirtualizingCollection.PopulatePage | logviewer.core/VirtualizingCollection.cs:316-323 | a page is replaced only if its slot still exists |
| Virtualizing.VirtualizingCollection.CleanUpPages | logviewer.core/VirtualizingCollection.cs:291-309 | every page other than page 0 whose age exceeds the timeout is removed from both maps, and nothing else is removed |
| Virtualizing.CleanUpKeeps | logviewer.core/VirtualizingCollection.cs:300-305 | a clean-up keeps page 0; it keeps a page stamped at a given time exactly when no more than the timeout has passed since then (page 0 aside); it keeps the two maps' key sets equal |
| Virtualizing.PickPage | logviewer.core/VirtualizingCollection.cs:294-298 | a page number of the key snapshot |
| Virtualizing.VirtualizingCollection.Clear | logviewer.core/VirtualizingCollection.cs:221-226 | no items and no pages |
| Virtualizing.VirtualizingCollection.LoadCount | logviewer.core/VirtualizingCollection.cs:349-352 | the item count is set |
| Virtualizing.VirtualizingCollection.Contains | logviewer.core/VirtualizingCollection.cs:216-219 | no item is ever reported present |
| Virtualizing.VirtualizingCollection.IndexOf | logviewer.core/VirtualizingCollection.cs:233-236 | no item is ever found |
| Reader.Grouped | logviewer.core/LogReader.cs:71-103 | there is always at least one message |
| Reader.GroupCount | logviewer.core/LogReader.cs:71-103 | the number of messages is one more than the number of header lines, so the first may be empty |
| Reader.GroupsPartitionLines | logviewer.core/LogReader.cs:83-99 | every line goes to exactly one message, in order |
| Reader.GroupsStartAtHeaders | logviewer.core/LogReader.cs:83-87 | every message after the first starts with a header line, and no message has a header line anywhere else |
| Reader.GroupedStep | logviewer.core/LogReader.cs:83-99 | a header line starts a new message; any other line joins the last one |
| Reader.Processed | logviewer.core/LogReader.cs:72 | the lines read are a prefix of the file, stopped by `canContinue` or by the end |
| Reader.ReadLine | logviewer.core/LogReader.cs:83-99 | a header line first emits the current message and starts a fresh one; then the line is added to the current message |
| Reader.Read | logviewer.core/LogReader.cs:39-107 | an empty file emits nothing; otherwise the emitted messages are distinct, one per group of the lines processed, in order, each holding its header and body lines; the last message is emitted after the loop |
| Controller.Int32 | logviewer.core/MainController.cs:78 | 32-bit wrap-around of the page-start product: in range, the identity inside it, congruent modulo 2^32 |
| Controller.EffectivePageSize | logviewer.core/MainController.cs:61 | a non-positive page size becomes 10000; a positive one is kept |
| Controller.MainController.MessagesCount | logviewer.core/MainController.cs:74-81 | the messages from the start of the current page on: `totalFiltered - (CurrentPage - 1) * pageSize` when the product fits in 32 bits, and equal to it modulo 2^32 always |
| Controller.MainController.DisplayedMessages | logviewer.core/MainController.cs:97-104 | no more than remain from the current page, than a page holds, or than passed the filter, and equal to one of the three |
| Controller.MessagesCountOf | logviewer.core/MainController.cs:74-81 | `totalFiltered - (CurrentPage - 1) * pageSize`, up to 32-bit wrap-around of the product |
| Controller.DisplayedOf | logviewer.core/MainController.cs:97-104 | the minimum of the messages from the page start on, the page size and the total |
| Controller.DisplayedOnPage | logviewer.core/MainController.cs:74-104 | a page that starts inside the filtered messages shows `min(pageSize, rest)`; one past the end shows a negative count |
| Controller.PagesCoverFiltered | logviewer.core/MainController.cs:74-104 | the first n pages show `min(total, n * pageSize)` messages in all |
| Controller.CheckLevelRange | logviewer.core/MainController.cs:216-219 | the error is raised exactly when min > max and max is a level from Trace up |
| Controller.NormalizeFilter | logviewer.core/MainController.cs:311-316 | the stored filter is null exactly for null or white-space input, and the input otherwise |
| Controller.NormalizeIdempotent | logviewer.core/MainController.cs:311-316 | normalising twice changes nothing |
| Controller.SavedRecentEndsWithPath | logviewer.core/MainController.cs:368-381 | the current path ends the list, and the list grows only when the path was new |
| Controller.SavedRecentPermutes | logviewer.core/MainController.cs:368-381 | the new list is the old one with the path added if it was missing |
| Controller.SavedRecentKeepsOthers | logviewer.core/MainController.cs:368-381 | the other entries keep their relative order, that of the reversed list |
| Controller.TallyCounts | logviewer.core/MainController.cs:511-520 | after adding messages, each level's counter is the number of messages of that level |
| Controller.MainController.constructor | logviewer.core/MainController.cs:33-61 | the page size defaults, the current page is 1, the filters span Trace to Fatal, and regular expressions are on |
| Controller.MainController.MinFilter | logviewer.core/MainController.cs:295-298 | the minimum level is set and nothing else changes |
| Controller.MainController.MaxFilter | logviewer.core/MainController.cs:300-303 | the maximum level is set and nothing else changes |
| Controller.MainController.PageSize | logviewer.core/MainController.cs:305-309 | the page size is set and nothing else changes |
| Controller.MainController.TextFilter | logviewer.core/MainController.cs:311-316 | the filter is set to its normalised value |
| Controller.MainController.UserRegexp | logviewer.core/MainController.cs:318-321 | the flag is set and nothing else changes |
| Controller.MainController.ReadLogGuard | logviewer.core/MainController.cs:216-219 | `ReadLog` throws before touching the file exactly when min > max and max ≥ Trace |
| Controller.MainController.SaveRecentFiles | logviewer.core/MainController.cs:368-381 | the list becomes `SavedRecent` of the old one |
| Controller.MainController.CountMessages | logviewer.core/MainController.cs:404-407 | never negative, and 0 exactly for an unseen level |
| Controller.MainController.AddMessage | logviewer.core/MainController.cs:511-520 | exactly one level counter goes up by one |
| Controller.MainController.DetectLevel | logviewer.core/MainController.cs:531-546 | the default for a blank line; else the index of the first matching marker; the default when none matches |
| Extensions.ToParameterName | logviewer.logic/Extensions.cs:28 | the level's name followed by "Color" |
| Extensions.ParameterNamesDiffer | logviewer.logic/Extensions.cs:28 | different levels have different colour parameter names |
| Extensions.MatchingRules | logviewer.logic/Extensions.cs:38-39 | no matching rule exactly when no rule has the type |
| Extensions.Copies | logviewer.logic/Extensions.cs:37-40 | a semantic comes once per matching rule |
| Extensions.FilterSchemaSelects | logviewer.logic/Extensions.cs:37-40 | the filtered schema holds exactly the semantics with a rule of the type, and starts with the first of them |
| Extensions.HasPropertyIff | logviewer.logic/Extensions.cs:31-40 | `HasProperty` holds exactly when some semantic has a casting rule of the type |
| Extensions.PropertyNameOfFirst | logviewer.logic/Extensions.cs:34-40 | the property of the first semantic with such a rule, or null |
| Extensions.IsValid | logviewer.logic/Extensions.cs:48-66 | true exactly when the filter is null or empty, or regular expressions are off, or the engine accepts the filter |
| Extensions.ToSafePercent | logviewer.logic/Extensions.cs:68-77 | max above max, min below min, else the value; within [min, max] when min ≤ max |
| Extensions.ToSafePercentIdempotent | logviewer.logic/Extensions.cs:68-77 | clamping twice changes nothing |
| Extensions.RuForm | logviewer.logic/Extensions.cs:176-191 | last digit 1 (not 11) gives the nominative, last digit 2–4 (not 12–14) the genitive singular, else the genitive plural; every negative number takes the genitive plural because `%` truncates |
| Extensions.RuFormPeriodic | logviewer.logic/Extensions.cs:176-191 | for non-negative numbers the form depends only on the last two digits |
| Extensions.DeclensionEn | logviewer.logic/Extensions.cs:201-209 | the nominative for ±1, else the genitive singular, or the genitive plural when it is null |
| Extensions.DeclensionEnSymmetric | logviewer.logic/Extensions.cs:201-209 | the English form ignores the sign |
| Extensions.DeclensionRu | logviewer.logic/Extensions.cs:176-191 | the word in the form `RuForm` picks, so the genitive plural for every negative number |
| Extensions.Declension | logviewer.logic/Extensions.cs:151-166 | one of the three words: exactly the Russian declension for culture 1049 and the English one for every other culture, so the nominative for ±1 outside Russian |
| Maybe.With | logviewer.engine/Maybe.cs:24-28 | null for null input, else the evaluator's result |
| Maybe.Return | logviewer.engine/Maybe.cs:40-44 | the failure value for null input, else the evaluator's result |
| Maybe.ReturnSuccess | logviewer.engine/Maybe.cs:53-57 | true exactly when the input is not null |
| Maybe.If | logviewer.engine/Maybe.cs:67-75 | the input exactly when it is not null and the predicate holds, else null |
| Maybe.Do | logviewer.engine/Maybe.cs:85-94 | the input itself; the action runs once on a non-null input and not at all on null |
| Maybe.WithAssociative | logviewer.engine/Maybe.cs:24-28 | chained `With` calls compose |
| Maybe.WithIdentity | logviewer.engine/Maybe.cs:24-28 | `With` on a value applies the evaluator, and the identity evaluator changes nothing |
| Maybe.ReturnIsWith | logviewer.engine/Maybe.cs:24-44 | `Return` is `With` followed by the failure default |
| Maybe.IfComposes | logviewer.engine/Maybe.cs:67-75 | two `If` filters equal one with both predicates |
| Maybe.IfKeepsSuccess | logviewer.engine/Maybe.cs:53-75 | `If` never turns null into a value |

## Left out

- I/O, encodings and storage are not modelled:
  - the memory-mapped and buffered file reading, charset detection and decoding (logviewer.core/LogReader.cs:46-70);
  - SQLite storage, the UI, RTF generation, and the writing and reading of the recent-files file.
- `Reader.Read`: the lines are a sequence and the head pattern is a predicate. Three parts of the code are not modelled:
  - seeking to `offset` and progress reporting;
  - the `break` on a null line, which cannot happen with a sequence;
  - `canContinue`, a callback in the code, which is modelled as the number of times it answers true.
- `Reader.Read` does not state that the emitted message objects are fresh, only that they are pairwise distinct. `LogMessage` is a struct in the code: an emitted copy shares nothing that later lines change, which distinct objects model.
- Concurrency, tasks and events are not modelled. This covers the controller's tasks and cancellation, `VirtualizingCollection`'s asynchronous `LoadPage` and its change notifications, and the `FetchPage` call to the items provider. A fetch is recorded in `fetches`, and its answer arrives through `PopulatePage`.
- The clock (`DateTime.Now`) is a parameter, in milliseconds. Each reading is its own parameter: `Virtualizing.VirtualizingCollection.Get` takes the reading `RequestPage` stamps the page with and the later one `CleanUpPages` compares against.
- The regular-expression engine is left abstract:
  - `Matcher.Engine` stands for a match function;
  - level markers and the message head are predicates;
  - `Extensions.IsValid` takes the engine's verdict as a parameter.
- `Extensions.IsValid`: the code's last test is `new Regex(filter, options).GetHashCode() > 0` (logviewer.logic/Extensions.cs:57-58). The model folds that test into the `regexAccepted` parameter: a constructed regex counts as accepted, and its hash code is taken as positive.
- Date parsing (`DateTime.TryParseExact`/`TryParse`) is a parameter. It gives the instant parsed as UTC ticks since 0001-01-01, which `AssumeUniversal` makes well defined. `ToFileTime`'s conversion and its exception for instants before 1601 are modelled (`Messages.ToFileTime`).
- `ParseLong` follows the invariant culture's integer style: white space, a sign and decimal digits. Other culture details of `long.TryParse` are not modelled.
- `Common.ToUpper` upper-cases ASCII letters only; `ToUpperInvariant` also maps non-ASCII letters.
- `Controller.MainController.PageSize`: the call to the view's `SetPageSize` is not modelled.
- `MainController.TotalPages` (a float ceiling) and the `CurrentPage` reset that depends on it are not modelled.
- `Controller.MessagesCountOf`: the subtraction is in 64 bits and cannot overflow for 32-bit operands. Only the 32-bit product is wrapped.
- `AddMessage`'s RTF paragraphs and the message cache around it are not modelled.
- `Matcher.GrokMatcher.constructor`: when the code's constructor throws, no object reaches the caller. The model still returns one, with `Escaped` set and the empty regex, and callers are expected to discard it.
- `Matcher.GrokMatcher.constructor` does not model the `RegexOptions` parameter separately. The options are folded into `isValid` for the compiled template. An invalid combination, such as `ECMAScript | Singleline`, makes `new Regex(template, options)` throw `ArgumentOutOfRangeException`, which the general handler catches. That is the model's "template the engine rejects" case: degraded mode with the empty pattern. The fallback `new Regex(grok)` after a grok syntax error is built without options, and the model uses the same `isValid` for it. It also does not model the error report through `customErrorOutputMethod` or `Trace.WriteLine` (logviewer.engine/GrokMatcher.cs:62-69).
- `GrokCompiler.Compile` is represented by its outcome (`Matcher.CompileOutcome`). Its pattern-file loading depends on parser internals that are not part of this model.
- The generated grammar scanner and parser tables are not modelled; only the semantic actions are.
- The pattern classes other than `ReferencePattern` are minimal stand-ins in `Grammar.Pattern`:
  - `Composer`, `CompilePattern`, `NamedPattern` and `PassthroughPattern`;
  - their files are not part of this model.
- `Grammar.Compose`: reference chasing carries a `fuel` bound. `None` stands for definitions that refer to each other without end, which is unbounded recursion in the program.
- Expanding the built-in `TIMESTAMP_ISO8601` macro is not proved to finish. Unfolding 26 replace-all passes over the macro table's strings is beyond what the verifier evaluates in its resource limit. The general facts are proved instead (`Visitor.PlainBodyResolves`, `Visitor.ResolveMatchesLoop`, `Visitor.StuckReferenceDiverges`).
- The visit's console tracing is not modelled.
- `Visitor.ResolveFrom` and `Visitor.DoWhilePastLimit` count passes with an unbounded `nat`. The code's `depth` is a 32-bit `int` (logviewer.core/GrokVisitor.cs:68, :80). After about 2^31 passes past the limit it wraps to a negative value, and the loop then exits at the first pass that leaves no `%{`. So where the model says the loop never ends, the code runs about two billion passes and may then exit. That wrap is not modelled.
- Some `Schema` details are assumptions, because `LogLevel.cs`, `GrokRule.cs` and `Semantic.cs` are not part of this model:
  - the `LogLevel` values, None = -1 and Trace = 0 to Fatal = 5;
  - `GrokRule.DefaultPattern` as `"*"`;
  - casting rules as a list in insertion order (every rule is a new object, so the set never merges two).
- `AhoCorasickTreeNode.cs` is not part of this model:
  - a node is the `AhoCorasick.Node` datatype;
  - `ParentFailure` is the parent's failure link;
  - `AddResults` appends;
  - the order of `Transitions` is left unspecified.
- The empty keyword follows the code: it is recorded at the root, whose results are never merged into other nodes.
- `FixedSize.FixedSizeDictionary.constructor` requires a non-negative count. In the code, `new T[count]` throws `OverflowException` for a negative one.
- `FixedSize.FixedSizeDictionary.ContainsKey`, `Add` and `Remove` require a non-negative key. The code reads outside its arrays (or throws) for a negative one.
- `FixedSize.FixedSizeDictionary.TryGetValue` and the indexer require a key below the capacity, as the code's remark demands.
- `FixedSizeDictionary`: `CopyTo`, `Contains(pair)`, and the pair overloads of `Add`/`Remove` are not modelled. The last three only forward to the key-based members.
- `Virtualizing.VirtualizingCollection.Get` requires a non-zero page size. The code divides by it and throws `DivideByZeroException` for zero.
- `Virtualizing.VirtualizingCollection.Get` requires a non-negative index. For a negative one, C#'s truncating division gives a negative offset, on page 0 when the index is above `-PageSize`. When that page is not loaded the code returns the default. When it is loaded, indexing the page at the negative offset throws.
- `VirtualizingCollection`: the enumerator and the members that only throw `NotSupportedException` are not modelled.
- `Messages.LogMessage.IsEmpty`, `Body`, `AddLine`, `Cache` and `Clear` require a body builder wherever the code reads it. A message from the two-argument constructor has none, so the code throws `NullReferenceException` there. One example is `IsEmpty` on a message with a blank header and body, as made from storage at logviewer.core/LogStore.cs:98. The model does not represent that exception.
- `Visitor.ExpansionPass` walks the macro table as a list in insertion order. The code enumerates a `Dictionary`, whose order is insertion order only as long as nothing is removed, which holds for the macro table.
- `Messages.LevelNamesParse` and `Messages.WarningIsWarn` follow the code. An older unit test expects `"Warning"` to be `Trace` (logviewer.tests/TstLogMessage.cs:92).

## Findings

| source | as written | input that shows it | evidently intended | confidence | as-written member | corrected member |
|---|---|---|---|---|---|---|
| logviewer.engine/GrokMatcher.cs:39-73 | After a `GrokSyntaxException`, `HandleRegexpException(grok, grok, e)` builds `new Regex(grok)` outside any handler. | grok text `(%{`, which is a grok syntax error and not a valid regular expression: the `ArgumentException` escapes the constructor | every compilation failure leaves a matcher in degraded mode, without throwing, as the other two handlers do | not executed | Matcher.OpenGroupEscapes | Matcher.ConstructDegraded |
| logviewer.engine/strings/AhoCorasickTree.cs:51-135 | `ContainsThatStart` runs the full Aho–Corasick walk, including failure links, and gives up only when a transition falls back to the root. A keyword ending inside the text is therefore reported even when the text does not start with a keyword. | keywords {"abc", "b"}, text "ab": true, although "ab" starts with neither keyword | true exactly when the text starts with a keyword, as its documentation says (AhoCorasickTree.cs:46-50) | not executed | AhoCorasick.StartSearchMatchesInside | AhoCorasick.AhoCorasickTree.StartsWithKeyword |
