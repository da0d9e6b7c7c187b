/**
 * `LogReader.Read` (logviewer.core/LogReader.cs): the lines of a log file are
 * grouped into messages. A line that matches the message-head pattern closes
 * the message being built and starts a new one; every line is then added to
 * the current message; the last message is emitted after the loop.
 *
 * The file is its byte length and the lines its reader returns, decoded; the
 * head pattern is the predicate `isHeader`; `canContinue` is the number of
 * times it answers true before its first false; `onRead` is the sequence of
 * messages it receives, in order.
 */
module Reader {
  import opened Common
  import opened Messages

  /** The concatenation of a sequence of sequences, in order. */
  function Flatten<T>(groups: seq<seq<T>>): seq<T>
    decreases |groups|
  {
    if groups == [] then [] else Flatten(groups[..|groups| - 1]) + groups[|groups| - 1]
  }

  /**
   * The line groups `Read` emits for the lines it processes: one group to
   * start with, and a new one at every header line.
   */
  function Grouped(lines: seq<string>, isHeader: string -> bool): (r: seq<seq<string>>)
    ensures |r| >= 1
    decreases |lines|
  {
    if lines == [] then [[]]
    else
      var before := Grouped(lines[..|lines| - 1], isHeader);
      var line := lines[|lines| - 1];
      if isHeader(line) then before + [[line]]
      else before[..|before| - 1] + [before[|before| - 1] + [line]]
  }

  /** The number of header lines. */
  function HeaderCount(lines: seq<string>, isHeader: string -> bool): nat
    decreases |lines|
  {
    if lines == [] then 0
    else HeaderCount(lines[..|lines| - 1], isHeader) + (if isHeader(lines[|lines| - 1]) then 1 else 0)
  }

  /** One message more than there are header lines: the first one may be empty. */
  lemma {:induction false} GroupCount(lines: seq<string>, isHeader: string -> bool)
    ensures |Grouped(lines, isHeader)| == 1 + HeaderCount(lines, isHeader)
    decreases |lines|
  {
    if lines != [] {
      GroupCount(lines[..|lines| - 1], isHeader);
    }
  }

  lemma FlattenAppend<T>(groups: seq<seq<T>>, group: seq<T>)
    ensures Flatten(groups + [group]) == Flatten(groups) + group
  {
    assert (groups + [group])[..|groups|] == groups;
  }

  /** Every line goes to exactly one message, and the messages keep the lines' order. */
  lemma {:induction false} GroupsPartitionLines(lines: seq<string>, isHeader: string -> bool)
    ensures Flatten(Grouped(lines, isHeader)) == lines
    decreases |lines|
  {
    if lines != [] {
      var init := lines[..|lines| - 1];
      var line := lines[|lines| - 1];
      var before := Grouped(init, isHeader);
      GroupsPartitionLines(init, isHeader);
      assert init + [line] == lines;
      if isHeader(line) {
        FlattenAppend(before, [line]);
      } else {
        var front := before[..|before| - 1];
        var last := before[|before| - 1];
        assert before == front + [last];
        FlattenAppend(front, last);
        FlattenAppend(front, last + [line]);
        assert Flatten(front) + (last + [line]) == Flatten(front) + last + [line];
      }
    }
  }

  /**
   * Every message after the first starts with a header line, and no message
   * holds a header line anywhere else.
   */
  lemma {:induction false} GroupsStartAtHeaders(lines: seq<string>, isHeader: string -> bool)
    ensures forall j | 0 <= j < |Grouped(lines, isHeader)[0]| :: !isHeader(Grouped(lines, isHeader)[0][j])
    ensures forall k | 0 < k < |Grouped(lines, isHeader)| ::
              Grouped(lines, isHeader)[k] != [] && isHeader(Grouped(lines, isHeader)[k][0])
    ensures forall k, j | 0 < k < |Grouped(lines, isHeader)| && 0 < j < |Grouped(lines, isHeader)[k]| ::
              !isHeader(Grouped(lines, isHeader)[k][j])
    decreases |lines|
  {
    if lines != [] {
      GroupsStartAtHeaders(lines[..|lines| - 1], isHeader);
    }
  }

  /** Processing one more line: a header opens a new group, any other line joins the last one. */
  lemma GroupedStep(lines: seq<string>, i: nat, isHeader: string -> bool, groups: seq<seq<string>>, next: seq<seq<string>>)
    requires i < |lines| && groups == Grouped(lines[..i], isHeader)
    requires next == (if isHeader(lines[i]) then groups else groups[..|groups| - 1])
                     + [(if isHeader(lines[i]) then [] else groups[|groups| - 1]) + [lines[i]]]
    ensures next == Grouped(lines[..i + 1], isHeader)
  {
    assert lines[..i + 1][..i] == lines[..i];
    assert [] + [lines[i]] == [lines[i]];
  }

  /** The message object holds the group's lines: the first as header, the rest in the body builder. */
  ghost predicate Holds(m: LogMessage, group: seq<string>)
    reads m
  {
    m.body.None? && m.rawProperties.None?
    && (group == [] ==> m.head.None? && m.bodyBuilder == Some([]))
    && (group != [] ==> m.head == Some(group[0]) && m.bodyBuilder == Some(Terminated(group[1..])))
  }

  /** The lines `Read` gets to: those before the first time `canContinue` answers false. */
  function Processed(lines: seq<string>, canContinue: nat): (r: seq<string>)
    ensures |r| <= canContinue && IsPrefix(r, lines)
    ensures |r| == |lines| || |r| == canContinue
  {
    if canContinue < |lines| then lines[..canContinue] else lines
  }

  /** No message object appears twice. */
  predicate Distinct(ms: seq<LogMessage>)
  {
    forall a, b | 0 <= a < b < |ms| :: ms[a] != ms[b]
  }

  lemma DistinctAppend(ms: seq<LogMessage>, m: LogMessage)
    requires Distinct(ms) && m !in ms
    ensures Distinct(ms + [m])
  {
  }

  /** Each message holds the group at its position. */
  ghost predicate AllHold(ms: seq<LogMessage>, groups: seq<seq<string>>)
    reads set m | m in ms
  {
    |ms| == |groups| && forall k | 0 <= k < |ms| :: Holds(ms[k], groups[k])
  }

  lemma AllHoldAppend(ms: seq<LogMessage>, groups: seq<seq<string>>, m: LogMessage, group: seq<string>)
    requires AllHold(ms, groups) && Holds(m, group)
    ensures AllHold(ms + [m], groups + [group])
  {
  }

  /**
   * The state of `Read` between lines: the messages handed on so far are
   * distinct and hold all groups but the last, which the message still
   * being built holds.
   */
  ghost predicate Building(emitted: seq<LogMessage>, message: LogMessage, groups: seq<seq<string>>)
    reads (set m | m in emitted), message
  {
    |groups| >= 1 && message !in emitted && Distinct(emitted)
    && AllHold(emitted, groups[..|groups| - 1]) && Holds(message, groups[|groups| - 1])
  }

  /** After the loop: the message still being built is emitted last. */
  lemma LastEmitted(emitted: seq<LogMessage>, message: LogMessage, groups: seq<seq<string>>)
    requires Building(emitted, message, groups)
    ensures AllHold(emitted + [message], groups) && Distinct(emitted + [message])
  {
    assert groups[..|groups| - 1] + [groups[|groups| - 1]] == groups;
  }

  /** Adding a line to a message that holds a group makes it hold the group with the line appended. */
  lemma HoldsAppend(group: seq<string>, line: string)
    ensures group != [] ==> (group + [line])[0] == group[0]
    ensures group != [] ==> Terminated((group + [line])[1..]) == Terminated(group[1..]) + line + [NewLine]
    ensures group == [] ==> Terminated((group + [line])[1..]) == []
  {
    if group != [] {
      var rest := (group + [line])[1..];
      assert rest == group[1..] + [line];
      assert rest[..|rest| - 1] == group[1..];
    } else {
      assert (group + [line])[1..] == [];
    }
  }

  /**
   * One pass of `Read`'s loop over `line`: a header line hands the current
   * message to `onRead` and starts a fresh one; then the line is added to
   * the current message.
   */
  method ReadLine(line: string, isHeader: string -> bool, message: LogMessage, emitted: seq<LogMessage>, ghost groups: seq<seq<string>>)
    returns (current: LogMessage, handed: seq<LogMessage>, ghost next: seq<seq<string>>)
    requires Building(emitted, message, groups)
    modifies message
    ensures next == (if isHeader(line) then groups else groups[..|groups| - 1])
                    + [(if isHeader(line) then [] else groups[|groups| - 1]) + [line]]
    ensures handed == if isHeader(line) then emitted + [message] else emitted
    ensures if isHeader(line) then fresh(current) else current == message
    ensures Building(handed, current, next)
  {
    current, handed := message, emitted;
    if isHeader(line) {
      AllHoldAppend(emitted, groups[..|groups| - 1], message, groups[|groups| - 1]);
      assert groups[..|groups| - 1] + [groups[|groups| - 1]] == groups;
      DistinctAppend(emitted, message);
      handed := emitted + [message];
      current := new LogMessage.Create();
      HoldsAppend([], line);
      current.AddLine(line);
      next := groups + [[] + [line]];
      assert next[..|next| - 1] == groups;
    } else {
      HoldsAppend(groups[|groups| - 1], line);
      current.AddLine(line);
      next := groups[..|groups| - 1] + [groups[|groups| - 1] + [line]];
      assert next[..|next| - 1] == groups[..|groups| - 1];
    }
  }

  /**
   * `Read`: an empty file emits nothing; otherwise the emitted messages are
   * distinct objects, one per group of the processed lines, in order, each
   * holding its group.
   */
  method Read(length: int, lines: seq<string>, isHeader: string -> bool, canContinue: nat) returns (emitted: seq<LogMessage>)
    ensures length == 0 ==> emitted == []
    ensures Distinct(emitted)
    ensures length != 0 ==>
              AllHold(emitted, Grouped(Processed(lines, canContinue), isHeader))
  {
    if length == 0 {
      return [];
    }
    var message;
    ghost var groups;
    emitted, message, groups := ReadLines(lines, isHeader, canContinue);
    LastEmitted(emitted, message, groups);
    emitted := emitted + [message];
  }

  /**
   * The loop of `Read`: the lines up to the first time `canContinue`
   * answers false, each read by `ReadLine`, from a fresh empty message.
   */
  method ReadLines(lines: seq<string>, isHeader: string -> bool, canContinue: nat)
    returns (emitted: seq<LogMessage>, message: LogMessage, ghost groups: seq<seq<string>>)
    ensures fresh(message) && Building(emitted, message, groups)
    ensures groups == Grouped(Processed(lines, canContinue), isHeader)
  {
    message := new LogMessage.Create();
    emitted := [];
    groups := [[]];
    var i := 0;
    while i < |lines| && i < canContinue
      invariant 0 <= i <= |lines| && i <= canContinue
      invariant groups == Grouped(lines[..i], isHeader)
      invariant fresh(message) && Building(emitted, message, groups)
    {
      ghost var before := groups;
      message, emitted, groups := ReadLine(lines[i], isHeader, message, emitted, groups);
      GroupedStep(lines, i, isHeader, before, groups);
      i := i + 1;
    }
    ProcessedAtExit(lines, canContinue, i);
  }

  /** Where the loop stops, the lines read are the processed ones. */
  lemma ProcessedAtExit(lines: seq<string>, canContinue: nat, i: nat)
    requires i <= |lines| && i <= canContinue && !(i < |lines| && i < canContinue)
    ensures lines[..i] == Processed(lines, canContinue)
  {
  }
}
