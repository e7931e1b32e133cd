/**
 The trajectory file of a captured session: a YAML preamble whose turn count is refreshed on
 every turn by reading the file back and rewriting it, followed by the blocks of all turns.
 */
module Trajectory {
  import opened Basics
  import opened Sequences
  import opened Text

  // ---- Text ----

  predicate SingleLine(text: string) {
    forall i :: 0 <= i < |text| ==> text[i] != '\n' && text[i] != '\r'
  }

  predicate AllSingle(lines: seq<string>) {
    lines == [] || (SingleLine(lines[0]) && AllSingle(lines[1..]))
  }

  lemma {:induction false} AllSingleIs(lines: seq<string>)
    requires forall i :: 0 <= i < |lines| ==> SingleLine(lines[i])
    ensures AllSingle(lines)
  {
    if lines != [] {
      AllSingleIs(lines[1..]);
    }
  }

  function Join(lines: seq<string>): string {
    if lines == [] then "" else if |lines| == 1 then lines[0] else lines[0] + "\n" + Join(lines[1..])
  }

  /** The first position of `pattern` in `text` at or after `from`. */
  function FindFrom(text: string, pattern: string, from: nat): (r: Option<nat>)
    requires from <= |text|
    ensures r.Some? ==> from <= r.value <= |text| && pattern <= text[r.value..]
    decreases |text| - from
  {
    if pattern <= text[from..] then Some(from)
    else if from == |text| then None
    else FindFrom(text, pattern, from + 1)
  }

  function Find(text: string, pattern: string): Option<nat> {
    FindFrom(text, pattern, 0)
  }

  lemma {:induction false} FindFromIs(text: string, pattern: string, from: nat, at: nat)
    requires from <= at <= |text| && pattern <= text[at..]
    requires forall k :: from <= k < at ==> !(pattern <= text[k..])
    ensures FindFrom(text, pattern, from) == Some(at)
    decreases at - from
  {
    if from < at {
      FindFromIs(text, pattern, from + 1, at);
    }
  }

  /** The position found is the first one; nothing is found exactly when there is none. */
  lemma {:induction false} FindIsFirst(text: string, pattern: string, from: nat)
    requires from <= |text|
    ensures var found := FindFrom(text, pattern, from);
            forall k :: from <= k < (if found.Some? then found.value else |text| + 1) ==> !(pattern <= text[k..])
    decreases |text| - from
  {
    if !(pattern <= text[from..]) && from < |text| {
      FindIsFirst(text, pattern, from + 1);
    }
  }

  function WithoutReturn(line: string): string {
    if line != "" && line[|line| - 1] == '\r' then line[..|line| - 1] else line
  }

  /** `str::lines`: split at newlines, drop a carriage return before each, no empty last line. */
  function LinesFrom(text: string, from: nat): seq<string>
    requires from <= |text|
    decreases |text| - from
  {
    if from == |text| then []
    else
      var end := LineEnd(text, from);
      if end == |text| then [text[from..]]
      else [WithoutReturn(text[from..end])] + LinesFrom(text, end + 1)
  }

  function Lines(text: string): seq<string> {
    LinesFrom(text, 0)
  }

  lemma LastLine(before: string, line: string)
    requires line != "" && SingleLine(line)
    ensures LinesFrom(before + line, |before|) == [line]
  {
    var text := before + line;
    assert text[|before|..] == line;
    assert forall k :: |before| <= k < |text| ==> text[k] == line[k - |before|];
    LineEndIs(text, |before|, |text|);
  }

  /** What stands before the first line break, less a carriage return at its end, is the first line. */
  lemma LineAt(before: string, line: string, rest: string)
    requires forall i :: 0 <= i < |line| ==> line[i] != '\n'
    ensures LinesFrom(before + line + "\n" + rest, |before|)
            == [WithoutReturn(line)] + LinesFrom(before + line + "\n" + rest, |before + line + "\n"|)
  {
    var text := before + line + "\n" + rest;
    var end := |before| + |line|;
    assert text[|before|..end] == line && text[end] == '\n';
    assert forall k :: |before| <= k < end ==> text[k] == line[k - |before|];
    LineEndIs(text, |before|, end);
  }

  lemma FirstLine(before: string, line: string, rest: string)
    requires SingleLine(line)
    ensures LinesFrom(before + line + "\n" + rest, |before|)
            == [line] + LinesFrom(before + line + "\n" + rest, |before + line + "\n"|)
  {
    LineAt(before, line, rest);
    assert WithoutReturn(line) == line;
  }

  /** A carriage return before the line break is not part of the line. */
  lemma ReturnDropped(before: string, line: string, rest: string, ended: string)
    requires SingleLine(line) && ended == line + "\r"
    ensures LinesFrom(before + ended + "\n" + rest, |before|)
            == [line] + LinesFrom(before + ended + "\n" + rest, |before + ended + "\n"|)
  {
    LineAt(before, ended, rest);
    assert WithoutReturn(ended) == line;
  }

  /** Splitting joined lines gives the lines back. */
  lemma {:induction false} LinesOfJoin(before: string, lines: seq<string>)
    requires lines != [] && lines[|lines| - 1] != ""
    requires AllSingle(lines)
    ensures LinesFrom(before + Join(lines), |before|) == lines
    decreases |lines|
  {
    if |lines| == 1 {
      LastLine(before, lines[0]);
      assert lines == [lines[0]];
    } else {
      var rest := Join(lines[1..]);
      FirstLine(before, lines[0], rest);
      LinesOfJoin(before + lines[0] + "\n", lines[1..]);
      JoinAfter(before, lines);
      assert lines == [lines[0]] + lines[1..];
    }
  }

  lemma JoinAfter(before: string, lines: seq<string>)
    requires |lines| > 1
    ensures before + Join(lines) == before + lines[0] + "\n" + Join(lines[1..])
  {
  }

  // ---- The terminator ----

  const TERMINATOR := "\n---\n\n"

  /** What follows the first of several joined lines is the rest of them, joined. */
  lemma DropFirstLine(lines: seq<string>, tail: string, k: nat)
    requires |lines| > 1 && |lines[0]| < k < |Join(lines)|
    ensures (Join(lines) + tail)[k..] == (Join(lines[1..]) + tail)[k - |lines[0]| - 1..]
  {
    assert Join(lines) + tail == lines[0] + "\n" + (Join(lines[1..]) + tail);
  }

  /** One of the lines is a rule. */
  predicate HasRule(lines: seq<string>) {
    lines != [] && (lines[0] == "---" || HasRule(lines[1..]))
  }

  lemma {:induction false} HasRuleIs(lines: seq<string>)
    requires HasRule(lines)
    ensures exists i :: 0 <= i < |lines| && lines[i] == "---"
  {
    if lines[0] != "---" {
      HasRuleIs(lines[1..]);
      var i :| 0 <= i < |lines[1..]| && lines[1..][i] == "---";
      assert lines[i + 1] == "---";
    }
  }

  /** A terminator inside joined lines is one of the lines after the first. */
  lemma {:induction false} TerminatorIsLine(lines: seq<string>, after: string, k: nat, suffix: string)
    requires lines != [] && k < |Join(lines)|
    requires AllSingle(lines)
    requires suffix == (Join(lines) + ("\n---\n\n" + after))[k..] && TERMINATOR <= suffix
    ensures HasRule(lines[1..])
    decreases |lines|
  {
    if |lines| > 1 && k > |lines[0]| {
      DropFirstLine(lines, "\n---\n\n" + after, k);
      TerminatorIsLine(lines[1..], after, k - |lines[0]| - 1, suffix);
    } else {
      TerminatorAtFirst(lines, after, k);
    }
  }

  lemma TerminatorAtFirst(lines: seq<string>, after: string, k: nat)
    requires lines != [] && k < |Join(lines)| && (|lines| > 1 ==> k <= |lines[0]|)
    requires AllSingle(lines)
    requires TERMINATOR <= (Join(lines) + ("\n---\n\n" + after))[k..]
    ensures |lines| > 1 && lines[1] == "---"
  {
    var text := Join(lines) + ("\n---\n\n" + after);
    assert text[k] == '\n' && text[k + 1] == '-' && text[k + 2] == '-' && text[k + 3] == '-' && text[k + 4] == '\n';
    assert forall j :: 0 <= j < |lines[0]| ==> text[j] == lines[0][j];
    assert |lines| > 1;
    assert text == lines[0] + "\n" + (Join(lines[1..]) + ("\n---\n\n" + after));
    HeadIs(lines[1..], after);
  }

  /** If the text after a line break starts with "---\n", the next line is "---". */
  lemma HeadIs(lines: seq<string>, after: string)
    requires lines != []
    requires AllSingle(lines)
    requires var rest := Join(lines) + ("\n---\n\n" + after);
             |rest| >= 4 && rest[0] == '-' && rest[1] == '-' && rest[2] == '-' && rest[3] == '\n'
    ensures lines[0] == "---"
  {
    var rest := Join(lines) + ("\n---\n\n" + after);
    var n := |lines[0]|;
    assert forall j :: 0 <= j < n ==> rest[j] == lines[0][j];
    assert rest[n] == '\n';
    assert n >= 3 && n <= 3;
  }

  lemma {:induction false} JoinSplit(lines: seq<string>, i: nat)
    requires 0 < i < |lines|
    ensures Join(lines) == Join(lines[..i]) + "\n" + Join(lines[i..])
  {
    if i == 1 {
      assert Join(lines[..1]) == lines[0];
    } else {
      JoinSplit(lines[1..], i - 1);
      assert lines[1..][..i - 1] == lines[..i][1..];
      assert lines[1..][i - 1..] == lines[i..];
    }
  }

  lemma {:induction false} FindFromFinds(text: string, pattern: string, from: nat, at: nat)
    requires from <= at <= |text| && pattern <= text[at..]
    ensures FindFrom(text, pattern, from).Some?
    decreases at - from
  {
    if from < at && !(pattern <= text[from..]) {
      FindFromFinds(text, pattern, from + 1, at);
    }
  }

  // ---- Scalars of the preamble ----

  function HexDigit(n: nat): char
    requires n < 16
  {
    "0123456789abcdef"[n]
  }

  /** One character of a JSON string. */
  function Escape(c: char): (r: string)
    ensures SingleLine(r)
  {
    if c == '\"' then "\\\""
    else if c == '\\' then "\\\\"
    else if c == '\n' then "\\n"
    else if c == '\r' then "\\r"
    else if c == '\t' then "\\t"
    else if c == '\U{8}' then "\\b"
    else if c == '\U{C}' then "\\f"
    else if c < ' ' then "\\u00" + [HexDigit(c as int / 16), HexDigit(c as int % 16)]
    else [c]
  }

  function EscapeAll(text: string): (r: string)
    ensures SingleLine(r)
  {
    if text == "" then "" else Escape(text[0]) + EscapeAll(text[1..])
  }

  /** `serde_json::to_string` of a string. */
  function Quote(text: string): (r: string)
    ensures SingleLine(r)
  {
    "\"" + EscapeAll(text) + "\""
  }

  function Decimal(n: nat): (r: string)
    ensures SingleLine(r)
  {
    (if n < 10 then "" else Decimal(n / 10)) + ["0123456789"[n % 10]]
  }

  // ---- The preamble ----

  function PreambleLines(session: string, agent: string, turns: nat): seq<string> {
    ["---",
     "format: persisting:1.0",
     "block: |+",
     "  <!-- persisting:block:{speaker} {json} -->",
     "",
     "  message body",
     "",
     "session: " + Quote(session),
     "agent: " + Quote(agent),
     "turns: " + Decimal(turns),
     "storyline:",
     "  schema_version: storyline/v1",
     "  session: " + Quote(session),
     "  agent:",
     "    id: " + Quote(agent),
     "    name: " + Quote(agent),
     "client:",
     "  peer: ''",
     "  peer_port: 0",
     "  pid: 0",
     "  command: openclaw",
     "  machine_fp: ''"]
  }

  function Preamble(session: string, agent: string, turns: nat): string {
    Join(PreambleLines(session, agent, turns)) + TERMINATOR
  }

  // ---- Refreshing the turn count ----

  predicate StartsWith(text: string, prefix: string) {
    prefix <= text
  }

  function RefreshLine(line: string, turns: nat): string {
    if StartsWith(line, "turns:") then "turns: " + Decimal(turns) else line
  }

  function RefreshLines(lines: seq<string>, turns: nat): seq<string> {
    seq(|lines|, i requires 0 <= i < |lines| => RefreshLine(lines[i], turns))
  }

  /** Only the text before the first terminator is touched; without a terminator there is no result. */
  function Refresh(content: string, turns: nat): Option<string> {
    var end := Find(content, TERMINATOR);
    if end.None? then None
    else
      var preamble := content[..end.value];
      var body := content[end.value + |TERMINATOR|..];
      var updated := if Find(preamble, "turns:").Some? then Join(RefreshLines(Lines(preamble), turns))
                     else preamble + "\nturns: " + Decimal(turns);
      Some(updated + TERMINATOR + body)
  }

  /** A refresh fails exactly when the file has no terminator. */
  lemma RefreshFailsExactly(content: string, turns: nat)
    ensures Refresh(content, turns).None? <==> forall k :: 0 <= k <= |content| ==> !(TERMINATOR <= content[k..])
  {
    FindIsFirst(content, TERMINATOR, 0);
  }

  /** The preamble with its count renewed; one without a count gets one. */
  function Renewed(preamble: string, turns: nat): string {
    if Find(preamble, "turns:").Some? then Join(RefreshLines(Lines(preamble), turns))
    else preamble + "\nturns: " + Decimal(turns)
  }

  /** In any file, everything from the first terminator on stays as it is; only what comes before it is renewed. */
  lemma RefreshKeepsRest(content: string, turns: nat, end: nat)
    requires Find(content, TERMINATOR) == Some(end)
    ensures forall k :: 0 <= k < end ==> !(TERMINATOR <= content[k..])
    ensures Refresh(content, turns) == Some(Renewed(content[..end], turns) + content[end..])
  {
    FindIsFirst(content, TERMINATOR, 0);
    TerminatorThenBody(content, end);
    Assoc(Renewed(content[..end], turns), TERMINATOR, content[end + |TERMINATOR|..]);
  }

  lemma TerminatorThenBody(content: string, end: nat)
    requires end <= |content| && TERMINATOR <= content[end..]
    ensures end + |TERMINATOR| <= |content| && content[end..] == TERMINATOR + content[end + |TERMINATOR|..]
  {
    var rest := content[end..];
    assert rest == rest[..|TERMINATOR|] + rest[|TERMINATOR|..];
    assert rest[|TERMINATOR|..] == content[end + |TERMINATOR|..];
  }

  /** A preamble line that neither ends the preamble nor counts turns. */
  predicate Plain(line: string) {
    SingleLine(line) && line != "---" && (line == "" || line[0] != 't')
  }

  lemma PlainLayout()
    ensures Plain("format: persisting:1.0") && Plain("block: |+") && Plain("") && Plain("  message body")
    ensures Plain("  <!-- persisting:block:{speaker} {json} -->")
  {
  }

  lemma PlainStoryline()
    ensures Plain("storyline:") && Plain("  schema_version: storyline/v1") && Plain("  agent:")
  {
  }

  lemma PlainClient()
    ensures Plain("client:") && Plain("  peer: ''") && Plain("  peer_port: 0") && Plain("  pid: 0")
    ensures Plain("  command: openclaw") && Plain("  machine_fp: ''")
  {
  }

  lemma PlainField(name: string, value: string)
    requires Plain(name) && |name| > 3 && SingleLine(value)
    ensures Plain(name + value)
  {
  }

  lemma PlainFields(session: string, agent: string)
    ensures Plain("session: " + Quote(session)) && Plain("agent: " + Quote(agent))
            && Plain("  session: " + Quote(session))
    ensures Plain("    id: " + Quote(agent)) && Plain("    name: " + Quote(agent))
  {
    PlainField("session: ", Quote(session));
    PlainField("agent: ", Quote(agent));
    PlainField("  session: ", Quote(session));
    PlainField("    id: ", Quote(agent));
    PlainField("    name: ", Quote(agent));
  }

  lemma PreambleIsPlain(session: string, agent: string, turns: nat)
    ensures var lines := PreambleLines(session, agent, turns);
            forall i :: 0 < i < |lines| && i != 9 ==> Plain(lines[i])
  {
    PlainLayout();
    PlainStoryline();
    PlainClient();
    PlainFields(session, agent);
  }

  lemma RuleAndTurns(turns: nat)
    ensures SingleLine("---") && SingleLine("turns: " + Decimal(turns))
    ensures StartsWith("turns: " + Decimal(turns), "turns:") && !StartsWith("---", "turns:")
    ensures "turns: " + Decimal(turns) != "---"
  {
    var field, rule := "turns: ", "---";
    assert SingleLine(field);
    assert field[..6] == "turns:";
    assert field[0] == 't' && rule[0] == '-';
  }

  lemma PlainKept(line: string, turns: nat)
    requires Plain(line)
    ensures RefreshLine(line, turns) == line
  {
  }

  lemma OnlyTurnsLineChanges(session: string, agent: string, turns: nat, newTurns: nat)
    ensures RefreshLines(PreambleLines(session, agent, turns), newTurns) == PreambleLines(session, agent, newTurns)
  {
    var lines, renewed := PreambleLines(session, agent, turns), PreambleLines(session, agent, newTurns);
    PreambleIsPlain(session, agent, turns);
    RuleAndTurns(turns);
    forall i | 0 <= i < |lines|
      ensures RefreshLine(lines[i], newTurns) == renewed[i]
    {
      if 0 < i != 9 {
        PlainKept(lines[i], newTurns);
        assert lines[i] == renewed[i];
      }
    }
  }

  /** The first terminator after joined lines is the one that was put there, if no later line is a rule. */
  lemma TerminatorFound(lines: seq<string>, body: string, text: string)
    requires lines != [] && AllSingle(lines) && !HasRule(lines[1..])
    requires text == Join(lines) + ("\n---\n\n" + body)
    ensures Find(text, TERMINATOR) == Some(|Join(lines)|)
  {
    var at := |Join(lines)|;
    assert text[at..] == TERMINATOR + body;
    forall k | 0 <= k < at
      ensures !(TERMINATOR <= text[k..])
    {
      if TERMINATOR <= text[k..] {
        TerminatorIsLine(lines, body, k, text[k..]);
      }
    }
    FindFromIs(text, TERMINATOR, 0, at);
  }

  /** What the preamble's lines have in common. */
  lemma PreambleFits(session: string, agent: string, turns: nat)
    ensures var lines := PreambleLines(session, agent, turns);
            AllSingle(lines) && lines[|lines| - 1] != "" && !HasRule(lines[1..])
  {
    var lines := PreambleLines(session, agent, turns);
    PreambleIsPlain(session, agent, turns);
    RuleAndTurns(turns);
    AllSingleIs(lines);
    if HasRule(lines[1..]) {
      HasRuleIs(lines[1..]);
    }
  }

  lemma PreambleFound(session: string, agent: string, turns: nat, body: string)
    ensures Find(Preamble(session, agent, turns) + body, TERMINATOR)
            == Some(|Join(PreambleLines(session, agent, turns))|)
  {
    var lines := PreambleLines(session, agent, turns);
    var text := Preamble(session, agent, turns) + body;
    PreambleFits(session, agent, turns);
    Assoc(Join(lines), TERMINATOR, body);
    TerminatorFound(lines, body, text);
  }

  lemma LineFound(lines: seq<string>, i: nat, mark: string)
    requires 0 < i < |lines| && mark <= lines[i]
    ensures Find(Join(lines), mark).Some?
  {
    JoinSplit(lines, i);
    var at := |Join(lines[..i])| + 1;
    var text := Join(lines);
    assert text[at..] == Join(lines[i..]);
    assert lines[i..][0] == lines[i];
    assert lines[i] <= Join(lines[i..]);
    FindFromFinds(text, mark, 0, at);
  }

  lemma TurnsMentioned(session: string, agent: string, turns: nat)
    ensures Find(Join(PreambleLines(session, agent, turns)), "turns:").Some?
  {
    RuleAndTurns(turns);
    LineFound(PreambleLines(session, agent, turns), 9, "turns:");
  }

  lemma PreambleReadBack(session: string, agent: string, turns: nat)
    ensures Lines(Join(PreambleLines(session, agent, turns))) == PreambleLines(session, agent, turns)
  {
    var lines := PreambleLines(session, agent, turns);
    PreambleFits(session, agent, turns);
    LinesOfJoin("", lines);
    assert "" + Join(lines) == Join(lines);
  }

  lemma AroundTheMiddle(a: string, b: string, c: string)
    ensures (a + b + c)[..|a|] == a && (a + b + c)[|a| + |b|..] == c
  {
  }

  /** Whatever follows the preamble, a refresh replaces its turn count and nothing else. */
  lemma RefreshReplacesTurns(session: string, agent: string, turns: nat, newTurns: nat, body: string)
    ensures Refresh(Preamble(session, agent, turns) + body, newTurns) == Some(Preamble(session, agent, newTurns) + body)
  {
    var lines := PreambleLines(session, agent, turns);
    var content := Preamble(session, agent, turns) + body;
    PreambleFound(session, agent, turns, body);
    TurnsMentioned(session, agent, turns);
    assert content == Join(lines) + TERMINATOR + body;
    AroundTheMiddle(Join(lines), TERMINATOR, body);
    PreambleReadBack(session, agent, turns);
    OnlyTurnsLineChanges(session, agent, turns, newTurns);
  }

  // ---- Turns ----

  const BLOCK_MARKER := "<!-- persisting:block"

  /** One captured turn; the headers are the encoded block metadata, the texts may be anything. */
  datatype Turn = Turn(number: nat, userHeader: string, user: Option<string>, assistantHeader: string,
                       assistant: Option<string>)

  function Block(speaker: string, header: string, body: string): string {
    BLOCK_MARKER + ":" + speaker + " " + header + " -->\n\n" + body + "\n\n"
  }

  predicate Visible(text: Option<string>) {
    text.Some? && text.value != ""
  }

  /** The blocks of a turn: user first, and only speakers with text. */
  function Blocks(turn: Turn): string {
    (if Visible(turn.user) then Block("user", turn.userHeader, turn.user.value) else "")
    + if Visible(turn.assistant) then Block("assistant", turn.assistantHeader, turn.assistant.value) else ""
  }

  /** A turn is printed as what the user said, then what the assistant said, whoever said nothing left out. */
  lemma TurnPrinted(turn: Turn)
    ensures Visible(turn.user) && Visible(turn.assistant) ==>
              Blocks(turn) == "<!-- persisting:block:user " + turn.userHeader + " -->\n\n" + turn.user.value + "\n\n"
                              + ("<!-- persisting:block:assistant " + turn.assistantHeader + " -->\n\n"
                                 + turn.assistant.value + "\n\n")
    ensures Visible(turn.user) && !Visible(turn.assistant) ==>
              Blocks(turn) == "<!-- persisting:block:user " + turn.userHeader + " -->\n\n" + turn.user.value + "\n\n"
    ensures !Visible(turn.user) && Visible(turn.assistant) ==>
              Blocks(turn) == "<!-- persisting:block:assistant " + turn.assistantHeader + " -->\n\n"
                              + turn.assistant.value + "\n\n"
    ensures !HasContent(turn) ==> Blocks(turn) == ""
  {
    assert BLOCK_MARKER + ":" + "user" + " " == "<!-- persisting:block:user ";
    assert BLOCK_MARKER + ":" + "assistant" + " " == "<!-- persisting:block:assistant ";
    if Visible(turn.user) {
      assert Block("user", turn.userHeader, turn.user.value) + "" == Block("user", turn.userHeader, turn.user.value);
    }
    if Visible(turn.assistant) {
      var block := Block("assistant", turn.assistantHeader, turn.assistant.value);
      assert "" + block == block;
    }
  }

  predicate HasContent(turn: Turn) {
    Visible(turn.user) || Visible(turn.assistant)
  }

  datatype AppendError = NoVisibleContent | MissingTerminator

  /** How a document starts, and how the turn count of an existing one is refreshed. */
  datatype Writer = Writer(preamble: nat -> string, refresh: (string, nat) -> Option<string>)

  function DocumentWriter(session: string, agent: string): Writer {
    Writer((turns: nat) => Preamble(session, agent, turns), (content: string, turns: nat) => Refresh(content, turns))
  }

  /** The new content of the file, given the old content if the file exists. */
  function AppendTurn(file: Option<string>, writer: Writer, turn: Turn): Result<string, AppendError> {
    if !HasContent(turn) then Err(NoVisibleContent)
    else if file.None? then Ok((writer.preamble)(turn.number) + Blocks(turn))
    else
      var updated := (writer.refresh)(file.value, turn.number);
      if updated.None? then Err(MissingTerminator) else Ok(updated.value + Blocks(turn))
  }

  /** A turn without content is refused before the file is looked at; a file without a terminator is refused as such. */
  lemma AppendFailsExactly(file: Option<string>, session: string, agent: string, turn: Turn)
    ensures var r := AppendTurn(file, DocumentWriter(session, agent), turn);
            && (r == Err(NoVisibleContent) <==> !Visible(turn.user) && !Visible(turn.assistant))
            && (r == Err(MissingTerminator) <==>
                  && (Visible(turn.user) || Visible(turn.assistant)) && file.Some?
                  && forall k :: 0 <= k <= |file.value| ==> !(TERMINATOR <= file.value[k..]))
  {
    if file.Some? {
      RefreshFailsExactly(file.value, turn.number);
    }
  }

  /** A failed append leaves the file as it is. */
  function FileAfter(writer: Writer, turns: seq<Turn>, n: nat): Option<string>
    requires n <= |turns|
  {
    if n == 0 then None
    else
      var before := FileAfter(writer, turns, n - 1);
      var r := AppendTurn(before, writer, turns[n - 1]);
      if r.Ok? then Some(r.value) else before
  }

  /** All blocks of the first `n` turns, in order. */
  function AllBlocks(turns: seq<Turn>, n: nat): string
    requires n <= |turns|
  {
    if n == 0 then "" else AllBlocks(turns, n - 1) + Blocks(turns[n - 1])
  }

  /** The number of the last turn with visible content. */
  function LastVisible(turns: seq<Turn>, n: nat): Option<nat>
    requires n <= |turns|
  {
    if n == 0 then None
    else if HasContent(turns[n - 1]) then Some(turns[n - 1].number)
    else LastVisible(turns, n - 1)
  }

  /** A refresh replaces the turn count and nothing else, whatever follows the preamble. */
  ghost predicate RefreshesOnlyTurns(writer: Writer) {
    forall turns: nat, newTurns: nat, body: string ::
      (writer.refresh)((writer.preamble)(turns) + body, newTurns) == Some((writer.preamble)(newTurns) + body)
  }

  /** The file that belongs to turns with this last visible number and these blocks. */
  function FileOf(writer: Writer, last: Option<nat>, body: string): Option<string> {
    if last.None? then None else Some((writer.preamble)(last.value) + body)
  }

  lemma AppendFollows(writer: Writer, last: Option<nat>, body: string, turn: Turn)
    requires RefreshesOnlyTurns(writer) && HasContent(turn) && (last.None? ==> body == "")
    ensures AppendTurn(FileOf(writer, last, body), writer, turn)
         == Ok((writer.preamble)(turn.number) + (body + Blocks(turn)))
  {
    if last.Some? {
      assert (writer.refresh)((writer.preamble)(last.value) + body, turn.number)
          == Some((writer.preamble)(turn.number) + body);
      Assoc((writer.preamble)(turn.number), body, Blocks(turn));
    } else {
      assert body + Blocks(turn) == Blocks(turn);
    }
  }

  lemma EmptyTurn(turn: Turn, body: string)
    requires !HasContent(turn)
    ensures body + Blocks(turn) == body
  {
  }

  lemma {:induction false} FileFollowsTurns(writer: Writer, turns: seq<Turn>, n: nat)
    requires n <= |turns| && RefreshesOnlyTurns(writer)
    ensures FileAfter(writer, turns, n) == FileOf(writer, LastVisible(turns, n), AllBlocks(turns, n))
    ensures LastVisible(turns, n).None? ==> AllBlocks(turns, n) == ""
  {
    if n > 0 {
      FileFollowsTurns(writer, turns, n - 1);
      if HasContent(turns[n - 1]) {
        AppendFollows(writer, LastVisible(turns, n - 1), AllBlocks(turns, n - 1), turns[n - 1]);
      } else {
        EmptyTurn(turns[n - 1], AllBlocks(turns, n - 1));
      }
    }
  }

  lemma DocumentsRefreshOnlyTurns(session: string, agent: string)
    ensures RefreshesOnlyTurns(DocumentWriter(session, agent))
  {
    var writer := DocumentWriter(session, agent);
    forall turns: nat, newTurns: nat, body: string
      ensures (writer.refresh)((writer.preamble)(turns) + body, newTurns) == Some((writer.preamble)(newTurns) + body)
    {
      RefreshReplacesTurns(session, agent, turns, newTurns, body);
    }
  }

  /**
   After any turns the file is the preamble with the count of the latest visible turn followed by every block
   in order, whatever the texts contain.
   */
  lemma FileIsPreambleAndBlocks(session: string, agent: string, turns: seq<Turn>, n: nat)
    requires n <= |turns|
    ensures FileAfter(DocumentWriter(session, agent), turns, n) ==
            var last := LastVisible(turns, n);
            if last.None? then None else Some(Preamble(session, agent, last.value) + AllBlocks(turns, n))
  {
    DocumentsRefreshOnlyTurns(session, agent);
    FileFollowsTurns(DocumentWriter(session, agent), turns, n);
  }
}
