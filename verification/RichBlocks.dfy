/**
 Rich messages: text interleaved with fenced components. Printing blocks with blank lines
 between them and parsing the result gives the blocks back. The JSON codecs of the two
 component kinds are parameters.
 */
module RichBlocks {
  import opened Basics
  import opened Sequences
  import opened Text
  import F = Fences

  datatype RichBlock<A, B> = Text(text: string) | Trajectory(embed: A) | Table(table: B)

  datatype Codecs<!A, !B> = Codecs(
    writeTrajectory: A -> string, readTrajectory: string -> Option<A>,
    writeTable: B -> string, readTable: string -> Option<B>)

  const OPENING := "```pchronicle:"
  const CLOSING := "```"

  // ---- Parsing ----

  /** A line that opens a component fence, of whatever kind. */
  predicate Opens(line: string) {
    OPENING <= Trim(line)
  }

  function Component<A, B>(kind: string, payload: string, codecs: Codecs<A, B>): Option<RichBlock<A, B>> {
    if kind == "trajectory" then
      var embed := (codecs.readTrajectory)(payload);
      if embed.Some? then Some(Trajectory(embed.value)) else None
    else if kind == "table" then
      var table := (codecs.readTable)(payload);
      if table.Some? then Some(Table(table.value)) else None
    else None
  }

  /** Accumulated text becomes a block unless it is blank. */
  function TextBlock<A, B>(text: string): seq<RichBlock<A, B>> {
    if Trim(text) == "" then [] else [Text(Trim(text))]
  }

  /** A line opens a fence by its prefix and closes one by being it; only two kinds of payload are read. */
  function Markdown<A, B>(codecs: Codecs<A, B>): F.Grammar<RichBlock<A, B>> {
    F.Grammar((line: string) => if Opens(line) then Some(Trim(line)[|OPENING|..]) else None,
              (line: string) => Trim(line) == CLOSING,
              (kind: string, payload: string) => Component(kind, payload, codecs),
              (text: string) => TextBlock(text))
  }

  function ParseLines<A, B>(lines: seq<string>, text: string, codecs: Codecs<A, B>): seq<RichBlock<A, B>> {
    F.Parse(lines, text, Markdown(codecs))
  }

  function Parsed<A, B>(value: string, codecs: Codecs<A, B>): seq<RichBlock<A, B>> {
    ParseLines(SplitInclusive(value), "", codecs)
  }

  method ParseRichBlocks<A, B>(value: string, codecs: Codecs<A, B>) returns (blocks: seq<RichBlock<A, B>>)
    ensures blocks == Parsed(value, codecs)
  {
    blocks := F.ParseAll(SplitInclusive(value), Markdown(codecs));
  }

  // ---- Printing ----

  function Fence(kind: string, payload: string): string {
    OPENING + kind + "\n" + payload + "\n" + CLOSING
  }

  function Printed<A, B>(block: RichBlock<A, B>, codecs: Codecs<A, B>): string {
    match block
    case Text(text) => text
    case Trajectory(embed) => Fence("trajectory", (codecs.writeTrajectory)(embed))
    case Table(table) => Fence("table", (codecs.writeTable)(table))
  }

  /** Blocks with a blank line between them. */
  function Document<A, B>(blocks: seq<RichBlock<A, B>>, codecs: Codecs<A, B>): string {
    if blocks == [] then ""
    else if |blocks| == 1 then Printed(blocks[0], codecs)
    else Printed(blocks[0], codecs) + "\n\n" + Document(blocks[1..], codecs)
  }

  /** The text of a fence, to the letter. */
  lemma FenceText(payload: string)
    ensures Fence("table", payload) == "```pchronicle:table\n" + payload + "\n```"
    ensures Fence("trajectory", payload) == "```pchronicle:trajectory\n" + payload + "\n```"
  {
    assert OPENING + "table" + "\n" == "```pchronicle:table\n";
    assert OPENING + "trajectory" + "\n" == "```pchronicle:trajectory\n";
  }

  // ---- What can be printed ----

  /** Trimmed text none of whose lines opens a fence. */
  predicate PrintableText(text: string) {
    Trimmed(text) && forall i :: 0 <= i < |SplitInclusive(text)| ==> !Opens(SplitInclusive(text)[i])
  }

  /** A payload on one line that is not a closing fence. */
  predicate PrintablePayload(payload: string) {
    NoBreak(payload) && Trim(payload) != CLOSING
  }

  predicate Printable<A(==), B(==)>(block: RichBlock<A, B>, codecs: Codecs<A, B>) {
    match block
    case Text(text) => PrintableText(text)
    case Trajectory(embed) =>
      var payload := (codecs.writeTrajectory)(embed);
      PrintablePayload(payload) && (codecs.readTrajectory)(payload + "\n") == Some(embed)
    case Table(table) =>
      var payload := (codecs.writeTable)(table);
      PrintablePayload(payload) && (codecs.readTable)(payload + "\n") == Some(table)
  }

  /** Printable blocks with no two text blocks in a row. */
  predicate PrintableAll<A(==), B(==)>(blocks: seq<RichBlock<A, B>>, codecs: Codecs<A, B>) {
    && (forall i :: 0 <= i < |blocks| ==> Printable(blocks[i], codecs))
    && (forall i :: 0 <= i < |blocks| - 1 ==> !(blocks[i].Text? && blocks[i + 1].Text?))
  }

  // ---- Lines that are only text ----

  predicate NoneOpens(lines: seq<string>) {
    forall i :: 0 <= i < |lines| ==> !Opens(lines[i])
  }

  /** Lines that open no fence only add to the text. */
  lemma TextThenRest<A, B>(lines: seq<string>, after: seq<string>, text: string, codecs: Codecs<A, B>)
    requires NoneOpens(lines)
    ensures ParseLines(lines + after, text, codecs) == ParseLines(after, text + Flatten(lines), codecs)
  {
    var g := Markdown(codecs);
    forall i | 0 <= i < |lines|
      ensures g.opens(lines[i]).None?
    {
      assert !Opens(lines[i]);
    }
    F.TextThenRest(lines, after, text, g);
  }

  // ---- A fence ----

  lemma TrimWithBreak(text: string)
    requires Trimmed(text)
    ensures Trim(text) == text && Trim(text + "\n") == text
  {
    TrimFinds("", text, "");
    TrimFinds("", text, "\n");
    assert "" + text + "" == text && "" + text + "\n" == text + "\n";
  }

  lemma FenceMarks(kind: string)
    requires kind == "trajectory" || kind == "table"
    ensures NoBreak(OPENING + kind) && Opens(OPENING + kind + "\n")
    ensures Trim(OPENING + kind + "\n")[|OPENING|..] == kind
    ensures Trim(CLOSING) == CLOSING && Trim(CLOSING + "\n") == CLOSING && NoBreak(CLOSING)
  {
    var marker := OPENING + kind;
    assert marker[0] == '`' && !IsWhitespace('`') && !IsWhitespace('y') && !IsWhitespace('e');
    assert marker[|marker| - 1] == kind[|kind| - 1];
    TrimWithBreak(marker);
    TrimWithBreak(CLOSING);
    assert marker[|OPENING|..] == kind;
  }

  /** Three lines that fence a payload parse to its component, whatever follows. */
  lemma FenceParses<A, B>(kind: string, payload: string, closing: string, after: seq<string>, text: string,
                          component: RichBlock<A, B>, codecs: Codecs<A, B>)
    requires kind == "trajectory" || kind == "table"
    requires PrintablePayload(payload) && (closing == CLOSING || closing == CLOSING + "\n")
    requires Component(kind, payload + "\n", codecs) == Some(component)
    ensures ParseLines([OPENING + kind + "\n", payload + "\n", closing] + after, text, codecs)
         == TextBlock(text) + [component] + ParseLines(after, "", codecs)
  {
    FenceMarks(kind);
    TrimIgnoresBreak(payload);
    F.FenceFirst(OPENING + kind + "\n", payload + "\n", closing, after, text, Markdown(codecs), kind, component);
  }

  /** Three lines, the last one ended or not. */
  lemma SplitThree(a: string, b: string, c: string, rest: string)
    requires NoBreak(a) && NoBreak(b) && NoBreak(c) && c != ""
    ensures SplitInclusive(a + "\n" + b + "\n" + c) == [a + "\n", b + "\n", c]
    ensures SplitInclusive(a + "\n" + b + "\n" + c + "\n" + rest)
            == [a + "\n", b + "\n", c + "\n"] + SplitInclusive(rest)
  {
    SplitLast(c);
    SplitTwo(a, b, c);
    assert [a + "\n", b + "\n"] + [c] == [a + "\n", b + "\n", c];
    SplitFirst(c, rest);
    SplitTwo(a, b, c + "\n" + rest);
    Regroup(a + "\n" + b + "\n", c, "\n", rest);
    assert [a + "\n", b + "\n"] + ([c + "\n"] + SplitInclusive(rest))
           == [a + "\n", b + "\n", c + "\n"] + SplitInclusive(rest);
  }

  lemma SplitTwo(a: string, b: string, rest: string)
    requires NoBreak(a) && NoBreak(b)
    ensures SplitInclusive(a + "\n" + b + "\n" + rest) == [a + "\n", b + "\n"] + SplitInclusive(rest)
  {
    SplitFirst(b, rest);
    SplitFirst(a, b + "\n" + rest);
    Regroup(a + "\n", b, "\n", rest);
    assert [a + "\n"] + ([b + "\n"] + SplitInclusive(rest)) == [a + "\n", b + "\n"] + SplitInclusive(rest);
  }

  lemma Regroup(a: string, b: string, c: string, d: string)
    ensures a + b + c + d == a + (b + c + d)
  {
  }

  // ---- The round trip ----

  lemma BlankLine()
    ensures SplitInclusive("\n") == ["\n"] && !Opens("\n") && IsBlank("\n") && IsBlank("\n\n")
  {
    SplitFirst("", "");
    assert "" + "\n" + "" == "\n" && "" + "\n" == "\n";
    TrimBlank("\n");
  }

  lemma OpensAfterTrim(a: seq<string>, b: seq<string>)
    requires TrimAll(a) == TrimAll(b)
    ensures NoneOpens(a) <==> NoneOpens(b)
  {
    TrimAllIs(a);
    TrimAllIs(b);
    assert |a| == |b|;
    forall i | 0 <= i < |a|
      ensures Opens(a[i]) <==> Opens(b[i])
    {
      assert TrimAll(a)[i] == Trim(a[i]) && TrimAll(b)[i] == Trim(b[i]);
    }
  }

  lemma {:induction false} TrimAllIs(lines: seq<string>)
    ensures |TrimAll(lines)| == |lines|
    ensures forall i :: 0 <= i < |lines| ==> TrimAll(lines)[i] == Trim(lines[i])
  {
    if lines != [] {
      TrimAllIs(lines[1..]);
      assert forall i :: 0 < i < |lines| ==> lines[i] == lines[1..][i - 1];
    }
  }

  /** Printable text on its own is accumulated as it is. */
  lemma TextAloneParses<A, B>(text: string, pending: string, codecs: Codecs<A, B>)
    requires PrintableText(text)
    ensures ParseLines(SplitInclusive(text), pending, codecs) == TextBlock(pending + text)
  {
    var lines := SplitInclusive(text);
    SplitKeepsText(text);
    TextThenRest(lines, [], pending, codecs);
    assert lines + [] == lines;
  }

  /** So is printable text with more to follow. */
  lemma TextParses<A, B>(text: string, rest: string, pending: string, codecs: Codecs<A, B>)
    requires PrintableText(text)
    ensures ParseLines(SplitInclusive(text + "\n\n" + rest), pending, codecs)
         == ParseLines(SplitInclusive(rest), pending + (text + "\n\n"), codecs)
  {
    TextLines(text, rest);
    TextThenRest(SplitInclusive(text + "\n\n"), SplitInclusive(rest), pending, codecs);
  }

  /** Text and the blank line after it split off what follows, and none of their lines opens a fence. */
  lemma TextLines(text: string, rest: string)
    requires PrintableText(text)
    ensures var all := SplitInclusive(text + "\n\n");
            && SplitInclusive(text + "\n\n" + rest) == all + SplitInclusive(rest)
            && NoneOpens(all) && Flatten(all) == text + "\n\n"
  {
    BlankLine();
    SplitClosed(text);
    OpensAfterTrim(SplitInclusive(text + "\n"), SplitInclusive(text));
    SplitConcat(text + "\n", "\n");
    assert text + "\n" + "\n" == text + "\n\n";
    SplitConcat(text + "\n\n", rest);
    SplitKeepsText(text + "\n\n");
  }

  function KindOf<A, B>(block: RichBlock<A, B>): string {
    if block.Trajectory? then "trajectory" else "table"
  }

  function PayloadOf<A, B>(block: RichBlock<A, B>, codecs: Codecs<A, B>): string
    requires !block.Text?
  {
    if block.Trajectory? then (codecs.writeTrajectory)(block.embed) else (codecs.writeTable)(block.table)
  }

  /** A printed component on its own ends the pending text. */
  lemma ComponentAloneParses<A, B>(block: RichBlock<A, B>, pending: string, codecs: Codecs<A, B>)
    requires !block.Text? && Printable(block, codecs)
    ensures ParseLines(SplitInclusive(Printed(block, codecs)), pending, codecs) == TextBlock(pending) + [block]
  {
    var kind, payload := KindOf(block), PayloadOf(block, codecs);
    FenceMarks(kind);
    SplitThree(OPENING + kind, payload, CLOSING, "");
    FenceParses(kind, payload, CLOSING, [], pending, block, codecs);
    var fence := [OPENING + kind + "\n", payload + "\n", CLOSING];
    assert fence + [] == fence;
    TrimBlank("");
    assert TextBlock(pending) + [block] + [] == TextBlock(pending) + [block];
  }

  /** So does a printed component with more to follow. */
  lemma ComponentParses<A, B>(block: RichBlock<A, B>, rest: string, pending: string, codecs: Codecs<A, B>)
    requires !block.Text? && Printable(block, codecs)
    ensures ParseLines(SplitInclusive(Printed(block, codecs) + "\n\n" + rest), pending, codecs)
         == TextBlock(pending) + [block] + ParseLines(SplitInclusive(rest), "\n", codecs)
  {
    var kind, payload := KindOf(block), PayloadOf(block, codecs);
    FenceMarks(kind);
    SplitThree(OPENING + kind, payload, CLOSING, "\n" + rest);
    BreakTwice(Printed(block, codecs), rest);
    BlankLine();
    SplitConcat("\n", rest);
    FenceParses(kind, payload, CLOSING + "\n", ["\n"] + SplitInclusive(rest), pending, block, codecs);
    BlankLineParses(rest, codecs);
  }

  lemma BreakTwice(text: string, rest: string)
    ensures text + "\n\n" + rest == text + "\n" + ("\n" + rest)
  {
  }

  lemma BlankLineParses<A, B>(rest: string, codecs: Codecs<A, B>)
    ensures ParseLines(["\n"] + SplitInclusive(rest), "", codecs) == ParseLines(SplitInclusive(rest), "\n", codecs)
  {
    BlankLine();
    TextThenRest(["\n"], SplitInclusive(rest), "", codecs);
    FlattenOne("\n");
    assert "" + "\n" == "\n";
  }

  /** Text between white space is one block. */
  lemma TextBlockIs<A, B>(before: string, text: string, after: string, codecs: Codecs<A, B>)
    requires IsBlank(before) && IsBlank(after) && Trimmed(text)
    ensures TextBlock<A, B>(before + (text + after)) == [Text(text)]
    ensures TextBlock<A, B>(before) == []
  {
    TrimFinds(before, text, after);
    assert before + text + after == before + (text + after);
    TrimBlank(before);
  }

  /** A text block in front of a document that parses. */
  lemma TextInFront<A, B>(text: string, rest: seq<RichBlock<A, B>>, document: string, pending: string,
                          codecs: Codecs<A, B>)
    requires PrintableText(text) && IsBlank(pending)
    requires ParseLines(SplitInclusive(document), pending + (text + "\n\n"), codecs)
          == TextBlock(pending + (text + "\n\n")) + rest
    ensures ParseLines(SplitInclusive(text + "\n\n" + document), pending, codecs)
            == TextBlock(pending) + ([Text(text)] + rest)
  {
    BlankLine();
    TextParses(text, document, pending, codecs);
    TextBlockIs(pending, text, "\n\n", codecs);
  }

  lemma TextAtEnd<A, B>(text: string, pending: string, codecs: Codecs<A, B>)
    requires PrintableText(text) && IsBlank(pending)
    ensures ParseLines(SplitInclusive(text), pending, codecs) == TextBlock(pending) + [Text(text)]
  {
    TextAloneParses(text, pending, codecs);
    TextBlockIs(pending, text, "", codecs);
    assert text + "" == text;
  }

  /** A component in front of a document that parses. */
  lemma ComponentInFront<A, B>(block: RichBlock<A, B>, rest: seq<RichBlock<A, B>>, document: string,
                               pending: string, codecs: Codecs<A, B>)
    requires !block.Text? && Printable(block, codecs)
    requires ParseLines(SplitInclusive(document), "\n", codecs) == TextBlock("\n") + rest
    ensures ParseLines(SplitInclusive(Printed(block, codecs) + "\n\n" + document), pending, codecs)
         == TextBlock(pending) + ([block] + rest)
  {
    ComponentParses(block, document, pending, codecs);
    BlankLine();
    TrimBlank("\n");
    var none: seq<RichBlock<A, B>> := TextBlock("\n");
    assert none + rest == rest;
    Assoc(TextBlock(pending), [block], rest);
  }

  lemma {:induction false} DocumentParses<A, B>(blocks: seq<RichBlock<A, B>>, pending: string, codecs: Codecs<A, B>)
    requires PrintableAll(blocks, codecs)
    requires blocks != [] && blocks[0].Text? ==> IsBlank(pending)
    ensures ParseLines(SplitInclusive(Document(blocks, codecs)), pending, codecs) == TextBlock(pending) + blocks
    decreases |blocks|
  {
    if blocks == [] {
    } else if |blocks| == 1 {
      assert blocks == [blocks[0]] && Printable(blocks[0], codecs);
      if blocks[0].Text? {
        TextAtEnd(blocks[0].text, pending, codecs);
      } else {
        ComponentAloneParses(blocks[0], pending, codecs);
      }
    } else {
      var first, rest := blocks[0], blocks[1..];
      assert blocks == [first] + rest && Printable(first, codecs);
      if first.Text? {
        DocumentParses(rest, pending + (first.text + "\n\n"), codecs);
        TextInFront(first.text, rest, Document(rest, codecs), pending, codecs);
      } else {
        BlankLine();
        DocumentParses(rest, "\n", codecs);
        ComponentInFront(first, rest, Document(rest, codecs), pending, codecs);
      }
    }
  }

  /** Printing printable blocks and parsing the document gives the blocks back. */
  lemma RoundTrip<A, B>(blocks: seq<RichBlock<A, B>>, codecs: Codecs<A, B>)
    requires PrintableAll(blocks, codecs)
    ensures Parsed(Document(blocks, codecs), codecs) == blocks
  {
    DocumentParses(blocks, "", codecs);
    TrimBlank("");
  }
}
