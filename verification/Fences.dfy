/**
 Reading lines in which text alternates with fenced components, for any grammar of fences: the loop over lines with
 its pending text, against the recursive reading.
 */
module Fences {
  import opened Basics
  import opened Sequences

  /**
   How lines are read: the kind of component that a line opens, if any; the lines that close one; what a payload of
   a kind stands for, if anything; and the blocks that accumulated text becomes.
   */
  datatype Grammar<!B> = Grammar(
    opens: string -> Option<string>, closes: string -> bool,
    read: (string, string) -> Option<B>, text: string -> seq<B>)

  /** The next line that closes a fence, at or after `from`. */
  function ClosingFrom<B>(lines: seq<string>, from: nat, g: Grammar<B>): (end: nat)
    requires from <= |lines|
    ensures from <= end <= |lines|
    decreases |lines| - from
  {
    if from == |lines| || g.closes(lines[from]) then from else ClosingFrom(lines, from + 1, g)
  }

  /** The component that the first line opens and line `end` closes, if there is one. */
  function Fenced<B>(lines: seq<string>, end: nat, g: Grammar<B>): Option<B>
    requires 0 < end <= |lines|
  {
    var kind := g.opens(lines[0]);
    if kind.None? || end == |lines| then None else (g.read)(kind.value, Flatten(lines[1..end]))
  }

  function Parse<B>(lines: seq<string>, text: string, g: Grammar<B>): seq<B>
    decreases |lines|
  {
    if lines == [] then (g.text)(text)
    else
      var end := ClosingFrom(lines, 1, g);
      var component := Fenced(lines, end, g);
      if component.Some? then (g.text)(text) + [component.value] + Parse(lines[end + 1..], "", g)
      else Parse(lines[1..], text + lines[0], g)
  }

  // ---- The loop ----

  lemma {:induction false} ClosingShifts<B>(lines: seq<string>, from: nat, k: nat, g: Grammar<B>)
    requires from + k <= |lines|
    ensures ClosingFrom(lines, from + k, g) == from + ClosingFrom(lines[from..], k, g)
    decreases |lines| - k
  {
    if from + k < |lines| {
      ClosingShifts(lines, from, k + 1, g);
    }
  }

  lemma SuffixOfSuffix<T>(s: seq<T>, i: nat, k: nat)
    requires i + k <= |s|
    ensures s[i..][k..] == s[i + k..]
  {
  }

  /** A turn of the loop that finds a component, seen from the recursive reading. */
  lemma StepAtComponent<B>(lines: seq<string>, index: nat, text: string, g: Grammar<B>, end: nat, block: B)
    requires index < |lines| && end == index + ClosingFrom(lines[index..], 1, g)
    requires Fenced(lines[index..], end - index, g) == Some(block)
    ensures end < |lines|
    ensures Parse(lines[index..], text, g) == (g.text)(text) + [block] + Parse(lines[end + 1..], "", g)
  {
    SuffixOfSuffix(lines, index, end - index + 1);
  }

  /** A turn that takes its line as text. */
  lemma StepAtText<B>(lines: seq<string>, index: nat, text: string, g: Grammar<B>)
    requires index < |lines| && Fenced(lines[index..], ClosingFrom(lines[index..], 1, g), g).None?
    ensures Parse(lines[index..], text, g) == [] + Parse(lines[index + 1..], text + lines[index], g)
  {
    SuffixOfSuffix(lines, index, 1);
    var tail := Parse(lines[index + 1..], text + lines[index], g);
    assert [] + tail == tail;
  }

  method FindClosing<B>(lines: seq<string>, from: nat, g: Grammar<B>) returns (end: nat)
    requires from <= |lines|
    ensures end == ClosingFrom(lines, from, g)
  {
    end := from;
    while end < |lines| && !g.closes(lines[end])
      invariant from <= end <= |lines|
      invariant ClosingFrom(lines, from, g) == ClosingFrom(lines, end, g)
    {
      end := end + 1;
    }
  }

  /** The component fenced at a line, and the line that would close it. */
  method TryComponent<B>(lines: seq<string>, index: nat, g: Grammar<B>) returns (parsed: Option<B>, end: nat)
    requires index < |lines|
    ensures end == index + ClosingFrom(lines[index..], 1, g)
    ensures parsed == Fenced(lines[index..], end - index, g)
  {
    ClosingShifts(lines, index, 1, g);
    end := FindClosing(lines, index + 1, g);
    parsed := None;
    var kind := g.opens(lines[index]);
    if kind.Some? && end < |lines| {
      var payload := Flatten(lines[index + 1..end]);
      assert lines[index..][1..end - index] == lines[index + 1..end];
      parsed := (g.read)(kind.value, payload);
    }
  }

  /** One turn of the parsing loop: what it emits, the text it carries on and the line it goes to. */
  method ParseStep<B>(lines: seq<string>, index: nat, text: string, g: Grammar<B>)
    returns (added: seq<B>, newText: string, newIndex: nat)
    requires index < |lines|
    ensures index < newIndex <= |lines|
    ensures Parse(lines[index..], text, g) == added + Parse(lines[newIndex..], newText, g)
  {
    var parsed, end := TryComponent(lines, index, g);
    if parsed.Some? {
      StepAtComponent(lines, index, text, g, end, parsed.value);
      return (g.text)(text) + [parsed.value], "", end + 1;
    }
    StepAtText(lines, index, text, g);
    return [], text + lines[index], index + 1;
  }

  method ParseAll<B>(lines: seq<string>, g: Grammar<B>) returns (blocks: seq<B>)
    ensures blocks == Parse(lines, "", g)
  {
    blocks := [];
    var text := "";
    var index := 0;
    ghost var rest := Parse(lines, "", g);
    assert lines[0..] == lines;
    while index < |lines|
      invariant 0 <= index <= |lines|
      invariant rest == Parse(lines[index..], text, g)
      invariant Parse(lines, "", g) == blocks + rest
    {
      var added, newText, newIndex := ParseStep(lines, index, text, g);
      index, text := newIndex, newText;
      rest := Parse(lines[index..], text, g);
      Assoc(blocks, added, rest);
      blocks := blocks + added;
    }
    assert lines[index..] == [];
    blocks := blocks + (g.text)(text);
  }

  // ---- Reading what was written ----

  predicate NoneOpens<B>(lines: seq<string>, g: Grammar<B>) {
    forall i :: 0 <= i < |lines| ==> g.opens(lines[i]).None?
  }

  lemma LineIsText<B>(line: string, rest: seq<string>, text: string, g: Grammar<B>)
    requires g.opens(line).None?
    ensures Parse([line] + rest, text, g) == Parse(rest, text + line, g)
  {
    assert ([line] + rest)[1..] == rest;
  }

  /** Lines that open no fence only add to the text. */
  lemma {:induction false} TextThenRest<B>(lines: seq<string>, after: seq<string>, text: string, g: Grammar<B>)
    requires NoneOpens(lines, g)
    ensures Parse(lines + after, text, g) == Parse(after, text + Flatten(lines), g)
    decreases |lines|
  {
    if lines == [] {
      assert lines + after == after && text + "" == text;
    } else {
      LineIsText(lines[0], lines[1..] + after, text, g);
      assert [lines[0]] + (lines[1..] + after) == lines + after;
      TextThenRest(lines[1..], after, text + lines[0], g);
      Assoc(text, lines[0], Flatten(lines[1..]));
    }
  }

  /** Three lines that fence a payload parse to its component, whatever follows. */
  lemma FenceFirst<B>(opening: string, payload: string, closing: string, after: seq<string>, text: string,
                      g: Grammar<B>, kind: string, component: B)
    requires g.opens(opening) == Some(kind) && !g.closes(payload) && g.closes(closing)
    requires (g.read)(kind, payload) == Some(component)
    ensures Parse([opening, payload, closing] + after, text, g)
         == (g.text)(text) + [component] + Parse(after, "", g)
  {
    var lines := [opening, payload, closing] + after;
    assert ClosingFrom(lines, 2, g) == 2;
    assert ClosingFrom(lines, 1, g) == 2;
    assert lines[1..2] == [payload];
    FlattenOne(payload);
    assert lines[3..] == after;
  }

  // ---- What stays text ----

  /** A fence that is never closed, or whose payload cannot be read, is text like any other line. */
  lemma UnreadFenceIsText<B>(line: string, rest: seq<string>, text: string, g: Grammar<B>)
    requires var lines := [line] + rest;
             var end := ClosingFrom(lines, 1, g);
             end == |lines| || g.opens(line).None? || (g.read)(g.opens(line).value, Flatten(lines[1..end])).None?
    ensures Parse([line] + rest, text, g) == Parse(rest, text + line, g)
  {
    assert ([line] + rest)[1..] == rest;
  }

  /** The line that closes a fence is the first one after it that can. */
  lemma {:induction false} ClosingIsFirst<B>(lines: seq<string>, from: nat, g: Grammar<B>)
    requires from <= |lines|
    ensures var end := ClosingFrom(lines, from, g);
            && (end < |lines| ==> g.closes(lines[end]))
            && forall k :: from <= k < end ==> !g.closes(lines[k])
    decreases |lines| - from
  {
    if from < |lines| && !g.closes(lines[from]) {
      ClosingIsFirst(lines, from + 1, g);
    }
  }
}
