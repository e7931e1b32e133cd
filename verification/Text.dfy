/** Lines and white space, as the Rust string methods define them. */
module Text {
  import opened Basics
  import opened Sequences

  /** The end of the line that starts at `from`: the next newline, or the end of the text. */
  function LineEnd(text: string, from: nat): (end: nat)
    requires from <= |text|
    ensures from <= end <= |text|
    decreases |text| - from
  {
    if from == |text| || text[from] == '\n' then from else LineEnd(text, from + 1)
  }

  lemma {:induction false} LineEndIs(text: string, from: nat, end: nat)
    requires from <= end <= |text|
    requires forall k :: from <= k < end ==> text[k] != '\n'
    requires end == |text| || text[end] == '\n'
    ensures LineEnd(text, from) == end
    decreases end - from
  {
    if from < end {
      LineEndIs(text, from + 1, end);
    }
  }

  // ---- Lines with their line breaks ----

  /** `str::split_inclusive('\n')` */
  function SplitInclusive(text: string): seq<string>
    decreases |text|
  {
    if text == "" then []
    else
      var end := LineEnd(text, 0);
      if end == |text| then [text] else [text[..end + 1]] + SplitInclusive(text[end + 1..])
  }

  predicate NoBreak(text: string) {
    forall i :: 0 <= i < |text| ==> text[i] != '\n'
  }

  predicate EndsLine(text: string) {
    text == "" || text[|text| - 1] == '\n'
  }

  lemma {:induction false} SplitKeepsText(text: string)
    ensures Flatten(SplitInclusive(text)) == text
    decreases |text|
  {
    if text != "" {
      var end := LineEnd(text, 0);
      if end == |text| {
        FlattenOne(text);
      } else {
        SplitKeepsText(text[end + 1..]);
        assert text == text[..end + 1] + text[end + 1..];
      }
    }
  }

  /** A first line and the rest. */
  lemma SplitFirst(line: string, rest: string)
    requires NoBreak(line)
    ensures SplitInclusive(line + "\n" + rest) == [line + "\n"] + SplitInclusive(rest)
  {
    var text := line + "\n" + rest;
    LineEndIs(text, 0, |line|);
    assert text[..|line| + 1] == line + "\n";
    assert text[|line| + 1..] == rest;
  }

  lemma SplitLast(line: string)
    requires NoBreak(line) && line != ""
    ensures SplitInclusive(line) == [line]
  {
    LineEndIs(line, 0, |line|);
  }

  /** Text that ends a line can be split on its own. */
  lemma {:induction false} SplitConcat(a: string, b: string)
    requires EndsLine(a)
    ensures SplitInclusive(a + b) == SplitInclusive(a) + SplitInclusive(b)
    decreases |a|
  {
    if a == "" {
      assert a + b == b;
    } else {
      var end := LineEnd(a, 0);
      LineEndStops(a, 0);
      var line, rest := a[..end], a[end + 1..];
      assert a == line + "\n" + rest;
      SplitFirst(line, rest);
      Assoc(line + "\n", rest, b);
      SplitFirst(line, rest + b);
      SplitConcat(rest, b);
      Assoc([line + "\n"], SplitInclusive(rest), SplitInclusive(b));
    }
  }

  lemma {:induction false} LineEndStops(text: string, from: nat)
    requires from <= |text|
    ensures forall k :: from <= k < LineEnd(text, from) ==> text[k] != '\n'
    ensures LineEnd(text, from) == |text| || text[LineEnd(text, from)] == '\n'
    decreases |text| - from
  {
    if from < |text| && text[from] != '\n' {
      LineEndStops(text, from + 1);
    }
  }

  // ---- Trimming ----

  function TrimStart(text: string): string {
    if text != "" && IsWhitespace(text[0]) then TrimStart(text[1..]) else text
  }

  function TrimEnd(text: string): string {
    if text != "" && IsWhitespace(text[|text| - 1]) then TrimEnd(text[..|text| - 1]) else text
  }

  /** `str::trim` */
  function Trim(text: string): string {
    TrimEnd(TrimStart(text))
  }

  /** Starts and ends with a visible character. */
  predicate Trimmed(text: string) {
    text != "" && !IsWhitespace(text[0]) && !IsWhitespace(text[|text| - 1])
  }

  lemma {:induction false} TrimStartSkips(before: string, text: string)
    requires IsBlank(before) && (text == "" || !IsWhitespace(text[0]))
    ensures TrimStart(before + text) == text
  {
    if before == "" {
      assert before + text == text;
    } else {
      TrimStartSkips(before[1..], text);
      assert (before + text)[1..] == before[1..] + text;
    }
  }

  lemma {:induction false} TrimEndSkips(text: string, after: string)
    requires IsBlank(after) && (text == "" || !IsWhitespace(text[|text| - 1]))
    ensures TrimEnd(text + after) == text
  {
    if after == "" {
      assert text + after == text;
    } else {
      var last := |after| - 1;
      TrimEndSkips(text, after[..last]);
      assert (text + after)[..|text| + last] == text + after[..last];
    }
  }

  lemma TrimFinds(before: string, text: string, after: string)
    requires IsBlank(before) && IsBlank(after) && Trimmed(text)
    ensures Trim(before + text + after) == text
  {
    assert before + text + after == before + (text + after);
    TrimStartSkips(before, text + after);
    TrimEndSkips(text, after);
  }

  lemma TrimBlank(text: string)
    requires IsBlank(text)
    ensures Trim(text) == ""
  {
    TrimStartSkips(text, "");
    assert text + "" == text;
  }

  /** Trimming ignores a line break at the end. */
  lemma {:induction false} TrimIgnoresBreak(text: string)
    ensures Trim(text + "\n") == Trim(text)
  {
    if text == "" {
      TrimBlank("\n");
      assert text + "\n" == "\n";
    } else if IsWhitespace(text[0]) {
      TrimIgnoresBreak(text[1..]);
      assert (text + "\n")[1..] == text[1..] + "\n";
    } else {
      assert TrimStart(text + "\n") == text + "\n";
      assert (text + "\n")[..|text|] == text;
    }
  }

  function TrimAll(lines: seq<string>): seq<string> {
    if lines == [] then [] else [Trim(lines[0])] + TrimAll(lines[1..])
  }

  lemma SplitStep(text: string) returns (line: string, rest: string)
    requires text != "" && LineEnd(text, 0) < |text|
    ensures text == line + "\n" + rest && NoBreak(line)
    ensures SplitInclusive(text) == [line + "\n"] + SplitInclusive(rest)
  {
    var end := LineEnd(text, 0);
    LineEndStops(text, 0);
    line, rest := text[..end], text[end + 1..];
    assert text == line + "\n" + rest;
    SplitFirst(line, rest);
  }

  /** Up to trimming, ending the last line changes no line. */
  lemma {:induction false} SplitClosed(text: string)
    requires !EndsLine(text)
    ensures TrimAll(SplitInclusive(text + "\n")) == TrimAll(SplitInclusive(text))
    decreases |text|
  {
    if LineEnd(text, 0) == |text| {
      LineEndStops(text, 0);
      SplitLast(text);
      SplitFirst(text, "");
      TrimIgnoresBreak(text);
      assert text + "\n" + "" == text + "\n";
    } else {
      var line, rest := SplitStep(text);
      SplitClosed(rest);
      assert text + "\n" == line + "\n" + (rest + "\n");
      SplitFirst(line, rest + "\n");
    }
  }
}
