/**
 A trajectory file determines what it was written for: its session, its agent, its turn count and
 everything after the preamble. Quoting and number formatting are proved by reading them back.
 */
module TrajectoryIdentity {
  import opened Trajectory

  // ---- Numbers ----

  function Value(digits: string): int {
    if digits == "" then 0
    else 10 * Value(digits[..|digits| - 1]) + (digits[|digits| - 1] as int - '0' as int)
  }

  lemma {:induction false} DecimalReadsBack(n: nat)
    ensures Value(Decimal(n)) == n
  {
    var text := Decimal(n);
    var last := |text| - 1;
    assert text[last] as int - '0' as int == n % 10 by {
      DigitIs(n % 10);
    }
    if n < 10 {
      assert text[..last] == "";
    } else {
      DecimalReadsBack(n / 10);
      assert text[..last] == Decimal(n / 10);
    }
  }

  lemma DigitIs(d: nat)
    requires d < 10
    ensures "0123456789"[d] as int - '0' as int == d
  {
  }

  // ---- Quoted strings ----

  function HexValue(c: char): (n: nat)
    ensures n < 16
  {
    if '0' <= c <= '9' then c as int - '0' as int
    else if 'a' <= c <= 'f' then c as int - 'a' as int + 10
    else 0
  }

  lemma HexReadsBack(n: nat)
    requires n < 16
    ensures HexValue(HexDigit(n)) == n
  {
  }

  /** The first character of an escaped string, and how many characters its escape takes. */
  function FirstUnit(text: string): (char, nat) {
    if text == "" then (' ', 0)
    else if text[0] != '\\' || |text| < 2 then (text[0], 1)
    else if text[1] == 'u' then
      (if |text| < 6 then ' ' else (16 * HexValue(text[4]) + HexValue(text[5])) as char, 6)
    else
      (match text[1]
       case 'n' => '\n'
       case 'r' => '\r'
       case 't' => '\t'
       case 'b' => '\U{8}'
       case 'f' => '\U{C}'
       case other => other, 2)
  }

  lemma ControlReadsBack(c: char, rest: string)
    requires c < ' ' && c !in "\n\r\t\U{8}\U{C}"
    ensures FirstUnit(Escape(c) + rest) == (c, |Escape(c)|)
  {
    var high, low := c as int / 16, c as int % 16;
    var text := Escape(c) + rest;
    assert text[0] == '\\' && text[1] == 'u' && text[4] == HexDigit(high) && text[5] == HexDigit(low);
    HexReadsBack(high);
    HexReadsBack(low);
  }

  lemma FirstUnitIs(c: char, rest: string)
    ensures FirstUnit(Escape(c) + rest) == (c, |Escape(c)|)
  {
    if c < ' ' && c !in "\n\r\t\U{8}\U{C}" {
      ControlReadsBack(c, rest);
    } else {
      var text := Escape(c) + rest;
      assert text[0] == Escape(c)[0];
      assert |Escape(c)| == 2 ==> text[1] == Escape(c)[1];
    }
  }

  lemma {:induction false} EscapeLosesNothing(a: string, b: string)
    requires EscapeAll(a) == EscapeAll(b)
    ensures a == b
    decreases |a|
  {
    if a != "" && b != "" {
      FirstUnitIs(a[0], EscapeAll(a[1..]));
      FirstUnitIs(b[0], EscapeAll(b[1..]));
      assert a[0] == b[0];
      SamePrefixed(Escape(a[0]), EscapeAll(a[1..]), EscapeAll(b[1..]));
      EscapeLosesNothing(a[1..], b[1..]);
      assert a == [a[0]] + a[1..] && b == [b[0]] + b[1..];
    }
  }

  lemma QuoteLosesNothing(a: string, b: string)
    requires Quote(a) == Quote(b)
    ensures a == b
  {
    assert EscapeAll(a) == Quote(a)[1..|Quote(a)| - 1];
    assert EscapeAll(b) == Quote(b)[1..|Quote(b)| - 1];
    EscapeLosesNothing(a, b);
  }

  // ---- Files ----

  lemma SamePrefixed(prefix: string, a: string, b: string)
    requires prefix + a == prefix + b
    ensures a == b
  {
    assert (prefix + a)[|prefix|..] == a && (prefix + b)[|prefix|..] == b;
  }

  lemma LinesIdentify(s: string, a: string, t: nat, s': string, a': string, t': nat)
    requires PreambleLines(s, a, t) == PreambleLines(s', a', t')
    ensures s == s' && a == a' && t == t'
  {
    var x, y := PreambleLines(s, a, t), PreambleLines(s', a', t');
    assert x[7] == y[7] && x[8] == y[8] && x[9] == y[9];
    SamePrefixed("session: ", Quote(s), Quote(s'));
    SamePrefixed("agent: ", Quote(a), Quote(a'));
    SamePrefixed("turns: ", Decimal(t), Decimal(t'));
    QuoteLosesNothing(s, s');
    QuoteLosesNothing(a, a');
    DecimalReadsBack(t);
    DecimalReadsBack(t');
  }

  /** Two files with the same content have one session, agent, turn count and body. */
  lemma FileIdentifies(s: string, a: string, t: nat, body: string, s': string, a': string, t': nat, body': string)
    requires Preamble(s, a, t) + body == Preamble(s', a', t') + body'
    ensures s == s' && a == a' && t == t' && body == body'
  {
    var x, y := Join(PreambleLines(s, a, t)), Join(PreambleLines(s', a', t'));
    var content := Preamble(s, a, t) + body;
    PreambleFound(s, a, t, body);
    PreambleFound(s', a', t', body');
    AroundTheMiddle(x, TERMINATOR, body);
    AroundTheMiddle(y, TERMINATOR, body');
    assert x == content[..|x|] && y == content[..|y|] && |x| == |y|;
    PreambleReadBack(s, a, t);
    PreambleReadBack(s', a', t');
    LinesIdentify(s, a, t, s', a', t');
  }

  /** The preamble names the session, the agent and the turn count, each in its own line. */
  lemma PreambleStates(session: string, agent: string, turns: nat)
    ensures var lines := PreambleLines(session, agent, turns);
            && lines[0] == "---" && lines[1] == "format: persisting:1.0"
            && lines[7] == "session: " + Quote(session) && lines[8] == "agent: " + Quote(agent)
            && lines[9] == "turns: " + Decimal(turns)
            && lines[12] == "  session: " + Quote(session)
            && lines[14] == "    id: " + Quote(agent) && lines[15] == "    name: " + Quote(agent)
  {
  }
}
