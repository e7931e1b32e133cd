/**
 The input list of a Responses request turned into messages. Consecutive tool calls wait in a
 pending list and become one assistant message when anything else comes, or at the end.
 Items are taken after field lookup: a kind and the content parts it carries.
 */
module ResponsesInput {
  import opened Basics
  import opened Sequences

  datatype Role = System | Developer | User | Assistant | Tool

  datatype Message<T> = Message(role: Role, parts: seq<T>, name: Option<string>)

  /** A wire message: what its fields decode to. */
  datatype Wire<T> = Wire(role: Role, toolResult: T, content: seq<T>, toolCalls: seq<T>,
                          reasoning: Option<T>, functionCall: Option<T>, name: Option<string>)

  datatype Item<T> =
    | Call(call: T)
    | Output(result: T)
    | Reasoning(text: T)
    | WireItem(wire: Wire<T>)
    | Other(parts: seq<T>)

  function Optional<T>(part: Option<T>): seq<T> {
    if part.Some? then [part.value] else []
  }

  /** Reasoning first, then the content or the tool result, then tool calls, then a legacy function call. */
  function WireParts<T>(wire: Wire<T>): seq<T> {
    Optional(wire.reasoning)
    + (if wire.role.Tool? then [wire.toolResult] else wire.content)
    + wire.toolCalls
    + Optional(wire.functionCall)
  }

  /** The message an item other than a call stands for; empty content stands for none. */
  function OwnMessages<T>(item: Item<T>): seq<Message<T>> {
    match item
    case Call(_) => []
    case Output(result) => [Message(Tool, [result], None)]
    case Reasoning(text) => [Message(Assistant, [text], None)]
    case WireItem(wire) => if WireParts(wire) == [] then [] else [Message(wire.role, WireParts(wire), wire.name)]
    case Other(parts) => if parts == [] then [] else [Message(User, parts, None)]
  }

  // ---- The reference: runs of calls ----

  /** How many items in a row are calls. */
  function Leading<T>(items: seq<Item<T>>): (k: nat)
    ensures k <= |items|
  {
    if items == [] || !items[0].Call? then 0 else 1 + Leading(items[1..])
  }

  /** The calls among some items. */
  function Calls<T>(items: seq<Item<T>>): seq<T> {
    if items == [] then [] else (if items[0].Call? then [items[0].call] else []) + Calls(items[1..])
  }

  lemma {:induction false} CallsConcat<T>(a: seq<Item<T>>, b: seq<Item<T>>)
    ensures Calls(a + b) == Calls(a) + Calls(b)
  {
    if a == [] {
      assert a + b == b;
    } else {
      CallsConcat(a[1..], b);
      TailOfConcat(a, b);
      Assoc(if a[0].Call? then [a[0].call] else [], Calls(a[1..]), Calls(b));
    }
  }

  /** Each unbroken run of calls is one assistant message, placed before whatever follows it. */
  function Grouped<T>(items: seq<Item<T>>): seq<Message<T>>
    decreases |items|
  {
    if items == [] then []
    else
      var k := Leading(items);
      if k > 0 then [Message(Assistant, Calls(items[..k]), None)] + Grouped(items[k..])
      else OwnMessages(items[0]) + Grouped(items[1..])
  }

  // ---- The meaning of messages: who said what, in order ----

  /** Who speaks: a role, under a name if the message gives one. */
  datatype Speaker = Speaker(role: Role, name: Option<string>)

  datatype Saying<T> = Saying(speaker: Speaker, part: T)

  function Sayings<T>(speaker: Speaker, parts: seq<T>): seq<Saying<T>> {
    seq(|parts|, i requires 0 <= i < |parts| => Saying(speaker, parts[i]))
  }

  function Meaning<T>(messages: seq<Message<T>>): seq<Saying<T>> {
    if messages == [] then []
    else Sayings(Speaker(messages[0].role, messages[0].name), messages[0].parts) + Meaning(messages[1..])
  }

  function ItemMeaning<T>(item: Item<T>): seq<Saying<T>> {
    match item
    case Call(call) => [Saying(Speaker(Assistant, None), call)]
    case Output(result) => [Saying(Speaker(Tool, None), result)]
    case Reasoning(text) => [Saying(Speaker(Assistant, None), text)]
    case WireItem(wire) =>
      Sayings(Speaker(wire.role, wire.name), Optional(wire.reasoning))
      + Sayings(Speaker(wire.role, wire.name), if wire.role.Tool? then [wire.toolResult] else wire.content)
      + Sayings(Speaker(wire.role, wire.name), wire.toolCalls)
      + Sayings(Speaker(wire.role, wire.name), Optional(wire.functionCall))
    case Other(parts) => Sayings(Speaker(User, None), parts)
  }

  /** Item by item. */
  function InputMeaning<T>(items: seq<Item<T>>): seq<Saying<T>> {
    if items == [] then [] else ItemMeaning(items[0]) + InputMeaning(items[1..])
  }

  lemma SayingsConcat<T>(speaker: Speaker, a: seq<T>, b: seq<T>)
    ensures Sayings(speaker, a + b) == Sayings(speaker, a) + Sayings(speaker, b)
  {
  }

  lemma WireMeaning<T>(wire: Wire<T>)
    ensures Sayings(Speaker(wire.role, wire.name), WireParts(wire)) == ItemMeaning(WireItem(wire))
  {
    var first, second := Optional(wire.reasoning), if wire.role.Tool? then [wire.toolResult] else wire.content;
    SayingsConcat(Speaker(wire.role, wire.name), first, second);
    SayingsConcat(Speaker(wire.role, wire.name), first + second, wire.toolCalls);
    SayingsConcat(Speaker(wire.role, wire.name), first + second + wire.toolCalls, Optional(wire.functionCall));
  }

  lemma OwnMeaning<T>(item: Item<T>)
    requires !item.Call?
    ensures Meaning(OwnMessages(item)) == ItemMeaning(item)
  {
    var own := OwnMessages(item);
    if item.WireItem? {
      WireMeaning(item.wire);
    }
    if own != [] {
      assert own[1..] == [];
      assert Meaning(own) == Sayings(Speaker(own[0].role, own[0].name), own[0].parts);
    }
  }

  lemma {:induction false} MeaningConcat<T>(a: seq<Message<T>>, b: seq<Message<T>>)
    ensures Meaning(a + b) == Meaning(a) + Meaning(b)
  {
    if a == [] {
      assert a + b == b;
    } else {
      MeaningConcat(a[1..], b);
      TailOfConcat(a, b);
      Assoc(Sayings(Speaker(a[0].role, a[0].name), a[0].parts), Meaning(a[1..]), Meaning(b));
    }
  }

  predicate AllCalls<T>(items: seq<Item<T>>) {
    forall i :: 0 <= i < |items| ==> items[i].Call?
  }

  lemma {:induction false} LeadingAreCalls<T>(items: seq<Item<T>>)
    ensures AllCalls(items[..Leading(items)])
  {
    if items != [] && items[0].Call? {
      LeadingAreCalls(items[1..]);
    }
  }

  /** A run of calls says what its calls say one by one. */
  lemma {:induction false} RunMeaning<T>(run: seq<Item<T>>, rest: seq<Item<T>>)
    requires AllCalls(run)
    ensures InputMeaning(run + rest) == Sayings(Speaker(Assistant, None), Calls(run)) + InputMeaning(rest)
  {
    if run == [] {
      assert run + rest == rest;
    } else {
      RunMeaning(run[1..], rest);
      TailOfConcat(run, rest);
      SayingsConcat(Speaker(Assistant, None), [run[0].call], Calls(run[1..]));
      var speaker := Speaker(Assistant, None);
      assert Sayings(speaker, [run[0].call]) == [Saying(speaker, run[0].call)];
      Assoc([Saying(speaker, run[0].call)], Sayings(speaker, Calls(run[1..])), InputMeaning(rest));
    }
  }

  lemma MeaningCons<T>(message: Message<T>, messages: seq<Message<T>>)
    ensures Meaning([message] + messages)
         == Sayings(Speaker(message.role, message.name), message.parts) + Meaning(messages)
  {
    assert ([message] + messages)[1..] == messages;
  }

  /** Batching keeps the meaning: no part is lost, moved or given to another role. */
  lemma {:induction false} GroupingKeepsMeaning<T>(items: seq<Item<T>>)
    ensures Meaning(Grouped(items)) == InputMeaning(items)
    decreases |items|
  {
    if items != [] {
      var k := Leading(items);
      if k > 0 {
        var run, rest := items[..k], items[k..];
        assert items == run + rest;
        GroupingKeepsMeaning(rest);
        LeadingAreCalls(items);
        RunMeaning(run, rest);
        MeaningCons(Message(Assistant, Calls(run), None), Grouped(rest));
      } else {
        GroupingKeepsMeaning(items[1..]);
        MeaningConcat(OwnMessages(items[0]), Grouped(items[1..]));
        OwnMeaning(items[0]);
      }
    }
  }

  // ---- How many messages ----

  /** One for each call that does not follow a call, and one for each other item that has something to say. */
  function MessageCount<T>(items: seq<Item<T>>, afterCall: bool): nat {
    if items == [] then 0
    else
      (if items[0].Call? then (if afterCall then 0 else 1) else if ItemMeaning(items[0]) == [] then 0 else 1)
      + MessageCount(items[1..], items[0].Call?)
  }

  lemma {:induction false} CallsCountOnce<T>(items: seq<Item<T>>, k: nat)
    requires k <= Leading(items)
    ensures MessageCount(items, true) == MessageCount(items[k..], true)
    decreases k
  {
    if k > 0 {
      CallsCountOnce(items[1..], k - 1);
      assert items[1..][k - 1..] == items[k..];
    } else {
      assert items[0..] == items;
    }
  }

  lemma {:induction false} LeadingEnds<T>(items: seq<Item<T>>)
    ensures Leading(items) == |items| || !items[Leading(items)].Call?
  {
    if items != [] && items[0].Call? {
      LeadingEnds(items[1..]);
    }
  }

  lemma OwnCount<T>(item: Item<T>)
    requires !item.Call?
    ensures |OwnMessages(item)| == if ItemMeaning(item) == [] then 0 else 1
  {
    if item.WireItem? {
      WireMeaning(item.wire);
      assert |Sayings(Speaker(item.wire.role, item.wire.name), WireParts(item.wire))| == |WireParts(item.wire)|;
    } else if item.Other? {
      assert |Sayings(Speaker(User, None), item.parts)| == |item.parts|;
    }
  }

  /** Each unbroken run of calls is exactly one message, and nothing else is merged or split. */
  lemma {:induction false} OneMessagePerRun<T>(items: seq<Item<T>>)
    ensures |Grouped(items)| == MessageCount(items, false)
    decreases |items|
  {
    if items != [] {
      var k := Leading(items);
      if k > 0 {
        OneMessagePerRun(items[k..]);
        CallsCountOnce(items[1..], k - 1);
        assert items[1..][k - 1..] == items[k..];
        LeadingEnds(items);
        if k < |items| {
          assert items[k..][0] == items[k];
        }
      } else {
        OneMessagePerRun(items[1..]);
        OwnCount(items[0]);
      }
    }
  }

  // ---- The loop of the source ----

  function FlushPending<T>(pending: seq<T>): seq<Message<T>> {
    if pending == [] then [] else [Message(Assistant, pending, None)]
  }

  lemma {:induction false} LeadingIs<T>(run: seq<Item<T>>, rest: seq<Item<T>>)
    requires AllCalls(run) && (rest == [] || !rest[0].Call?)
    ensures Leading(run + rest) == |run|
  {
    if run == [] {
      assert run + rest == rest;
    } else {
      LeadingIs(run[1..], rest);
      TailOfConcat(run, rest);
    }
  }

  lemma {:induction false} CallsNonEmpty<T>(run: seq<Item<T>>)
    requires AllCalls(run)
    ensures Calls(run) == [] <==> run == []
  {
  }

  /** A run that something else follows is one message. */
  lemma RunFlushed<T>(run: seq<Item<T>>, rest: seq<Item<T>>)
    requires AllCalls(run) && (rest == [] || !rest[0].Call?)
    ensures Grouped(run + rest) == FlushPending(Calls(run)) + Grouped(rest)
  {
    CallsNonEmpty(run);
    if run == [] {
      assert run + rest == rest;
    } else {
      LeadingIs(run, rest);
      assert (run + rest)[..|run|] == run && (run + rest)[|run|..] == rest;
    }
  }

  /** The item that ends a run comes right after it. */
  lemma RunThenItem<T>(run: seq<Item<T>>, item: Item<T>, rest: seq<Item<T>>)
    requires AllCalls(run) && !item.Call?
    ensures Grouped(run + ([item] + rest)) == FlushPending(Calls(run)) + OwnMessages(item) + Grouped(rest)
  {
    RunFlushed(run, [item] + rest);
    assert ([item] + rest)[1..] == rest;
    Assoc(FlushPending(Calls(run)), OwnMessages(item), Grouped(rest));
  }

  /** The messages and pending calls after `n` items. */
  datatype Progress<T> = Progress(messages: seq<Message<T>>, pending: seq<T>)

  function ProgressAfter<T>(items: seq<Item<T>>, n: nat): Progress<T>
    requires n <= |items|
  {
    if n == 0 then Progress([], [])
    else
      var before, item := ProgressAfter(items, n - 1), items[n - 1];
      if item.Call? then Progress(before.messages, before.pending + [item.call])
      else Progress(before.messages + (FlushPending(before.pending) + OwnMessages(item)), [])
  }

  /** The loop has turned all but the current run of calls into messages. */
  ghost predicate Caught<T>(items: seq<Item<T>>, n: nat, run: seq<Item<T>>, p: Progress<T>) {
    && n <= |items|
    && AllCalls(run)
    && p.pending == Calls(run)
    && p.messages + Grouped(run + items[n..]) == Grouped(items)
  }

  lemma CatchUp<T>(items: seq<Item<T>>, n: nat, run: seq<Item<T>>, p: Progress<T>, next: Progress<T>)
    requires 0 < n <= |items| && Caught(items, n - 1, run, p) && !items[n - 1].Call?
    requires next == Progress(p.messages + (FlushPending(p.pending) + OwnMessages(items[n - 1])), [])
    ensures Caught(items, n, [], next)
  {
    var item, rest := items[n - 1], items[n..];
    assert items[n - 1..] == [item] + rest;
    RunThenItem(run, item, rest);
    Assoc(p.messages, FlushPending(p.pending) + OwnMessages(item), Grouped(rest));
    assert [] + rest == rest;
  }

  lemma StayPending<T>(items: seq<Item<T>>, n: nat, run: seq<Item<T>>, p: Progress<T>, more: seq<Item<T>>,
                       next: Progress<T>)
    requires 0 < n <= |items| && Caught(items, n - 1, run, p) && items[n - 1].Call?
    requires more == run + [items[n - 1]] && next == Progress(p.messages, p.pending + [items[n - 1].call])
    ensures Caught(items, n, more, next)
  {
    var item := items[n - 1];
    CallsConcat(run, [item]);
    assert Calls([item]) == [item.call];
    assert run + items[n - 1..] == more + items[n..];
  }

  lemma CaughtAtStart<T>(items: seq<Item<T>>)
    ensures Caught(items, 0, [], Progress([], []))
  {
    assert [] + items[0..] == items;
    assert [] + Grouped(items) == Grouped(items);
  }

  lemma {:induction false} LoopCatches<T>(items: seq<Item<T>>, n: nat) returns (run: seq<Item<T>>)
    requires n <= |items|
    ensures Caught(items, n, run, ProgressAfter(items, n))
  {
    if n == 0 {
      run := [];
      CaughtAtStart(items);
    } else {
      var before := LoopCatches(items, n - 1);
      if items[n - 1].Call? {
        run := before + [items[n - 1]];
        StayPending(items, n, before, ProgressAfter(items, n - 1), run, ProgressAfter(items, n));
      } else {
        run := [];
        CatchUp(items, n, before, ProgressAfter(items, n - 1), ProgressAfter(items, n));
      }
    }
  }

  lemma LoopGroups<T>(items: seq<Item<T>>)
    ensures var end := ProgressAfter(items, |items|);
            end.messages + FlushPending(end.pending) == Grouped(items)
  {
    var run := LoopCatches(items, |items|);
    RunFlushed(run, []);
    assert items[|items|..] == [];
    assert FlushPending(Calls(run)) + [] == FlushPending(Calls(run));
  }

  method ParseInput<T>(items: seq<Item<T>>) returns (messages: seq<Message<T>>)
    ensures messages == Grouped(items)
    ensures Meaning(messages) == InputMeaning(items)
  {
    messages := [];
    var pending: seq<T> := [];
    for i := 0 to |items|
      invariant Progress(messages, pending) == ProgressAfter(items, i)
    {
      var item := items[i];
      if item.Call? {
        pending := pending + [item.call];
      } else {
        messages := messages + (FlushPending(pending) + OwnMessages(item));
        pending := [];
      }
    }
    messages := messages + FlushPending(pending);
    LoopGroups(items);
    GroupingKeepsMeaning(items);
  }
}
