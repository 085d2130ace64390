/** `openai_stream_generator`: a complete chat completion cut into stream chunks. */
module OpenAiStream {
  import opened Basics

  const APPROX := 28
  const ARG_CHUNK_SIZE := 40

  datatype Function = Function(name: Option<string>, arguments: Option<string>)

  datatype ToolCall = ToolCall(kind: Option<string>, id: Option<string>, fn: Option<Function>)

  /** The first choice of a response; absent fields are `None`. */
  datatype Choice = Choice(index: int, role: Option<string>, content: Option<string>, toolCalls: seq<ToolCall>,
                           finishReason: Option<string>)

  /** The chunks, and the literal that ends the stream. */
  datatype Event =
    | Role(index: int, role: string)
    | Content(index: int, text: string)
    | ToolStart(index: int, tool: nat, id: string, kind: string, name: string)
    | ToolArguments(index: int, tool: nat, arguments: string)
    | Finish(index: int, reason: string)
    | Done

  /** Python's `s or default`: the empty string counts as absent. */
  function OrIfEmpty(s: Option<string>, default: string): string {
    if s.Some? && s.value != "" then s.value else default
  }

  /** A tool call with its defaults filled in. */
  datatype Tool = Tool(id: string, kind: string, name: string, arguments: string)

  function ToolOf(tc: ToolCall, made: string): Tool {
    var kind := OrElse(tc.kind, "function");
    var fn := if kind == "function" && tc.fn.Some? then tc.fn.value else Function(None, None);
    Tool(OrIfEmpty(tc.id, made), kind, OrElse(fn.name, ""), OrElse(fn.arguments, ""))
  }

  function FinishReason(c: Choice): string {
    OrIfEmpty(c.finishReason, if c.toolCalls != [] then "tool_calls" else "stop")
  }

  /** `text.rfind(" ", start, end)`. */
  function RFind(text: string, start: nat, end: nat): (i: int)
    requires start <= end <= |text|
    ensures i == -1 ==> forall k :: start <= k < end ==> text[k] != ' '
    ensures i != -1 ==> start <= i < end && text[i] == ' ' && forall k :: i < k < end ==> text[k] != ' '
    decreases end - start
  {
    if start == end then -1
    else if text[end - 1] == ' ' then end - 1
    else RFind(text, start, end - 1)
  }

  /** Where the chunk that starts at `start` ends. */
  function ChunkEnd(text: string, start: nat): (end: nat)
    requires start < |text|
    ensures start < end <= |text|
  {
    if start + APPROX >= |text| then |text|
    else
      var space := RFind(text, start, start + APPROX);
      if space > start then space + 1 else start + APPROX
  }

  function Chunks(text: string, start: nat): seq<string>
    requires start <= |text|
    decreases |text| - start
  {
    if start == |text| then []
    else [text[start..ChunkEnd(text, start)]] + Chunks(text, ChunkEnd(text, start))
  }

  function ContentEvents(index: int, parts: seq<string>): seq<Event> {
    seq(|parts|, i requires 0 <= i < |parts| => Content(index, parts[i]))
  }

  function ArgumentEvents(index: int, tool: nat, parts: seq<string>): seq<Event> {
    seq(|parts|, i requires 0 <= i < |parts| => ToolArguments(index, tool, parts[i]))
  }

  function ToolEvents(index: int, n: nat, t: Tool): seq<Event> {
    [ToolStart(index, n, t.id, t.kind, t.name)] + ArgumentEvents(index, n, Slices(t.arguments, ARG_CHUNK_SIZE))
  }

  /** The tools of the first `n` calls; `made` makes up ids for calls without one. */
  function ToolsOf(calls: seq<ToolCall>, made: nat -> string, n: nat): seq<Tool>
    requires n <= |calls|
  {
    seq(n, i requires 0 <= i < n => ToolOf(calls[i], made(i)))
  }

  function AllToolEvents(index: int, tools: seq<Tool>): seq<Event> {
    if tools == [] then []
    else
      var n := |tools| - 1;
      AllToolEvents(index, tools[..n]) + ToolEvents(index, n, tools[n])
  }

  function Stream(c: Choice, made: nat -> string): seq<Event> {
    [Role(c.index, OrElse(c.role, "assistant"))]
    + ContentEvents(c.index, Chunks(OrElse(c.content, ""), 0))
    + AllToolEvents(c.index, ToolsOf(c.toolCalls, made, |c.toolCalls|))
    + [Finish(c.index, FinishReason(c)), Done]
  }

  // ---- A client ----

  /** What a client has put together from the chunks so far. */
  datatype Client = Client(role: Option<string>, content: string, tools: seq<Tool>, finish: Option<string>, done: bool)

  /** A chunk that does not fit what came before is an error. */
  function Receive(c: Option<Client>, e: Event): Option<Client> {
    if c.None? || c.value.done then None
    else
      var s := c.value;
      match e
      case Role(_, role) => if s.role.None? then Some(s.(role := Some(role))) else None
      case Content(_, text) => if s.role.Some? && s.finish.None? then Some(s.(content := s.content + text)) else None
      case ToolStart(_, n, id, kind, name) =>
        if n == |s.tools| && s.finish.None? then Some(s.(tools := s.tools + [Tool(id, kind, name, "")])) else None
      case ToolArguments(_, n, arguments) =>
        if n < |s.tools| && s.finish.None? then
          Some(s.(tools := s.tools[n := s.tools[n].(arguments := s.tools[n].arguments + arguments)]))
        else None
      case Finish(_, reason) => if s.finish.None? then Some(s.(finish := Some(reason))) else None
      case Done => if s.finish.Some? then Some(s.(done := true)) else None
  }

  function ReceiveAll(c: Option<Client>, events: seq<Event>): Option<Client>
    decreases events
  {
    if events == [] then c else ReceiveAll(Receive(c, events[0]), events[1..])
  }

  lemma {:induction false} ReceiveAppend(c: Option<Client>, a: seq<Event>, b: seq<Event>)
    ensures ReceiveAll(c, a + b) == ReceiveAll(ReceiveAll(c, a), b)
    decreases a
  {
    if a == [] {
      assert a + b == b;
    } else {
      assert (a + b)[1..] == a[1..] + b;
      ReceiveAppend(Receive(c, a[0]), a[1..], b);
    }
  }

  lemma {:induction false} ReceiveContent(s: Client, index: int, parts: seq<string>)
    requires s.role.Some? && s.finish.None? && !s.done
    ensures ReceiveAll(Some(s), ContentEvents(index, parts)) == Some(s.(content := s.content + Joined(parts)))
    decreases parts
  {
    if parts != [] {
      assert ContentEvents(index, parts)[1..] == ContentEvents(index, parts[1..]);
      ReceiveContent(s.(content := s.content + parts[0]), index, parts[1..]);
      assert s.content + parts[0] + Joined(parts[1..]) == s.content + (parts[0] + Joined(parts[1..]));
    } else {
      assert s.content + "" == s.content;
    }
  }

  lemma {:induction false} ReceiveArguments(s: Client, index: int, n: nat, parts: seq<string>)
    requires s.finish.None? && !s.done && n < |s.tools|
    ensures ReceiveAll(Some(s), ArgumentEvents(index, n, parts)) ==
            Some(s.(tools := s.tools[n := s.tools[n].(arguments := s.tools[n].arguments + Joined(parts))]))
    decreases parts
  {
    var t := s.tools[n];
    if parts != [] {
      assert ArgumentEvents(index, n, parts)[1..] == ArgumentEvents(index, n, parts[1..]);
      var next := s.(tools := s.tools[n := t.(arguments := t.arguments + parts[0])]);
      assert Receive(Some(s), ArgumentEvents(index, n, parts)[0]) == Some(next);
      ReceiveArguments(next, index, n, parts[1..]);
      var whole := t.(arguments := t.arguments + parts[0] + Joined(parts[1..]));
      assert next.tools[n := whole] == s.tools[n := whole];
      assert t.arguments + parts[0] + Joined(parts[1..]) == t.arguments + (parts[0] + Joined(parts[1..]));
    } else {
      assert t.arguments + "" == t.arguments;
      assert s.tools[n := t] == s.tools;
    }
  }

  lemma ReceiveTool(s: Client, index: int, t: Tool)
    requires s.finish.None? && !s.done
    ensures ReceiveAll(Some(s), ToolEvents(index, |s.tools|, t)) == Some(s.(tools := s.tools + [t]))
  {
    var n, slices := |s.tools|, Slices(t.arguments, ARG_CHUNK_SIZE);
    var started := s.(tools := s.tools + [t.(arguments := "")]);
    assert ToolEvents(index, n, t)[1..] == ArgumentEvents(index, n, slices);
    SlicesJoin(t.arguments, ARG_CHUNK_SIZE);
    ReceiveArguments(started, index, n, slices);
    assert "" + t.arguments == t.arguments;
    assert started.tools[n := t] == s.tools + [t];
  }

  lemma {:induction false} ReceiveTools(s: Client, index: int, tools: seq<Tool>)
    requires s.finish.None? && !s.done && s.tools == []
    ensures ReceiveAll(Some(s), AllToolEvents(index, tools)) == Some(s.(tools := tools))
    decreases |tools|
  {
    if tools != [] {
      var n := |tools| - 1;
      ReceiveTools(s, index, tools[..n]);
      ReceiveAppend(Some(s), AllToolEvents(index, tools[..n]), ToolEvents(index, n, tools[n]));
      ReceiveTool(s.(tools := tools[..n]), index, tools[n]);
      assert tools == tools[..n] + [tools[n]];
    }
  }

  /** The chunks of the content are non-empty, at most 28 characters, and end after a space unless they
      are that long or the last one. */
  lemma {:induction false} ChunksFit(text: string, start: nat)
    requires start <= |text|
    ensures Joined(Chunks(text, start)) == text[start..]
    ensures var parts := Chunks(text, start);
            forall i :: 0 <= i < |parts| ==>
              && 0 < |parts[i]| <= 28
              && (i == |parts| - 1 || |parts[i]| == 28 || parts[i][|parts[i]| - 1] == ' ')
    decreases |text| - start
  {
    if start < |text| {
      var end := ChunkEnd(text, start);
      ChunksFit(text, end);
      assert text[start..] == text[start..end] + text[end..];
      var rest := Chunks(text, end);
      assert ([text[start..end]] + rest)[1..] == rest;
      assert end < |text| ==> |text[start..end]| == APPROX || text[end - 1] == ' ';
    }
  }

  /** Where chunk `i` breaks off what remains of the text: a remainder of at most 28 characters is the last
      chunk; otherwise the chunk ends with the last space among the first 28 characters, unless that is the
      very first character or there is none, and then it has 28 characters. */
  lemma {:induction false} ChunkBreaks(text: string, start: nat, i: nat)
    requires start <= |text| && i < |Chunks(text, start)|
    ensures var part, o := Chunks(text, start)[i], start + |Joined(Chunks(text, start)[..i])|;
            && o + |part| <= |text| && part == text[o..o + |part|]
            && if |text| - o <= 28 then o + |part| == |text|
               else if exists k :: o < k < o + 28 && text[k] == ' ' then
                 |part| > 1 && part[|part| - 1] == ' ' && forall k :: o + |part| <= k < o + 28 ==> text[k] != ' '
               else |part| == 28
    decreases i
  {
    var parts, end := Chunks(text, start), ChunkEnd(text, start);
    if i == 0 {
      assert Joined(parts[..0]) == "";
    } else {
      ChunkBreaks(text, end, i - 1);
      assert parts[..i][1..] == parts[1..][..i - 1];
    }
  }

  lemma StreamReceived(c: Choice, made: nat -> string)
    ensures ReceiveAll(Some(Client(None, "", [], None, false)), Stream(c, made)) ==
            Some(Client(Some(OrElse(c.role, "assistant")), OrElse(c.content, ""),
                        ToolsOf(c.toolCalls, made, |c.toolCalls|), Some(FinishReason(c)), true))
  {
    var start := Some(Client(None, "", [], None, false));
    var text, tools := OrElse(c.content, ""), ToolsOf(c.toolCalls, made, |c.toolCalls|);
    var role := Role(c.index, OrElse(c.role, "assistant"));
    var contents := ContentEvents(c.index, Chunks(text, 0));
    var calls := AllToolEvents(c.index, tools);
    var ending := [Finish(c.index, FinishReason(c)), Done];
    var s1 := Client(Some(role.role), "", [], None, false);
    var s2 := s1.(content := text);
    var s3 := s2.(tools := tools);
    ReceiveAppend(start, [role] + contents + calls, ending);
    ReceiveAppend(start, [role] + contents, calls);
    ReceiveAppend(start, [role], contents);
    ReceiveOne(start, role);
    ChunksFit(text, 0);
    assert "" + text[0..] == text;
    ReceiveContent(s1, c.index, Chunks(text, 0));
    ReceiveTools(s2, c.index, tools);
    ReceiveEnding(s3, c.index, FinishReason(c));
  }

  /** A client that joins the chunks ends with the given role or `assistant`, the exact content, and the finish
      reason given, or else one that says whether there are tool calls. It has every tool call in order: its
      id as given, or a made-up one; its type as given, or `function`; and for a function the name and the
      arguments as given. */
  lemma StreamDecodes(c: Choice, made: nat -> string)
    ensures var got := ReceiveAll(Some(Client(None, "", [], None, false)), Stream(c, made));
            && got.Some? && got.value.done
            && got.value.role == Some(if c.role.Some? then c.role.value else "assistant")
            && got.value.content == (if c.content.Some? then c.content.value else "")
            && got.value.finish == Some(if c.finishReason.Some? && c.finishReason.value != "" then c.finishReason.value
                                        else if c.toolCalls != [] then "tool_calls" else "stop")
            && |got.value.tools| == |c.toolCalls|
            && forall i :: 0 <= i < |c.toolCalls| ==> Carries(got.value.tools[i], c.toolCalls[i], made(i))
  {
    StreamReceived(c, made);
  }

  /** The client's tool call `t` is the call `tc` of the response. */
  predicate Carries(t: Tool, tc: ToolCall, made: string) {
    && t.id == (if tc.id.Some? && tc.id.value != "" then tc.id.value else made)
    && t.kind == (if tc.kind.Some? then tc.kind.value else "function")
    && (t.kind == "function" && tc.fn.Some? ==>
          && t.name == (if tc.fn.value.name.Some? then tc.fn.value.name.value else "")
          && t.arguments == (if tc.fn.value.arguments.Some? then tc.fn.value.arguments.value else ""))
    && (t.kind != "function" || tc.fn.None? ==> t.name == "" && t.arguments == "")
  }

  /** Every chunk belongs to the choice, and no piece is empty or longer than 28 characters of content or 40
      of arguments. */
  lemma ChunksOfChoice(c: Choice, made: nat -> string)
    ensures forall e :: e in Stream(c, made) ==>
              && (!e.Done? ==> e.index == c.index)
              && (e.Content? ==> 0 < |e.text| <= 28)
              && (e.ToolArguments? ==> 0 < |e.arguments| <= 40)
  {
    var text := OrElse(c.content, "");
    ChunksFit(text, 0);
    assert forall e :: e in ContentEvents(c.index, Chunks(text, 0)) ==>
             e.Content? && e.index == c.index && 0 < |e.text| <= 28;
    ToolChunks(c.index, ToolsOf(c.toolCalls, made, |c.toolCalls|));
  }

  /** No content comes after a tool call has begun. */
  lemma ContentFirst(c: Choice, made: nat -> string, i: nat, j: nat)
    requires i < j < |Stream(c, made)| && Stream(c, made)[j].Content?
    ensures !Stream(c, made)[i].ToolStart? && !Stream(c, made)[i].ToolArguments?
  {
    var tools := ToolsOf(c.toolCalls, made, |c.toolCalls|);
    var front := [Role(c.index, OrElse(c.role, "assistant"))]
                 + ContentEvents(c.index, Chunks(OrElse(c.content, ""), 0));
    ToolChunks(c.index, tools);
    var rest := AllToolEvents(c.index, tools) + [Finish(c.index, FinishReason(c)), Done];
    var s := Stream(c, made);
    assert s == front + rest;
    assert forall e :: e in rest ==> !e.Content?;
    assert forall k :: |front| <= k < |s| ==> s[k] == rest[k - |front|];
  }

  lemma {:induction false} ToolChunks(index: int, tools: seq<Tool>)
    ensures forall e :: e in AllToolEvents(index, tools) ==>
              && (e.ToolStart? || e.ToolArguments?) && e.index == index
              && (e.ToolArguments? ==> 0 < |e.arguments| <= 40)
  {
    if tools != [] {
      var n := |tools| - 1;
      ToolChunks(index, tools[..n]);
      SlicesJoin(tools[n].arguments, ARG_CHUNK_SIZE);
    }
  }

  lemma ReceiveOne(c: Option<Client>, e: Event)
    ensures ReceiveAll(c, [e]) == Receive(c, e)
  {
    assert [e][1..] == [];
  }

  lemma ReceiveEnding(s: Client, index: int, reason: string)
    requires s.finish.None? && !s.done
    ensures ReceiveAll(Some(s), [Finish(index, reason), Done]) == Some(s.(finish := Some(reason), done := true))
  {
    assert [Finish(index, reason), Done][1..] == [Done];
    ReceiveOne(Some(s.(finish := Some(reason))), Done);
  }

  // ---- The generator ----

  lemma ContentSnoc(index: int, parts: seq<string>, part: string)
    ensures ContentEvents(index, parts + [part]) == ContentEvents(index, parts) + [Content(index, part)]
  {
  }

  method StreamContent(index: int, text: string) returns (events: seq<Event>)
    ensures events == ContentEvents(index, Chunks(text, 0))
  {
    events := [];
    var start, n := 0, |text|;
    ghost var parts: seq<string> := [];
    while start < n
      invariant 0 <= start <= n && parts + Chunks(text, start) == Chunks(text, 0)
      invariant events == ContentEvents(index, parts)
      decreases n - start
    {
      var end := if start + APPROX < n then start + APPROX else n;
      if end < n {
        var space := RFind(text, start, end);
        if space > start {
          end := space + 1;
        }
      }
      assert end == ChunkEnd(text, start);
      var deltaText := text[start..end];
      Associates(parts, [deltaText], Chunks(text, end));
      ContentSnoc(index, parts, deltaText);
      parts := parts + [deltaText];
      start := end;
      events := events + [Content(index, deltaText)];
    }
    assert parts + [] == parts;
  }

  method StreamArguments(index: int, tool: nat, arguments: string) returns (events: seq<Event>)
    ensures events == ArgumentEvents(index, tool, Slices(arguments, ARG_CHUNK_SIZE))
  {
    events := [];
    var pos := 0;
    ghost var parts: seq<string> := [];
    while pos < |arguments|
      invariant 0 <= pos
      invariant parts + Slices(TextFrom(arguments, pos), ARG_CHUNK_SIZE) == Slices(arguments, ARG_CHUNK_SIZE)
      invariant events == ArgumentEvents(index, tool, parts)
      decreases |arguments| - pos
    {
      var partial := SliceAt(arguments, pos, ARG_CHUNK_SIZE);
      SliceStep(arguments, pos, ARG_CHUNK_SIZE);
      ghost var rest := Slices(TextFrom(arguments, pos + ARG_CHUNK_SIZE), ARG_CHUNK_SIZE);
      assert parts + ([partial] + rest) == parts + [partial] + rest;
      parts := parts + [partial];
      events := events + [ToolArguments(index, tool, partial)];
      pos := pos + ARG_CHUNK_SIZE;
    }
    assert parts + [] == parts;
  }

  /** `openai_stream_generator`; `made` makes up the ids of tool calls that have none. */
  method Generate(c: Choice, made: nat -> string) returns (events: seq<Event>)
    ensures events == Stream(c, made)
  {
    events := [Role(c.index, OrElse(c.role, "assistant"))];
    var pieces := StreamContent(c.index, OrElse(c.content, ""));
    events := events + pieces;
    ghost var before := events;
    ghost var tools := ToolsOf(c.toolCalls, made, |c.toolCalls|);
    for i := 0 to |c.toolCalls|
      invariant events == before + AllToolEvents(c.index, tools[..i])
    {
      var t := ToolOf(c.toolCalls[i], made(i));
      var arguments := StreamArguments(c.index, i, t.arguments);
      assert tools[..i + 1][..i] == tools[..i] && tools[..i + 1][i] == t;
      events := events + [ToolStart(c.index, i, t.id, t.kind, t.name)] + arguments;
    }
    assert tools[..|tools|] == tools;
    events := events + [Finish(c.index, FinishReason(c)), Done];
  }

  /** The finish chunk and the sentinel end the stream and occur nowhere else. */
  lemma EndsOnce(c: Choice, made: nat -> string)
    ensures var s := Stream(c, made); var n := |s|;
            && n >= 3 && s[0].Role? && s[n - 2].Finish? && s[n - 1] == Done
            && forall i :: 1 <= i < n - 2 ==> s[i].Content? || s[i].ToolStart? || s[i].ToolArguments?
  {
    ToolChunks(c.index, ToolsOf(c.toolCalls, made, |c.toolCalls|));
  }
}
