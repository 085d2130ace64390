/** `anthropic_stream_generator`: content blocks cut into bracketed stream events. */
module AnthropicStream {
  import opened Basics

  const WORDS_PER_CHUNK := 5
  const JSON_CHUNK_SIZE := 20

  /** A content block: text, a tool use with its input already written as JSON, or a type that the
      generator passes over. */
  datatype Block = Text(text: Option<string>) | ToolUse(id: string, name: Option<string>, input: string) | Other

  datatype Message = Message(id: string, model: Option<string>, content: seq<Block>, stopReason: Option<string>)

  datatype Event =
    | MessageStart(id: string, model: string)
    | Ping
    | TextStart(index: nat)
    | ToolStart(index: nat, id: string, name: string)
    | TextDelta(index: nat, text: string)
    | JsonDelta(index: nat, json: string)
    | BlockStop(index: nat)
    | MessageDelta(stopReason: string)
    | MessageStop

  // ---- Words ----

  /** The characters `str.split()` splits at. */
  predicate IsSpace(c: char) {
    var n := c as int;
    || 9 <= n <= 13 || 28 <= n <= 32 || n == 0x85 || n == 0xa0 || n == 0x1680
    || 0x2000 <= n <= 0x200a || n == 0x2028 || n == 0x2029 || n == 0x202f || n == 0x205f || n == 0x3000
  }

  /** The length of the leading run without white space. */
  function WordLength(s: string): (n: nat)
    ensures n <= |s| && (forall i :: 0 <= i < n ==> !IsSpace(s[i])) && (n < |s| ==> IsSpace(s[n]))
  {
    if s == "" || IsSpace(s[0]) then 0 else 1 + WordLength(s[1..])
  }

  /** `s.split()`. */
  function Words(s: string): seq<string>
    decreases |s|
  {
    if s == "" then []
    else if IsSpace(s[0]) then Words(s[1..])
    else [s[..WordLength(s)]] + Words(s[WordLength(s)..])
  }

  /** `" ".join(words)`. */
  function JoinWords(words: seq<string>): string {
    if words == [] then ""
    else if |words| == 1 then words[0]
    else words[0] + " " + JoinWords(words[1..])
  }

  predicate IsWord(w: string) {
    w != "" && forall i :: 0 <= i < |w| ==> !IsSpace(w[i])
  }

  lemma {:induction false} WordsAreWords(s: string)
    ensures forall w :: w in Words(s) ==> IsWord(w)
    decreases |s|
  {
    if s != "" {
      if IsSpace(s[0]) { WordsAreWords(s[1..]); } else { WordsAreWords(s[WordLength(s)..]); }
    }
  }

  lemma {:induction false} WordLengthStops(w: string, rest: string)
    requires IsWord(w) && (rest == "" || IsSpace(rest[0]))
    ensures WordLength(w + rest) == |w|
  {
    assert (w + rest)[1..] == w[1..] + rest;
    if |w| > 1 {
      WordLengthStops(w[1..], rest);
    }
  }

  /** Splitting the joined words gives the words back. */
  lemma {:induction false} JoinSplits(words: seq<string>)
    requires forall w :: w in words ==> IsWord(w)
    ensures Words(JoinWords(words)) == words
  {
    if words != [] {
      var w, rest := words[0], words[1..];
      assert w in words;
      JoinSplits(rest);
      if rest == [] {
        WordLengthStops(w, "");
        assert w + "" == w;
        assert w[..|w|] == w && w[|w|..] == "";
      } else {
        var tail := " " + JoinWords(rest);
        WordLengthStops(w, tail);
        assert JoinWords(words) == w + tail;
        assert (w + tail)[..|w|] == w && (w + tail)[|w|..] == tail && tail[1..] == JoinWords(rest);
      }
      assert words == [w] + rest;
    }
  }

  // ---- Chunks ----

  /** The text chunks from word `i` on: five words, and a space unless they are the last. */
  function TextChunks(words: seq<string>): seq<string> {
    if words == [] then []
    else if |words| <= WORDS_PER_CHUNK then [JoinWords(words)]
    else [JoinWords(words[..WORDS_PER_CHUNK]) + " "] + TextChunks(words[WORDS_PER_CHUNK..])
  }

  lemma {:induction false} JoinWordsAppend(a: seq<string>, b: seq<string>)
    requires a != [] && b != []
    ensures JoinWords(a + b) == JoinWords(a) + " " + JoinWords(b)
  {
    if |a| == 1 {
      assert (a + b)[1..] == b;
    } else {
      assert (a + b)[1..] == a[1..] + b;
      JoinWordsAppend(a[1..], b);
    }
  }

  lemma {:induction false} TextChunksJoin(words: seq<string>)
    ensures Joined(TextChunks(words)) == JoinWords(words)
  {
    if words == [] {
    } else if |words| <= WORDS_PER_CHUNK {
      assert [JoinWords(words)][1..] == [];
    } else {
      var a, b := words[..WORDS_PER_CHUNK], words[WORDS_PER_CHUNK..];
      TextChunksJoin(b);
      assert words == a + b;
      JoinWordsAppend(a, b);
      assert ([JoinWords(a) + " "] + TextChunks(b))[1..] == TextChunks(b);
    }
  }

  // ---- The stream ----

  function TextDeltas(index: nat, parts: seq<string>): seq<Event> {
    seq(|parts|, i requires 0 <= i < |parts| => TextDelta(index, parts[i]))
  }

  function JsonDeltas(index: nat, parts: seq<string>): seq<Event> {
    seq(|parts|, i requires 0 <= i < |parts| => JsonDelta(index, parts[i]))
  }

  function BlockEvents(index: nat, b: Block): seq<Event> {
    match b
    case Text(text) => [TextStart(index)] + TextDeltas(index, TextChunks(Words(OrElse(text, "")))) + [BlockStop(index)]
    case ToolUse(id, name, input) =>
      [ToolStart(index, id, OrElse(name, ""))] + JsonDeltas(index, Slices(input, JSON_CHUNK_SIZE)) + [BlockStop(index)]
    case Other => []
  }

  function AllBlockEvents(blocks: seq<Block>): seq<Event> {
    if blocks == [] then []
    else
      var n := |blocks| - 1;
      AllBlockEvents(blocks[..n]) + BlockEvents(n, blocks[n])
  }

  function Stream(m: Message): seq<Event> {
    [MessageStart(m.id, OrElse(m.model, "claude")), Ping] + AllBlockEvents(m.content)
    + [MessageDelta(OrElse(m.stopReason, "end_turn")), MessageStop]
  }

  // ---- A client ----

  datatype Received = GotText(index: nat, text: string) | GotTool(index: nat, id: string, name: string, json: string)

  datatype Phase = Waiting | Started | Between | InBlock | Ended | Stopped

  /** What a client has put together. While a block is open it is the last of `blocks`. */
  datatype Client = Client(phase: Phase, id: string, model: string, blocks: seq<Received>, stopReason: Option<string>)

  predicate After(blocks: seq<Received>, index: nat) {
    blocks == [] || blocks[|blocks| - 1].index < index
  }

  /** An event out of place is an error: blocks must not overlap, their indices must increase, and a
      delta must fit the open block. */
  function Receive(c: Option<Client>, e: Event): Option<Client> {
    if c.None? then None
    else
      var s := c.value;
      var n := |s.blocks|;
      match e
      case MessageStart(id, model) =>
        if s.phase == Waiting then Some(s.(phase := Started, id := id, model := model)) else None
      case Ping => if s.phase == Started then Some(s.(phase := Between)) else None
      case TextStart(i) =>
        if s.phase == Between && After(s.blocks, i)
          then Some(s.(phase := InBlock, blocks := s.blocks + [GotText(i, "")]))
        else None
      case ToolStart(i, id, name) =>
        if s.phase == Between && After(s.blocks, i) then
          Some(s.(phase := InBlock, blocks := s.blocks + [GotTool(i, id, name, "")]))
        else None
      case TextDelta(i, text) =>
        if s.phase == InBlock && n > 0 && s.blocks[n - 1].GotText? && s.blocks[n - 1].index == i then
          Some(s.(blocks := s.blocks[..n - 1] + [GotText(i, s.blocks[n - 1].text + text)]))
        else None
      case JsonDelta(i, json) =>
        if s.phase == InBlock && n > 0 && s.blocks[n - 1].GotTool? && s.blocks[n - 1].index == i then
          var b := s.blocks[n - 1];
          Some(s.(blocks := s.blocks[..n - 1] + [GotTool(i, b.id, b.name, b.json + json)]))
        else None
      case BlockStop(i) =>
        if s.phase == InBlock && n > 0 && s.blocks[n - 1].index == i then Some(s.(phase := Between)) else None
      case MessageDelta(reason) =>
        if s.phase == Between then Some(s.(phase := Ended, stopReason := Some(reason))) else None
      case MessageStop => if s.phase == Ended then Some(s.(phase := Stopped)) else None
  }

  function ReceiveAll(c: Option<Client>, events: seq<Event>): Option<Client>
    decreases events
  {
    if events == [] then c else ReceiveAll(Receive(c, events[0]), events[1..])
  }

  /** What a client should have got: blocks in order under their own index, text with its white space
      normalised, tool inputs exact, other blocks left out. */
  function Expected(blocks: seq<Block>): seq<Received> {
    if blocks == [] then []
    else
      var n := |blocks| - 1;
      Expected(blocks[..n]) +
      match blocks[n]
      case Text(text) => [GotText(n, JoinWords(Words(OrElse(text, ""))))]
      case ToolUse(id, name, input) => [GotTool(n, id, OrElse(name, ""), input)]
      case Other => []
  }

  lemma {:induction false} ReceiveAppend(c: Option<Client>, a: seq<Event>, b: seq<Event>)
    ensures ReceiveAll(c, a + b) == ReceiveAll(ReceiveAll(c, a), b)
    decreases a
  {
    if a == [] {
      assert a + b == b;
    } else {
      assert (a + b)[1..] == a[1..] + b;
      ReceiveAppend(Receive(c, a[0]), a[1..], b);
    }
  }

  lemma ReceiveOne(c: Option<Client>, e: Event)
    ensures ReceiveAll(c, [e]) == Receive(c, e)
  {
    assert [e][1..] == [];
  }

  lemma {:induction false} ReceiveTextDeltas(s: Client, before: seq<Received>, index: nat, got: string,
                                             parts: seq<string>)
    requires s.phase == InBlock && s.blocks == before + [GotText(index, got)]
    ensures ReceiveAll(Some(s), TextDeltas(index, parts)) ==
            Some(s.(blocks := before + [GotText(index, got + Joined(parts))]))
    decreases parts
  {
    if parts == [] {
      assert got + "" == got;
    } else {
      var next := s.(blocks := before + [GotText(index, got + parts[0])]);
      assert TextDeltas(index, parts)[1..] == TextDeltas(index, parts[1..]);
      assert s.blocks[..|s.blocks| - 1] == before;
      assert Receive(Some(s), TextDelta(index, parts[0])) == Some(next);
      ReceiveTextDeltas(next, before, index, got + parts[0], parts[1..]);
      assert got + parts[0] + Joined(parts[1..]) == got + Joined(parts);
    }
  }

  lemma {:induction false} ReceiveJsonDeltas(s: Client, before: seq<Received>, index: nat, id: string, name: string,
                                             got: string, parts: seq<string>)
    requires s.phase == InBlock && s.blocks == before + [GotTool(index, id, name, got)]
    ensures ReceiveAll(Some(s), JsonDeltas(index, parts)) ==
            Some(s.(blocks := before + [GotTool(index, id, name, got + Joined(parts))]))
    decreases parts
  {
    if parts == [] {
      assert got + "" == got;
    } else {
      var next := s.(blocks := before + [GotTool(index, id, name, got + parts[0])]);
      assert JsonDeltas(index, parts)[1..] == JsonDeltas(index, parts[1..]);
      assert s.blocks[..|s.blocks| - 1] == before;
      assert Receive(Some(s), JsonDelta(index, parts[0])) == Some(next);
      ReceiveJsonDeltas(next, before, index, id, name, got + parts[0], parts[1..]);
      assert got + parts[0] + Joined(parts[1..]) == got + Joined(parts);
    }
  }

  /** A block: its start, its deltas, its stop. */
  lemma ReceiveBracket(s: Client, index: nat, start: Event, deltas: seq<Event>, begun: Client, filled: Client)
    requires Receive(Some(s), start) == Some(begun) && ReceiveAll(Some(begun), deltas) == Some(filled)
    ensures ReceiveAll(Some(s), [start] + deltas + [BlockStop(index)]) == Receive(Some(filled), BlockStop(index))
  {
    ReceiveOne(Some(s), start);
    ReceiveOne(Some(filled), BlockStop(index));
    ReceiveAppend(Some(s), [start] + deltas, [BlockStop(index)]);
    ReceiveAppend(Some(s), [start], deltas);
  }

  lemma ReceiveText(s: Client, index: nat, text: Option<string>)
    requires s.phase == Between && After(s.blocks, index)
    ensures ReceiveAll(Some(s), BlockEvents(index, Text(text))) ==
            Some(s.(blocks := s.blocks + [GotText(index, JoinWords(Words(OrElse(text, ""))))]))
  {
    var words := Words(OrElse(text, ""));
    var deltas := TextDeltas(index, TextChunks(words));
    var begun := s.(phase := InBlock, blocks := s.blocks + [GotText(index, "")]);
    TextChunksJoin(words);
    ReceiveTextDeltas(begun, s.blocks, index, "", TextChunks(words));
    assert "" + JoinWords(words) == JoinWords(words);
    var filled := begun.(blocks := s.blocks + [GotText(index, JoinWords(words))]);
    ReceiveBracket(s, index, TextStart(index), deltas, begun, filled);
  }

  lemma ReceiveTool(s: Client, index: nat, id: string, name: Option<string>, input: string)
    requires s.phase == Between && After(s.blocks, index)
    ensures ReceiveAll(Some(s), BlockEvents(index, ToolUse(id, name, input))) ==
            Some(s.(blocks := s.blocks + [GotTool(index, id, OrElse(name, ""), input)]))
  {
    var called := OrElse(name, "");
    var slices := Slices(input, JSON_CHUNK_SIZE);
    var begun := s.(phase := InBlock, blocks := s.blocks + [GotTool(index, id, called, "")]);
    var filled := begun.(blocks := s.blocks + [GotTool(index, id, called, input)]);
    assert ReceiveAll(Some(begun), JsonDeltas(index, slices)) == Some(filled) by {
      ReceiveJsonDeltas(begun, s.blocks, index, id, called, "", slices);
      SlicesJoin(input, JSON_CHUNK_SIZE);
      assert "" + input == input;
    }
    ReceiveBracket(s, index, ToolStart(index, id, called), JsonDeltas(index, slices), begun, filled);
  }

  lemma {:induction false} ExpectedIndices(blocks: seq<Block>)
    ensures forall r :: r in Expected(blocks) ==> r.index < |blocks|
    ensures After(Expected(blocks), |blocks|)
  {
    if blocks != [] {
      ExpectedIndices(blocks[..|blocks| - 1]);
    }
  }

  lemma {:induction false} ReceiveBlocks(s: Client, blocks: seq<Block>)
    requires s.phase == Between && s.blocks == []
    ensures ReceiveAll(Some(s), AllBlockEvents(blocks)) == Some(s.(blocks := Expected(blocks)))
    decreases |blocks|
  {
    if blocks != [] {
      var n := |blocks| - 1;
      var got := s.(blocks := Expected(blocks[..n]));
      ReceiveBlocks(s, blocks[..n]);
      ReceiveAppend(Some(s), AllBlockEvents(blocks[..n]), BlockEvents(n, blocks[n]));
      ExpectedIndices(blocks[..n]);
      match blocks[n] {
        case Text(text) => ReceiveText(got, n, text);
        case ToolUse(id, name, input) => ReceiveTool(got, n, id, name, input);
        case Other => assert got.blocks + [] == got.blocks;
      }
    }
  }

  lemma StreamReceived(m: Message)
    ensures ReceiveAll(Some(Client(Waiting, "", "", [], None)), Stream(m)) ==
            Some(Client(Stopped, m.id, OrElse(m.model, "claude"), Expected(m.content),
                        Some(OrElse(m.stopReason, "end_turn"))))
  {
    var c0, c2 := Client(Waiting, "", "", [], None), Client(Between, m.id, OrElse(m.model, "claude"), [], None);
    var opening := [MessageStart(m.id, OrElse(m.model, "claude")), Ping];
    var delta := MessageDelta(OrElse(m.stopReason, "end_turn"));
    var c3 := c2.(blocks := Expected(m.content));
    ReceiveAppend(Some(c0), opening + AllBlockEvents(m.content), [delta, MessageStop]);
    ReceiveAppend(Some(c0), opening, AllBlockEvents(m.content));
    assert opening[1..] == [Ping] && [delta, MessageStop][1..] == [MessageStop];
    ReceiveOne(Receive(Some(c0), opening[0]), Ping);
    ReceiveBlocks(c2, m.content);
    ReceiveOne(Receive(Some(c3), delta), MessageStop);
  }

  /** The client's block `r` is the block `b` of the message: a text as its words separated by single
      spaces, a tool use as it is. */
  predicate Carries(r: Received, b: Block) {
    match b
    case Text(text) => r.GotText? && r.text == JoinWords(Words(if text.Some? then text.value else ""))
    case ToolUse(id, name, input) =>
      r.GotTool? && r.id == id && r.name == (if name.Some? then name.value else "") && r.json == input
    case Other => false
  }

  /** The client has every text and tool block, once and in order, each under its own index, and no other. */
  ghost predicate HasBlocks(got: seq<Received>, blocks: seq<Block>) {
    && (forall k :: 0 <= k < |got| ==> got[k].index < |blocks| && Carries(got[k], blocks[got[k].index]))
    && (forall k, l :: 0 <= k < l < |got| ==> got[k].index < got[l].index)
    && (forall i :: 0 <= i < |blocks| && !blocks[i].Other? ==> exists k :: 0 <= k < |got| && got[k].index == i)
  }

  lemma HasBlocksSnoc(got: seq<Received>, blocks: seq<Block>, r: Received, b: Block)
    requires HasBlocks(got, blocks) && r.index == |blocks| && Carries(r, b)
    ensures HasBlocks(got + [r], blocks + [b])
  {
    var more, all := got + [r], blocks + [b];
    assert more[|got|] == r && forall k :: 0 <= k < |got| ==> more[k] == got[k];
    assert all[|blocks|] == b && forall i :: 0 <= i < |blocks| ==> all[i] == blocks[i];
  }

  lemma {:induction false} ExpectedBlocks(blocks: seq<Block>)
    ensures HasBlocks(Expected(blocks), blocks)
  {
    if blocks != [] {
      var n := |blocks| - 1;
      var front, before, b := blocks[..n], Expected(blocks[..n]), blocks[n];
      ExpectedBlocks(front);
      assert blocks == front + [b];
      match b {
        case Text(text) => HasBlocksSnoc(before, front, GotText(n, JoinWords(Words(OrElse(text, "")))), b);
        case ToolUse(id, name, input) => HasBlocksSnoc(before, front, GotTool(n, id, OrElse(name, ""), input), b);
        case Other => assert before + [] == before;
      }
    }
  }

  /** Every stream is well bracketed, and the client ends with the id, model and stop reason of the message,
      or their defaults, and with its blocks. */
  lemma StreamDecodes(m: Message)
    ensures var got := ReceiveAll(Some(Client(Waiting, "", "", [], None)), Stream(m));
            && got.Some? && got.value.phase == Stopped && got.value.id == m.id
            && got.value.model == (if m.model.Some? then m.model.value else "claude")
            && got.value.stopReason == Some(if m.stopReason.Some? then m.stopReason.value else "end_turn")
            && HasBlocks(got.value.blocks, m.content)
  {
    StreamReceived(m);
    ExpectedBlocks(m.content);
  }

  // ---- Words and sizes ----

  /** `gaps` and `words` by turns. */
  function Weave(gaps: seq<string>, words: seq<string>): string
    requires |gaps| == |words| + 1
  {
    if words == [] then gaps[0] else gaps[0] + words[0] + Weave(gaps[1..], words[1..])
  }

  /** `s` is words without white space and gaps of white space around them, no two words touching. */
  ghost predicate Splits(s: string, gaps: seq<string>, words: seq<string>) {
    && |gaps| == |words| + 1 && s == Weave(gaps, words)
    && (forall w :: w in words ==> w != "" && forall i :: 0 <= i < |w| ==> !IsSpace(w[i]))
    && (forall k, i :: 0 <= k < |gaps| && 0 <= i < |gaps[k]| ==> IsSpace(gaps[k][i]))
    && (forall k :: 0 < k < |gaps| - 1 ==> gaps[k] != "")
  }

  lemma SplitsSpace(c: char, s: string, gaps: seq<string>, words: seq<string>)
    requires Splits(s, gaps, words) && IsSpace(c)
    ensures Splits([c] + s, [[c] + gaps[0]] + gaps[1..], words)
  {
    var more := [[c] + gaps[0]] + gaps[1..];
    assert more[1..] == gaps[1..];
    assert forall k :: 0 < k < |gaps| ==> more[k] == gaps[k];
    if words != [] {
      Associates([c], gaps[0], words[0]);
      Associates([c], gaps[0] + words[0], Weave(gaps[1..], words[1..]));
    }
  }

  lemma SplitsWord(w: string, s: string, gaps: seq<string>, words: seq<string>)
    requires Splits(s, gaps, words) && IsWord(w) && (words != [] ==> gaps[0] != "")
    ensures Splits(w + s, [""] + gaps, [w] + words)
  {
    var more := [""] + gaps;
    assert more[1..] == gaps && ([w] + words)[1..] == words;
    assert forall k :: 0 < k < |more| ==> more[k] == gaps[k - 1];
    NothingBefore(w);
  }

  /** `s.split()` takes a text apart into its words. */
  lemma {:induction false} WordsExact(s: string) returns (gaps: seq<string>)
    ensures Splits(s, gaps, Words(s)) && (s != "" && IsSpace(s[0]) ==> gaps[0] != "")
    decreases |s|
  {
    if s == "" {
      gaps := [""];
    } else if IsSpace(s[0]) {
      var rest := WordsExact(s[1..]);
      SplitsSpace(s[0], s[1..], rest, Words(s[1..]));
      gaps := [[s[0]] + rest[0]] + rest[1..];
      assert s == [s[0]] + s[1..];
    } else {
      var n := WordLength(s);
      var rest := WordsExact(s[n..]);
      assert n < |s| || Words(s[n..]) == [];
      SplitsWord(s[..n], s[n..], rest, Words(s[n..]));
      gaps := [""] + rest;
      assert s == s[..n] + s[n..];
    }
  }

  lemma {:induction false} WordsBeforeSpace(s: string)
    ensures Words(s + " ") == Words(s)
    decreases |s|
  {
    var t := s + " ";
    if s == "" {
      assert t[1..] == "";
    } else if IsSpace(s[0]) {
      assert t[1..] == s[1..] + " ";
      WordsBeforeSpace(s[1..]);
    } else {
      var n := WordLength(s);
      assert s == s[..n] + s[n..] && t == s[..n] + (s[n..] + " ");
      WordLengthStops(s[..n], s[n..] + " ");
      assert t[..n] == s[..n] && t[n..] == s[n..] + " ";
      WordsBeforeSpace(s[n..]);
    }
  }

  lemma {:induction false} ChunkWords(words: seq<string>)
    requires forall w :: w in words ==> IsWord(w)
    ensures forall part :: part in TextChunks(words) ==> 1 <= |Words(part)| <= 5
  {
    if words != [] {
      var first := if |words| <= WORDS_PER_CHUNK then words else words[..WORDS_PER_CHUNK];
      JoinSplits(first);
      WordsBeforeSpace(JoinWords(first));
      if |words| > WORDS_PER_CHUNK {
        ChunkWords(words[WORDS_PER_CHUNK..]);
      }
    }
  }

  /** A piece of text has at most five words, a piece of JSON at most twenty characters, and neither is empty. */
  predicate IsSmall(e: Event) {
    && (e.TextDelta? ==> 1 <= |Words(e.text)| <= 5)
    && (e.JsonDelta? ==> 0 < |e.json| <= 20)
  }

  lemma BlockDeltaSizes(index: nat, b: Block)
    ensures forall e :: e in BlockEvents(index, b) ==> IsSmall(e)
  {
    match b
    case Text(text) =>
      WordsAreWords(OrElse(text, ""));
      ChunkWords(Words(OrElse(text, "")));
    case ToolUse(_, _, input) => SlicesJoin(input, JSON_CHUNK_SIZE);
    case Other =>
  }

  lemma {:induction false} DeltaSizes(blocks: seq<Block>)
    ensures forall e :: e in AllBlockEvents(blocks) ==> IsSmall(e)
  {
    if blocks != [] {
      var n := |blocks| - 1;
      DeltaSizes(blocks[..n]);
      BlockDeltaSizes(n, blocks[n]);
    }
  }

  /** The text a client gets has the words of the original, in order. */
  lemma SameWords(text: string)
    ensures Words(JoinWords(Words(text))) == Words(text)
  {
    WordsAreWords(text);
    JoinSplits(Words(text));
  }

  // ---- The generator ----

  method StreamWords(index: nat, words: seq<string>) returns (events: seq<Event>)
    ensures events == TextDeltas(index, TextChunks(words))
  {
    events := [];
    var i := 0;
    ghost var parts: seq<string> := [];
    while i < |words|
      invariant 0 <= i
      invariant parts + TextChunks(WordsFrom(words, i)) == TextChunks(words)
      invariant events == TextDeltas(index, parts)
      decreases |words| - i
    {
      var chunkWords := words[i..if i + WORDS_PER_CHUNK < |words| then i + WORDS_PER_CHUNK else |words|];
      var textChunk := JoinWords(chunkWords);
      if i + WORDS_PER_CHUNK < |words| {
        textChunk := textChunk + " ";
      }
      TextChunkStep(words, i);
      Associates(parts, [textChunk], TextChunks(WordsFrom(words, i + WORDS_PER_CHUNK)));
      parts := parts + [textChunk];
      events := events + [TextDelta(index, textChunk)];
      i := i + WORDS_PER_CHUNK;
    }
    assert parts + [] == parts;
  }

  function WordsFrom(words: seq<string>, i: nat): seq<string> {
    if i < |words| then words[i..] else []
  }

  lemma TextChunkStep(words: seq<string>, i: nat)
    requires i < |words|
    ensures var next := i + WORDS_PER_CHUNK;
            TextChunks(WordsFrom(words, i)) ==
              [if next < |words| then JoinWords(words[i..next]) + " " else JoinWords(words[i..|words|])]
              + TextChunks(WordsFrom(words, next))
  {
    var rest := words[i..];
    assert words[i..|words|] == rest;
    if i + WORDS_PER_CHUNK < |words| {
      assert |rest| > WORDS_PER_CHUNK;
      assert rest[..WORDS_PER_CHUNK] == words[i..i + WORDS_PER_CHUNK];
      assert rest[WORDS_PER_CHUNK..] == words[i + WORDS_PER_CHUNK..];
    }
  }

  method StreamJson(index: nat, input: string) returns (events: seq<Event>)
    ensures events == JsonDeltas(index, Slices(input, JSON_CHUNK_SIZE))
  {
    events := [];
    var i := 0;
    ghost var parts: seq<string> := [];
    while i < |input|
      invariant 0 <= i
      invariant parts + Slices(TextFrom(input, i), JSON_CHUNK_SIZE) == Slices(input, JSON_CHUNK_SIZE)
      invariant events == JsonDeltas(index, parts)
      decreases |input| - i
    {
      var jsonChunk := SliceAt(input, i, JSON_CHUNK_SIZE);
      SliceStep(input, i, JSON_CHUNK_SIZE);
      ghost var rest := Slices(TextFrom(input, i + JSON_CHUNK_SIZE), JSON_CHUNK_SIZE);
      assert parts + ([jsonChunk] + rest) == parts + [jsonChunk] + rest;
      parts := parts + [jsonChunk];
      events := events + [JsonDelta(index, jsonChunk)];
      i := i + JSON_CHUNK_SIZE;
    }
    assert parts + [] == parts;
  }

  method StreamBlock(index: nat, block: Block) returns (events: seq<Event>)
    ensures events == BlockEvents(index, block)
  {
    match block {
      case Text(text) =>
        var deltas := StreamWords(index, Words(OrElse(text, "")));
        events := [TextStart(index)] + deltas + [BlockStop(index)];
      case ToolUse(id, name, input) =>
        var deltas := StreamJson(index, input);
        events := [ToolStart(index, id, OrElse(name, ""))] + deltas + [BlockStop(index)];
      case Other =>
        events := [];
    }
  }

  /** `anthropic_stream_generator`. */
  method Generate(m: Message) returns (events: seq<Event>)
    ensures events == Stream(m)
  {
    var blockEvents: seq<Event> := [];
    for index := 0 to |m.content|
      invariant blockEvents == AllBlockEvents(m.content[..index])
    {
      assert m.content[..index + 1][..index] == m.content[..index];
      var more := StreamBlock(index, m.content[index]);
      blockEvents := blockEvents + more;
    }
    assert m.content[..|m.content|] == m.content;
    events := [MessageStart(m.id, OrElse(m.model, "claude")), Ping] + blockEvents
              + [MessageDelta(OrElse(m.stopReason, "end_turn")), MessageStop];
  }
}
