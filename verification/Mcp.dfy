/** The newline-framed JSON-RPC loop: lines of the input stream, and the response each one gets. */
module Mcp {
  import opened Bytes
  import opened BoundedRead

  const LF: byte := 0x0A
  const MAX_MESSAGE_BYTES: nat := 1024 * 1024

  /** A parsed JSON value. */
  datatype Json =
    | Null
    | Bool(value: bool)
    | Number(digits: Bytes)
    | Text(text: Bytes)
    | Array(items: seq<Json>)
    | Object(members: map<Bytes, Json>)

  /** What a line reads as, after lossy decoding: nothing but white space, no JSON, or a value. */
  datatype Reading = Blank | Malformed | Message(message: Json)

  datatype ToolResult = Done(result: Json) | Failed(text: Bytes)

  datatype Response = Success(id: Json, result: Json) | Failure(id: Json, code: int)

  /** The parts outside the loop; a tool call may answer differently for each line. */
  datatype Server = Server(read: Bytes -> Reading, initialize: Json -> Json, tools: Json, call: (nat, Json) -> ToolResult)

  const ID: Bytes := [0x69, 0x64]
  const METHOD: Bytes := [0x6D, 0x65, 0x74, 0x68, 0x6F, 0x64]
  const INITIALIZE: Bytes := [0x69, 0x6E, 0x69, 0x74, 0x69, 0x61, 0x6C, 0x69, 0x7A, 0x65]
  const PING: Bytes := [0x70, 0x69, 0x6E, 0x67]
  const TOOLS_LIST: Bytes := [0x74, 0x6F, 0x6F, 0x6C, 0x73, 0x2F, 0x6C, 0x69, 0x73, 0x74]
  const TOOLS_CALL: Bytes := [0x74, 0x6F, 0x6F, 0x6C, 0x73, 0x2F, 0x63, 0x61, 0x6C, 0x6C]

  const PARSE_ERROR := -32700
  const INVALID_REQUEST := -32600
  const METHOD_NOT_FOUND := -32601
  const INVALID_PARAMS := -32602

  // ----- framing -----

  /** `read_until`: up to and including the first newline, or everything. */
  function FirstLine(t: Bytes): (line: Bytes)
    ensures line <= t && (t != [] ==> line != [])
  {
    if t == [] then [] else if t[0] == LF then [LF] else [t[0]] + FirstLine(t[1..])
  }

  function Lines(t: Bytes): seq<Bytes>
    decreases |t|
  {
    if t == [] then [] else [FirstLine(t)] + Lines(t[|FirstLine(t)|..])
  }

  /** Non-empty, with no newline except perhaps as the last byte. */
  predicate IsLine(l: Bytes) {
    l != [] && forall k :: 0 <= k < |l| - 1 ==> l[k] != LF
  }

  predicate Terminated(l: Bytes) {
    l != [] && l[|l| - 1] == LF
  }

  /** Lines one after another: only the last may be without its newline. */
  predicate Framed(ls: seq<Bytes>) {
    && (forall i :: 0 <= i < |ls| ==> IsLine(ls[i]))
    && (forall i :: 0 <= i < |ls| - 1 ==> Terminated(ls[i]))
  }

  lemma {:induction false} FirstLineFramed(t: Bytes)
    requires t != []
    ensures IsLine(FirstLine(t)) && (Terminated(FirstLine(t)) || FirstLine(t) == t)
  {
    if t[0] != LF && t[1..] != [] {
      FirstLineFramed(t[1..]);
    }
  }

  /** The lines make up the stream, and each is a line. */
  lemma {:induction false} LinesFramed(t: Bytes)
    ensures Framed(Lines(t)) && Flatten(Lines(t)) == t
    decreases |t|
  {
    if t != [] {
      var first := FirstLine(t);
      var rest := Lines(t[|first|..]);
      FirstLineFramed(t);
      LinesFramed(t[|first|..]);
      assert first == t ==> rest == [];
      assert Lines(t)[1..] == rest;
      assert forall i :: 0 <= i < |rest| ==> Lines(t)[i + 1] == rest[i];
    }
  }

  lemma {:induction false} FirstLineIs(l: Bytes, t: Bytes)
    requires IsLine(l) && (Terminated(l) || t == [])
    ensures FirstLine(l + t) == l
    decreases |l|
  {
    if |l| > 1 {
      assert (l + t)[1..] == l[1..] + t;
      FirstLineIs(l[1..], t);
    } else if l[0] != LF {
      assert (l + t)[1..] == [];
    }
  }

  /** No other division of the stream into lines exists. */
  lemma {:induction false} LinesUnique(ls: seq<Bytes>)
    requires Framed(ls)
    ensures Lines(Flatten(ls)) == ls
  {
    if ls != [] {
      var rest := Flatten(ls[1..]);
      assert |ls| == 1 ==> rest == [];
      FirstLineIs(ls[0], rest);
      LinesUnique(ls[1..]);
      assert Flatten(ls)[|ls[0]|..] == rest;
    }
  }

  /** Whatever precedes a newline, however long, the lines after it are those of the rest alone. */
  lemma FramingRestarts(a: Bytes, b: Bytes)
    requires Terminated(a)
    ensures Lines(a + b) == Lines(a) + Lines(b)
  {
    hide Lines, Flatten, Terminated, IsLine;
    LinesFramed(a);
    LinesFramed(b);
    LastTerminated(a);
    var ls, n := Lines(a) + Lines(b), |Lines(a)|;
    assert ls[..n] == Lines(a) && ls[n..] == Lines(b);
    FlattenSplit(ls, n);
    LinesUnique(ls);
  }

  lemma {:induction false} LastTerminated(a: Bytes)
    requires Terminated(a)
    ensures Lines(a) != [] && Terminated(Lines(a)[|Lines(a)| - 1])
    decreases |a|
  {
    var first := FirstLine(a);
    var rest := a[|first|..];
    if rest != [] {
      LastTerminated(rest);
    }
  }

  // ----- one line -----

  function Member(m: Json, key: Bytes): seq<Json> {
    if m.Object? && key in m.members then [m.members[key]] else []
  }

  /** `handle_message`: at most one response. */
  function HandleMessage(s: Server, line: nat, m: Json): seq<Response> {
    var id := Member(m, ID);
    var name := Member(m, METHOD);
    if id == [] then []
    else if name == [] || !name[0].Text? then [Failure(id[0], INVALID_REQUEST)]
    else if name[0].text == INITIALIZE then [Success(id[0], s.initialize(m))]
    else if name[0].text == PING then [Success(id[0], Object(map[]))]
    else if name[0].text == TOOLS_LIST then [Success(id[0], s.tools)]
    else if name[0].text == TOOLS_CALL then
      match s.call(line, m)
      case Done(result) => [Success(id[0], result)]
      case Failed(_) => [Failure(id[0], INVALID_PARAMS)]
    else [Failure(id[0], METHOD_NOT_FOUND)]
  }

  predicate Oversize(encoded: Bytes) {
    |encoded| > MAX_MESSAGE_BYTES
  }

  /** What the loop writes for one line. */
  function Reply(s: Server, line: nat, encoded: Bytes): seq<Response> {
    if Oversize(encoded) then [Failure(Null, PARSE_ERROR)]
    else
      match s.read(encoded)
      case Blank => []
      case Malformed => [Failure(Null, PARSE_ERROR)]
      case Message(m) => HandleMessage(s, line, m)
  }

  /** The replies to lines numbered from `line` on. */
  function Replies(s: Server, line: nat, ls: seq<Bytes>): seq<Response>
    decreases |ls|
  {
    if ls == [] then [] else Reply(s, line, ls[0]) + Replies(s, line + 1, ls[1..])
  }

  lemma NextReply(s: Server, line: nat, rest: Bytes)
    ensures rest != [] ==>
      (var l := FirstLine(rest);
       Replies(s, line, Lines(rest)) == Reply(s, line, l) + Replies(s, line + 1, Lines(rest[|l|..])))
    ensures rest == [] ==> Replies(s, line, Lines(rest)) == []
  {
    hide Reply;
    if rest != [] {
      assert Lines(rest)[1..] == Lines(rest[|FirstLine(rest)|..]);
    }
  }

  method ServeIo(s: Server, stream: Bytes) returns (written: seq<Response>)
    ensures written == Replies(s, 0, Lines(stream))
    ensures exists ns :: Disciplined(s, Lines(stream), ns, written)
  {
    hide Lines, Replies, FirstLine, HandleMessage, Disciplined;
    written := [];
    var rest := stream;
    var line := 0;
    while true
      invariant written + Replies(s, line, Lines(rest)) == Replies(s, 0, Lines(stream))
      decreases |rest|
    {
      var encoded := FirstLine(rest);
      NextReply(s, line, rest);
      rest := rest[|encoded|..];
      if |encoded| == 0 {
        break;
      }
      if |encoded| > MAX_MESSAGE_BYTES {
        written := written + [Failure(Null, PARSE_ERROR)];
        line := line + 1;
        continue;
      }
      var reading := s.read(encoded);
      if reading.Message? {
        written := written + HandleMessage(s, line, reading.message);
      } else if reading.Malformed? {
        written := written + [Failure(Null, PARSE_ERROR)];
      }
      line := line + 1;
    }
    ResponseDiscipline(s, stream);
  }

  // ----- one response for each line that calls for one, in order -----

  /** Oversize, unparsable and not blank, or a message with an `id` member. */
  predicate CallsForReply(s: Server, encoded: Bytes) {
    || Oversize(encoded)
    || s.read(encoded).Malformed?
    || (s.read(encoded).Message? && s.read(encoded).message.Object? && ID in s.read(encoded).message.members)
  }

  /** The id a response carries: the message's own, or null when there is no message. */
  function ReplyId(s: Server, encoded: Bytes): Json
    requires CallsForReply(s, encoded)
  {
    if Oversize(encoded) || s.read(encoded).Malformed? then Null else s.read(encoded).message.members[ID]
  }

  /** The value has a `method` member that is a string. */
  predicate NamesMethod(m: Json) {
    m.Object? && METHOD in m.members && m.members[METHOD].Text?
  }

  /**
   What the response to a line says, from the line alone: the error codes of section 5.1 of JSON-RPC 2.0
   each for exactly its case, and for the four methods the result that belongs to the line.
   */
  ghost predicate Answers(s: Server, line: nat, encoded: Bytes, r: Response) {
    if |encoded| > 1048576 || s.read(encoded).Malformed? then r == Failure(Null, -32700)
    else
      && s.read(encoded).Message? && s.read(encoded).message.Object?
      && var m := s.read(encoded).message;
         && ID in m.members && r.id == m.members[ID]
         && (r == Failure(r.id, -32600) <==> !NamesMethod(m))
         && (NamesMethod(m) ==>
               var name := m.members[METHOD].text;
               && (r == Failure(r.id, -32601) <==> !Spells(name, "initialize") && !Spells(name, "ping")
                                                   && !Spells(name, "tools/list") && !Spells(name, "tools/call"))
               && (r == Failure(r.id, -32602) <==> Spells(name, "tools/call") && s.call(line, m).Failed?)
               && (Spells(name, "initialize") ==> r == Success(r.id, s.initialize(m)))
               && (Spells(name, "ping") ==> r == Success(r.id, Object(map[])))
               && (Spells(name, "tools/list") ==> r == Success(r.id, s.tools))
               && (Spells(name, "tools/call") && s.call(line, m).Done? ==> r == Success(r.id, s.call(line, m).result)))
  }

  lemma ReplyAnswers(s: Server, line: nat, encoded: Bytes)
    requires CallsForReply(s, encoded)
    ensures |Reply(s, line, encoded)| == 1 && Answers(s, line, encoded, Reply(s, line, encoded)[0])
  {
    hide Spells, INITIALIZE, PING, TOOLS_LIST, TOOLS_CALL;
    if s.read(encoded).Message? && NamesMethod(s.read(encoded).message) {
      MethodSpelled(s.read(encoded).message.members[METHOD].text);
    }
  }

  lemma MethodSpelled(name: Bytes)
    ensures name == INITIALIZE <==> Spells(name, "initialize")
    ensures name == PING <==> Spells(name, "ping")
    ensures name == TOOLS_LIST <==> Spells(name, "tools/list")
    ensures name == TOOLS_CALL <==> Spells(name, "tools/call")
    ensures Spells(ID, "id") && Spells(METHOD, "method") && LF as char == '\n'
    ensures INITIALIZE[0] != PING[0] && INITIALIZE[0] != TOOLS_LIST[0] && PING[0] != TOOLS_LIST[0]
    ensures TOOLS_LIST[6] != TOOLS_CALL[6] && INITIALIZE[0] != TOOLS_CALL[0] && PING[0] != TOOLS_CALL[0]
  {
  }

  lemma OneReply(s: Server, line: nat, encoded: Bytes)
    ensures |Reply(s, line, encoded)| == if CallsForReply(s, encoded) then 1 else 0
    ensures CallsForReply(s, encoded) ==> Reply(s, line, encoded)[0].id == ReplyId(s, encoded)
  {
  }

  /** The numbers of the lines that call for a reply, counted from `line`. */
  function Answered(s: Server, line: nat, ls: seq<Bytes>): seq<nat>
    decreases |ls|
  {
    if ls == [] then []
    else (if CallsForReply(s, ls[0]) then [line] else []) + Answered(s, line + 1, ls[1..])
  }

  /** The list is the increasing list of all lines that call for a reply. */
  lemma {:induction false} AnsweredAre(s: Server, line: nat, ls: seq<Bytes>)
    ensures forall n :: n in Answered(s, line, ls) <==> line <= n < line + |ls| && CallsForReply(s, ls[n - line])
    ensures forall i, j :: 0 <= i < j < |Answered(s, line, ls)| ==> Answered(s, line, ls)[i] < Answered(s, line, ls)[j]
    decreases |ls|
  {
    if ls != [] {
      AnsweredAre(s, line + 1, ls[1..]);
      var rest := Answered(s, line + 1, ls[1..]);
      forall i | 0 <= i < |rest| ensures rest[i] > line {
        assert rest[i] in rest;
      }
    }
  }

  /** The `i`th response is the one to the `i`th line that calls for a reply. */
  lemma {:induction false} InLineOrder(s: Server, line: nat, ls: seq<Bytes>)
    ensures |Replies(s, line, ls)| == |Answered(s, line, ls)|
    ensures forall i :: 0 <= i < |Answered(s, line, ls)| ==>
      (var n := Answered(s, line, ls)[i];
       line <= n < line + |ls| && Reply(s, n, ls[n - line]) == [Replies(s, line, ls)[i]])
    decreases |ls|
  {
    if ls != [] {
      InLineOrder(s, line + 1, ls[1..]);
      AnsweredAre(s, line, ls);
      AnsweredAre(s, line + 1, ls[1..]);
      OneReply(s, line, ls[0]);
      hide Reply, CallsForReply;
    }
  }

  /**
   One response for each line that calls for one and none for any other, in line order, each answering
   its line: `ns` are the numbers of the lines answered.
   */
  ghost predicate Disciplined(s: Server, ls: seq<Bytes>, ns: seq<nat>, out: seq<Response>) {
    && |out| == |ns|
    && (forall n :: n in ns <==> 0 <= n < |ls| && CallsForReply(s, ls[n]))
    && (forall i, j :: 0 <= i < j < |ns| ==> ns[i] < ns[j])
    && (forall i :: 0 <= i < |ns| ==> ns[i] < |ls| && Answers(s, ns[i], ls[ns[i]], out[i]))
  }

  /** So it is for every input stream. */
  lemma ResponseDiscipline(s: Server, stream: Bytes)
    ensures Disciplined(s, Lines(stream), Answered(s, 0, Lines(stream)), Replies(s, 0, Lines(stream)))
  {
    var ls, out, ns := Lines(stream), Replies(s, 0, Lines(stream)), Answered(s, 0, Lines(stream));
    hide Lines, Replies, Answered, Reply, CallsForReply, Answers;
    InLineOrder(s, 0, ls);
    AnsweredAre(s, 0, ls);
    forall i | 0 <= i < |ns| ensures ns[i] < |ls| && Answers(s, ns[i], ls[ns[i]], out[i]) {
      assert ns[i] in ns;
      ReplyAnswers(s, ns[i], ls[ns[i]]);
    }
  }

  lemma RepliesHead(s: Server, line: nat, ls: seq<Bytes>)
    ensures ls != [] ==> Replies(s, line, ls) == Reply(s, line, ls[0]) + Replies(s, line + 1, ls[1..])
    ensures Replies(s, line, []) == []
  {
    hide Reply;
  }

  lemma {:induction false} RepliesConcat(s: Server, line: nat, a: seq<Bytes>, b: seq<Bytes>)
    ensures Replies(s, line, a + b) == Replies(s, line, a) + Replies(s, line + |a|, b)
    decreases |a|
  {
    hide Reply, Replies;
    RepliesHead(s, line, a);
    if a == [] {
      assert a + b == b;
    } else {
      RepliesHead(s, line, a + b);
      assert (a + b)[1..] == a[1..] + b && (a + b)[0] == a[0];
      RepliesConcat(s, line + 1, a[1..], b);
    }
  }

  /** An oversize line costs one error response; what follows it is served as if it stood first. */
  lemma OversizeNeverShifts(s: Server, before: Bytes, big: Bytes, after: Bytes)
    requires (before == [] || Terminated(before)) && IsLine(big) && Terminated(big) && Oversize(big)
    ensures var n := |Lines(before)|;
            Replies(s, 0, Lines(before + big + after))
              == Replies(s, 0, Lines(before)) + [Failure(Null, PARSE_ERROR)] + Replies(s, n + 1, Lines(after))
  {
    hide Lines, Flatten, Terminated, Replies, IsLine;
    var ls, n := Lines(before), |Lines(before)|;
    NoLines();
    if before != [] {
      FramingRestarts(before, big + after);
      assert before + (big + after) == before + big + after;
    } else {
      assert before + big + after == big + after;
    }
    FramingRestarts(big, after);
    LinesUnique([big]);
    FlattenOne(big);
    RepliesConcat(s, 0, ls, [big] + Lines(after));
    RepliesConcat(s, n, [big], Lines(after));
    OversizeReply(s, n, big);
    assert Lines(before + big + after) == ls + ([big] + Lines(after));
    var error := [Failure(Null, PARSE_ERROR)];
    assert Replies(s, n, [big] + Lines(after)) == error + Replies(s, n + 1, Lines(after));
  }

  lemma NoLines()
    ensures Lines([]) == []
  {
  }

  lemma OversizeReply(s: Server, line: nat, big: Bytes)
    requires Oversize(big)
    ensures Replies(s, line, [big]) == [Failure(Null, PARSE_ERROR)]
  {
    assert [big][1..] == [];
  }

  // ----- JSON-RPC 2.0 -----

  /** A request without an id (section 4.1). */
  predicate Notification(m: Json) {
    NamesMethod(m) && ID !in m.members
  }

  /** Section 5 asks for a response to everything but notifications. */
  predicate Conforms(s: Server, line: nat, m: Json) {
    HandleMessage(s, line, m) == [] <==> Notification(m)
  }

  /** The server departs from it for values without an id that are not well-formed notifications. */
  lemma ConformsExactly(s: Server, line: nat, m: Json)
    ensures Conforms(s, line, m) <==> m.Object? && (ID in m.members || NamesMethod(m))
  {
  }

  /** For instance, an array, even a batch of requests, gets no response at all. */
  lemma ArrayUnanswered(s: Server, line: nat, items: seq<Json>)
    ensures HandleMessage(s, line, Array(items)) == [] && !Conforms(s, line, Array(items))
  {
  }
}
