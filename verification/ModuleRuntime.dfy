/**
  The module supervisor of src/module_runtime.c: a bounded linked queue of
  events, the response loop with its budgets, and the messages that modules
  publish to the room.
 */
module ModuleRuntime {
  import opened Bytes
  import opened Common
  import opened JsonText
  import opened JsonGrammar
  import opened Utf8
  import opened ModuleProtocol
  import opened ChatRoom
  import MessageFile

  const QUEUE_LIMIT := 128
  const MAX_RESPONSES := 8
  const MAX_INVALID := 3
  const NAME_MAX := MAX_USERNAME_LEN - 8
  /** "module:" */
  const MODULE_PREFIX: seq<byte> := [0x6D, 0x6F, 0x64, 0x75, 0x6C, 0x65, 0x3A]
  /** "event.ok" */
  const EVENT_OK: seq<byte> := [0x65, 0x76, 0x65, 0x6E, 0x74, 0x2E, 0x6F, 0x6B]

  // ----- The event queue

  class Node {
    var msg: Message
    var next: Node?

    constructor (msg: Message)
      ensures this.msg == msg && next == null
    {
      this.msg := msg;
      next := null;
    }
  }

  ghost function NodeAt(nodes: seq<Node>, i: int): Node? {
    if 0 <= i < |nodes| then nodes[i] else null
  }

  /** Each node points to the next one, and no node occurs twice. */
  ghost predicate Linked(nodes: seq<Node>)
    reads nodes
  {
    && (forall i, j :: 0 <= i < j < |nodes| ==> nodes[i] != nodes[j])
    && forall i :: 0 <= i < |nodes| ==> nodes[i].next == NodeAt(nodes, i + 1)
  }

  lemma LinkedTail(nodes: seq<Node>)
    requires Linked(nodes) && nodes != []
    ensures Linked(nodes[1..]) && nodes[0].next == NodeAt(nodes[1..], 0)
  {
    forall i | 0 <= i < |nodes[1..]|
      ensures nodes[1..][i].next == NodeAt(nodes[1..], i + 1)
    {
      assert nodes[1..][i] == nodes[i + 1];
    }
  }

  class EventQueue {
    var head: Node?
    var tail: Node?
    var len: int
    var running: bool
    ghost var nodes: seq<Node>

    ghost predicate Valid()
      reads this, nodes
    {
      && len == |nodes| <= QUEUE_LIMIT
      && head == NodeAt(nodes, 0)
      && tail == NodeAt(nodes, |nodes| - 1)
      && Linked(nodes)
    }

    ghost function Contents(): seq<Message>
      reads this, nodes
    {
      seq(|nodes|, i requires 0 <= i < |nodes| reads this, nodes => nodes[i].msg)
    }

    constructor ()
      ensures Valid() && Contents() == [] && running
    {
      head, tail, len, running := null, null, 0, true;
      nodes := [];
    }

    /** `enqueue_message`; `hasNode` is whether a node could be allocated. */
    method Enqueue(msg: Message, hasNode: bool) returns (queued: bool)
      requires Valid()
      modifies this, nodes
      ensures Valid() && running == old(running)
      ensures queued <==> old(running && |Contents()| < QUEUE_LIMIT) && hasNode
      ensures Contents() == old(Contents()) + (if queued then [msg] else [])
    {
      if !running || len >= QUEUE_LIMIT || !hasNode {
        assert Contents() + [] == Contents();
        return false;
      }
      PushBack(msg);
      return true;
    }

    /** The linking part of `enqueue_message` */
    method PushBack(msg: Message)
      requires Valid() && len < QUEUE_LIMIT
      modifies this, nodes
      ensures Valid() && running == old(running)
      ensures Contents() == old(Contents()) + [msg]
    {
      var node := new Node(msg);
      ghost var was := nodes;
      if tail != null {
        tail.next := node;
      } else {
        head := node;
      }
      tail := node;
      len := len + 1;
      nodes := was + [node];
      forall i | 0 <= i < |nodes|
        ensures nodes[i].next == NodeAt(nodes, i + 1)
      {
        assert i < |was| ==> nodes[i] == was[i];
      }
    }

    /** `dequeue_message`, once it no longer waits. */
    method Dequeue() returns (r: Option<Message>)
      requires Valid()
      modifies this
      ensures Valid() && running == old(running)
      ensures old(Contents()) == [] ==> r == None && Contents() == []
      ensures old(Contents()) != [] ==> r == Some(old(Contents())[0]) && Contents() == old(Contents())[1..]
    {
      if head == null {
        return None;
      }
      LinkedTail(nodes);
      r := Some(head.msg);
      head := head.next;
      if head == null {
        tail := null;
      }
      len := len - 1;
      nodes := nodes[1..];
    }

    /** The draining loop of `tnt_module_runtime_shutdown` */
    method Shutdown()
      requires Valid()
      modifies this
      ensures Valid() && Contents() == [] && !running
    {
      running := false;
      while head != null
        invariant Linked(nodes) && head == NodeAt(nodes, 0) && !running
        decreases |nodes|
      {
        LinkedTail(nodes);
        head := head.next;
        nodes := nodes[1..];
      }
      tail := null;
      len := 0;
    }
  }

  // ----- One module answering one event

  /** What `handle_module_response` makes of a line. */
  datatype Reply = Create(text: seq<byte>) | Done | Invalid

  ghost function Classify(line: seq<byte>): Reply {
    var c := CreateText(line);
    if c.Some? then Create(c.value)
    else if GetField(line, TYPE, TYPE_SIZE) == Some(EVENT_OK) then Done
    else Invalid
  }

  /** A response that is a well-formed object with readable keys: it publishes the text of
      a "message.create" that may be published, is done if it is "event.ok", and is
      invalid otherwise. */
  lemma AnswersIff(before: seq<byte>, ms: Members, rest: seq<byte>)
    requires Blank(before) && MembersOk(ms) && KeysReadable(ms)
    ensures var reply, kind, text := Classify(before + ValueText(Object(ms)) + rest),
                LastText(ms, TYPE, 64), LastText(ms, PLAIN_TEXT, 1024);
      if kind == Some(MESSAGE_CREATE) && text.Some? && Publishable(text.value) then reply == Create(text.value)
      else if kind == Some([0x65, 0x76, 0x65, 0x6E, 0x74, 0x2E, 0x6F, 0x6B]) then reply == Done
      else reply == Invalid
  {
    hide GetField, CreateText, Publishable, LastText, MembersOk, KeysReadable, ValueText;
    var line, text := before + ValueText(Object(ms)) + rest, LastText(ms, PLAIN_TEXT, 1024);
    TypeIs(before, ms, rest);
    if text.Some? {
      CreatesIff(before, ms, rest, text.value);
    }
    var created := CreateText(line);
    if created.Some? {
      CreatesIff(before, ms, rest, created.value);
    }
  }

  /** `handle_module_response` */
  method HandleResponse(line: seq<byte>) returns (reply: Reply)
    requires NoNul(line)
    ensures reply == Classify(line)
  {
    hide CreateText, GetField;
    var create := ParseMessageCreate(line);
    if create.Some? {
      return Create(create.value);
    }
    var typeText := ReadField(line, TYPE, TYPE_SIZE);
    return if typeText == Some(EVENT_OK) then Done else Invalid;
  }

  /** A result of `read_line_timeout`: 0, negative, or a line. */
  datatype Read = Quiet | Failed | Line(bytes: seq<byte>)

  /** What the outside does during one delivery: whether the event was written,
      what the reads return (a module that says no more stays quiet), the time, and
      whether each message that the module publishes can be saved. */
  datatype Script = Script(written: bool, lines: seq<Read>, now: int, saves: nat -> bool)

  ghost predicate ScriptOk(s: Script) {
    forall i :: 0 <= i < |s.lines| && s.lines[i].Line? ==> NoNul(s.lines[i].bytes)
  }

  /** A message with the texts of its id and its time. */
  datatype Event = Event(id: seq<byte>, stamp: seq<byte>, msg: Message)

  ghost predicate EventOk(e: Event) {
    NoNul(e.msg.username) && NoNul(e.msg.content)
  }

  /** Whether the event line can be printed into its buffer. */
  predicate Prints(e: Event) {
    && e.id != [] && Valid(e.msg.username) && Valid(e.msg.content)
    && |EventLine(e.id, e.stamp, e.msg.username, e.msg.content)| < LINE_MAX - 1
  }

  datatype State = State(active: bool, invalid: nat)

  /** The state after a delivery, the replies it took and the reads it made. */
  datatype Turn = Turn(state: State, replies: seq<Reply>, taken: nat)

  /** One turn of the response loop: the new state, and the reply if there was one. */
  ghost function Answered(s: State, read: Read, responses: nat): (State, Option<Reply>) {
    match read
    case Quiet => (s, None)
    case Failed => (s.(active := false), None)
    case Line(bytes) =>
      if responses >= MAX_RESPONSES then (s.(active := false), None)
      else
        var r := Classify(bytes);
        (if r.Invalid? then State(s.active && s.invalid + 1 < MAX_INVALID, s.invalid + 1) else s.(invalid := 0),
         Some(r))
  }

  function FirstRead(lines: seq<Read>): Read {
    if lines == [] then Quiet else lines[0]
  }

  /** The whole loop: it goes on as long as the module publishes. */
  ghost function Listen(s: State, lines: seq<Read>, responses: nat): Turn
    decreases |lines|
  {
    var (u, r) := Answered(s, FirstRead(lines), responses);
    if r.None? then Turn(u, [], 1)
    else if !r.value.Create? then Turn(u, [r.value], 1)
    else
      var t := Listen(u, lines[1..], responses + 1);
      Turn(t.state, [r.value] + t.replies, 1 + t.taken)
  }

  ghost function Deliver(s: State, e: Event, script: Script): Turn {
    if !s.active then Turn(s, [], 0)
    else if !Prints(e) || !script.written then Turn(s.(active := false), [], 0)
    else Listen(s, script.lines, 0)
  }

  /** A valid message without control bytes is never the reason that printing its
      event closes a module: only a failing write is. */
  lemma PlainEventPrints(e: Event, s: State, script: Script)
    requires e.id != [] && |e.id| < 64 && |e.stamp| < 64
    requires |e.msg.username| < MAX_USERNAME_LEN && |e.msg.content| < MAX_MESSAGE_LEN
    requires Valid(e.msg.username) && Valid(e.msg.content)
    requires var all := e.id + e.stamp + e.msg.username + e.msg.content; forall i :: 0 <= i < |all| ==> all[i] >= 0x20
    ensures Prints(e)
    ensures s.active && script.written ==> Deliver(s, e, script) == Listen(s, script.lines, 0)
  {
    EventFits(e.id, e.stamp, e.msg.username, e.msg.content);
  }

  /** How many replies at the end of a history are invalid. */
  ghost function TrailingInvalid(h: seq<Reply>): nat {
    if h == [] || !h[|h| - 1].Invalid? then 0 else 1 + TrailingInvalid(h[..|h| - 1])
  }

  ghost function Published(h: seq<Reply>): seq<seq<byte>> {
    if h == [] then [] else (if h[0].Create? then [h[0].text] else []) + Published(h[1..])
  }

  lemma {:induction false} PublishedBound(h: seq<Reply>)
    ensures |Published(h)| <= |h|
  {
    if h != [] {
      PublishedBound(h[1..]);
    }
  }

  /** No delivery handles more than eight replies, so none publishes more than eight messages. */
  lemma {:induction false} ListenBound(s: State, lines: seq<Read>, responses: nat)
    requires responses <= MAX_RESPONSES
    ensures |Listen(s, lines, responses).replies| <= MAX_RESPONSES - responses
    decreases |lines|
  {
    hide Classify;
    if lines != [] && lines[0].Line? && responses < MAX_RESPONSES && Classify(lines[0].bytes).Create? {
      ListenBound(s.(invalid := 0), lines[1..], responses + 1);
    }
  }

  /** The counter is the number of invalid replies since the last valid one,
      and a module that stays active has fewer than three of them. */
  lemma {:induction false} ListenCounts(s: State, lines: seq<Read>, responses: nat, h: seq<Reply>)
    requires s.active && s.invalid == TrailingInvalid(h) < MAX_INVALID
    ensures var t := Listen(s, lines, responses);
      && t.state.invalid == TrailingInvalid(h + t.replies)
      && (t.state.active ==> t.state.invalid < MAX_INVALID)
      && t.state.invalid <= MAX_INVALID
    decreases |lines|
  {
    hide Classify;
    var t := Listen(s, lines, responses);
    if t.replies == [] {
      assert h + [] == h;
    } else {
      var r := t.replies[0];
      assert (h + [r])[..|h|] == h;
      if r.Create? {
        var rest := Listen(s.(invalid := 0), lines[1..], responses + 1);
        ListenCounts(s.(invalid := 0), lines[1..], responses + 1, h + [r]);
        Assoc(h, [r], rest.replies);
      }
    }
  }

  /** The message that `publish_module_message` makes of a text. */
  function ModuleMessage(name: seq<byte>, text: seq<byte>, now: int): Message {
    Message(now, Clip(MODULE_PREFIX + Clip(name, NAME_MAX), MAX_USERNAME_LEN - 1), Clip(text, MAX_MESSAGE_LEN - 1))
  }

  /** The first `n` reads are lines that publish a message. */
  ghost predicate Publishes(lines: seq<Read>, n: nat) {
    n <= |lines| && forall i :: 0 <= i < n ==> lines[i].Line? && Classify(lines[i].bytes).Create?
  }

  /** What one delivery takes from a module that was written to, read by read: the
      messages it publishes, `n` of them and at most eight, and one read more, which
      ends it.  Only a failing read, a ninth response and a third invalid one in a row
      close the module. */
  ghost predicate Hears(s: State, lines: seq<Read>, n: nat, limit: nat, t: Turn) {
    var last := ReadAt(lines, n);
    var reply := if last.Line? && n < limit then Some(Classify(last.bytes)) else None;
    && Publishes(lines, n) && n <= limit && t.taken == n + 1
    && (n < limit ==> !(last.Line? && Classify(last.bytes).Create?))
    && |t.replies| == n + (if reply.Some? then 1 else 0)
    && (forall i :: 0 <= i < n ==> t.replies[i] == Classify(lines[i].bytes))
    && (reply.Some? ==> t.replies[n] == reply.value)
    && t.state.invalid ==
       (if reply.Some? && reply.value.Done? then 0
        else (if n > 0 then 0 else s.invalid) + (if reply.Some? then 1 else 0))
    && (t.state.active <==>
          !last.Failed? && !(last.Line? && n == limit) && !(reply == Some(Invalid) && t.state.invalid >= 3))
  }

  /** A published message before the rest. */
  lemma HearsMore(s: State, lines: seq<Read>, m: nat, limit: nat, t: Turn)
    requires lines != [] && lines[0].Line? && Classify(lines[0].bytes).Create? && s.active
    requires Hears(s.(invalid := 0), lines[1..], m, limit, t)
    ensures Hears(s, lines, m + 1, limit + 1, Turn(t.state, [Classify(lines[0].bytes)] + t.replies, 1 + t.taken))
  {
    hide Classify;
    assert ReadAt(lines, m + 1) == ReadAt(lines[1..], m);
    assert forall i :: 1 <= i < m + 1 ==> lines[i] == lines[1..][i - 1];
  }

  lemma HearsNone(s: State, lines: seq<Read>, responses: nat)
    requires s.active && responses <= 8
    requires var r := ReadAt(lines, 0); !(r.Line? && responses < 8 && Classify(r.bytes).Create?)
    ensures Hears(s, lines, 0, 8 - responses, Listen(s, lines, responses))
  {
    hide Classify;
    assert FirstRead(lines) == ReadAt(lines, 0);
  }

  lemma {:induction false} ListenHears(s: State, lines: seq<Read>, responses: nat) returns (n: nat)
    requires s.active && responses <= 8
    ensures Hears(s, lines, n, 8 - responses, Listen(s, lines, responses))
    decreases |lines|
  {
    hide Classify, Hears;
    var r := ReadAt(lines, 0);
    if r.Line? && responses < 8 && Classify(r.bytes).Create? {
      var m := ListenHears(s.(invalid := 0), lines[1..], responses + 1);
      HearsMore(s, lines, m, 7 - responses, Listen(s.(invalid := 0), lines[1..], responses + 1));
      n := m + 1;
    } else {
      HearsNone(s, lines, responses);
      n := 0;
    }
  }

  /** The same of a whole delivery; a module that cannot be written to is closed unheard. */
  lemma DeliveryHears(s: State, e: Event, script: Script) returns (n: nat)
    requires s.active
    ensures var t := Deliver(s, e, script);
      if Prints(e) && script.written then Hears(s, script.lines, n, 8, t)
      else t == Turn(State(false, s.invalid), [], 0)
  {
    hide Classify, Listen, Prints, Hears;
    n := ListenHears(s, script.lines, 0);
  }

  /** Within the limits: the time, "module:" and the name, and the text as it came. */
  lemma ModuleMessageIs(name: seq<byte>, text: seq<byte>, now: int)
    requires |name| <= 56 && |text| <= 1023
    ensures var m := ModuleMessage(name, text, now);
      && m.timestamp == now && m.content == text
      && m.username == [0x6D, 0x6F, 0x64, 0x75, 0x6C, 0x65, 0x3A] + name
  {
  }

  /** The messages that reach the room, in order: those that could be saved. */
  function Posts(name: seq<byte>, texts: seq<seq<byte>>, now: int, saves: nat -> bool, k: nat): (ms: seq<Message>)
    ensures |ms| <= |texts|
  {
    if texts == [] then []
    else (if saves(k) then [ModuleMessage(name, texts[0], now)] else []) + Posts(name, texts[1..], now, saves, k + 1)
  }

  /** The messages of one delivery. */
  ghost function DeliveryPosts(name: seq<byte>, s: State, e: Event, script: Script): seq<Message> {
    Posts(name, Published(Deliver(s, e, script).replies), script.now, script.saves, 0)
  }

  /** What a module puts into the room: its name behind "module:", as far as it fits, and
      a publishable text. */
  ghost predicate ModulePost(name: seq<byte>, m: Message) {
    m.username == [0x6D, 0x6F, 0x64, 0x75, 0x6C, 0x65, 0x3A] + Clip(name, 56) && Publishable(m.content)
  }

  lemma {:induction false} RepliesPublishable(s: State, lines: seq<Read>, responses: nat)
    ensures forall r :: r in Listen(s, lines, responses).replies && r.Create? ==> Publishable(r.text)
    decreases |lines|
  {
    hide CreateText, Publishable;
    var read := FirstRead(lines);
    if read.Line? {
      OnlyPublishable(read.bytes);
    }
    var r := Answered(s, read, responses).1;
    if r.Some? && r.value.Create? {
      RepliesPublishable(Answered(s, read, responses).0, lines[1..], responses + 1);
    }
  }

  lemma {:induction false} PublishedAre(h: seq<Reply>)
    requires forall r :: r in h && r.Create? ==> Publishable(r.text)
    ensures forall t :: t in Published(h) ==> Publishable(t)
  {
    hide Publishable;
    if h != [] {
      PublishedAre(h[1..]);
    }
  }

  lemma PostIs(name: seq<byte>, text: seq<byte>, now: int)
    requires Publishable(text)
    ensures ModulePost(name, ModuleMessage(name, text, now))
  {
    hide Valid;
    assert Clip(text, MAX_MESSAGE_LEN - 1) == text;
    var sender := MODULE_PREFIX + Clip(name, NAME_MAX);
    assert Clip(sender, MAX_USERNAME_LEN - 1) == sender;
  }

  lemma {:induction false} PostsAre(name: seq<byte>, texts: seq<seq<byte>>, now: int, saves: nat -> bool, k: nat)
    requires forall t :: t in texts ==> Publishable(t)
    ensures forall m :: m in Posts(name, texts, now, saves, k) ==> ModulePost(name, m)
    decreases |texts|
  {
    hide Valid;
    if texts != [] {
      PostsAre(name, texts[1..], now, saves, k + 1);
      assert texts[0] in texts;
      PostIs(name, texts[0], now);
    }
  }

  /** Everything a delivery puts into the room is of that kind. */
  lemma DeliveryPostsAre(name: seq<byte>, s: State, e: Event, script: Script)
    ensures forall m :: m in DeliveryPosts(name, s, e, script) ==> ModulePost(name, m)
  {
    hide Listen, Prints, Publishable, Published, Posts;
    var t := Deliver(s, e, script);
    if t.replies != [] {
      RepliesPublishable(s, script.lines, 0);
    }
    PublishedAre(t.replies);
    PostsAre(name, Published(t.replies), script.now, script.saves, 0);
  }

  class ModuleProcess {
    const name: seq<byte>
    var active: bool
    var invalidResponses: nat

    ghost function Value(): State
      reads this
    {
      State(active, invalidResponses)
    }

    constructor (name: seq<byte>)
      ensures Value() == State(true, 0) && this.name == name
    {
      this.name := name;
      active, invalidResponses := true, 0;
    }

    /** `close_module_process` */
    method Close()
      modifies this
      ensures Value() == old(Value()).(active := false)
    {
      active := false;
    }

    /** `publish_module_message`; `saved` is whether `message_save` succeeds. */
    method Publish(room: Room, text: seq<byte>, now: int, saved: bool)
      requires room.Valid()
      modifies room`messageCount, room`updateSeq, room.messages
      ensures room.Valid()
      ensures room.Messages() == History(old(room.Messages()), if saved then [ModuleMessage(name, text, now)] else [])
    {
      var username := Clip(MODULE_PREFIX + Clip(name, NAME_MAX), MAX_USERNAME_LEN - 1);
      var content := Clip(text, MAX_MESSAGE_LEN - 1);
      if !saved {
        return;
      }
      OnePost(room.Messages(), Message(now, username, content));
      room.Broadcast(Message(now, username, content));
    }

    /** Printing the event and writing it. */
    method SendEvent(e: Event, written: bool) returns (ok: bool)
      requires EventOk(e)
      ensures ok == (Prints(e) && written)
    {
      hide Valid, EventLine, Fill;
      var event := new byte[LINE_MAX];
      var rc, end := AppendMessageCreated(event, 0, e.id, e.stamp, e.msg.username, e.msg.content);
      ok := rc >= 0 && written;
    }

    /** `deliver_message_to_module` */
    method DeliverMessage(e: Event, room: Room, script: Script)
      requires EventOk(e) && ScriptOk(script) && room.Valid()
      modifies this, room`messageCount, room`updateSeq, room.messages
      ensures room.Valid() && Value() == Deliver(old(Value()), e, script).state
      ensures room.Messages() == History(old(room.Messages()), DeliveryPosts(name, old(Value()), e, script))
    {
      hide Prints, Listen, Published, Posts;
      NoPosts(room.Messages(), name, script, 0);
      if !active {
        return;
      }
      var sent := SendEvent(e, script.written);
      if !sent {
        Close();
        return;
      }
      ListenLoop(room, script);
    }

    /** The response loop. */
    method ListenLoop(room: Room, script: Script)
      requires ScriptOk(script) && room.Valid() && active
      modifies this, room`messageCount, room`updateSeq, room.messages
      ensures room.Valid() && Value() == Listen(old(Value()), script.lines, 0).state
      ensures room.Messages() == History(old(room.Messages()),
        Posts(name, Published(Listen(old(Value()), script.lines, 0).replies), script.now, script.saves, 0))
    {
      hide Listen, Answered, Published, Posts, History, ReadAt, ScriptOk;
      var responses: nat := 0;
      ghost var prev := Value();
      ghost var goal := Listen(prev, script.lines, 0);
      ghost var goalRoom := History(room.Messages(), Posts(name, Published(goal.replies), script.now, script.saves, 0));
      assert script.lines[0..] == script.lines;
      var reply := TakeReply(script, responses);
      while reply.Some? && reply.value.Create?
        invariant responses <= |script.lines| && room.Valid()
        invariant (Value(), reply) == Answered(prev, ReadAt(script.lines, responses), responses) && prev.active
        invariant var t := Listen(prev, script.lines[responses..], responses);
          t.state == goal.state
          && History(room.Messages(), Posts(name, Published(t.replies), script.now, script.saves, responses))
            == goalRoom
        decreases |script.lines| - responses
      {
        ListenAt(prev, script.lines, responses);
        PostsStep(room.Messages(), name, reply.value,
                  Listen(Value(), script.lines[responses + 1..], responses + 1).replies, script, responses);
        prev := Value();
        Publish(room, reply.value.text, script.now, script.saves(responses));
        responses := responses + 1;
        reply := TakeReply(script, responses);
      }
      ListenAt(prev, script.lines, responses);
      NoPosts(room.Messages(), name, script, responses);
    }

    /** One turn of the loop up to its verdict. */
    method TakeReply(script: Script, responses: nat) returns (reply: Option<Reply>)
      requires ScriptOk(script) && responses <= |script.lines| && active
      modifies this
      ensures (Value(), reply) == Answered(old(Value()), ReadAt(script.lines, responses), responses)
    {
      hide Classify;
      var read := ReadAt(script.lines, responses);
      if read.Quiet? {
        return None;
      }
      if read.Failed? || responses + 1 > MAX_RESPONSES {
        Close();
        return None;
      }
      var r := HandleResponse(read.bytes);
      if r.Invalid? {
        invalidResponses := invalidResponses + 1;
        if invalidResponses >= MAX_INVALID {
          Close();
        }
      } else {
        invalidResponses := 0;
      }
      return Some(r);
    }
  }

  function ReadAt(lines: seq<Read>, i: nat): Read {
    if i < |lines| then lines[i] else Quiet
  }

  /** The loop from its `i`-th read on. */
  lemma ListenAt(s: State, lines: seq<Read>, i: nat)
    requires i <= |lines|
    ensures var (u, r) := Answered(s, ReadAt(lines, i), i);
      var t := Listen(s, lines[i..], i);
      if r.Some? && r.value.Create? then
        && i < |lines| && u.active == s.active
        && t.state == Listen(u, lines[i + 1..], i + 1).state
        && t.replies == [r.value] + Listen(u, lines[i + 1..], i + 1).replies
      else t.state == u && Published(t.replies) == []
  {
    hide Classify;
    assert FirstRead(lines[i..]) == ReadAt(lines, i);
    if i < |lines| {
      DropDrop(lines, i, 1);
    }
    var r := Answered(s, ReadAt(lines, i), i).1;
    if r.Some? && !r.value.Create? {
      assert [r.value][1..] == [];
    }
  }

  lemma PostsStep(b: seq<Message>, name: seq<byte>, r: Reply, more: seq<Reply>, script: Script, k: nat)
    requires r.Create?
    ensures var first := if script.saves(k) then [ModuleMessage(name, r.text, script.now)] else [];
      History(b, Posts(name, Published([r] + more), script.now, script.saves, k))
      == History(History(b, first), Posts(name, Published(more), script.now, script.saves, k + 1))
  {
    hide History, ModuleMessage;
    assert ([r] + more)[1..] == more;
    var texts := Published([r] + more);
    assert texts == [r.text] + Published(more);
    assert texts[1..] == Published(more);
    HistoryConcat(b, if script.saves(k) then [ModuleMessage(name, r.text, script.now)] else [],
                  Posts(name, Published(more), script.now, script.saves, k + 1));
  }

  lemma NoPosts(b: seq<Message>, name: seq<byte>, script: Script, k: nat)
    ensures History(b, Posts(name, [], script.now, script.saves, k)) == b && Published([]) == []
  {
  }

  lemma OnePost(b: seq<Message>, m: Message)
    ensures History(b, [m]) == MessageFile.LastN(b + [m], MAX_MESSAGES) && History(b, []) == b
  {
    hide MessageFile.LastN;
    assert [m][1..] == [];
  }

  ghost predicate ScriptsOk(scripts: seq<Script>) {
    forall i :: 0 <= i < |scripts| ==> ScriptOk(scripts[i])
  }

  function ScriptFor(scripts: seq<Script>, i: nat): Script {
    if i < |scripts| then scripts[i] else Script(true, [], 0, _ => true)
  }

  /** The messages of one event's deliveries to the first `n` modules. */
  ghost function TurnPosts(
    names: seq<seq<byte>>, states: seq<State>, e: Event, scripts: seq<Script>, n: nat): seq<Message>
    requires n <= |names| == |states|
  {
    if n == 0 then []
    else
      TurnPosts(names, states, e, scripts, n - 1)
      + DeliveryPosts(names[n - 1], states[n - 1], e, ScriptFor(scripts, n - 1))
  }

  ghost function Names(modules: seq<ModuleProcess>): seq<seq<byte>> {
    seq(|modules|, i requires 0 <= i < |modules| => modules[i].name)
  }

  ghost function States(modules: seq<ModuleProcess>): seq<State>
    reads modules
  {
    seq(|modules|, i requires 0 <= i < |modules| reads modules => modules[i].Value())
  }

  /** One turn of `module_worker_main`: the oldest event goes to every module once, in turn. */
  method WorkerTurn(queue: EventQueue, modules: seq<ModuleProcess>, room: Room, id: seq<byte>, stamp: seq<byte>,
                    scripts: seq<Script>)
    requires queue.Valid() && ScriptsOk(scripts) && room.Valid()
    requires forall i :: 0 <= i < |queue.Contents()| ==> EventOk(Event(id, stamp, queue.Contents()[i]))
    requires forall i, j :: 0 <= i < j < |modules| ==> modules[i] != modules[j]
    modifies queue, modules, room`messageCount, room`updateSeq, room.messages
    ensures queue.Valid() && room.Valid()
    ensures old(queue.Contents()) == [] ==>
      queue.Contents() == [] && States(modules) == old(States(modules)) && room.Messages() == old(room.Messages())
    ensures old(queue.Contents()) != [] ==>
      (var e := Event(id, stamp, old(queue.Contents())[0]);
       && queue.Contents() == old(queue.Contents())[1..]
       && (forall i :: 0 <= i < |modules| ==>
             modules[i].Value() == Deliver(old(modules[i].Value()), e, ScriptFor(scripts, i)).state)
       && room.Messages()
          == History(old(room.Messages()), TurnPosts(Names(modules), old(States(modules)), e, scripts, |modules|)))
  {
    hide Deliver, DeliveryPosts, History, TurnPosts;
    var node := queue.Dequeue();
    if node.Some? {
      DeliverToAll(modules, Event(id, stamp, node.value), room, scripts);
    }
  }

  /** The loop over the modules. */
  method DeliverToAll(modules: seq<ModuleProcess>, e: Event, room: Room, scripts: seq<Script>)
    requires ScriptsOk(scripts) && EventOk(e) && room.Valid()
    requires forall i, j :: 0 <= i < j < |modules| ==> modules[i] != modules[j]
    modifies modules, room`messageCount, room`updateSeq, room.messages
    ensures room.Valid()
    ensures forall i :: 0 <= i < |modules| ==>
      modules[i].Value() == Deliver(old(modules[i].Value()), e, ScriptFor(scripts, i)).state
    ensures room.Messages()
      == History(old(room.Messages()), TurnPosts(Names(modules), old(States(modules)), e, scripts, |modules|))
  {
    hide Deliver, DeliveryPosts, History, TurnPosts;
    ghost var names, states := Names(modules), States(modules);
    var i := 0;
    OnePost(room.Messages(), e.msg);
    TurnPostsStep(names, states, e, scripts, 0);
    while i < |modules|
      invariant 0 <= i <= |modules| && room.Valid()
      invariant forall k :: i <= k < |modules| ==> modules[k].Value() == states[k]
      invariant forall k :: 0 <= k < i ==> modules[k].Value() == Deliver(states[k], e, ScriptFor(scripts, k)).state
      invariant room.Messages() == History(old(room.Messages()), TurnPosts(names, states, e, scripts, i))
    {
      ghost var posts := DeliveryPosts(names[i], states[i], e, ScriptFor(scripts, i));
      HistoryConcat(old(room.Messages()), TurnPosts(names, states, e, scripts, i), posts);
      TurnPostsStep(names, states, e, scripts, i);
      modules[i].DeliverMessage(e, room, ScriptFor(scripts, i));
      i := i + 1;
    }
  }

  lemma TurnPostsStep(names: seq<seq<byte>>, states: seq<State>, e: Event, scripts: seq<Script>, n: nat)
    requires n <= |names| == |states|
    ensures TurnPosts(names, states, e, scripts, 0) == []
    ensures n < |names| ==>
      TurnPosts(names, states, e, scripts, n + 1)
      == TurnPosts(names, states, e, scripts, n) + DeliveryPosts(names[n], states[n], e, ScriptFor(scripts, n))
  {
    hide DeliveryPosts;
  }

  /** `tnt_module_runtime_shutdown`: the queue is emptied and every module closed. */
  method ShutdownRuntime(queue: EventQueue, modules: seq<ModuleProcess>)
    requires queue.Valid()
    modifies queue, modules
    ensures queue.Valid() && queue.Contents() == [] && !queue.running
    ensures forall i :: 0 <= i < |modules| ==> !modules[i].active
  {
    queue.Shutdown();
    for k := 0 to |modules|
      invariant queue.Valid() && queue.Contents() == [] && !queue.running
      invariant forall i :: 0 <= i < k ==> !modules[i].active
    {
      modules[k].Close();
    }
  }
}
