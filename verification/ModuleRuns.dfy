/**
  Whole runs of the server with its modules: session threads that post, the
  worker thread that delivers their messages to the modules, and the room that
  everything is broadcast to.  Posting is two steps, the broadcast and then the
  attempt to queue an event (src/input.c, src/exec.c), and a delivery is many
  (src/module_runtime.c); the steps of different threads interleave freely.
 */
module ModuleRuns {
  import opened Bytes
  import opened Common
  import opened ModuleRuntime

  type Thread = nat

  datatype Poster = Session(t: Thread) | Module(i: nat) | Server

  datatype Post = Post(poster: Poster, msg: Message)

  /** A module with everything it ever replied and every read and write made on it. */
  datatype Slot = Slot(name: seq<byte>, state: State, history: seq<Reply>, writes: nat, readCount: nat)

  /** The worker: between events, or with an event, the next module to serve, and
      the messages of the one before that it has yet to broadcast. */
  datatype Worker = Idle | Serving(post: Post, next: nat, outgoing: seq<Message>)

  /** A message that is broadcast, at its place in the room, but not yet queued. */
  datatype Waiting = Waiting(msg: Message, at: nat)

  /** `room` is everything ever broadcast; `places` are where the accepted events stand in it. */
  datatype World = World(
    running: bool, drained: bool, room: seq<Post>, pending: map<Thread, Waiting>,
    queue: seq<Post>, accepted: seq<Post>, places: seq<nat>, delivered: seq<Post>, worker: Worker, slots: seq<Slot>)

  datatype Step =
    | Say(t: Thread, msg: Message)      // a session broadcasts its saved message
    | Hand(t: Thread, hasNode: bool)    // and then tries to queue it for the modules
    | Announce(msg: Message)            // the server broadcasts a join, a leave or a new name
    | Take                              // the worker takes the oldest event
    | Converse(id: seq<byte>, stamp: seq<byte>, script: Script)   // and talks to the next module
    | Emit                              // and broadcasts a message of it
    | Rest                              // until all are served
    | Stop
    | Drain

  ghost function Serve(slot: Slot, e: Event, script: Script): Slot {
    var t := Deliver(slot.state, e, script);
    Slot(slot.name, t.state, slot.history + t.replies, slot.writes + (if slot.state.active then 1 else 0),
         slot.readCount + t.taken)
  }

  function Closed(slot: Slot): Slot {
    slot.(state := slot.state.(active := false))
  }

  /** The broadcast half of a post. */
  function Said(w: World, t: Thread, msg: Message): World {
    w.(room := w.room + [Post(Session(t), msg)], pending := w.pending[t := Waiting(msg, |w.room|)])
  }

  predicate Queues(w: World, hasNode: bool) {
    w.slots != [] && w.running && |w.queue| < QUEUE_LIMIT && hasNode
  }

  /** The queueing half of a post: `tnt_module_runtime_publish_message_created`. */
  function Handed(w: World, t: Thread, hasNode: bool): World
    requires t in w.pending
  {
    var post, v := Post(Session(t), w.pending[t].msg), w.(pending := w.pending - {t});
    if !Queues(w, hasNode) then v
    else v.(queue := w.queue + [post], accepted := w.accepted + [post], places := w.places + [w.pending[t].at])
  }

  function Taken(w: World): World
    requires w.queue != []
  {
    w.(queue := w.queue[1..], delivered := w.delivered + [w.queue[0]], worker := Serving(w.queue[0], 0, []))
  }

  ghost function Conversed(w: World, e: Event, script: Script): World
    requires w.worker.Serving? && w.worker.next < |w.slots|
  {
    var i := w.worker.next;
    var slot := w.slots[i];
    w.(slots := w.slots[i := Serve(slot, e, script)],
       worker := Serving(w.worker.post, i + 1, DeliveryPosts(slot.name, slot.state, e, script)))
  }

  function Emitted(w: World): World
    requires w.worker.Serving? && w.worker.outgoing != [] && w.worker.next > 0
  {
    w.(room := w.room + [Post(Module(w.worker.next - 1), w.worker.outgoing[0])],
       worker := w.worker.(outgoing := w.worker.outgoing[1..]))
  }

  function Drained(w: World): World {
    w.(running := false, drained := true, queue := [],
       slots := seq(|w.slots|, i requires 0 <= i < |w.slots| => Closed(w.slots[i])))
  }

  /** What a step does; one that cannot be taken does nothing. */
  ghost function Next(w: World, step: Step): World {
    match step
    case Say(t, msg) =>
      if t in w.pending then w else Said(w, t, msg)
    case Hand(t, hasNode) => if t in w.pending then Handed(w, t, hasNode) else w
    case Announce(msg) => w.(room := w.room + [Post(Server, msg)])
    case Take => if w.worker.Idle? && w.queue != [] && !w.drained then Taken(w) else w
    case Converse(id, stamp, script) =>
      if w.worker.Serving? && w.worker.outgoing == [] && w.worker.next < |w.slots|
      then Conversed(w, Event(id, stamp, w.worker.post.msg), script) else w
    case Emit => if w.worker.Serving? && w.worker.outgoing != [] && w.worker.next > 0 then Emitted(w) else w
    case Rest =>
      if w.worker.Serving? && w.worker.outgoing == [] && w.worker.next >= |w.slots| then w.(worker := Idle) else w
    case Stop => w.(running := false)
    case Drain => if w.worker.Idle? then Drained(w) else w
  }

  ghost function Run(w: World, steps: seq<Step>): World
    decreases |steps|
  {
    if steps == [] then w else Run(Next(w, steps[0]), steps[1..])
  }

  ghost predicate Fresh(w: World) {
    && w.running && !w.drained && w.pending == map[] && w.worker == Idle
    && w.room == w.queue == w.accepted == w.delivered == [] && w.places == []
    && forall i :: 0 <= i < |w.slots| ==> w.slots[i] == Slot(w.slots[i].name, State(true, 0), [], 0, 0)
  }

  // ----- What every step keeps

  ghost predicate SlotOk(s: Slot) {
    && s.state.invalid == TrailingInvalid(s.history) <= MAX_INVALID
    && (s.state.active ==> s.state.invalid < MAX_INVALID)
  }

  /** The messages of one session thread, in order. */
  ghost function By(posts: seq<Post>, t: Thread): seq<Message> {
    if posts == [] then []
    else
      var last := posts[|posts| - 1];
      By(posts[..|posts| - 1], t) + (if last.poster == Session(t) then [last.msg] else [])
  }

  /** The message a thread has broadcast but not yet tried to queue. */
  ghost function PendingOf(w: World, t: Thread): seq<Message> {
    if t in w.pending then [w.pending[t].msg] else []
  }

  ghost function SessionPosts(posts: seq<Post>): nat {
    if posts == [] then 0
    else SessionPosts(posts[..|posts| - 1]) + (if posts[|posts| - 1].poster.Session? then 1 else 0)
  }

  ghost function ModulePosts(posts: seq<Post>): nat {
    if posts == [] then 0 else ModulePosts(posts[..|posts| - 1]) + (if posts[|posts| - 1].poster.Module? then 1 else 0)
  }

  /** Events leave the queue in the order they were accepted, and no more than 128 wait. */
  ghost predicate QueueOk(w: World) {
    && |w.queue| <= QUEUE_LIMIT
    && w.delivered + w.queue <= w.accepted
    && (!w.drained ==> w.delivered + w.queue == w.accepted)
    && (w.drained ==> !w.running && w.worker.Idle?)
  }

  /** Accepted events are messages of sessions, each thread's in the order it posted them. */
  ghost predicate EventsOk(w: World) {
    && (forall k :: 0 <= k < |w.accepted| ==> w.accepted[k].poster.Session?)
    && (forall t :: IsSubsequence(By(w.accepted, t) + PendingOf(w, t), By(w.room, t)))
    && |w.accepted| + |w.pending| <= SessionPosts(w.room)
  }

  /** Each accepted event stands in the room, where its session put it. */
  ghost predicate PlacesOk(w: World) {
    && |w.places| == |w.accepted|
    && (forall k :: 0 <= k < |w.places| ==> w.places[k] < |w.room| && w.room[w.places[k]] == w.accepted[k])
    && (forall t :: t in w.pending ==>
          (w.pending[t].at < |w.room| && w.room[w.pending[t].at] == Post(Session(t), w.pending[t].msg)))
  }

  /** How many deliveries to a module have begun. */
  ghost function Deliveries(w: World): int {
    if w.worker.Idle? then |w.delivered| * |w.slots| else (|w.delivered| - 1) * |w.slots| + w.worker.next
  }

  /** Modules put no more into the room than their deliveries allow. */
  ghost predicate RoomOk(w: World) {
    && (w.worker.Serving? ==> |w.delivered| > 0 && w.worker.next <= |w.slots|)
    && (w.worker.Serving? && w.worker.next == 0 ==> w.worker.outgoing == [])
    && ModulePosts(w.room) + (if w.worker.Serving? then |w.worker.outgoing| else 0) <= MAX_RESPONSES * Deliveries(w)
  }

  ghost predicate SlotsOk(w: World) {
    forall i :: 0 <= i < |w.slots| ==> SlotOk(w.slots[i])
  }

  ghost predicate WorldOk(w: World) {
    QueueOk(w) && EventsOk(w) && PlacesOk(w) && RoomOk(w) && SlotsOk(w)
  }

  lemma ServeKeeps(s: Slot, e: Event, script: Script)
    requires SlotOk(s)
    ensures SlotOk(Serve(s, e, script))
    ensures !s.state.active ==> Serve(s, e, script) == s
    ensures |DeliveryPosts(s.name, s.state, e, script)| <= MAX_RESPONSES
  {
    hide Listen, Prints, Posts;
    var t := Deliver(s.state, e, script);
    if s.state.active && Prints(e) && script.written {
      ListenBound(s.state, script.lines, 0);
      ListenCounts(s.state, script.lines, 0, s.history);
    }
    assert s.history + [] == s.history;
    PublishedBound(t.replies);
    PostsBound(s.name, Published(t.replies), script);
  }

  lemma PostsBound(name: seq<byte>, texts: seq<seq<byte>>, script: Script)
    ensures |Posts(name, texts, script.now, script.saves, 0)| <= |texts|
  {
  }

  lemma QueueKeeps(w: World, step: Step)
    requires QueueOk(w)
    ensures QueueOk(Next(w, step))
  {
    hide Serve, DeliveryPosts, Closed;
    match step
    case Hand(t, hasNode) =>
      if t in w.pending {
        var post := Post(Session(t), w.pending[t].msg);
        Assoc(w.delivered, w.queue, [post]);
      }
    case Take =>
      if w.queue != [] {
        Assoc(w.delivered, [w.queue[0]], w.queue[1..]);
        assert [w.queue[0]] + w.queue[1..] == w.queue;
      }
    case Drain => assert w.delivered + [] <= w.delivered + w.queue;
    case _ =>
  }

  lemma SlotsKeep(w: World, step: Step)
    requires SlotsOk(w)
    ensures SlotsOk(Next(w, step)) && |Next(w, step).slots| == |w.slots|
    ensures forall i :: 0 <= i < |w.slots| && !w.slots[i].state.active ==> Next(w, step).slots[i] == w.slots[i]
  {
    hide Serve, DeliveryPosts, TrailingInvalid;
    match step
    case Converse(id, stamp, script) =>
      if w.worker.Serving? && w.worker.next < |w.slots| {
        ServeKeeps(w.slots[w.worker.next], Event(id, stamp, w.worker.post.msg), script);
      }
    case _ =>
  }

  lemma Snoc(posts: seq<Post>, p: Post)
    ensures (posts + [p])[..|posts|] == posts && (posts + [p])[|posts|] == p
  {
  }

  lemma ByNext(posts: seq<Post>, p: Post, t: Thread)
    ensures By(posts + [p], t) == By(posts, t) + (if p.poster == Session(t) then [p.msg] else [])
    ensures SessionPosts(posts + [p]) == SessionPosts(posts) + (if p.poster.Session? then 1 else 0)
    ensures ModulePosts(posts + [p]) == ModulePosts(posts) + (if p.poster.Module? then 1 else 0)
  {
    Snoc(posts, p);
  }

  lemma RoomKeeps(w: World, step: Step)
    requires RoomOk(w) && SlotsOk(w)
    ensures RoomOk(Next(w, step))
  {
    hide Serve, DeliveryPosts, SlotOk, ModulePosts;
    match step
    case Say(t, msg) => ByNext(w.room, Post(Session(t), msg), 0);
    case Announce(msg) => ByNext(w.room, Post(Server, msg), 0);
    case Converse(id, stamp, script) =>
      if w.worker.Serving? && w.worker.next < |w.slots| {
        ServeKeeps(w.slots[w.worker.next], Event(id, stamp, w.worker.post.msg), script);
      }
    case Emit =>
      if w.worker.Serving? && w.worker.outgoing != [] && w.worker.next > 0 {
        EmitKeeps(w);
      }
    case Rest => Products(|w.delivered|, |w.slots|);
    case _ =>
  }

  lemma Products(d: int, n: int)
    ensures (d - 1) * n + n == d * n
  {
  }

  lemma EmitKeeps(w: World)
    requires RoomOk(w) && w.worker.Serving? && w.worker.outgoing != [] && w.worker.next > 0
    ensures RoomOk(Emitted(w))
  {
    hide ModulePosts, Deliveries;
    ByNext(w.room, Post(Module(w.worker.next - 1), w.worker.outgoing[0]), 0);
    assert Deliveries(Emitted(w)) == Deliveries(w) by { SameDeliveries(w); }
  }

  lemma SameDeliveries(w: World)
    requires w.worker.Serving? && w.worker.outgoing != [] && w.worker.next > 0
    ensures Deliveries(Emitted(w)) == Deliveries(w)
  {
  }

  /** The broadcast half of a post. */
  lemma SayKeeps(w: World, t: Thread, msg: Message)
    requires EventsOk(w) && t !in w.pending
    ensures EventsOk(Said(w, t, msg))
  {
    hide By, SessionPosts, IsSubsequence;
    var v := Said(w, t, msg);
    forall u
      ensures IsSubsequence(By(v.accepted, u) + PendingOf(v, u), By(v.room, u))
    {
      assert IsSubsequence(By(w.accepted, u) + PendingOf(w, u), By(w.room, u));
      SayThread(w, t, msg, u);
    }
    ByNext(w.room, Post(Session(t), msg), t);
    PendingSize(w.pending, t, Waiting(msg, |w.room|));
  }

  lemma SayThread(w: World, t: Thread, msg: Message, u: Thread)
    requires t !in w.pending && IsSubsequence(By(w.accepted, u) + PendingOf(w, u), By(w.room, u))
    ensures var pending := if u == t then [msg] else PendingOf(w, u);
      IsSubsequence(By(w.accepted, u) + pending, By(w.room + [Post(Session(t), msg)], u))
  {
    hide By, IsSubsequence;
    ByNext(w.room, Post(Session(t), msg), u);
    if u == t {
      assert By(w.accepted, t) + [] == By(w.accepted, t);
      SubsequenceBefore(By(w.accepted, t), By(w.room, t), msg);
    } else {
      assert By(w.room, u) + [] == By(w.room, u);
    }
  }

  lemma PendingSize(m: map<Thread, Waiting>, t: Thread, msg: Waiting)
    ensures t !in m ==> |m[t := msg]| == |m| + 1
    ensures t in m ==> |m - {t}| == |m| - 1
  {
    if t !in m {
      var after := m[t := msg];
      assert after.Keys == m.Keys + {t};
      assert |after| == |after.Keys| && |m| == |m.Keys|;
    } else {
      var after := m - {t};
      assert after.Keys == m.Keys - {t};
      assert |after| == |after.Keys| && |m| == |m.Keys|;
    }
  }

  /** The queueing half of a post. */
  lemma HandKeeps(w: World, t: Thread, hasNode: bool)
    requires EventsOk(w) && t in w.pending
    ensures EventsOk(Handed(w, t, hasNode))
  {
    hide By, SessionPosts, IsSubsequence;
    var v, post := Handed(w, t, hasNode), Post(Session(t), w.pending[t].msg);
    PendingSize(w.pending, t, w.pending[t]);
    forall u
      ensures IsSubsequence(By(v.accepted, u) + PendingOf(v, u), By(v.room, u))
    {
      ByNext(w.accepted, post, u);
      assert By(w.accepted, u) + [] == By(w.accepted, u);
      assert By(v.accepted, u) + [] == By(v.accepted, u);
      if u == t && v.accepted == w.accepted {
        SubsequenceShorter(By(w.accepted, t), w.pending[t].msg, By(w.room, t));
      }
    }
  }

  /** Any other broadcast. */
  lemma OtherKeeps(w: World, v: World, p: Post)
    requires EventsOk(w) && !p.poster.Session? && v.accepted == w.accepted && v.pending == w.pending
      && v.room == w.room + [p]
    ensures EventsOk(v)
  {
    hide By, SessionPosts, IsSubsequence;
    forall u
      ensures IsSubsequence(By(v.accepted, u) + PendingOf(v, u), By(v.room, u))
    {
      ByNext(w.room, p, u);
      assert By(w.room, u) + [] == By(w.room, u);
      assert IsSubsequence(By(w.accepted, u) + PendingOf(w, u), By(w.room, u));
    }
    ByNext(w.room, p, 0);
  }

  lemma EventsKeep(w: World, step: Step)
    requires EventsOk(w)
    ensures EventsOk(Next(w, step))
  {
    hide EventsOk, Serve, DeliveryPosts;
    var v := Next(w, step);
    match step
    case Say(t, msg) =>
      if t !in w.pending {
        SayKeeps(w, t, msg);
      }
    case Hand(t, hasNode) =>
      if t in w.pending {
        HandKeeps(w, t, hasNode);
      }
    case Announce(msg) => OtherKeeps(w, v, Post(Server, msg));
    case Emit =>
      if v != w {
        OtherKeeps(w, v, Post(Module(w.worker.next - 1), w.worker.outgoing[0]));
      }
    case _ => SameEvents(w, v);
  }

  lemma SameEvents(w: World, v: World)
    requires EventsOk(w) && v.accepted == w.accepted && v.pending == w.pending && v.room == w.room
    ensures EventsOk(v)
  {
    hide By, SessionPosts, IsSubsequence;
    forall u
      ensures IsSubsequence(By(v.accepted, u) + PendingOf(v, u), By(v.room, u))
    {
      assert IsSubsequence(By(w.accepted, u) + PendingOf(w, u), By(w.room, u));
    }
  }

  lemma PlacesKeep(w: World, step: Step)
    requires PlacesOk(w)
    ensures PlacesOk(Next(w, step))
  {
    hide Serve, DeliveryPosts, Closed;
  }

  lemma StepKeeps(w: World, step: Step)
    requires WorldOk(w)
    ensures WorldOk(Next(w, step)) && |Next(w, step).slots| == |w.slots|
    ensures forall i :: 0 <= i < |w.slots| && !w.slots[i].state.active ==> Next(w, step).slots[i] == w.slots[i]
  {
    hide Next, QueueOk, EventsOk, PlacesOk, RoomOk, SlotsOk;
    QueueKeeps(w, step);
    PlacesKeep(w, step);
    EventsKeep(w, step);
    RoomKeeps(w, step);
    SlotsKeep(w, step);
  }

  /** Over every run: events leave the queue in the order they were accepted,
      never more than 128 wait, each module's counter is exact, and a closed module
      stays as it is. */
  lemma {:induction false} RunKeeps(w: World, steps: seq<Step>)
    requires WorldOk(w)
    ensures WorldOk(Run(w, steps)) && |Run(w, steps).slots| == |w.slots|
    ensures forall i :: 0 <= i < |w.slots| && !w.slots[i].state.active ==> Run(w, steps).slots[i] == w.slots[i]
    decreases |steps|
  {
    hide Next, WorldOk;
    if steps != [] {
      StepKeeps(w, steps[0]);
      RunKeeps(Next(w, steps[0]), steps[1..]);
    }
  }

  lemma FreshIsOk(w: World)
    requires Fresh(w)
    ensures WorldOk(w)
  {
    forall k | 0 <= k < |w.slots|
      ensures SlotOk(w.slots[k])
    {
      assert w.slots[k] == Slot(w.slots[k].name, State(true, 0), [], 0, 0);
    }
    forall t
      ensures IsSubsequence(By(w.accepted, t) + PendingOf(w, t), By(w.room, t))
    {
      assert By(w.accepted, t) + PendingOf(w, t) == [];
    }
  }

  // ----- What modules cannot do

  /** What modules publish never becomes an event: after any run every event is a
      message that some session put into the room, each session's in its order. */
  lemma OnlySessionsMakeEvents(w: World, steps: seq<Step>, t: Thread, k: nat)
    requires Fresh(w) && k < |Run(w, steps).accepted|
    ensures var v := Run(w, steps);
      && v.accepted[k].poster.Session? && k < |v.places|
      && v.places[k] < |v.room| && v.room[v.places[k]] == v.accepted[k]
      && IsSubsequence(By(v.accepted, t), By(v.room, t))
  {
    FreshIsOk(w);
    hide Fresh, Run, By, SlotsOk, RoomOk, QueueOk, SessionPosts;
    RunKeeps(w, steps);
    ThreadOrder(Run(w, steps), t);
  }

  lemma ThreadOrder(w: World, t: Thread)
    requires EventsOk(w)
    ensures IsSubsequence(By(w.accepted, t), By(w.room, t))
  {
    hide By, SessionPosts, IsSubsequence;
    assert IsSubsequence(By(w.accepted, t) + PendingOf(w, t), By(w.room, t));
    if t in w.pending {
      SubsequenceShorter(By(w.accepted, t), w.pending[t].msg, By(w.room, t));
    } else {
      assert By(w.accepted, t) + [] == By(w.accepted, t);
    }
  }

  /** Modules cannot amplify: after any run they put at most eight messages into
      the room for each module and each event, and there are no more events than
      messages posted by sessions. */
  lemma NoAmplification(w: World, steps: seq<Step>)
    requires Fresh(w)
    ensures var v := Run(w, steps);
      && ModulePosts(v.room) <= MAX_RESPONSES * |w.slots| * |v.delivered|
      && |v.delivered| <= |v.accepted| <= SessionPosts(v.room)
  {
    FreshIsOk(w);
    hide Fresh, Run, By, SlotsOk, SessionPosts, ModulePosts;
    RunKeeps(w, steps);
    var v := Run(w, steps);
    DeliveriesBound(v);
    hide Deliveries;
  }

  lemma DeliveriesBound(w: World)
    requires RoomOk(w)
    ensures MAX_RESPONSES * Deliveries(w) <= MAX_RESPONSES * |w.slots| * |w.delivered|
  {
    hide ModulePosts;
    var d, n := |w.delivered|, |w.slots|;
    assert (d - 1) * n + n == d * n;
    assert Deliveries(w) <= d * n;
    assert MAX_RESPONSES * n * d == MAX_RESPONSES * (d * n);
  }

  /** After any run a module whose last three replies are invalid is closed, and
      what is closed is neither read nor written again whatever happens next. */
  lemma ClosedForGood(w: World, before: seq<Step>, after: seq<Step>, i: nat)
    requires Fresh(w) && i < |w.slots|
    ensures var mid := Run(w, before);
      && i < |mid.slots|
      && (TrailingInvalid(mid.slots[i].history) >= MAX_INVALID ==> !mid.slots[i].state.active)
      && (!mid.slots[i].state.active ==> i < |Run(mid, after).slots| && Run(mid, after).slots[i] == mid.slots[i])
      && mid.delivered <= mid.accepted
  {
    FreshIsOk(w);
    hide Fresh, Run, Next, TrailingInvalid, EventsOk, PlacesOk, RoomOk, QueueOk;
    RunKeeps(w, before);
    var mid := Run(w, before);
    assert SlotOk(mid.slots[i]);
    DeliveredFirst(mid);
    RunKeeps(mid, after);
  }

  lemma DeliveredFirst(w: World)
    requires QueueOk(w)
    ensures w.delivered <= w.accepted
  {
    assert w.delivered <= w.delivered + w.queue;
  }

  // ----- The worker's steps are the worker's turn

  function MessagesOf(posts: seq<Post>): seq<Message> {
    seq(|posts|, i requires 0 <= i < |posts| => posts[i].msg)
  }

  lemma {:induction false} RunConcat(w: World, a: seq<Step>, b: seq<Step>)
    ensures Run(w, a + b) == Run(Run(w, a), b)
    decreases |a|
  {
    hide Next;
    if a == [] {
      assert a + b == b;
    } else {
      assert (a + b)[0] == a[0] && (a + b)[1..] == a[1..] + b;
      RunConcat(Next(w, a[0]), a[1..], b);
    }
  }

  lemma RunOne(w: World, step: Step)
    ensures Run(w, [step]) == Next(w, step)
  {
    hide Next;
    assert [step][1..] == [];
    assert Run(Next(w, step), []) == Next(w, step);
  }

  /** What the sessions do is left as it is. */
  ghost predicate SameSessions(w: World, v: World) {
    && v.running == w.running && v.drained == w.drained && v.pending == w.pending
    && v.accepted == w.accepted && v.places == w.places && |v.slots| == |w.slots|
  }

  /** One of the outgoing messages is broadcast. */
  lemma EmitOne(w: World)
    requires w.worker.Serving? && w.worker.next > 0 && w.worker.outgoing != []
    ensures var v, out := Next(w, Emit), w.worker.outgoing;
      && v == w.(room := v.room, worker := w.worker.(outgoing := out[1..]))
      && MessagesOf(v.room) == MessagesOf(w.room) + [out[0]]
  {
    hide Serve, DeliveryPosts, Closed;
    assert Next(w, Emit) == Emitted(w);
  }

  /** The outgoing messages of a module are broadcast one by one, in order. */
  lemma {:induction false} EmitAll(w: World) returns (steps: seq<Step>)
    requires w.worker.Serving? && w.worker.next > 0
    ensures var v := Run(w, steps);
      && v == w.(room := v.room, worker := w.worker.(outgoing := []))
      && MessagesOf(v.room) == MessagesOf(w.room) + w.worker.outgoing
    decreases |w.worker.outgoing|
  {
    hide Next, MessagesOf;
    var out := w.worker.outgoing;
    if out == [] {
      steps := [];
      assert MessagesOf(w.room) + [] == MessagesOf(w.room);
    } else {
      EmitOne(w);
      hide Run;
      var v := Next(w, Emit);
      var more := EmitAll(v);
      RunOne(w, Emit);
      RunConcat(w, [Emit], more);
      steps := [Emit] + more;
      assert out == [out[0]] + out[1..];
      Assoc(MessagesOf(w.room), [out[0]], out[1..]);
    }
  }

  ghost function SlotNames(slots: seq<Slot>): seq<seq<byte>> {
    seq(|slots|, i requires 0 <= i < |slots| => slots[i].name)
  }

  ghost function SlotStates(slots: seq<Slot>): seq<State> {
    seq(|slots|, i requires 0 <= i < |slots| => slots[i].state)
  }

  /** The event of `post` has been served to the first `k` modules of `w`. */
  ghost predicate ServedTo(w: World, v: World, post: Post, e: Event, scripts: seq<Script>, k: nat)
    requires k <= |w.slots|
  {
    && SameSessions(w, v) && v.queue == w.queue && v.delivered == w.delivered && v.worker == Serving(post, k, [])
    && (forall i :: 0 <= i < k ==> v.slots[i] == Serve(w.slots[i], e, ScriptFor(scripts, i)))
    && (forall i :: k <= i < |w.slots| ==> v.slots[i] == w.slots[i])
    && MessagesOf(v.room)
       == MessagesOf(w.room) + TurnPosts(SlotNames(w.slots), SlotStates(w.slots), e, scripts, k)
  }

  lemma ServeNext(w: World, v: World, post: Post, id: seq<byte>, stamp: seq<byte>, scripts: seq<Script>, k: nat)
    returns (steps: seq<Step>)
    requires k < |w.slots| && ServedTo(w, v, post, Event(id, stamp, post.msg), scripts, k)
    ensures ServedTo(w, Run(v, steps), post, Event(id, stamp, post.msg), scripts, k + 1)
  {
    hide Serve, DeliveryPosts, TurnPosts, MessagesOf;
    var e := Event(id, stamp, post.msg);
    var names, states := SlotNames(w.slots), SlotStates(w.slots);
    TurnPostsStep(names, states, e, scripts, k);
    var talk := Converse(id, stamp, ScriptFor(scripts, k));
    var u := Conversed(v, e, ScriptFor(scripts, k));
    RunOne(v, talk);
    assert Next(v, talk) == u;
    var more := EmitAll(u);
    RunConcat(v, [talk], more);
    hide Run;
    steps := [talk] + more;
    Assoc(MessagesOf(w.room), TurnPosts(names, states, e, scripts, k),
          DeliveryPosts(names[k], states[k], e, ScriptFor(scripts, k)));
  }

  lemma {:induction false} ServeFirst(w: World, post: Post, id: seq<byte>, stamp: seq<byte>, scripts: seq<Script>,
                                      k: nat)
    returns (steps: seq<Step>)
    requires k <= |w.slots| && w.worker == Serving(post, 0, [])
    ensures ServedTo(w, Run(w, steps), post, Event(id, stamp, post.msg), scripts, k)
    decreases k
  {
    if k == 0 {
      steps := [];
      hide ServedTo, Next;
      NoneServed(w, post, Event(id, stamp, post.msg), scripts);
    } else {
      hide *;
      var first := ServeFirst(w, post, id, stamp, scripts, k - 1);
      var more := ServeNext(w, Run(w, first), post, id, stamp, scripts, k - 1);
      RunConcat(w, first, more);
      steps := first + more;
    }
  }

  lemma NoneServed(w: World, post: Post, e: Event, scripts: seq<Script>)
    requires w.worker == Serving(post, 0, [])
    ensures ServedTo(w, w, post, e, scripts, 0)
  {
    hide MessagesOf;
    assert MessagesOf(w.room) + [] == MessagesOf(w.room);
  }

  /** An idle worker can take the oldest event and, step by step, do what a turn of its
      loop does: every module gets it once, in turn, and their messages are broadcast in
      that order; the queue loses that event, and the sessions are not concerned. */
  lemma TurnCanBeTaken(w: World, id: seq<byte>, stamp: seq<byte>, scripts: seq<Script>) returns (steps: seq<Step>)
    requires w.worker.Idle? && w.queue != [] && !w.drained
    ensures var v, e := Run(w, steps), Event(id, stamp, w.queue[0].msg);
      && SameSessions(w, v) && v.worker == Idle
      && v.queue == w.queue[1..] && v.delivered == w.delivered + [w.queue[0]]
      && (forall i :: 0 <= i < |w.slots| ==> v.slots[i] == Serve(w.slots[i], e, ScriptFor(scripts, i)))
      && MessagesOf(v.room)
         == MessagesOf(w.room) + TurnPosts(SlotNames(w.slots), SlotStates(w.slots), e, scripts, |w.slots|)
  {
    hide Serve, DeliveryPosts, TurnPosts, MessagesOf;
    var post, u := w.queue[0], Taken(w);
    var served := ServeFirst(u, post, id, stamp, scripts, |w.slots|);
    RunOne(w, Take);
    RunConcat(w, [Take], served);
    RunOne(Run(u, served), Rest);
    RunConcat(w, [Take] + served, [Rest]);
    hide Run;
    steps := [Take] + served + [Rest];
  }

  // ----- What modules say

  ghost predicate SpokenOk(room: seq<Post>, slots: seq<Slot>) {
    forall p :: p in room && p.poster.Module? ==>
      p.poster.i < |slots| && ModulePost(slots[p.poster.i].name, p.msg)
  }

  /** Everything that modules put into the room, or are about to, is theirs and publishable. */
  ghost predicate PostsOk(w: World) {
    && SpokenOk(w.room, w.slots)
    && (w.worker.Serving? && w.worker.outgoing != [] ==>
          && 0 < w.worker.next <= |w.slots|
          && forall m :: m in w.worker.outgoing ==> ModulePost(w.slots[w.worker.next - 1].name, m))
  }

  lemma SpokenNext(room: seq<Post>, slots: seq<Slot>, p: Post)
    requires SpokenOk(room, slots)
    requires p.poster.Module? ==> p.poster.i < |slots| && ModulePost(slots[p.poster.i].name, p.msg)
    ensures SpokenOk(room + [p], slots)
  {
    hide ModulePost;
  }

  lemma NamesKeep(w: World, step: Step)
    ensures |Next(w, step).slots| == |w.slots|
    ensures forall i :: 0 <= i < |w.slots| ==> Next(w, step).slots[i].name == w.slots[i].name
  {
    hide Deliver, DeliveryPosts;
  }

  lemma PostsKeep(w: World, step: Step)
    requires PostsOk(w)
    ensures PostsOk(Next(w, step))
  {
    hide PostsOk, Next;
    if step.Converse? {
      ConverseKeepsPosts(w, step);
    } else if step.Emit? {
      EmitKeepsPosts(w);
    } else if step.Say? {
      TalkKeepsPosts(w, step, Post(Session(step.t), step.msg));
    } else if step.Announce? {
      TalkKeepsPosts(w, step, Post(Server, step.msg));
    } else {
      QuietKeepsPosts(w, step);
    }
  }

  /** Others broadcast. */
  lemma TalkKeepsPosts(w: World, step: Step, p: Post)
    requires PostsOk(w)
    requires (step.Say? && p == Post(Session(step.t), step.msg)) || (step.Announce? && p == Post(Server, step.msg))
    ensures PostsOk(Next(w, step))
  {
    hide ModulePost, SpokenOk, Serve, DeliveryPosts, Closed;
    SpokenNext(w.room, w.slots, p);
  }

  /** Nobody does. */
  lemma QuietKeepsPosts(w: World, step: Step)
    requires PostsOk(w) && !step.Converse? && !step.Emit? && !step.Say? && !step.Announce?
    ensures PostsOk(Next(w, step))
  {
    hide ModulePost, Serve, DeliveryPosts, Closed;
    NamesKeep(w, step);
    var v := Next(w, step);
    assert v.room == w.room && (v.worker == w.worker || v.worker.Idle? || v.worker.outgoing == []);
    hide Next;
  }

  lemma ConverseKeepsPosts(w: World, step: Step)
    requires PostsOk(w) && step.Converse?
    ensures PostsOk(Next(w, step))
  {
    NamesKeep(w, step);
    hide Serve, DeliveryPosts, ModulePost;
    if w.worker.Serving? && w.worker.next < |w.slots| {
      var slot := w.slots[w.worker.next];
      DeliveryPostsAre(slot.name, slot.state, Event(step.id, step.stamp, w.worker.post.msg), step.script);
    }
  }

  lemma EmitKeepsPosts(w: World)
    requires PostsOk(w)
    ensures PostsOk(Next(w, Emit))
  {
    hide ModulePost, SpokenOk, Serve, DeliveryPosts, Closed;
    if w.worker.Serving? && w.worker.outgoing != [] && w.worker.next > 0 {
      var out := w.worker.outgoing;
      assert out[0] in out;
      SpokenNext(w.room, w.slots, Post(Module(w.worker.next - 1), out[0]));
      assert forall m :: m in out[1..] ==> m in out;
    }
  }

  lemma {:induction false} RunKeepsPosts(w: World, steps: seq<Step>)
    requires PostsOk(w)
    ensures PostsOk(Run(w, steps))
    ensures |Run(w, steps).slots| == |w.slots|
    ensures forall i :: 0 <= i < |w.slots| ==> Run(w, steps).slots[i].name == w.slots[i].name
    decreases |steps|
  {
    hide Next, PostsOk;
    if steps != [] {
      PostsKeep(w, steps[0]);
      NamesKeep(w, steps[0]);
      RunKeepsPosts(Next(w, steps[0]), steps[1..]);
    }
  }

  /** After any run: what stands in the room as a module's is under its name, and is
      non-empty valid UTF-8 of at most 1023 bytes without control bytes. */
  lemma ModulesSpeakPlainly(w: World, steps: seq<Step>, p: Post)
    requires Fresh(w) && p in Run(w, steps).room && p.poster.Module?
    ensures p.poster.i < |w.slots| && ModulePost(w.slots[p.poster.i].name, p.msg)
  {
    RunKeepsPosts(w, steps);
  }

  // ----- What reaches the modules

  /** The modules run, no allocation fails, and the queue is never full when a message
      is handed to it. */
  ghost predicate Uncongested(w: World, steps: seq<Step>)
    decreases |steps|
  {
    || steps == []
    || (&& !steps[0].Stop? && !steps[0].Drain?
        && (steps[0].Hand? ==> steps[0].hasNode && |w.queue| < 128)
        && Uncongested(Next(w, steps[0]), steps[1..]))
  }

  /** Nothing is missing: each session's messages are events, or about to be. */
  ghost predicate AllQueued(w: World) {
    w.running && w.slots != [] && forall t :: QueuedBy(w, t)
  }

  lemma QueuedKeeps(w: World, step: Step)
    requires AllQueued(w) && !step.Stop? && !step.Drain? && (step.Hand? ==> step.hasNode && |w.queue| < 128)
    ensures AllQueued(Next(w, step))
  {
    var v := Next(w, step);
    StillRuns(w, step);
    forall t
      ensures QueuedBy(v, t)
    {
      QueuedThread(w, step, t);
    }
  }

  lemma StillRuns(w: World, step: Step)
    requires !step.Stop? && !step.Drain?
    ensures Next(w, step).running == w.running && |Next(w, step).slots| == |w.slots|
  {
    hide Serve, DeliveryPosts;
  }

  ghost predicate QueuedBy(w: World, t: Thread) {
    By(w.accepted, t) + PendingOf(w, t) == By(w.room, t)
  }

  lemma QueuedThread(w: World, step: Step, t: Thread)
    requires AllQueued(w) && !step.Stop? && !step.Drain? && (step.Hand? ==> step.hasNode && |w.queue| < 128)
    ensures QueuedBy(Next(w, step), t)
  {
    QueuedOf(w, t);
    hide AllQueued, QueuedBy, Next;
    if step.Say? || step.Hand? {
      SessionStepOf(w, step, t);
    } else {
      OtherStepOf(w, step, t);
    }
  }

  lemma SessionStepOf(w: World, step: Step, t: Thread)
    requires QueuedBy(w, t) && w.running && w.slots != []
    requires step.Say? || (step.Hand? && step.hasNode && |w.queue| < 128)
    ensures QueuedBy(Next(w, step), t)
  {
    hide QueuedBy, Said, Handed;
    if step.Say? && step.t !in w.pending {
      SaidThread(w, step.t, step.msg, t);
    } else if step.Hand? && step.t in w.pending {
      HandedThread(w, step.t, t);
    }
  }

  lemma OtherStepOf(w: World, step: Step, t: Thread)
    requires QueuedBy(w, t) && !step.Say? && !step.Hand?
    ensures QueuedBy(Next(w, step), t)
  {
    hide QueuedBy, Serve, DeliveryPosts, Closed;
    var v := Next(w, step);
    if step.Announce? {
      OtherThread(w, v, Post(Server, step.msg), t);
    } else if step.Emit? && w.worker.Serving? && w.worker.outgoing != [] && w.worker.next > 0 {
      OtherThread(w, v, Post(Module(w.worker.next - 1), w.worker.outgoing[0]), t);
    } else {
      SameThread(w, v, t);
    }
  }

  lemma SaidThread(w: World, u: Thread, msg: Message, t: Thread)
    requires QueuedBy(w, t) && u !in w.pending
    ensures QueuedBy(Said(w, u, msg), t)
  {
    hide By;
    ByNext(w.room, Post(Session(u), msg), t);
    assert By(w.accepted, t) + [] == By(w.accepted, t) && By(w.room, t) + [] == By(w.room, t);
  }

  lemma HandedThread(w: World, u: Thread, t: Thread)
    requires QueuedBy(w, t) && u in w.pending && w.running && w.slots != [] && |w.queue| < 128
    ensures QueuedBy(Handed(w, u, true), t)
  {
    hide By;
    var post := Post(Session(u), w.pending[u].msg);
    ByNext(w.accepted, post, t);
    assert By(w.accepted, t) + [] == By(w.accepted, t);
    assert By(w.accepted + [post], t) + [] == By(w.accepted + [post], t);
  }

  lemma OtherThread(w: World, v: World, p: Post, t: Thread)
    requires QueuedBy(w, t) && !p.poster.Session? && v.accepted == w.accepted && v.pending == w.pending
      && v.room == w.room + [p]
    ensures QueuedBy(v, t)
  {
    hide By;
    ByNext(w.room, p, t);
    assert By(w.room, t) + [] == By(w.room, t);
  }

  lemma SameThread(w: World, v: World, t: Thread)
    requires QueuedBy(w, t) && v.accepted == w.accepted && v.pending == w.pending && v.room == w.room
    ensures QueuedBy(v, t)
  {
  }

  lemma QueuedOf(w: World, t: Thread)
    requires AllQueued(w)
    ensures QueuedBy(w, t) && w.running && w.slots != []
  {
  }

  lemma {:induction false} RunQueues(w: World, steps: seq<Step>)
    requires AllQueued(w) && Uncongested(w, steps)
    ensures AllQueued(Run(w, steps))
    decreases |steps|
  {
    hide AllQueued, Next;
    if steps != [] {
      QueuedKeeps(w, steps[0]);
      RunQueues(Next(w, steps[0]), steps[1..]);
    }
  }

  /** As long as modules run and the queue has room, no message of a session is lost:
      its accepted events, and the message it has yet to queue, are all it said. */
  lemma EveryMessageBecomesAnEvent(w: World, steps: seq<Step>, t: Thread)
    requires Fresh(w) && w.slots != [] && Uncongested(w, steps)
    ensures var v := Run(w, steps);
      By(v.accepted, t) + PendingOf(v, t) == By(v.room, t) && v.delivered + v.queue == v.accepted
  {
    assert AllQueued(w);
    RunQueues(w, steps);
    FreshIsOk(w);
    RunKeeps(w, steps);
    NotDrained(w, steps);
    hide Run, By, EventsOk, PlacesOk, RoomOk, SlotsOk;
    assert QueueOk(Run(w, steps)) && QueuedBy(Run(w, steps), t);
  }

  lemma {:induction false} NotDrained(w: World, steps: seq<Step>)
    requires !w.drained && Uncongested(w, steps)
    ensures !Run(w, steps).drained
    decreases |steps|
  {
    hide Serve, DeliveryPosts;
    if steps != [] {
      NotDrained(Next(w, steps[0]), steps[1..]);
    }
  }

  // ----- The order of events

  /** Any two sessions that post at the same time can have their events queued in
      the other order than their messages stand in the room. */
  lemma OrderCanSwap(w: World, s: Thread, t: Thread, a: Message, b: Message)
    requires Fresh(w) && w.slots != [] && s != t
    ensures var v := Run(w, [Say(s, a), Say(t, b), Hand(t, true), Hand(s, true)]);
      && v.room == [Post(Session(s), a), Post(Session(t), b)]
      && v.accepted == [Post(Session(t), b), Post(Session(s), a)]
      && !IsSubsequence(v.accepted, v.room)
  {
    FourSteps(w, Say(s, a), Say(t, b), Hand(t, true), Hand(s, true));
    hide Run, Next;
    TwoSays(w, s, t, a, b);
    SwapHands(Next(Next(w, Say(s, a)), Say(t, b)), s, t, a, b);
    NoSwappedPair(Post(Session(s), a), Post(Session(t), b));
  }

  lemma NoSwappedPair(p: Post, q: Post)
    requires p != q
    ensures !IsSubsequence([q, p], [p, q])
  {
    assert [q, p][1..] == [p] && [p, q][1..] == [q] && [p][1..] == [] && [q][1..] == [];
    assert !IsSubsequence([q, p], []) && !IsSubsequence([p], []);
    assert !IsSubsequence([q, p], [q]);
  }

  lemma TwoSays(w: World, s: Thread, t: Thread, a: Message, b: Message)
    requires w.pending == map[] && w.room == [] && s != t
    ensures var v := Next(Next(w, Say(s, a)), Say(t, b));
      && v.room == [Post(Session(s), a), Post(Session(t), b)]
      && v.pending == map[s := Waiting(a, 0), t := Waiting(b, 1)]
      && v.running == w.running && v.slots == w.slots && v.queue == w.queue && v.accepted == w.accepted
  {
    hide Serve, DeliveryPosts, Closed;
    var u := Said(w, s, a);
    assert u.room == [Post(Session(s), a)] && u.pending == map[s := Waiting(a, 0)];
  }

  lemma SwapHands(w: World, s: Thread, t: Thread, a: Message, b: Message)
    requires w.running && w.slots != [] && w.queue == w.accepted == [] && s != t
    requires w.pending == map[s := Waiting(a, 0), t := Waiting(b, 1)]
    ensures var v := Next(Next(w, Hand(t, true)), Hand(s, true));
      v.room == w.room && v.accepted == [Post(Session(t), b), Post(Session(s), a)]
  {
    hide Next, Handed;
    FirstLeft(w.pending, s, t, Waiting(a, 0), Waiting(b, 1));
    HandIs(w, t);
    HandIs(Next(w, Hand(t, true)), s);
  }

  lemma FirstLeft(m: map<Thread, Waiting>, s: Thread, t: Thread, a: Waiting, b: Waiting)
    requires m == map[s := a, t := b] && s != t
    ensures m - {t} == map[s := a]
  {
  }

  lemma HandIs(w: World, t: Thread)
    requires t in w.pending && w.running && w.slots != [] && |w.queue| < 2
    ensures var v := Next(w, Hand(t, true));
      && v == Handed(w, t, true) && v.room == w.room && v.running && v.slots == w.slots && v.pending == w.pending - {t}
      && |v.queue| == |w.queue| + 1 && v.accepted == w.accepted + [Post(Session(t), w.pending[t].msg)]
  {
    hide Serve, DeliveryPosts, Closed;
  }

  lemma FourSteps(w: World, a: Step, b: Step, c: Step, d: Step)
    ensures Run(w, [a, b, c, d]) == Next(Next(Next(Next(w, a), b), c), d)
  {
    hide Next;
    assert [a, b, c, d][1..] == [b, c, d] && [b, c, d][1..] == [c, d] && [c, d][1..] == [d] && [d][1..] == [];
    var w1, w2 := Next(w, a), Next(Next(w, a), b);
    var w3 := Next(w2, c);
    assert Run(w, [a, b, c, d]) == Run(w1, [b, c, d]);
    assert Run(w1, [b, c, d]) == Run(w2, [c, d]);
    assert Run(w2, [c, d]) == Run(w3, [d]);
  }

  /** The accepted events stand in the room in the order they were accepted. */
  ghost predicate InOrder(places: seq<nat>) {
    forall i, j :: 0 <= i < j < |places| ==> places[i] < places[j]
  }

  /** Nothing broadcast after the message of thread `t` was queued before it. */
  ghost predicate NotOvertaken(w: World, t: Thread)
    requires t in w.pending
  {
    forall i :: 0 <= i < |w.places| ==> w.places[i] < w.pending[t].at
  }

  /** At most one message waits, and everything queued stands before it. */
  ghost predicate AtMostOneWaits(w: World) {
    && InOrder(w.places)
    && (forall k :: 0 <= k < |w.places| ==> w.places[k] < |w.room|)
    && (forall t :: t in w.pending ==>
          (NotOvertaken(w, t) && w.pending[t].at < |w.room| && w.pending == map[t := w.pending[t]]))
  }

  lemma InOrderNext(places: seq<nat>, at: nat)
    requires InOrder(places) && forall i :: 0 <= i < |places| ==> places[i] < at
    ensures InOrder(places + [at])
  {
    var all := places + [at];
    assert all[|places|] == at;
    assert forall i :: 0 <= i < |places| ==> all[i] == places[i];
  }

  lemma WaitsKeep(w: World, step: Step)
    requires AtMostOneWaits(w) && (step.Say? ==> w.pending == map[] || step.t in w.pending)
    ensures AtMostOneWaits(Next(w, step))
  {
    hide Serve, DeliveryPosts, Closed, InOrder;
    var v := Next(w, step);
    if step.Hand? && step.t in w.pending {
      assert v.pending == map[];
      InOrderNext(w.places, w.pending[step.t].at);
    }
  }

  /** Elements picked at ascending places are a subsequence. */
  lemma {:induction false} PickedInOrder<T>(a: seq<T>, places: seq<nat>, b: seq<T>)
    requires |places| == |a| && InOrder(places)
    requires forall k :: 0 <= k < |a| ==> places[k] < |b| && b[places[k]] == a[k]
    ensures IsSubsequence(a, b)
    decreases |b|
  {
    if a != [] {
      if places[0] == 0 {
        var rest := seq(|a| - 1, k requires 0 <= k < |a| - 1 => places[k + 1] - 1);
        PickedInOrder(a[1..], rest, b[1..]);
      } else {
        assert forall k :: 0 < k < |a| ==> places[0] < places[k];
        var rest := seq(|a|, k requires 0 <= k < |a| => places[k] - 1);
        PickedInOrder(a, rest, b[1..]);
      }
    }
  }

  lemma WaitsMeansOrder(w: World)
    requires AtMostOneWaits(w) && PlacesOk(w)
    ensures IsSubsequence(w.accepted, w.room)
  {
    hide IsSubsequence;
    PickedInOrder(w.accepted, w.places, w.room);
  }

  /** Each session that broadcasts finds no other still waiting to queue its message. */
  ghost predicate OneAtATime(w: World, steps: seq<Step>)
    decreases |steps|
  {
    || steps == []
    || (&& (steps[0].Say? ==> w.pending == map[] || steps[0].t in w.pending)
        && OneAtATime(Next(w, steps[0]), steps[1..]))
  }

  lemma {:induction false} OneAtATimeKeeps(w: World, steps: seq<Step>)
    requires AtMostOneWaits(w) && OneAtATime(w, steps)
    ensures AtMostOneWaits(Run(w, steps))
    decreases |steps|
  {
    if steps != [] {
      WaitsKeep(w, steps[0]);
      hide Next;
      OneAtATimeKeeps(Next(w, steps[0]), steps[1..]);
    }
  }

  /** When posts do not overlap, events are queued in the order of the room. */
  lemma OneAtATimeIsOrderly(w: World, steps: seq<Step>)
    requires Fresh(w) && OneAtATime(w, steps)
    ensures IsSubsequence(Run(w, steps).accepted, Run(w, steps).room)
  {
    FreshWaits(w);
    hide *;
    FreshIsOk(w);
    RunKeeps(w, steps);
    OneAtATimeKeeps(w, steps);
    OkPlaces(Run(w, steps));
    WaitsMeansOrder(Run(w, steps));
  }

  lemma FreshWaits(w: World)
    requires Fresh(w)
    ensures AtMostOneWaits(w)
  {
  }

  lemma OkPlaces(w: World)
    requires WorldOk(w)
    ensures PlacesOk(w)
  {
    hide QueueOk, EventsOk, PlacesOk, RoomOk, SlotsOk;
  }

  // ----- Who posts decides the order

  /** The threads that post in these steps are among `ts`. */
  ghost predicate OnlyBy(steps: seq<Step>, ts: set<Thread>) {
    forall k :: 0 <= k < |steps| && (steps[k].Say? || steps[k].Hand?) ==> steps[k].t in ts
  }

  lemma {:induction false} OnePosterIsOneAtATime(w: World, steps: seq<Step>, ts: set<Thread>)
    requires |ts| <= 1 && OnlyBy(steps, ts) && w.pending.Keys <= ts
    ensures OneAtATime(w, steps)
    decreases |steps|
  {
    if steps != [] {
      PendingStays(w, steps[0], ts);
      OnePoster(w, steps[0], ts);
      hide Next;
      OnePosterIsOneAtATime(Next(w, steps[0]), steps[1..], ts);
    }
  }

  lemma PendingStays(w: World, step: Step, ts: set<Thread>)
    requires w.pending.Keys <= ts && (step.Say? || step.Hand? ==> step.t in ts)
    ensures Next(w, step).pending.Keys <= ts
  {
    hide Serve, DeliveryPosts, Closed;
  }

  lemma OnePoster(w: World, step: Step, ts: set<Thread>)
    requires |ts| <= 1 && w.pending.Keys <= ts && (step.Say? ==> step.t in ts)
    ensures step.Say? ==> w.pending == map[] || step.t in w.pending
  {
    if step.Say? && w.pending != map[] {
      var u :| u in w.pending;
      AtMostOne(ts, u, step.t);
    }
  }

  /** In every run whose posts come from these threads the events are queued in
      the order of the room. */
  ghost predicate AlwaysInRoomOrder(w: World, ts: set<Thread>) {
    forall steps :: OnlyBy(steps, ts) ==> IsSubsequence(Run(w, steps).accepted, Run(w, steps).room)
  }

  lemma {:induction false} NoModulesNoEvents(w: World, steps: seq<Step>)
    requires w.slots == [] && w.accepted == []
    ensures Run(w, steps).accepted == []
    decreases |steps|
  {
    if steps != [] {
      NoModulesKeeps(w, steps[0]);
      hide Next;
      NoModulesNoEvents(Next(w, steps[0]), steps[1..]);
    }
  }

  lemma NoModulesKeeps(w: World, step: Step)
    requires w.slots == []
    ensures Next(w, step).slots == [] && Next(w, step).accepted == w.accepted
  {
    hide Serve, DeliveryPosts, Closed;
  }

  /** Modules, where there are any, are sure to get events in the order of the room
      if and only if at most one session posts. */
  lemma RoomOrderIffOnePoster(w: World, ts: set<Thread>)
    requires Fresh(w)
    ensures AlwaysInRoomOrder(w, ts) <==> |ts| <= 1 || w.slots == []
  {
    hide Run, OneAtATime;
    if w.slots == [] {
      forall steps | OnlyBy(steps, ts)
        ensures IsSubsequence(Run(w, steps).accepted, Run(w, steps).room)
      {
        NoModulesNoEvents(w, steps);
      }
    } else if |ts| <= 1 {
      forall steps | OnlyBy(steps, ts)
        ensures IsSubsequence(Run(w, steps).accepted, Run(w, steps).room)
      {
        OnePosterIsOneAtATime(w, steps, ts);
        OneAtATimeIsOrderly(w, steps);
      }
    } else {
      var s, t := TwoOf(ts);
      var a := Message(0, [], []);
      var steps := [Say(s, a), Say(t, a), Hand(t, true), Hand(s, true)];
      OrderCanSwap(w, s, t, a, a);
      assert OnlyBy(steps, ts);
    }
  }
}
