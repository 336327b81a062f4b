/**
  The reference-counted lifetime of a client across threads: its own session
  (src/bootstrap.c, src/input.c, src/client.c), and any number of mention and
  whisper deliveries that find it in the room (src/input.c, src/commands.c,
  src/chat_room.c).  Every step below is one that the code performs atomically
  or under a lock, and steps of different threads interleave freely.
 */
module ClientLifetime {
  import opened Bytes

  type ClientId = nat
  type TaskId = nat

  /** Where the session thread of a client stands. */
  datatype Phase =
    | Created          // allocated with the main reference
    | Refused          // callbacks could not be installed
    | Installed        // callbacks hold a reference of their own
    | Joined           // in the room
    | Left             // out of the room, or never in it
    | CallbackDropped  // the callback reference is released
    | Ended            // the main reference is released

  datatype Life = Live | Dying | Freed

  datatype Client = Client(phase: Phase, refCount: int, life: Life, frees: nat)

  /** A delivery: it holds the room's read lock while scanning, and keeps a
      reference to every target it took until it has notified it. */
  datatype Task = Task(scanning: bool, index: nat, held: set<ClientId>, owner: Option<ClientId>)

  datatype World = World(clients: map<ClientId, Client>, room: seq<ClientId>, tasks: map<TaskId, Task>)

  datatype Step =
    | Create(c: ClientId)
    | RefuseCallbacks(c: ClientId)
    | InstallCallbacks(c: ClientId)
    | Join(c: ClientId)
    | SkipRoom(c: ClientId)
    | Leave(c: ClientId)
    | DropCallback(c: ClientId)
    | ReleaseMain(c: ClientId)
    | Work(c: ClientId)
    | Free(c: ClientId)
    | Start(t: TaskId, owner: Option<ClientId>)
    | Look(t: TaskId, take: bool)
    | Unlock(t: TaskId)
    | Notify(t: TaskId, c: ClientId)
    | Release(t: TaskId, c: ClientId)
    | Finish(t: TaskId)

  // ----- What each step does

  ghost predicate InPhase(w: World, c: ClientId, p: Phase) {
    c in w.clients && w.clients[c].phase == p
  }

  /** No delivery of its own is running on the session thread. */
  ghost predicate Idle(w: World, c: ClientId) {
    forall t :: t in w.tasks ==> w.tasks[t].owner != Some(c)
  }

  /** The room's write lock can be taken: nobody holds the read lock. */
  ghost predicate RoomUnlocked(w: World) {
    forall t :: t in w.tasks ==> !w.tasks[t].scanning
  }

  ghost predicate Enabled(w: World, step: Step) {
    match step
    case Create(c) => c !in w.clients
    case RefuseCallbacks(c) => InPhase(w, c, Created)
    case InstallCallbacks(c) => InPhase(w, c, Created)
    case Join(c) => InPhase(w, c, Installed) && Idle(w, c) && RoomUnlocked(w)
    case SkipRoom(c) => InPhase(w, c, Installed) && Idle(w, c)
    case Leave(c) => InPhase(w, c, Joined) && Idle(w, c) && RoomUnlocked(w)
    case DropCallback(c) => InPhase(w, c, Left)
    case ReleaseMain(c) => InPhase(w, c, CallbackDropped) || InPhase(w, c, Refused)
    case Work(c) => c in w.clients && !w.clients[c].phase.Ended?
    case Free(c) => c in w.clients && w.clients[c].life == Dying
    case Start(t, owner) =>
      && t !in w.tasks
      && (owner.Some? ==> Idle(w, owner.value))
      && (owner.Some? ==> InPhase(w, owner.value, Installed) || InPhase(w, owner.value, Joined))
    case Look(t, take) => t in w.tasks && w.tasks[t].scanning && w.tasks[t].index < |w.room|
    case Unlock(t) => t in w.tasks && w.tasks[t].scanning
    case Notify(t, c) => t in w.tasks && !w.tasks[t].scanning && c in w.tasks[t].held
    case Release(t, c) => t in w.tasks && !w.tasks[t].scanning && c in w.tasks[t].held
    case Finish(t) => t in w.tasks && !w.tasks[t].scanning && w.tasks[t].held == {}
  }

  /** `client_addref` */
  function AddRef(k: Client): Client {
    k.(refCount := k.refCount + 1)
  }

  /** The locked part of `client_release`: whoever brings the count to zero must free. */
  function DropRef(k: Client): Client {
    k.(refCount := k.refCount - 1, life := if k.refCount - 1 == 0 then Dying else k.life)
  }

  ghost function Without(room: seq<ClientId>, c: ClientId): seq<ClientId> {
    if room == [] then [] else if room[0] == c then room[1..] else [room[0]] + Without(room[1..], c)
  }

  /** The client behind a reference; a stale one is already freed. */
  ghost function Of(w: World, c: ClientId): Client {
    if c in w.clients then w.clients[c] else Client(Ended, 0, Freed, 1)
  }

  ghost function SetClient(w: World, c: ClientId, k: Client): World {
    w.(clients := w.clients[c := k])
  }

  ghost function SetTask(w: World, t: TaskId, task: Task): World {
    w.(tasks := w.tasks[t := task])
  }

  ghost function Apply(w: World, step: Step): World
    requires Enabled(w, step)
  {
    match step
    case Create(c) => SetClient(w, c, Client(Created, 1, Live, 0))
    case RefuseCallbacks(c) => SetClient(w, c, DropRef(AddRef(Of(w, c))).(phase := Refused))
    case InstallCallbacks(c) => SetClient(w, c, AddRef(Of(w, c)).(phase := Installed))
    case Join(c) => SetClient(w, c, Of(w, c).(phase := Joined)).(room := w.room + [c])
    case SkipRoom(c) => SetClient(w, c, Of(w, c).(phase := Left))
    case Leave(c) => SetClient(w, c, Of(w, c).(phase := Left)).(room := Without(w.room, c))
    case DropCallback(c) => SetClient(w, c, DropRef(Of(w, c)).(phase := CallbackDropped))
    case ReleaseMain(c) => SetClient(w, c, DropRef(Of(w, c)).(phase := Ended))
    case Work(_) => w
    case Free(c) => SetClient(w, c, Of(w, c).(life := Freed, frees := Of(w, c).frees + 1))
    case Start(t, owner) => SetTask(w, t, Task(true, 0, {}, owner))
    case Look(t, take) =>
      var task := w.tasks[t];
      var c := w.room[task.index];
      if take then SetTask(SetClient(w, c, AddRef(Of(w, c))), t,
                           task.(index := task.index + 1, held := task.held + {c}))
      else SetTask(w, t, task.(index := task.index + 1))
    case Unlock(t) => SetTask(w, t, w.tasks[t].(scanning := false))
    case Notify(_, _) => w
    case Release(t, c) => SetTask(SetClient(w, c, DropRef(Of(w, c))), t, w.tasks[t].(held := w.tasks[t].held - {c}))
    case Finish(t) => w.(tasks := w.tasks - {t})
  }

  /** The clients whose memory a step reads or writes, apart from the freeing itself. */
  ghost function Touched(w: World, step: Step): set<ClientId> {
    match step
    case Create(_) => {}
    case Free(_) => {}
    case Start(_, owner) => if owner.Some? then {owner.value} else {}
    case Look(t, _) =>
      if t in w.tasks && w.tasks[t].index < |w.room| then {w.room[w.tasks[t].index]} + OwnerOf(w, t) else {}
    case Unlock(t) => OwnerOf(w, t)
    case Notify(t, c) => {c} + OwnerOf(w, t)
    case Release(t, c) => {c} + OwnerOf(w, t)
    case Finish(t) => OwnerOf(w, t)
    case _ => {step.c}
  }

  ghost function OwnerOf(w: World, t: TaskId): set<ClientId> {
    if t in w.tasks && w.tasks[t].owner.Some? then {w.tasks[t].owner.value} else {}
  }

  // ----- The invariant

  /** The deliveries that hold a reference to a client. */
  ghost function Holders(w: World, c: ClientId): set<TaskId> {
    set t | t in w.tasks && c in w.tasks[t].held
  }

  ghost function SessionRefs(p: Phase): int {
    match p
    case Created => 1
    case Refused => 1
    case Installed => 2
    case Joined => 2
    case Left => 2
    case CallbackDropped => 1
    case Ended => 0
  }

  ghost predicate Counted(w: World, c: ClientId)
    requires c in w.clients
  {
    CountedAs(w.clients[c], |Holders(w, c)|)
  }

  ghost predicate RoomOk(w: World) {
    && (forall i, j :: 0 <= i < j < |w.room| ==> w.room[i] != w.room[j])
    && (forall c :: c in w.room <==> InPhase(w, c, Joined))
  }

  ghost predicate TaskOk(w: World, t: TaskId)
    requires t in w.tasks
  {
    var task := w.tasks[t];
    && task.held <= w.clients.Keys
    && (task.scanning ==> task.index <= |w.room| && forall c :: c in task.held ==> c in w.room[..task.index])
    && (task.owner.Some? ==> InPhase(w, task.owner.value, Installed) || InPhase(w, task.owner.value, Joined))
  }

  ghost predicate Inv(w: World) {
    && (forall c :: c in w.clients ==> Counted(w, c))
    && RoomOk(w)
    && (forall t :: t in w.tasks ==> TaskOk(w, t))
  }

  lemma Runnable(w: World)
    requires Inv(w)
    ensures forall i :: 0 <= i < |w.room| ==> w.room[i] in w.clients
    ensures forall t, c :: t in w.tasks && c in w.tasks[t].held ==> c in w.clients
  {
    forall i | 0 <= i < |w.room|
      ensures w.room[i] in w.clients
    {
      assert w.room[i] in w.room;
    }
    forall t, c | t in w.tasks && c in w.tasks[t].held
      ensures c in w.clients
    {
      assert TaskOk(w, t);
    }
  }

  // ----- Safety of one step

  lemma HeldIsLive(w: World, t: TaskId, c: ClientId)
    requires Inv(w) && t in w.tasks && c in w.tasks[t].held
    ensures c in w.clients && w.clients[c].life.Live?
  {
    assert TaskOk(w, t);
    assert Counted(w, c);
    assert t in Holders(w, c);
  }

  lemma SessionIsLive(w: World, c: ClientId)
    requires Inv(w) && c in w.clients && !w.clients[c].phase.Ended?
    ensures w.clients[c].life.Live?
  {
    assert Counted(w, c);
  }

  /** No step touches a client that is freed or being freed. */
  lemma TouchesOnlyLive(w: World, step: Step)
    requires Inv(w) && Enabled(w, step)
    ensures forall c :: c in Touched(w, step) ==> c in w.clients && w.clients[c].life.Live?
  {
    forall c | c in Touched(w, step)
      ensures c in w.clients && w.clients[c].life.Live?
    {
      if (step.Notify? || step.Release?) && c == step.c {
        HeldIsLive(w, step.t, c);
      } else if step.Look? && c == w.room[w.tasks[step.t].index] {
        assert c in w.room;
        SessionIsLive(w, c);
      } else if step.Look? || step.Unlock? || step.Notify? || step.Release? || step.Finish? {
        assert TaskOk(w, step.t);
        SessionIsLive(w, c);
      } else {
        SessionIsLive(w, c);
      }
    }
  }

  // ----- Every step keeps the invariant

  /** A step that changes neither tasks' references nor another client. */
  lemma OthersCounted(w: World, v: World, c: ClientId)
    requires forall x :: x in w.clients ==> Counted(w, x)
    requires forall x :: x in v.clients && x != c ==>
      (x in w.clients && v.clients[x] == w.clients[x] && Holders(v, x) == Holders(w, x))
    requires c in v.clients ==> Counted(v, c)
    ensures forall x :: x in v.clients ==> Counted(v, x)
  {
    forall x | x in v.clients
      ensures Counted(v, x)
    {
      if x != c {
        assert Counted(w, x);
      }
    }
  }

  lemma SameTasksSameHolders(w: World, v: World)
    requires v.tasks == w.tasks
    ensures forall x :: Holders(v, x) == Holders(w, x)
  {
    forall x
      ensures Holders(v, x) == Holders(w, x)
    {
      assert forall t :: t in Holders(v, x) <==> t in Holders(w, x);
    }
  }

  ghost predicate CountedAs(k: Client, held: nat) {
    && k.refCount == SessionRefs(k.phase) + held
    && (k.refCount == 0 <==> !k.life.Live?)
    && k.frees == (if k.life.Freed? then 1 else 0)
  }

  /** Changing one client that neither joins nor leaves the room. */
  lemma ClientChangeKeeps(w: World, c: ClientId, k: Client)
    requires Inv(w) && CountedAs(k, |Holders(w, c)|)
    requires InPhase(w, c, Joined) <==> k.phase.Joined?
    requires InPhase(w, c, Installed) ==> k.phase.Installed? || Idle(w, c)
    ensures Inv(SetClient(w, c, k))
  {
    hide Holders, TaskOk;
    var v := SetClient(w, c, k);
    SameTasksSameHolders(w, v);
    OthersCounted(w, v, c);
    forall x
      ensures x in v.room <==> InPhase(v, x, Joined)
    {
      assert x in w.room <==> InPhase(w, x, Joined);
    }
    TasksStay(w, v, {});
  }

  /** The steps of a session thread that leave the room as it is. */
  lemma SessionStepKeeps(w: World, step: Step)
    requires Inv(w) && Enabled(w, step)
    requires step.Create? || step.RefuseCallbacks? || step.InstallCallbacks? || step.SkipRoom?
          || step.DropCallback? || step.ReleaseMain? || step.Free?
    ensures Inv(Apply(w, step))
  {
    hide Holders, TaskOk;
    var c := step.c;
    if step.Create? {
      NewIsUnheld(w, c);
    } else {
      assert Counted(w, c);
    }
    hide Inv, RoomOk;
    ClientChangeKeeps(w, c, Apply(w, step).clients[c]);
  }

  lemma NewIsUnheld(w: World, c: ClientId)
    requires c !in w.clients && forall t :: t in w.tasks ==> TaskOk(w, t)
    ensures Holders(w, c) == {}
  {
    forall t | t in w.tasks
      ensures c !in w.tasks[t].held
    {
      assert TaskOk(w, t);
    }
  }

  lemma {:induction false} WithoutRemoves(room: seq<ClientId>, c: ClientId)
    requires forall i, j :: 0 <= i < j < |room| ==> room[i] != room[j]
    ensures var r := Without(room, c);
      && (forall x :: x in r <==> x in room && x != c)
      && (forall i, j :: 0 <= i < j < |r| ==> r[i] != r[j])
  {
    if room != [] {
      assert forall i, j :: 0 <= i < j < |room[1..]| ==> room[1..][i] == room[i + 1] && room[1..][j] == room[j + 1];
      WithoutRemoves(room[1..], c);
      assert forall x :: x in room <==> x == room[0] || x in room[1..];
      if room[0] == c {
        assert c !in room[1..];
      } else {
        var r := Without(room[1..], c);
        assert room[0] !in r;
        var all := [room[0]] + r;
        forall i, j | 0 <= i < j < |all|
          ensures all[i] != all[j]
        {
          assert all[j] == r[j - 1] && all[j] in r;
          assert i > 0 ==> all[i] == r[i - 1];
        }
      }
    }
  }

  /** Joining, under the write lock. */
  lemma JoinKeeps(w: World, c: ClientId)
    requires Inv(w) && Enabled(w, Join(c))
    ensures Inv(Apply(w, Join(c)))
  {
    hide Holders, TaskOk;
    var v := Apply(w, Join(c));
    SameTasksSameHolders(w, v);
    assert Counted(w, c);
    OthersCounted(w, v, c);
    assert c !in w.room;
    forall x
      ensures x in v.room <==> InPhase(v, x, Joined)
    {
      assert x in w.room <==> InPhase(w, x, Joined);
    }
    TasksStay(w, v, {});
  }

  /** Leaving, under the write lock. */
  lemma LeaveKeeps(w: World, c: ClientId)
    requires Inv(w) && Enabled(w, Leave(c))
    ensures Inv(Apply(w, Leave(c)))
  {
    hide Holders, TaskOk, Without;
    var v := Apply(w, Leave(c));
    SameTasksSameHolders(w, v);
    assert Counted(w, c);
    OthersCounted(w, v, c);
    WithoutRemoves(w.room, c);
    forall x
      ensures x in v.room <==> InPhase(v, x, Joined)
    {
      assert x in w.room <==> InPhase(w, x, Joined);
    }
    TasksStay(w, v, {});
  }

  lemma HoldersAfter(w: World, v: World, t: TaskId, c: ClientId)
    requires t in w.tasks && t in v.tasks && v.tasks.Keys == w.tasks.Keys
    requires forall s :: s in w.tasks && s != t ==> v.tasks[s] == w.tasks[s]
    requires forall x :: x != c ==> (x in v.tasks[t].held <==> x in w.tasks[t].held)
    ensures forall x :: x != c ==> Holders(v, x) == Holders(w, x)
    ensures c in v.tasks[t].held && c !in w.tasks[t].held ==>
      (Holders(v, c) == Holders(w, c) + {t} && t !in Holders(w, c))
    ensures c !in v.tasks[t].held && c in w.tasks[t].held ==> Holders(v, c) == Holders(w, c) - {t} && t in Holders(w, c)
  {
  }

  /** A delivery takes or gives back one reference, and the count follows. */
  lemma ReferenceChangeKeeps(w: World, t: TaskId, task: Task, c: ClientId, k: Client)
    requires Inv(w) && t in w.tasks && c in w.clients && k.phase == w.clients[c].phase
    requires forall x :: x != c ==> (x in task.held <==> x in w.tasks[t].held)
    requires var v := SetTask(SetClient(w, c, k), t, task); TaskOk(v, t) && CountedAs(k, |Holders(v, c)|)
    ensures Inv(SetTask(SetClient(w, c, k), t, task))
  {
    hide Holders, TaskOk, RoomOk;
    var v := SetTask(SetClient(w, c, k), t, task);
    HoldersAfter(w, v, t, c);
    OthersCounted(w, v, c);
    PhasesStay(w, v);
    TasksStay(w, v, {t});
  }

  /** Taking a reference, under the read lock. */
  lemma TakeKeeps(w: World, t: TaskId)
    requires Inv(w) && Enabled(w, Look(t, true))
    ensures Inv(Apply(w, Look(t, true)))
  {
    hide Holders;
    Runnable(w);
    var v := Apply(w, Look(t, true));
    var task := w.tasks[t];
    var c := w.room[task.index];
    assert c in w.room && TaskOk(w, t) && Counted(w, c);
    assert c !in task.held by {
      assert forall i :: 0 <= i < task.index ==> w.room[i] != c;
    }
    TakenTask(w, v, t);
    HoldersAfter(w, v, t, c);
    hide Inv, TaskOk, RoomOk;
    ReferenceChangeKeeps(w, t, v.tasks[t], c, v.clients[c]);
  }

  lemma TakenTask(w: World, v: World, t: TaskId)
    requires t in w.tasks && TaskOk(w, t) && w.tasks[t].scanning && w.tasks[t].index < |w.room|
    requires w.room[w.tasks[t].index] in w.clients && v.room == w.room && v.clients.Keys == w.clients.Keys
    requires forall x :: x in w.clients ==> v.clients[x].phase == w.clients[x].phase
    requires t in v.tasks && v.tasks[t] == w.tasks[t].(index := w.tasks[t].index + 1,
                                                       held := w.tasks[t].held + {w.room[w.tasks[t].index]})
    ensures TaskOk(v, t)
  {
    var i := w.tasks[t].index;
    assert w.room[..i + 1] == w.room[..i] + [w.room[i]];
  }

  /** Deliveries that a step does not move stay as they should be. */
  lemma TasksStay(w: World, v: World, moved: set<TaskId>)
    requires forall t :: t in w.tasks ==> TaskOk(w, t)
    requires forall t :: t in v.tasks && t !in moved ==> t in w.tasks && v.tasks[t] == w.tasks[t]
    requires w.clients.Keys <= v.clients.Keys
    requires forall x :: InPhase(w, x, Installed) || InPhase(w, x, Joined) ==>
      InPhase(v, x, Installed) || InPhase(v, x, Joined) || Idle(w, x)
    requires v.room == w.room || RoomUnlocked(w)
    ensures forall t :: t in v.tasks && t !in moved ==> TaskOk(v, t)
  {
    forall t | t in v.tasks && t !in moved
      ensures TaskOk(v, t)
    {
      assert TaskOk(w, t);
    }
  }

  lemma PhasesStay(w: World, v: World)
    requires RoomOk(w) && v.room == w.room && v.clients.Keys == w.clients.Keys
    requires forall x :: x in w.clients ==> v.clients[x].phase == w.clients[x].phase
    ensures RoomOk(v)
  {
    forall x
      ensures x in v.room <==> InPhase(v, x, Joined)
    {
      assert x in w.room <==> InPhase(w, x, Joined);
    }
  }

  lemma ReleaseKeeps(w: World, t: TaskId, c: ClientId)
    requires Inv(w) && Enabled(w, Release(t, c))
    ensures Inv(Apply(w, Release(t, c)))
  {
    hide Holders, RoomOk, TaskOk;
    HeldIsLive(w, t, c);
    var v := Apply(w, Release(t, c));
    assert TaskOk(w, t) && Counted(w, c);
    ReleasedTask(w, v, t, c);
    HoldersAfter(w, v, t, c);
    hide Inv;
    ReferenceChangeKeeps(w, t, v.tasks[t], c, v.clients[c]);
  }

  lemma ReleasedTask(w: World, v: World, t: TaskId, c: ClientId)
    requires t in w.tasks && TaskOk(w, t) && t in v.tasks && v.tasks[t] == w.tasks[t].(held := w.tasks[t].held - {c})
    requires v.room == w.room && v.clients.Keys == w.clients.Keys
    requires forall x :: x in w.clients ==> v.clients[x].phase == w.clients[x].phase
    ensures TaskOk(v, t)
  {
  }

  /** Steps that move a delivery along without changing any reference. */
  lemma TaskStepKeeps(w: World, step: Step)
    requires Inv(w) && Enabled(w, step)
    requires step.Start? || (step.Look? && !step.take) || step.Unlock? || step.Finish? || step.Notify? || step.Work?
    ensures Inv(Apply(w, step))
  {
    Runnable(w);
    var v := Apply(w, step);
    forall x
      ensures Holders(v, x) == Holders(w, x)
    {
      assert forall t :: t in Holders(v, x) <==> t in Holders(w, x);
    }
    forall x | x in v.clients
      ensures Counted(v, x)
    {
      assert Counted(w, x);
    }
    PhasesStay(w, v);
    forall t | t in v.tasks
      ensures TaskOk(v, t)
    {
      if t in w.tasks {
        assert TaskOk(w, t);
        if step.Look? && t == step.t {
          assert forall c :: c in w.room[..w.tasks[t].index] ==> c in w.room[..w.tasks[t].index + 1];
        }
      }
    }
  }

  lemma StepKeeps(w: World, step: Step)
    requires Inv(w) && Enabled(w, step)
    ensures Inv(Apply(w, step))
  {
    hide Inv, Enabled, Apply;
    match step
    case Join(c) => JoinKeeps(w, c);
    case Leave(c) => LeaveKeeps(w, c);
    case Look(t, take) => if take { TakeKeeps(w, t); } else { TaskStepKeeps(w, step); }
    case Release(t, c) => ReleaseKeeps(w, t, c);
    case Start(t, owner) => TaskStepKeeps(w, step);
    case Unlock(t) => TaskStepKeeps(w, step);
    case Finish(t) => TaskStepKeeps(w, step);
    case Notify(t, c) => TaskStepKeeps(w, step);
    case Work(c) => TaskStepKeeps(w, step);
    case _ => SessionStepKeeps(w, step);
  }

  // ----- Whole runs

  const NOBODY := World(map[], [], map[])

  /** Whether the steps can be taken one after the other from here. */
  ghost predicate CanRun(w: World, steps: seq<Step>)
    decreases |steps|
  {
    steps == [] || (Enabled(w, steps[0]) && CanRun(Apply(w, steps[0]), steps[1..]))
  }

  ghost function Run(w: World, steps: seq<Step>): World
    requires CanRun(w, steps)
    decreases |steps|
  {
    if steps == [] then w else Run(Apply(w, steps[0]), steps[1..])
  }

  lemma {:induction false} RunKeeps(w: World, steps: seq<Step>)
    requires Inv(w) && CanRun(w, steps)
    ensures Inv(Run(w, steps))
    decreases |steps|
  {
    hide Inv, Apply, Enabled;
    if steps != [] {
      StepKeeps(w, steps[0]);
      RunKeeps(Apply(w, steps[0]), steps[1..]);
    }
  }

  lemma NobodyIsFine()
    ensures Inv(NOBODY)
  {
  }

  /** In every interleaving: the count is the number of outstanding holders, a
      client in the room is alive, a client is freed at most once, and once its
      session has ended and no delivery holds it, it is freed or being freed. */
  lemma LifetimeSafety(steps: seq<Step>, c: ClientId)
    requires CanRun(NOBODY, steps) && c in Run(NOBODY, steps).clients
    ensures var w := Run(NOBODY, steps);
      var k := w.clients[c];
      && k.refCount == SessionRefs(k.phase) + |Holders(w, c)|
      && (c in w.room ==> k.life.Live? && k.phase.Joined?)
      && k.frees == (if k.life.Freed? then 1 else 0)
      && (k.phase.Ended? && Holders(w, c) == {} <==> !k.life.Live?)
  {
    NobodyIsFine();
    RunKeeps(NOBODY, steps);
    var w := Run(NOBODY, steps);
    assert Counted(w, c);
    assert c in w.room <==> InPhase(w, c, Joined);
  }

  /** In every interleaving, no thread touches a client that is freed or being freed. */
  lemma NoUseAfterFree(steps: seq<Step>, next: Step, c: ClientId)
    requires CanRun(NOBODY, steps) && Enabled(Run(NOBODY, steps), next) && c in Touched(Run(NOBODY, steps), next)
    ensures c in Run(NOBODY, steps).clients && Run(NOBODY, steps).clients[c].life.Live?
  {
    NobodyIsFine();
    RunKeeps(NOBODY, steps);
    TouchesOnlyLive(Run(NOBODY, steps), next);
  }

  // ----- Nothing is kept for ever

  lemma {:induction false} RunConcat(w: World, a: seq<Step>, b: seq<Step>)
    requires CanRun(w, a) && CanRun(Run(w, a), b)
    ensures CanRun(w, a + b) && Run(w, a + b) == Run(Run(w, a), b)
    decreases |a|
  {
    hide Enabled, Apply;
    if a == [] {
      assert a + b == b;
    } else {
      assert (a + b)[0] == a[0] && (a + b)[1..] == a[1..] + b;
      RunConcat(Apply(w, a[0]), a[1..], b);
    }
  }

  /** One step, and then others. */
  lemma RunFirst(w: World, step: Step, more: seq<Step>)
    requires Enabled(w, step) && CanRun(Apply(w, step), more)
    ensures CanRun(w, [step] + more) && Run(w, [step] + more) == Run(Apply(w, step), more)
  {
    hide Enabled, Apply;
    assert ([step] + more)[1..] == more;
  }

  lemma RunNothing(w: World)
    ensures CanRun(w, []) && Run(w, []) == w
  {
  }

  /** The next step of a delivery towards its end. */
  ghost function NextOfDelivery(t: TaskId, task: Task): Step {
    if task.scanning then Unlock(t)
    else if task.held != {} then
      var c :| c in task.held;
      Release(t, c)
    else Finish(t)
  }

  lemma DeliveryMoves(w: World, t: TaskId)
    requires t in w.tasks && w.tasks[t].held <= w.clients.Keys
    ensures var step := NextOfDelivery(t, w.tasks[t]);
      && Enabled(w, step)
      && var v, task := Apply(w, step), w.tasks[t];
         && v.clients.Keys == w.clients.Keys
         && (!task.scanning && task.held == {} ==> v.tasks.Keys == w.tasks.Keys - {t})
         && (task.scanning || task.held != {} ==> v.tasks.Keys == w.tasks.Keys)
         && (task.scanning ==> !v.tasks[t].scanning)
         && (!task.scanning && task.held != {} ==> !v.tasks[t].scanning && |v.tasks[t].held| < |task.held|)
  {
  }

  /** A delivery can always be finished: it unlocks the room and releases what it holds. */
  lemma {:induction false} FinishDelivery(w: World, t: TaskId) returns (steps: seq<Step>)
    requires Inv(w) && t in w.tasks
    ensures CanRun(w, steps)
    ensures var v := Run(w, steps);
      Inv(v) && v.tasks.Keys == w.tasks.Keys - {t} && v.clients.Keys == w.clients.Keys
    decreases w.tasks[t].scanning, |w.tasks[t].held|
  {
    assert TaskOk(w, t);
    DeliveryMoves(w, t);
    hide Inv, Enabled, Apply, Run, CanRun, NextOfDelivery;
    var step := NextOfDelivery(t, w.tasks[t]);
    var v := Apply(w, step);
    StepKeeps(w, step);
    var more := [];
    if w.tasks[t].scanning || w.tasks[t].held != {} {
      more := FinishDelivery(v, t);
    } else {
      RunNothing(v);
    }
    RunFirst(w, step, more);
    steps := [step] + more;
  }

  lemma {:induction false} FinishDeliveries(w: World) returns (steps: seq<Step>)
    requires Inv(w)
    ensures CanRun(w, steps)
    ensures var v := Run(w, steps); Inv(v) && v.tasks == map[] && v.clients.Keys == w.clients.Keys
    decreases |w.tasks.Keys|
  {
    hide Inv, Enabled, Apply, Run, CanRun;
    if w.tasks == map[] {
      RunNothing(w);
      steps := [];
    } else {
      var t :| t in w.tasks;
      var first := FinishDelivery(w, t);
      var more := FinishDeliveries(Run(w, first));
      RunConcat(w, first, more);
      steps := first + more;
    }
  }

  /** The next step of a session towards its end, with the room or without. */
  function NextOfSession(c: ClientId, p: Phase): Step {
    match p
    case Created => InstallCallbacks(c)
    case Refused => ReleaseMain(c)
    case Installed => SkipRoom(c)
    case Joined => Leave(c)
    case Left => DropCallback(c)
    case CallbackDropped => ReleaseMain(c)
    case Ended => Free(c)
  }

  function StepsLeft(p: Phase): nat {
    match p
    case Created => 4
    case Installed => 3
    case Joined => 3
    case Left => 2
    case CallbackDropped => 1
    case Refused => 1
    case Ended => 0
  }

  /** Such a step can be taken when no delivery runs, and concerns this client alone. */
  lemma SessionMoves(w: World, c: ClientId)
    requires w.tasks == map[] && c in w.clients && Counted(w, c) && !w.clients[c].life.Freed?
    ensures var step := NextOfSession(c, w.clients[c].phase);
      && Enabled(w, step)
      && var v := Apply(w, step);
         && v.tasks == map[] && v.clients.Keys == w.clients.Keys
         && (forall x :: x in w.clients && x != c ==> v.clients[x] == w.clients[x])
         && (w.clients[c].phase.Ended? ==> v.clients[c].life.Freed? && v.clients[c].phase.Ended?)
         && (!w.clients[c].phase.Ended? ==> StepsLeft(v.clients[c].phase) < StepsLeft(w.clients[c].phase))
  {
    hide Without;
    assert Holders(w, c) == {};
  }

  /** Without deliveries, a session can go on to its end, and its client is freed. */
  lemma {:induction false} FreeClient(w: World, c: ClientId) returns (steps: seq<Step>)
    requires Inv(w) && w.tasks == map[] && c in w.clients
    ensures CanRun(w, steps)
    ensures var v := Run(w, steps);
      && Inv(v) && v.tasks == map[] && v.clients.Keys == w.clients.Keys
      && v.clients[c].life == Freed && forall x :: x in w.clients && x != c ==> v.clients[x] == w.clients[x]
    decreases StepsLeft(w.clients[c].phase), !w.clients[c].life.Freed?
  {
    assert Counted(w, c);
    hide Inv, Enabled, Apply, Run, CanRun, Counted, NextOfSession, StepsLeft;
    if w.clients[c].life.Freed? {
      RunNothing(w);
      steps := [];
    } else {
      SessionMoves(w, c);
      var step := NextOfSession(c, w.clients[c].phase);
      var v := Apply(w, step);
      StepKeeps(w, step);
      var more := FreeClient(v, c);
      RunFirst(w, step, more);
      steps := [step] + more;
    }
  }

  ghost function Unfreed(w: World): set<ClientId> {
    set c | c in w.clients && !w.clients[c].life.Freed?
  }

  lemma {:induction false} FreeClients(w: World) returns (steps: seq<Step>)
    requires Inv(w) && w.tasks == map[]
    ensures CanRun(w, steps)
    ensures var v := Run(w, steps); Inv(v) && v.tasks == map[] && v.clients.Keys == w.clients.Keys && Unfreed(v) == {}
    decreases |Unfreed(w)|
  {
    hide Inv, Enabled, Apply, Run, CanRun;
    if Unfreed(w) == {} {
      RunNothing(w);
      steps := [];
    } else {
      var c :| c in Unfreed(w);
      var first := FreeClient(w, c);
      var v := Run(w, first);
      assert Unfreed(v) == Unfreed(w) - {c};
      var more := FreeClients(v);
      RunConcat(w, first, more);
      steps := first + more;
    }
  }

  /** No interleaving leads to a leak: from every state that can be reached the threads
      can go on until no delivery runs, the room is empty, and every client that was ever
      created has been freed exactly once. */
  lemma EveryClientCanBeFreed(before: seq<Step>) returns (after: seq<Step>)
    requires CanRun(NOBODY, before)
    ensures CanRun(NOBODY, before + after)
    ensures var w, v := Run(NOBODY, before), Run(NOBODY, before + after);
      && v.tasks == map[] && v.room == [] && v.clients.Keys == w.clients.Keys
      && forall c :: c in v.clients ==> v.clients[c].life == Freed && v.clients[c].frees == 1
  {
    NobodyIsFine();
    RunKeeps(NOBODY, before);
    hide Enabled, Apply, Run, CanRun;
    var w := Run(NOBODY, before);
    var first := FinishDeliveries(w);
    var more := FreeClients(Run(w, first));
    RunConcat(w, first, more);
    RunConcat(NOBODY, before, first + more);
    after := first + more;
    var v := Run(w, after);
    forall c | c in v.clients
      ensures v.clients[c].life == Freed && v.clients[c].frees == 1 && !v.clients[c].phase.Joined?
    {
      assert c !in Unfreed(v) && Counted(v, c);
    }
    if v.room != [] {
      var c := SomebodyJoined(v);
      assert false;
    }
  }

  lemma SomebodyJoined(w: World) returns (c: ClientId)
    requires RoomOk(w) && w.room != []
    ensures InPhase(w, c, Joined)
  {
    c := w.room[0];
    assert c in w.room;
  }
}
