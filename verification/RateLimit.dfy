/**
  Connection accounting: the per-IP table and the global total of
  src/ratelimit.c, and every interleaving of the accept loop (src/ssh_server.c),
  failed bootstraps (src/bootstrap.c) and ending sessions (src/input.c) that
  pairs their updates.
 */
module RateLimit {

  const SLOTS := 256
  const WINDOW := 60
  const MAX_AUTH_FAILURES := 5
  const BLOCK_DURATION := 300

  /** An address as text; the empty text marks a free slot. */
  type Ip = string

  datatype Entry = Entry(ip: Ip, windowStart: int, recent: int, active: int, failures: int, blocked: bool,
                         blockUntil: int)

  datatype Config = Config(maxConnections: int, maxPerIp: int, maxRate: int, enabled: bool)

  // ----- The table, as its callers may rely on it

  function NewEntry(ip: Ip, now: int): Entry {
    Entry(ip, now, 0, 0, 0, false, 0)
  }

  ghost predicate Tracks(t: seq<Entry>, ip: Ip) {
    exists k :: 0 <= k < |t| && t[k].ip == ip
  }

  ghost predicate HasInactive(t: seq<Entry>) {
    exists k :: 0 <= k < |t| && t[k].active == 0
  }

  /** Slot `i` is taken before slot `k`: it is older, or as old and comes first. */
  predicate Before(t: seq<Entry>, i: nat, k: nat)
    requires i < |t| && k < |t|
  {
    t[i].windowStart < t[k].windowStart || (t[i].windowStart == t[k].windowStart && i <= k)
  }

  /** The slot given to a new address: the first free one; else the oldest
      without connections; else, losing its count, the oldest of all. */
  ghost predicate Victim(t: seq<Entry>, i: int) {
    && 0 <= i < |t|
    && if Tracks(t, "") then t[i].ip == "" && forall k :: 0 <= k < i ==> t[k].ip != ""
       else if HasInactive(t) then
         t[i].active == 0 && forall k :: 0 <= k < |t| && t[k].active == 0 ==> Before(t, i, k)
       else forall k :: 0 <= k < |t| ==> Before(t, i, k)
  }

  /** In plain words: an index `i` with the oldest window among its like, and the first of those. */
  lemma VictimIsFirstOldest(t: seq<Entry>, i: int)
    requires Victim(t, i) && !Tracks(t, "")
    ensures 0 <= i < |t| && (HasInactive(t) ==> t[i].active == 0)
    ensures forall k :: 0 <= k < |t| && (HasInactive(t) ==> t[k].active == 0) ==>
      t[i].windowStart <= t[k].windowStart && (k < i ==> t[i].windowStart < t[k].windowStart)
  {
    forall k | 0 <= k < |t| && (HasInactive(t) ==> t[k].active == 0)
      ensures t[i].windowStart <= t[k].windowStart && (k < i ==> t[i].windowStart < t[k].windowStart)
    {
      assert Before(t, i, k);
    }
  }

  /** `get_rate_limit_entry`: from table `t` to table `u`, with the entry at `i`. */
  ghost predicate Gets(t: seq<Entry>, ip: Ip, now: int, u: seq<Entry>, i: int) {
    && 0 <= i < |t|
    && if Tracks(t, ip) then u == t && t[i].ip == ip && forall k :: 0 <= k < i ==> t[k].ip != ip
       else Victim(t, i) && u == t[i := NewEntry(ip, now)]
  }

  /** The decision of `ratelimit_check_ip` on an entry. */
  function Admit(e: Entry, now: int, cfg: Config): (Entry, bool) {
    if e.active >= cfg.maxPerIp then (e, false)
    else if cfg.enabled && e.blocked && now < e.blockUntil then (e, false)
    else if !cfg.enabled then (e.(active := e.active + 1), true)
    else
      var unblocked := if e.blocked then e.(blocked := false, failures := 0) else e;
      var windowed := if now - e.windowStart >= WINDOW then unblocked.(windowStart := now, recent := 0) else unblocked;
      var counted := windowed.(recent := windowed.recent + 1);
      if counted.recent > cfg.maxRate then (counted.(blocked := true, blockUntil := now + BLOCK_DURATION), false)
      else (counted.(active := counted.active + 1), true)
  }

  /** `ratelimit_record_auth_failure` on an entry. */
  function Failed(e: Entry, now: int): Entry {
    var f := e.(failures := e.failures + 1);
    if f.failures >= MAX_AUTH_FAILURES then f.(blocked := true, blockUntil := now + BLOCK_DURATION) else f
  }

  function Released(e: Entry): Entry {
    if e.active > 0 then e.(active := e.active - 1) else e
  }

  ghost predicate Checks(t: seq<Entry>, ip: Ip, now: int, cfg: Config, u: seq<Entry>, ok: bool) {
    exists mid, i :: Gets(t, ip, now, mid, i) && 0 <= i < |mid|
      && u == mid[i := Admit(mid[i], now, cfg).0] && ok == Admit(mid[i], now, cfg).1
  }

  ghost predicate Releases(t: seq<Entry>, ip: Ip, now: int, u: seq<Entry>) {
    if ip == "" then u == t
    else exists mid, i :: Gets(t, ip, now, mid, i) && 0 <= i < |mid| && u == mid[i := Released(mid[i])]
  }

  ghost predicate Fails(t: seq<Entry>, ip: Ip, now: int, cfg: Config, u: seq<Entry>) {
    if !cfg.enabled then u == t
    else exists mid, i :: Gets(t, ip, now, mid, i) && 0 <= i < |mid| && u == mid[i := Failed(mid[i], now)]
  }

  // ----- The table and the total, changed in place

  class Limiter {
    const cfg: Config
    const table: array<Entry>
    var total: int

    ghost predicate Valid()
      reads this
    {
      table.Length == SLOTS
    }

    constructor (cfg: Config)
      ensures Valid() && this.cfg == cfg && total == 0 && fresh(table)
      ensures forall k :: 0 <= k < SLOTS ==> table[k] == NewEntry("", 0)
    {
      this.cfg := cfg;
      table := new Entry[SLOTS](_ => NewEntry("", 0));
      total := 0;
    }

    /** The first search loop: the entry of this address, or -1. */
    method FindIp(ip: Ip) returns (i: int)
      requires Valid()
      ensures i >= 0 ==> i < SLOTS && table[i].ip == ip && forall k :: 0 <= k < i ==> table[k].ip != ip
      ensures i < 0 ==> !Tracks(table[..], ip)
    {
      i := 0;
      while i < SLOTS
        invariant 0 <= i <= SLOTS && forall k :: 0 <= k < i ==> table[k].ip != ip
      {
        if table[i].ip == ip {
          return;
        }
        i := i + 1;
      }
      i := -1;
    }

    /** The oldest-inactive loop and, behind it, the oldest-of-all loop. */
    method FindOldest() returns (oldest: int)
      requires Valid() && !Tracks(table[..], "")
      ensures Victim(table[..], oldest)
    {
      ghost var t := table[..];
      oldest := -1;
      for i := 0 to SLOTS
        invariant -1 <= oldest < i
        invariant oldest < 0 ==> forall k :: 0 <= k < i ==> t[k].active != 0
        invariant oldest >= 0 ==> t[oldest].active == 0
        invariant oldest >= 0 ==> (forall k :: 0 <= k < i && t[k].active == 0 ==> Before(t, oldest, k))
      {
        assert table[i] == t[i];
        if table[i].active == 0 && (oldest < 0 || table[i].windowStart < table[oldest].windowStart) {
          forall k | 0 <= k < i && t[k].active == 0
            ensures Before(t, i, k)
          {
            assert Before(t, oldest, k);
          }
          oldest := i;
        }
      }
      if oldest < 0 {
        oldest := 0;
        for i := 1 to SLOTS
          invariant 0 <= oldest < i
          invariant forall k :: 0 <= k < i ==> Before(t, oldest, k)
        {
          assert table[i] == t[i] && table[oldest] == t[oldest];
          if table[i].windowStart < table[oldest].windowStart {
            forall k | 0 <= k < i
              ensures Before(t, i, k)
            {
              assert Before(t, oldest, k);
            }
            oldest := i;
          }
        }
      }
    }

    /** `get_rate_limit_entry` */
    method GetEntry(ip: Ip, now: int) returns (i: int)
      requires Valid()
      modifies table
      ensures Valid() && Gets(old(table[..]), ip, now, table[..], i)
    {
      i := FindIp(ip);
      if i >= 0 {
        assert table[..][i].ip == ip;
        return;
      }
      i := FindIp("");
      if i < 0 {
        i := FindOldest();
      } else {
        assert table[..][i].ip == "";
      }
      table[i] := NewEntry(ip, now);
    }

    /** `ratelimit_check_ip` */
    method CheckIp(ip: Ip, now: int) returns (ok: bool)
      requires Valid()
      modifies table
      ensures Valid() && Checks(old(table[..]), ip, now, cfg, table[..], ok)
    {
      hide Gets, Admit;
      var i := GetEntry(ip, now);
      GetsInRange(old(table[..]), ip, now, table[..], i);
      ghost var mid := table[..];
      ok := CheckEntry(i, now);
      assert table[..] == mid[i := Admit(mid[i], now, cfg).0];
    }

    /** The part of `ratelimit_check_ip` behind the lookup, updating the entry in place. */
    method CheckEntry(i: nat, now: int) returns (ok: bool)
      requires Valid() && i < SLOTS
      modifies table
      ensures Valid() && (table[i], ok) == Admit(old(table[i]), now, cfg)
      ensures forall k :: 0 <= k < SLOTS && k != i ==> table[k] == old(table[k])
    {
      if table[i].active >= cfg.maxPerIp {
        return false;
      }
      if cfg.enabled && table[i].blocked && now < table[i].blockUntil {
        return false;
      }
      if cfg.enabled && table[i].blocked && now >= table[i].blockUntil {
        table[i] := table[i].(blocked := false, failures := 0);
      }
      if cfg.enabled {
        if now - table[i].windowStart >= WINDOW {
          table[i] := table[i].(windowStart := now, recent := 0);
        }
        table[i] := table[i].(recent := table[i].recent + 1);
        if table[i].recent > cfg.maxRate {
          table[i] := table[i].(blocked := true, blockUntil := now + BLOCK_DURATION);
          return false;
        }
      }
      table[i] := table[i].(active := table[i].active + 1);
      ok := true;
    }

    /** `ratelimit_release_ip` */
    method ReleaseIp(ip: Ip, now: int)
      requires Valid()
      modifies table
      ensures Valid() && Releases(old(table[..]), ip, now, table[..])
    {
      hide Gets;
      if ip == "" {
        return;
      }
      var i := GetEntry(ip, now);
      GetsInRange(old(table[..]), ip, now, table[..], i);
      ghost var mid := table[..];
      table[i] := Released(table[i]);
      assert table[..] == mid[i := Released(mid[i])];
    }

    /** `ratelimit_record_auth_failure` */
    method RecordAuthFailure(ip: Ip, now: int)
      requires Valid()
      modifies table
      ensures Valid() && Fails(old(table[..]), ip, now, cfg, table[..])
    {
      hide Gets, Failed;
      if !cfg.enabled {
        return;
      }
      var i := GetEntry(ip, now);
      GetsInRange(old(table[..]), ip, now, table[..], i);
      ghost var mid := table[..];
      table[i] := Failed(table[i], now);
      assert table[..] == mid[i := Failed(mid[i], now)];
    }

    /** `ratelimit_check_and_increment_total` */
    method IncrementTotal() returns (ok: bool)
      modifies this`total
      ensures ok == (old(total) < cfg.maxConnections)
      ensures total == old(total) + (if ok then 1 else 0)
    {
      ok := total < cfg.maxConnections;
      if ok {
        total := total + 1;
      }
    }

    /** `ratelimit_decrement_total` */
    method DecrementTotal()
      modifies this`total
      ensures total == DecrementedTotal(old(total))
    {
      if total > 0 {
        total := total - 1;
      }
    }
  }

  lemma GetsInRange(t: seq<Entry>, ip: Ip, now: int, u: seq<Entry>, i: int)
    requires Gets(t, ip, now, u, i)
    ensures 0 <= i < |t| == |u|
  {
  }

  function DecrementedTotal(n: int): int {
    if n > 0 then n - 1 else n
  }

  // ----- What the limits mean for one address

  /** A check admits exactly an address below its limit that is neither blocked nor too frequent. */
  lemma AdmitIff(e: Entry, now: int, cfg: Config)
    ensures Admit(e, now, cfg).1 <==>
      && e.active < cfg.maxPerIp
      && (cfg.enabled ==> !(e.blocked && now < e.blockUntil))
      && (cfg.enabled ==> (if now - e.windowStart >= WINDOW then 0 else e.recent) < cfg.maxRate)
  {
  }

  // ----- Every interleaving of connections

  type Id = nat

  /** A connection that is counted in the total: before its address was
      checked, while its address counts it, and afterwards. */
  datatype Stage = Counted | Held | Done

  datatype Connection = Connection(ip: Ip, stage: Stage)

  datatype World = World(table: seq<Entry>, total: int, conns: map<Id, Connection>)

  datatype Step =
    | Accept(id: Id, ip: Ip)
    | Refuse
    | Check(id: Id, now: int)
    | Fail(id: Id, now: int)
    | ReleaseAddress(id: Id, now: int)
    | Depart(id: Id)

  ghost predicate InStage(w: World, id: Id, s: Stage) {
    id in w.conns && w.conns[id].stage == s
  }

  ghost function Move(w: World, id: Id, s: Stage): map<Id, Connection>
    requires id in w.conns
  {
    w.conns[id := w.conns[id].(stage := s)]
  }

  /** One locked operation of one thread. */
  ghost predicate Next(cfg: Config, w: World, step: Step, v: World) {
    match step
    case Accept(id, ip) =>
      id !in w.conns && ip != "" && w.total < cfg.maxConnections
      && v == World(w.table, w.total + 1, w.conns[id := Connection(ip, Counted)])
    case Refuse => w.total >= cfg.maxConnections && v == w
    case Check(id, now) =>
      InStage(w, id, Counted) && v.total == w.total
      && exists ok :: Checks(w.table, w.conns[id].ip, now, cfg, v.table, ok)
           && v.conns == Move(w, id, if ok then Held else Done)
    case Fail(id, now) =>
      InStage(w, id, Held) && v.total == w.total && v.conns == w.conns
      && Fails(w.table, w.conns[id].ip, now, cfg, v.table)
    case ReleaseAddress(id, now) =>
      InStage(w, id, Held) && v.total == w.total && v.conns == Move(w, id, Done)
      && Releases(w.table, w.conns[id].ip, now, v.table)
    case Depart(id) =>
      InStage(w, id, Done) && v == World(w.table, DecrementedTotal(w.total), w.conns - {id})
  }

  /** The connections an address is counted for. */
  ghost function HeldBy(conns: map<Id, Connection>, ip: Ip): set<Id> {
    set id | id in conns && conns[id].stage == Held && conns[id].ip == ip
  }

  ghost predicate Distinct(t: seq<Entry>) {
    forall i, j :: 0 <= i < j < |t| && t[i].ip != "" ==> t[i].ip != t[j].ip
  }

  ghost predicate EntryOk(cfg: Config, conns: map<Id, Connection>, e: Entry) {
    if e.ip == "" then e.active == 0
    else e.active == |HeldBy(conns, e.ip)| && e.active <= cfg.maxPerIp
  }

  ghost predicate Inv(cfg: Config, w: World) {
    && |w.table| == SLOTS && Distinct(w.table)
    && w.total == |w.conns| <= cfg.maxConnections
    && (forall k :: 0 <= k < SLOTS ==> EntryOk(cfg, w.conns, w.table[k]))
    && (forall id :: id in w.conns ==> w.conns[id].ip != "")
    && (forall id :: id in w.conns && w.conns[id].stage == Held ==> Tracks(w.table, w.conns[id].ip))
  }

  // ----- Pigeonhole: the table cannot be full of active entries

  ghost function HeldInFirst(w: World, n: nat): set<Id>
    requires n <= |w.table|
  {
    set id | id in w.conns && w.conns[id].stage == Held && exists k :: 0 <= k < n && w.table[k].ip == w.conns[id].ip
  }

  lemma NextSlotHolds(w: World, n: nat)
    requires 0 < n <= |w.table| && Distinct(w.table) && w.table[n - 1].ip != ""
    ensures |HeldInFirst(w, n)| == |HeldInFirst(w, n - 1)| + |HeldBy(w.conns, w.table[n - 1].ip)|
  {
    var a, b := HeldInFirst(w, n - 1), HeldBy(w.conns, w.table[n - 1].ip);
    assert a !! b;
    assert HeldInFirst(w, n) == a + b;
  }

  lemma {:induction false} ActiveSlotsHold(cfg: Config, w: World, n: nat)
    requires Inv(cfg, w) && n <= SLOTS
    requires forall k :: 0 <= k < n ==> w.table[k].active != 0 && w.table[k].ip != ""
    ensures |HeldInFirst(w, n)| >= n
    decreases n
  {
    if n > 0 {
      ActiveSlotsHold(cfg, w, n - 1);
      var b := HeldBy(w.conns, w.table[n - 1].ip);
      assert |b| >= 1 by {
        assert EntryOk(cfg, w.conns, w.table[n - 1]);
      }
      NextSlotHolds(w, n);
    }
  }

  /** While some connection is counted but not yet checked, and at most 256
      are allowed, a slot is free or inactive. */
  lemma SomeSlotInactive(cfg: Config, w: World, id: Id)
    requires Inv(cfg, w) && cfg.maxConnections <= SLOTS && InStage(w, id, Counted)
    ensures HasInactive(w.table)
  {
    if !HasInactive(w.table) {
      forall k | 0 <= k < SLOTS
        ensures w.table[k].active != 0 && w.table[k].ip != ""
      {
        assert EntryOk(cfg, w.conns, w.table[k]);
      }
      ActiveSlotsHold(cfg, w, SLOTS);
      var held := HeldInFirst(w, SLOTS);
      assert held <= w.conns.Keys - {id};
      SubsetSize(held, w.conns.Keys - {id});
    }
  }

  lemma {:induction false} SubsetSize(a: set<Id>, b: set<Id>)
    requires a <= b
    ensures |a| <= |b|
    decreases a
  {
    if a != {} {
      var x :| x in a;
      SubsetSize(a - {x}, b - {x});
    }
  }

  /** When the code evicts an active entry: exactly when the address is new, no
      slot is free, and every slot has connections. */
  lemma EvictsActiveIff(t: seq<Entry>, ip: Ip, now: int, u: seq<Entry>, i: int)
    requires Gets(t, ip, now, u, i) && forall k :: 0 <= k < |t| && t[k].ip == "" ==> t[k].active == 0
    ensures (u != t && t[i].active != 0) <==> !Tracks(t, ip) && !Tracks(t, "") && !HasInactive(t)
  {
    if !Tracks(t, ip) {
      assert u[i] == NewEntry(ip, now);
    }
  }

  // ----- Every step keeps the accounting

  /** Setting one entry of an address that is in the table, and moving connections accordingly. */
  lemma UpdateKeeps(cfg: Config, w: World, i: int, e: Entry, conns: map<Id, Connection>, u: seq<Entry>)
    requires |w.table| == SLOTS && Distinct(w.table) && 0 <= i < SLOTS && e.ip == w.table[i].ip != ""
    requires forall k :: 0 <= k < SLOTS && k != i ==> EntryOk(cfg, w.conns, w.table[k])
    requires EntryOk(cfg, conns, e)
    requires forall ip :: ip != e.ip ==> HeldBy(conns, ip) == HeldBy(w.conns, ip)
    requires u == w.table[i := e]
    ensures Distinct(u) && forall k :: 0 <= k < SLOTS ==> EntryOk(cfg, conns, u[k])
  {
    hide HeldBy;
    assert forall k :: 0 <= k < SLOTS ==> u[k].ip == w.table[k].ip;
    forall k | 0 <= k < SLOTS
      ensures EntryOk(cfg, conns, u[k])
    {
      if k != i {
        assert EntryOk(cfg, w.conns, w.table[k]);
        assert w.table[k].ip != "" ==> w.table[k].ip != e.ip;
      }
    }
  }

  lemma StageMoves(w: World, id: Id, s: Stage)
    requires id in w.conns
    ensures forall ip :: ip != w.conns[id].ip ==> HeldBy(Move(w, id, s), ip) == HeldBy(w.conns, ip)
    ensures w.conns[id].stage == Counted && s == Held ==>
      HeldBy(Move(w, id, s), w.conns[id].ip) == HeldBy(w.conns, w.conns[id].ip) + {id}
        && id !in HeldBy(w.conns, w.conns[id].ip)
    ensures w.conns[id].stage == Held && s == Done ==>
      HeldBy(Move(w, id, s), w.conns[id].ip) == HeldBy(w.conns, w.conns[id].ip) - {id}
        && id in HeldBy(w.conns, w.conns[id].ip)
    ensures w.conns[id].stage == Counted && s == Done ==>
      HeldBy(Move(w, id, s), w.conns[id].ip) == HeldBy(w.conns, w.conns[id].ip)
    ensures Move(w, id, s).Keys == w.conns.Keys && |Move(w, id, s)| == |w.conns|
  {
    var m := Move(w, id, s);
    assert m.Keys == w.conns.Keys;
    assert |m| == |m.Keys| && |w.conns| == |w.conns.Keys|;
  }

  /** Finding the entry of an unchecked connection's address keeps the accounting. */
  lemma GetsKeeps(cfg: Config, w: World, ip: Ip, now: int, mid: seq<Entry>, i: int)
    requires Inv(cfg, w) && ip != "" && Gets(w.table, ip, now, mid, i) && cfg.maxPerIp >= 1
    requires Tracks(w.table, ip) || HasInactive(w.table)
    ensures Inv(cfg, w.(table := mid)) && mid[i].ip == ip
  {
    if !Tracks(w.table, ip) {
      var v := w.table[i];
      assert v.active == 0 by {
        assert EntryOk(cfg, w.conns, v);
      }
      assert HeldBy(w.conns, ip) == {};
      assert v.ip != "" ==> HeldBy(w.conns, v.ip) == {} by {
        assert EntryOk(cfg, w.conns, v);
      }
      forall k | 0 <= k < SLOTS
        ensures EntryOk(cfg, w.conns, mid[k])
      {
        assert EntryOk(cfg, w.conns, w.table[k]);
      }
      forall id | id in w.conns && w.conns[id].stage == Held
        ensures Tracks(mid, w.conns[id].ip)
      {
        var k :| 0 <= k < SLOTS && w.table[k].ip == w.conns[id].ip;
        assert id in HeldBy(w.conns, w.conns[id].ip);
        assert mid[k].ip == w.conns[id].ip;
      }
    }
  }

  lemma TracksAfterUpdate(t: seq<Entry>, i: int, e: Entry, ip: Ip)
    requires 0 <= i < |t| && e.ip == t[i].ip && Tracks(t, ip)
    ensures Tracks(t[i := e], ip)
  {
    var k :| 0 <= k < |t| && t[k].ip == ip;
    assert t[i := e][k].ip == ip;
  }

  lemma EntryUpdateKeeps(cfg: Config, w: World, i: int, e: Entry, id: Id, s: Stage)
    requires Inv(cfg, w) && 0 <= i < SLOTS && id in w.conns
    requires w.table[i].ip == e.ip == w.conns[id].ip
    requires EntryOk(cfg, Move(w, id, s), e)
    requires s == Held ==> w.conns[id].stage == Counted
    ensures w.conns[id].stage != s && w.conns[id].stage != Done && s != Counted ==>
      Inv(cfg, World(w.table[i := e], w.total, Move(w, id, s)))
  {
    if w.conns[id].stage != s && w.conns[id].stage != Done && s != Counted {
      StageMoves(w, id, s);
      hide HeldBy;
      UpdateKeeps(cfg, w, i, e, Move(w, id, s), w.table[i := e]);
      forall other | other in Move(w, id, s) && Move(w, id, s)[other].stage == Held
        ensures Tracks(w.table[i := e], Move(w, id, s)[other].ip)
      {
        if other == id {
          assert w.table[i := e][i].ip == w.conns[id].ip;
        } else {
          TracksAfterUpdate(w.table, i, e, w.conns[other].ip);
        }
      }
    }
  }

  lemma AdmitFacts(e: Entry, now: int, cfg: Config)
    ensures var r := Admit(e, now, cfg);
      && r.0.ip == e.ip && r.0.active == e.active + (if r.1 then 1 else 0)
      && (r.1 ==> e.active < cfg.maxPerIp)
  {
  }

  /** A check keeps the accounting exact if and only if the address is known or some slot has no connections. */
  lemma CheckKeepsIff(cfg: Config, w: World, id: Id, now: int, v: World)
    requires Inv(cfg, w) && cfg.maxPerIp >= 1 && Next(cfg, w, Check(id, now), v)
    ensures Inv(cfg, v) <==> Tracks(w.table, w.conns[id].ip) || HasInactive(w.table)
  {
    hide Gets, Admit, Inv, HeldBy, HasInactive;
    if Tracks(w.table, w.conns[id].ip) || HasInactive(w.table) {
      CheckKeeps(cfg, w, id, now, v);
    } else {
      CheckBreaks(cfg, w, id, now, v);
    }
  }

  lemma CheckKeeps(cfg: Config, w: World, id: Id, now: int, v: World)
    requires Inv(cfg, w) && cfg.maxPerIp >= 1 && Next(cfg, w, Check(id, now), v)
    requires Tracks(w.table, w.conns[id].ip) || HasInactive(w.table)
    ensures Inv(cfg, v)
  {
    hide Gets, Admit, HasInactive;
    var ip := w.conns[id].ip;
    var ok :| Checks(w.table, ip, now, cfg, v.table, ok) && v.conns == Move(w, id, if ok then Held else Done);
    var mid, i :| Gets(w.table, ip, now, mid, i) && 0 <= i < |mid|
      && v.table == mid[i := Admit(mid[i], now, cfg).0] && ok == Admit(mid[i], now, cfg).1;
    GetsInRange(w.table, ip, now, mid, i);
    GetsKeeps(cfg, w, ip, now, mid, i);
    var m := w.(table := mid);
    assert EntryOk(cfg, m.conns, mid[i]);
    AdmitFacts(mid[i], now, cfg);
    StageMoves(m, id, if ok then Held else Done);
    hide Inv, HeldBy;
    assert Move(m, id, if ok then Held else Done) == Move(w, id, if ok then Held else Done);
    assert EntryOk(cfg, v.conns, Admit(mid[i], now, cfg).0);
    EntryUpdateKeeps(cfg, m, i, Admit(mid[i], now, cfg).0, id, if ok then Held else Done);
    assert v == World(v.table, w.total, v.conns);
  }

  /** Otherwise an address with admitted connections loses its slot. */
  lemma CheckBreaks(cfg: Config, w: World, id: Id, now: int, v: World)
    requires Inv(cfg, w) && cfg.maxPerIp >= 1 && Next(cfg, w, Check(id, now), v)
    requires !Tracks(w.table, w.conns[id].ip) && !HasInactive(w.table)
    ensures !Inv(cfg, v)
  {
    hide Admit, Gets, Inv, HasInactive;
    var ip := w.conns[id].ip;
    var ok :| Checks(w.table, ip, now, cfg, v.table, ok) && v.conns == Move(w, id, if ok then Held else Done);
    var mid, i :| Gets(w.table, ip, now, mid, i) && 0 <= i < |mid|
      && v.table == mid[i := Admit(mid[i], now, cfg).0] && ok == Admit(mid[i], now, cfg).1;
    var other := EvictedHolds(cfg, w, ip, now, mid, i);
    AdmitFacts(mid[i], now, cfg);
    NotTracked(w.table, i, v.table, w.table[i].ip);
    assert v.conns[other] == w.conns[other];
    LostBreaks(cfg, v, other);
  }

  lemma EvictedHolds(cfg: Config, w: World, ip: Ip, now: int, mid: seq<Entry>, i: int) returns (other: Id)
    requires Inv(cfg, w) && Gets(w.table, ip, now, mid, i) && !Tracks(w.table, ip) && !HasInactive(w.table)
    ensures 0 <= i < |w.table| == |mid| && Distinct(w.table) && w.table[i].ip != "" && w.table[i].ip != ip
    ensures mid == w.table[i := NewEntry(ip, now)]
    ensures other in w.conns && w.conns[other].stage == Held && w.conns[other].ip == w.table[i].ip
  {
    var lost := w.table[i];
    assert EntryOk(cfg, w.conns, lost);
    assert lost.active != 0;
    other :| other in HeldBy(w.conns, lost.ip);
  }

  lemma NotTracked(t: seq<Entry>, i: int, u: seq<Entry>, ip: Ip)
    requires 0 <= i < |t| == |u| && Distinct(t) && t[i].ip == ip != "" && u[i].ip != ip
    requires forall k :: 0 <= k < |t| && k != i ==> u[k] == t[k]
    ensures !Tracks(u, ip)
  {
  }

  lemma LostBreaks(cfg: Config, v: World, id: Id)
    requires id in v.conns && v.conns[id].stage == Held && !Tracks(v.table, v.conns[id].ip)
    ensures !Inv(cfg, v)
  {
  }

  lemma ReleaseKeeps(cfg: Config, w: World, id: Id, now: int, v: World)
    requires Inv(cfg, w) && cfg.maxPerIp >= 1 && Next(cfg, w, ReleaseAddress(id, now), v)
    ensures Inv(cfg, v)
  {
    var ip := w.conns[id].ip;
    var mid, i :| Gets(w.table, ip, now, mid, i) && 0 <= i < |mid| && v.table == mid[i := Released(mid[i])];
    assert Tracks(w.table, ip) && mid == w.table;
    assert EntryOk(cfg, w.conns, w.table[i]);
    StageMoves(w, id, Done);
    hide Inv, HeldBy, Gets;
    EntryUpdateKeeps(cfg, w, i, Released(w.table[i]), id, Done);
  }

  lemma FailKeeps(cfg: Config, w: World, id: Id, now: int, v: World)
    requires Inv(cfg, w) && cfg.maxPerIp >= 1 && Next(cfg, w, Fail(id, now), v)
    ensures Inv(cfg, v)
  {
    if cfg.enabled {
      var ip := w.conns[id].ip;
      var mid, i :| Gets(w.table, ip, now, mid, i) && 0 <= i < |mid| && v.table == mid[i := Failed(mid[i], now)];
      assert Tracks(w.table, ip) && mid == w.table;
      assert EntryOk(cfg, w.conns, w.table[i]);
      UpdateKeeps(cfg, w, i, Failed(w.table[i], now), w.conns, v.table);
      forall other | other in w.conns && w.conns[other].stage == Held
        ensures Tracks(v.table, w.conns[other].ip)
      {
        TracksAfterUpdate(w.table, i, Failed(w.table[i], now), w.conns[other].ip);
      }
    }
  }

  /** Connections without a counted address may come and go. */
  lemma ConnsKeep(cfg: Config, w: World, total: int, conns: map<Id, Connection>)
    requires Inv(cfg, w) && total == |conns| <= cfg.maxConnections
    requires forall id :: id in conns ==> conns[id].ip != ""
    requires forall id :: id in conns && conns[id].stage == Held ==> id in w.conns && w.conns[id] == conns[id]
    requires forall id :: id in w.conns && w.conns[id].stage == Held ==> id in conns && w.conns[id] == conns[id]
    ensures Inv(cfg, World(w.table, total, conns))
  {
    SameHolders(w.conns, conns);
    hide HeldBy;
    forall k | 0 <= k < SLOTS
      ensures EntryOk(cfg, conns, w.table[k])
    {
      assert EntryOk(cfg, w.conns, w.table[k]);
    }
  }

  lemma AcceptKeeps(cfg: Config, w: World, id: Id, ip: Ip)
    requires Inv(cfg, w) && id !in w.conns && ip != "" && w.total < cfg.maxConnections
    ensures Inv(cfg, World(w.table, w.total + 1, w.conns[id := Connection(ip, Counted)]))
  {
    AddedSize(w.conns, id, Connection(ip, Counted));
    ConnsKeep(cfg, w, w.total + 1, w.conns[id := Connection(ip, Counted)]);
  }

  lemma DepartKeeps(cfg: Config, w: World, id: Id)
    requires Inv(cfg, w) && InStage(w, id, Done)
    ensures Inv(cfg, World(w.table, DecrementedTotal(w.total), w.conns - {id}))
  {
    RemovedSize(w.conns, id);
    ConnsKeep(cfg, w, w.total - 1, w.conns - {id});
  }

  lemma SameHolders(a: map<Id, Connection>, b: map<Id, Connection>)
    requires forall id :: id in a && a[id].stage == Held ==> id in b && b[id] == a[id]
    requires forall id :: id in b && b[id].stage == Held ==> id in a && b[id] == a[id]
    ensures forall ip :: HeldBy(a, ip) == HeldBy(b, ip)
  {
  }

  lemma AddedSize(conns: map<Id, Connection>, id: Id, c: Connection)
    requires id !in conns
    ensures |conns[id := c]| == |conns| + 1
  {
    var after := conns[id := c];
    assert after.Keys == conns.Keys + {id};
    assert |after| == |after.Keys| && |conns| == |conns.Keys|;
  }

  lemma RemovedSize(conns: map<Id, Connection>, id: Id)
    requires id in conns
    ensures |conns - {id}| == |conns| - 1
  {
    var after := conns - {id};
    assert after.Keys == conns.Keys - {id};
    assert |after| == |after.Keys| && |conns| == |conns.Keys|;
  }

  lemma StepKeeps(cfg: Config, w: World, step: Step, v: World)
    requires Inv(cfg, w) && cfg.maxConnections <= SLOTS && cfg.maxPerIp >= 1 && Next(cfg, w, step, v)
    ensures Inv(cfg, v)
  {
    hide Inv;
    match step
    case Accept(id, ip) => AcceptKeeps(cfg, w, id, ip);
    case Refuse =>
    case Check(id, now) =>
      SomeSlotInactive(cfg, w, id);
      CheckKeeps(cfg, w, id, now, v);
    case Fail(id, now) => FailKeeps(cfg, w, id, now, v);
    case ReleaseAddress(id, now) => ReleaseKeeps(cfg, w, id, now, v);
    case Depart(id) => DepartKeeps(cfg, w, id);
  }

  ghost predicate IsRun(cfg: Config, trace: seq<World>, steps: seq<Step>) {
    && |trace| == |steps| + 1
    && trace[0] == World(seq(SLOTS, _ => NewEntry("", 0)), 0, map[])
    && forall i :: 0 <= i < |steps| ==> Next(cfg, trace[i], steps[i], trace[i + 1])
  }

  /** At every point of every interleaving, with at most 256 connections
      configured: the accounting is exact. */
  lemma {:induction false} RunKeeps(cfg: Config, trace: seq<World>, steps: seq<Step>, n: nat)
    requires 1 <= cfg.maxConnections <= SLOTS && cfg.maxPerIp >= 1 && IsRun(cfg, trace, steps) && n < |trace|
    ensures Inv(cfg, trace[n])
    decreases n
  {
    hide Next;
    if n == 0 {
      var w := trace[0];
      assert forall k :: 0 <= k < SLOTS ==> w.table[k] == NewEntry("", 0);
    } else {
      RunKeeps(cfg, trace, steps, n - 1);
      assert Next(cfg, trace[n - 1], steps[n - 1], trace[n - 1 + 1]);
      StepKeeps(cfg, trace[n - 1], steps[n - 1], trace[n]);
    }
  }

  /** The accounting in the server's terms: the total is the number of counted
      connections; each address is in at most one slot, whose count is its
      number of admitted connections and never exceeds the limit. */
  lemma AccountingIsExact(cfg: Config, trace: seq<World>, steps: seq<Step>, n: nat, ip: Ip)
    requires 1 <= cfg.maxConnections <= SLOTS && cfg.maxPerIp >= 1 && IsRun(cfg, trace, steps) && n < |trace|
      && ip != ""
    ensures var w := trace[n];
      && w.total == |w.conns| <= cfg.maxConnections
      && |HeldBy(w.conns, ip)| <= cfg.maxPerIp
      && (HeldBy(w.conns, ip) != {} ==> exists i :: 0 <= i < |w.table| && w.table[i].ip == ip)
      && forall i, j :: 0 <= i < |w.table| && 0 <= j < |w.table| && w.table[i].ip == ip ==>
           w.table[i].active == |HeldBy(w.conns, ip)| && (w.table[j].ip == ip ==> i == j)
  {
    RunKeeps(cfg, trace, steps, n);
    var w := trace[n];
    forall i | 0 <= i < SLOTS && w.table[i].ip == ip
      ensures w.table[i].active == |HeldBy(w.conns, ip)| && w.table[i].active <= cfg.maxPerIp
    {
      assert EntryOk(cfg, w.conns, w.table[i]);
    }
    if id :| id in HeldBy(w.conns, ip) {
      assert Tracks(w.table, ip);
    }
  }

  /** In such a run no entry with connections is ever evicted. */
  lemma NeverEvictsActive(cfg: Config, trace: seq<World>, steps: seq<Step>, n: nat, id: Id, now: int,
                          mid: seq<Entry>, i: int)
    requires 1 <= cfg.maxConnections <= SLOTS && cfg.maxPerIp >= 1 && IsRun(cfg, trace, steps) && n < |trace|
    requires var w := trace[n];
      id in w.conns && w.conns[id].stage != Done && Gets(w.table, w.conns[id].ip, now, mid, i)
    ensures mid == trace[n].table || trace[n].table[i].active == 0
  {
    RunKeeps(cfg, trace, steps, n);
    var w := trace[n];
    if w.conns[id].stage == Counted {
      SomeSlotInactive(cfg, w, id);
    }
    assert EntryOk(cfg, w.conns, w.table[i]);
  }
}
