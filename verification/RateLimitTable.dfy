/**
  What the rate limit and the blocks of src/ratelimit.c mean for an address, over
  any sequence of checks, failures and releases of any addresses: they hold while
  the address keeps its slot, and an eviction forgets them.
 */
module RateLimitTable {
  import opened RateLimit

  // ----- One entry

  /** What can happen to the entry of an address. */
  datatype Visit = CheckAt(now: int) | FailAt(now: int) | ReleaseNow

  function Visited(e: Entry, v: Visit, cfg: Config): Entry {
    match v
    case CheckAt(now) => Admit(e, now, cfg).0
    case FailAt(now) => if cfg.enabled then Failed(e, now) else e
    case ReleaseNow => Released(e)
  }

  /** How many checks of a history admit. */
  function Admissions(e: Entry, visits: seq<Visit>, cfg: Config): nat
    decreases |visits|
  {
    if visits == [] then 0
    else
      var v := visits[0];
      (if v.CheckAt? && Admit(e, v.now, cfg).1 then 1 else 0) + Admissions(Visited(e, v, cfg), visits[1..], cfg)
  }

  lemma {:induction false} EntryRateBound(e: Entry, visits: seq<Visit>, cfg: Config)
    requires cfg.enabled
    requires forall k :: 0 <= k < |visits| && visits[k].CheckAt? ==> visits[k].now - e.windowStart < WINDOW
    ensures Admissions(e, visits, cfg) <= RateLeft(e, cfg)
    decreases |visits|
  {
    if visits != [] {
      EntryRateBound(Visited(e, visits[0], cfg), visits[1..], cfg);
    }
  }

  /** How many more the rate allows in the entry's window. */
  function RateLeft(e: Entry, cfg: Config): nat {
    if e.recent < cfg.maxRate then cfg.maxRate - e.recent else 0
  }

  /** How many checks in the 60 seconds from `from` on are admitted. */
  function AdmissionsIn(e: Entry, visits: seq<Visit>, cfg: Config, from: int): nat
    decreases |visits|
  {
    if visits == [] then 0
    else
      var v := visits[0];
      (if v.CheckAt? && from <= v.now < from + WINDOW && Admit(e, v.now, cfg).1 then 1 else 0)
      + AdmissionsIn(Visited(e, v, cfg), visits[1..], cfg, from)
  }

  /** Checks come in the order of the clock. */
  ghost predicate Ascending(visits: seq<Visit>) {
    forall j, k :: 0 <= j < k < |visits| && visits[j].CheckAt? && visits[k].CheckAt? ==> visits[j].now <= visits[k].now
  }

  lemma {:induction false} NoneLater(e: Entry, visits: seq<Visit>, cfg: Config, from: int)
    requires forall k :: 0 <= k < |visits| && visits[k].CheckAt? ==> visits[k].now >= from + WINDOW
    ensures AdmissionsIn(e, visits, cfg, from) == 0
    decreases |visits|
  {
    hide Admit;
    if visits != [] {
      NoneLater(Visited(e, visits[0], cfg), visits[1..], cfg, from);
    }
  }

  /** With the window opened no earlier than `from`: no more than the rate leaves in it. */
  lemma {:induction false} EntryWindowBound(e: Entry, visits: seq<Visit>, cfg: Config, from: int)
    requires cfg.enabled && Ascending(visits) && e.windowStart >= from
    ensures AdmissionsIn(e, visits, cfg, from) <= RateLeft(e, cfg)
    decreases |visits|
  {
    if visits != [] {
      if visits[0].CheckAt? && visits[0].now >= from + WINDOW {
        NoneLater(e, visits, cfg, from);
      } else {
        EntryWindowBound(Visited(e, visits[0], cfg), visits[1..], cfg, from);
      }
    }
  }

  /** From `from` on: what the open window leaves, and one more window. */
  lemma {:induction false} EntryTwoWindows(e: Entry, visits: seq<Visit>, cfg: Config, from: int)
    requires cfg.enabled && Ascending(visits) && cfg.maxRate >= 0
    requires forall k :: 0 <= k < |visits| && visits[k].CheckAt? ==> visits[k].now >= from
    ensures AdmissionsIn(e, visits, cfg, from) <= RateLeft(e, cfg) + cfg.maxRate
    decreases |visits|
  {
    if visits != [] {
      var next := Visited(e, visits[0], cfg);
      if next.windowStart >= from {
        EntryWindowBound(next, visits[1..], cfg, from);
      } else {
        EntryTwoWindows(next, visits[1..], cfg, from);
      }
    }
  }

  lemma {:induction false} EntrySixtySeconds(e: Entry, visits: seq<Visit>, cfg: Config, from: int)
    requires cfg.enabled && Ascending(visits) && cfg.maxRate >= 0 && e.recent >= 0
    ensures AdmissionsIn(e, visits, cfg, from) <= 2 * cfg.maxRate
    decreases |visits|
  {
    if visits != [] {
      if visits[0].CheckAt? && visits[0].now >= from {
        EntryTwoWindows(e, visits, cfg, from);
      } else {
        EntrySixtySeconds(Visited(e, visits[0], cfg), visits[1..], cfg, from);
      }
    }
  }

  lemma {:induction false} EntryBlockRefuses(e: Entry, visits: seq<Visit>, cfg: Config, until: int)
    requires cfg.enabled && e.blocked && e.blockUntil >= until
    requires forall k :: 0 <= k < |visits| && visits[k].CheckAt? ==> visits[k].now < until
    requires forall k :: 0 <= k < |visits| && visits[k].FailAt? ==> visits[k].now + BLOCK_DURATION >= until
    ensures Admissions(e, visits, cfg) == 0
    decreases |visits|
  {
    if visits != [] {
      EntryBlockRefuses(Visited(e, visits[0], cfg), visits[1..], cfg, until);
    }
  }

  // ----- Any operation on the table

  datatype Op = CheckOf(ip: Ip, now: int) | FailOf(ip: Ip, now: int) | ReleaseOf(ip: Ip, now: int)

  /** From table `t` to table `u`; `ok` is whether a check admitted. */
  ghost predicate Does(cfg: Config, t: seq<Entry>, op: Op, u: seq<Entry>, ok: bool) {
    match op
    case CheckOf(ip, now) => Checks(t, ip, now, cfg, u, ok)
    case FailOf(ip, now) => Fails(t, ip, now, cfg, u) && !ok
    case ReleaseOf(ip, now) => Releases(t, ip, now, u) && !ok
  }

  function VisitOf(op: Op): Visit {
    match op
    case CheckOf(_, now) => CheckAt(now)
    case FailOf(_, now) => FailAt(now)
    case ReleaseOf(_, _) => ReleaseNow
  }

  /** Whether the operation looks up an entry at all. */
  predicate LooksUp(cfg: Config, op: Op) {
    match op
    case CheckOf(_, _) => true
    case FailOf(_, _) => cfg.enabled
    case ReleaseOf(ip, _) => ip != ""
  }

  lemma DoesVisit(cfg: Config, t: seq<Entry>, op: Op, u: seq<Entry>, ok: bool) returns (mid: seq<Entry>, i: int)
    requires Does(cfg, t, op, u, ok) && LooksUp(cfg, op)
    ensures Gets(t, op.ip, op.now, mid, i) && 0 <= i < |mid| == |t|
    ensures u == mid[i := Visited(mid[i], VisitOf(op), cfg)]
    ensures op.CheckOf? ==> ok == Admit(mid[i], op.now, cfg).1
    ensures !op.CheckOf? ==> !ok
  {
    hide Admit, Failed;
    match op
    case CheckOf(ip, now) =>
      mid, i :| Gets(t, ip, now, mid, i) && 0 <= i < |mid|
        && u == mid[i := Admit(mid[i], now, cfg).0] && ok == Admit(mid[i], now, cfg).1;
    case FailOf(ip, now) =>
      mid, i :| Gets(t, ip, now, mid, i) && 0 <= i < |mid| && u == mid[i := Failed(mid[i], now)];
    case ReleaseOf(ip, now) =>
      mid, i :| Gets(t, ip, now, mid, i) && 0 <= i < |mid| && u == mid[i := Released(mid[i])];
  }

  lemma VisitedKeepsIp(e: Entry, v: Visit, cfg: Config)
    ensures Visited(e, v, cfg).ip == e.ip
  {
  }

  lemma VictimIsUnique(t: seq<Entry>, i: int, j: int)
    requires Victim(t, i) && Victim(t, j)
    ensures i == j
  {
    assert !Tracks(t, "") ==> Before(t, i, j) && Before(t, j, i);
  }

  /** The operation that takes slot `i` away from its address. */
  ghost predicate Evicts(cfg: Config, t: seq<Entry>, op: Op, i: int) {
    LooksUp(cfg, op) && !Tracks(t, op.ip) && !Tracks(t, "") && Victim(t, i)
  }

  /** What any operation does to the slot of an address: it takes the slot away
      exactly when it is for an unknown address, no slot is free, and this slot is
      the one to go; otherwise it changes the slot only if it is for this address. */
  lemma SlotStep(cfg: Config, t: seq<Entry>, op: Op, u: seq<Entry>, ok: bool, i: int)
    requires Does(cfg, t, op, u, ok) && Distinct(t) && 0 <= i < |t| && t[i].ip != ""
    ensures |u| == |t| && Distinct(u)
    ensures u[i].ip != t[i].ip <==> Evicts(cfg, t, op, i)
    ensures !Evicts(cfg, t, op, i) ==> u[i] == if op.ip == t[i].ip then Visited(t[i], VisitOf(op), cfg) else t[i]
    ensures op.CheckOf? && op.ip == t[i].ip ==> ok == Admit(t[i], op.now, cfg).1
    ensures !op.CheckOf? ==> !ok
  {
    if LooksUp(cfg, op) {
      var mid, j := DoesVisit(cfg, t, op, u, ok);
      hide Does, Admit, Visited;
      VisitedKeepsIp(mid[j], VisitOf(op), cfg);
      if !Tracks(t, op.ip) {
        assert op.ip != t[i].ip;
        UntrackedStep(t, op.ip, op.now, mid, j, i);
      } else {
        assert op.ip == t[i].ip ==> i == j;
      }
      SameIpsStayDistinct(mid, u);
    }
  }

  lemma UntrackedStep(t: seq<Entry>, ip: Ip, now: int, mid: seq<Entry>, j: int, i: int)
    requires Gets(t, ip, now, mid, j) && !Tracks(t, ip) && Distinct(t) && 0 <= i < |t| && t[i].ip != ""
    ensures |mid| == |t| && Distinct(mid) && mid[j].ip == ip
    ensures j == i <==> !Tracks(t, "") && Victim(t, i)
    ensures i != j ==> mid[i] == t[i]
  {
    if !Tracks(t, "") && Victim(t, i) {
      VictimIsUnique(t, i, j);
    }
    hide Victim;
    forall a, b | 0 <= a < b < |mid| && mid[a].ip != ""
      ensures mid[a].ip != mid[b].ip
    {
      assert a != j ==> mid[a] == t[a];
      assert b != j ==> mid[b] == t[b];
    }
  }

  lemma SameIpsStayDistinct(t: seq<Entry>, u: seq<Entry>)
    requires |t| == |u| && Distinct(t) && forall k :: 0 <= k < |t| ==> u[k].ip == t[k].ip
    ensures Distinct(u)
  {
  }

  // ----- Histories of the table

  ghost predicate IsHistory(cfg: Config, tables: seq<seq<Entry>>, ops: seq<Op>, oks: seq<bool>) {
    && |tables| == |ops| + 1 && |oks| == |ops| && Distinct(tables[0])
    && forall k :: 0 <= k < |ops| ==> Does(cfg, tables[k], ops[k], tables[k + 1], oks[k])
  }

  ghost predicate KeepsSlot(tables: seq<seq<Entry>>, i: nat, ip: Ip) {
    forall k :: 0 <= k < |tables| ==> i < |tables[k]| && tables[k][i].ip == ip
  }

  /** How many checks of an address were admitted. */
  function AdmissionsOf(ops: seq<Op>, oks: seq<bool>, ip: Ip): nat
    requires |oks| == |ops|
  {
    if ops == [] then 0
    else (if ops[0].CheckOf? && ops[0].ip == ip && oks[0] then 1 else 0) + AdmissionsOf(ops[1..], oks[1..], ip)
  }

  function VisitsOf(ops: seq<Op>, ip: Ip): seq<Visit> {
    if ops == [] then [] else (if ops[0].ip == ip then [VisitOf(ops[0])] else []) + VisitsOf(ops[1..], ip)
  }

  lemma HistoryTail(cfg: Config, tables: seq<seq<Entry>>, ops: seq<Op>, oks: seq<bool>, i: nat, ip: Ip)
    requires IsHistory(cfg, tables, ops, oks) && ops != [] && i < |tables[0]| && tables[0][i].ip == ip != ""
    ensures IsHistory(cfg, tables[1..], ops[1..], oks[1..])
    ensures KeepsSlot(tables, i, ip) ==> KeepsSlot(tables[1..], i, ip)
  {
    hide Does;
    assert Does(cfg, tables[0], ops[0], tables[0 + 1], oks[0]);
    SlotStep(cfg, tables[0], ops[0], tables[1], oks[0], i);
    var ts, os, ks := tables[1..], ops[1..], oks[1..];
    forall k | 0 <= k < |os|
      ensures Does(cfg, ts[k], os[k], ts[k + 1], ks[k])
    {
      assert Does(cfg, tables[k + 1], ops[k + 1], tables[k + 1 + 1], oks[k + 1]);
    }
  }

  /** An address keeps its slot exactly when no operation evicts it. */
  lemma {:induction false} KeepsSlotIff(cfg: Config, tables: seq<seq<Entry>>, ops: seq<Op>, oks: seq<bool>, i: nat,
                                        ip: Ip)
    requires IsHistory(cfg, tables, ops, oks) && i < |tables[0]| && tables[0][i].ip == ip != ""
    ensures KeepsSlot(tables, i, ip) <==> forall k :: 0 <= k < |ops| ==> !Evicts(cfg, tables[k], ops[k], i)
    decreases |ops|
  {
    hide Does, Evicts;
    if ops != [] {
      var ts, os := tables[1..], ops[1..];
      assert Does(cfg, tables[0], ops[0], tables[0 + 1], oks[0]);
      SlotStep(cfg, tables[0], ops[0], tables[1], oks[0], i);
      HistoryTail(cfg, tables, ops, oks, i, ip);
      if tables[1][i].ip == ip {
        KeepsSlotIff(cfg, ts, os, oks[1..], i, ip);
        assert forall k :: 0 <= k < |os| ==> ts[k] == tables[k + 1] && os[k] == ops[k + 1];
        assert forall k :: 0 < k < |ops| ==> tables[k] == ts[k - 1] && ops[k] == os[k - 1];
        assert forall k :: 0 < k < |tables| ==> tables[k] == ts[k - 1];
      }
    }
  }

  /** While an address keeps its slot, only its own operations matter to it. */
  lemma {:induction false} HistoryOfSlot(cfg: Config, tables: seq<seq<Entry>>, ops: seq<Op>, oks: seq<bool>, i: nat,
                                         ip: Ip)
    requires IsHistory(cfg, tables, ops, oks) && KeepsSlot(tables, i, ip) && ip != ""
    ensures AdmissionsOf(ops, oks, ip) == Admissions(tables[0][i], VisitsOf(ops, ip), cfg)
    decreases |ops|
  {
    hide Does, Admit, Visited, Evicts;
    if ops != [] {
      assert Does(cfg, tables[0], ops[0], tables[0 + 1], oks[0]);
      SlotStep(cfg, tables[0], ops[0], tables[1], oks[0], i);
      HistoryTail(cfg, tables, ops, oks, i, ip);
      HistoryOfSlot(cfg, tables[1..], ops[1..], oks[1..], i, ip);
      if ops[0].ip == ip {
        assert VisitsOf(ops, ip)[1..] == VisitsOf(ops[1..], ip);
      } else {
        assert VisitsOf(ops, ip) == VisitsOf(ops[1..], ip);
      }
    }
  }

  // ----- The limits of an address

  /** All checks of the address happen before a time. */
  ghost predicate ChecksBefore(ops: seq<Op>, ip: Ip, time: int) {
    forall k :: 0 <= k < |ops| && ops[k].CheckOf? && ops[k].ip == ip ==> ops[k].now < time
  }

  /** The clock of the address does not run backwards past a time. */
  ghost predicate NotBefore(ops: seq<Op>, ip: Ip, time: int) {
    forall k :: 0 <= k < |ops| && ops[k].ip == ip ==> ops[k].now >= time
  }

  lemma {:induction false} VisitTimes(ops: seq<Op>, ip: Ip, before: int, from: int)
    requires ChecksBefore(ops, ip, before)
    ensures forall j :: 0 <= j < |VisitsOf(ops, ip)| && VisitsOf(ops, ip)[j].CheckAt? ==>
      VisitsOf(ops, ip)[j].now < before
    ensures NotBefore(ops, ip, from) ==>
      (forall j :: 0 <= j < |VisitsOf(ops, ip)| && VisitsOf(ops, ip)[j].FailAt? ==> VisitsOf(ops, ip)[j].now >= from)
  {
    if ops != [] {
      VisitTimes(ops[1..], ip, before, from);
    }
  }

  /** While an address keeps its slot, no more of its checks inside the window
      are admitted than the rate has left, whatever other addresses do. */
  lemma RateBound(cfg: Config, tables: seq<seq<Entry>>, ops: seq<Op>, oks: seq<bool>, i: nat, ip: Ip)
    requires cfg.enabled && IsHistory(cfg, tables, ops, oks) && KeepsSlot(tables, i, ip) && ip != ""
    requires ChecksBefore(ops, ip, tables[0][i].windowStart + WINDOW)
    ensures AdmissionsOf(ops, oks, ip) <= RateLeft(tables[0][i], cfg)
  {
    hide Does;
    HistoryOfSlot(cfg, tables, ops, oks, i, ip);
    VisitTimes(ops, ip, tables[0][i].windowStart + WINDOW, 0);
    EntryRateBound(tables[0][i], VisitsOf(ops, ip), cfg);
  }

  /** How many checks of an address in the 60 seconds from `from` on were admitted. */
  function AdmittedIn(ops: seq<Op>, oks: seq<bool>, ip: Ip, from: int): nat
    requires |oks| == |ops|
  {
    if ops == [] then 0
    else
      var op := ops[0];
      (if op.CheckOf? && op.ip == ip && from <= op.now < from + WINDOW && oks[0] then 1 else 0)
      + AdmittedIn(ops[1..], oks[1..], ip, from)
  }

  lemma {:induction false} HistoryOfSlotIn(
    cfg: Config, tables: seq<seq<Entry>>, ops: seq<Op>, oks: seq<bool>, i: nat, ip: Ip, from: int)
    requires IsHistory(cfg, tables, ops, oks) && KeepsSlot(tables, i, ip) && ip != ""
    ensures AdmittedIn(ops, oks, ip, from) == AdmissionsIn(tables[0][i], VisitsOf(ops, ip), cfg, from)
    decreases |ops|
  {
    hide Does, Admit, Visited, Evicts;
    if ops != [] {
      assert Does(cfg, tables[0], ops[0], tables[0 + 1], oks[0]);
      SlotStep(cfg, tables[0], ops[0], tables[1], oks[0], i);
      HistoryTail(cfg, tables, ops, oks, i, ip);
      HistoryOfSlotIn(cfg, tables[1..], ops[1..], oks[1..], i, ip, from);
      if ops[0].ip == ip {
        assert VisitsOf(ops, ip)[1..] == VisitsOf(ops[1..], ip);
      } else {
        assert VisitsOf(ops, ip) == VisitsOf(ops[1..], ip);
      }
    }
  }

  /** The checks of the address come in the order of the clock. */
  ghost predicate ChecksAscend(ops: seq<Op>, ip: Ip) {
    forall j, k :: 0 <= j < k < |ops| && ops[j].CheckOf? && ops[k].CheckOf? && ops[j].ip == ops[k].ip == ip ==>
      ops[j].now <= ops[k].now
  }

  lemma {:induction false} VisitsAscend(ops: seq<Op>, ip: Ip)
    requires ChecksAscend(ops, ip)
    ensures Ascending(VisitsOf(ops, ip))
  {
    if ops != [] {
      VisitsAscend(ops[1..], ip);
      if ops[0].ip == ip && ops[0].CheckOf? {
        VisitsNotBefore(ops[1..], ip, ops[0].now);
      }
    }
  }

  lemma {:induction false} VisitsNotBefore(ops: seq<Op>, ip: Ip, from: int)
    requires forall k :: 0 <= k < |ops| && ops[k].CheckOf? && ops[k].ip == ip ==> ops[k].now >= from
    ensures forall j :: 0 <= j < |VisitsOf(ops, ip)| && VisitsOf(ops, ip)[j].CheckAt? ==>
      VisitsOf(ops, ip)[j].now >= from
  {
    if ops != [] {
      VisitsNotBefore(ops[1..], ip, from);
    }
  }

  /** While an address keeps its slot, any 60 seconds of its history admit at most
      twice the rate, whatever other addresses do. */
  lemma AnySixtySeconds(
    cfg: Config, tables: seq<seq<Entry>>, ops: seq<Op>, oks: seq<bool>, i: nat, ip: Ip, from: int)
    requires cfg.enabled && cfg.maxRate >= 0 && IsHistory(cfg, tables, ops, oks) && KeepsSlot(tables, i, ip) && ip != ""
    requires ChecksAscend(ops, ip) && tables[0][i].recent >= 0
    ensures AdmittedIn(ops, oks, ip, from) <= 2 * cfg.maxRate
  {
    hide Does;
    HistoryOfSlotIn(cfg, tables, ops, oks, i, ip, from);
    VisitsAscend(ops, ip);
    EntrySixtySeconds(tables[0][i], VisitsOf(ops, ip), cfg, from);
  }

  /** In each window, from its opening on: no more than the rate, of which the entry
      has counted what came before. */
  lemma EachWindow(
    cfg: Config, tables: seq<seq<Entry>>, ops: seq<Op>, oks: seq<bool>, i: nat, ip: Ip)
    requires cfg.enabled && IsHistory(cfg, tables, ops, oks) && KeepsSlot(tables, i, ip) && ip != ""
    requires ChecksAscend(ops, ip)
    ensures AdmittedIn(ops, oks, ip, tables[0][i].windowStart) <= RateLeft(tables[0][i], cfg)
  {
    hide Does;
    HistoryOfSlotIn(cfg, tables, ops, oks, i, ip, tables[0][i].windowStart);
    VisitsAscend(ops, ip);
    EntryWindowBound(tables[0][i], VisitsOf(ops, ip), cfg, tables[0][i].windowStart);
  }

  /** While a blocked address keeps its slot, none of its checks before the end
      of the block is admitted, whatever other addresses do. */
  lemma BlockRefuses(cfg: Config, tables: seq<seq<Entry>>, ops: seq<Op>, oks: seq<bool>, i: nat, ip: Ip, until: int)
    requires cfg.enabled && IsHistory(cfg, tables, ops, oks) && KeepsSlot(tables, i, ip) && ip != ""
    requires tables[0][i].blocked && tables[0][i].blockUntil >= until
    requires ChecksBefore(ops, ip, until) && NotBefore(ops, ip, until - BLOCK_DURATION)
    ensures AdmissionsOf(ops, oks, ip) == 0
  {
    hide Does;
    HistoryOfSlot(cfg, tables, ops, oks, i, ip);
    VisitTimes(ops, ip, until, until - BLOCK_DURATION);
    EntryBlockRefuses(tables[0][i], VisitsOf(ops, ip), cfg, until);
  }

  lemma BlockedByFirst(cfg: Config, tables: seq<seq<Entry>>, ops: seq<Op>, oks: seq<bool>, i: nat, ip: Ip)
    requires cfg.enabled && IsHistory(cfg, tables, ops, oks) && KeepsSlot(tables, i, ip) && ip != ""
    requires ops != [] && ops[0].ip == ip && !oks[0]
    requires var e := Visited(tables[0][i], VisitOf(ops[0]), cfg);
      e.blocked && e.blockUntil == ops[0].now + BLOCK_DURATION
    requires ChecksBefore(ops, ip, ops[0].now + BLOCK_DURATION) && NotBefore(ops, ip, ops[0].now)
    ensures AdmissionsOf(ops, oks, ip) == 0
  {
    hide Does, Admit, Visited;
    assert Does(cfg, tables[0], ops[0], tables[0 + 1], oks[0]);
    SlotStep(cfg, tables[0], ops[0], tables[1], oks[0], i);
    HistoryTail(cfg, tables, ops, oks, i, ip);
    BlockRefuses(cfg, tables[1..], ops[1..], oks[1..], i, ip, ops[0].now + BLOCK_DURATION);
  }

  /** One check too many in a window is refused and shuts the address out for
      five minutes, as long as it keeps its slot ... */
  lemma TooManyBlocks(cfg: Config, tables: seq<seq<Entry>>, ops: seq<Op>, oks: seq<bool>, i: nat, ip: Ip, now: int)
    requires cfg.enabled && IsHistory(cfg, tables, ops, oks) && KeepsSlot(tables, i, ip) && ip != ""
    requires ops != [] && ops[0] == CheckOf(ip, now)
    requires var e := tables[0][i];
      && e.active < cfg.maxPerIp && !(e.blocked && now < e.blockUntil)
      && (if now - e.windowStart >= WINDOW then 0 else e.recent) >= cfg.maxRate
    requires ChecksBefore(ops, ip, now + BLOCK_DURATION) && NotBefore(ops, ip, now)
    ensures AdmissionsOf(ops, oks, ip) == 0
  {
    hide Does;
    assert Does(cfg, tables[0], ops[0], tables[0 + 1], oks[0]);
    SlotStep(cfg, tables[0], ops[0], tables[1], oks[0], i);
    BlockedByFirst(cfg, tables, ops, oks, i, ip);
  }

  /** ... and so does the fifth failed authentication. */
  lemma FifthFailureBlocks(cfg: Config, tables: seq<seq<Entry>>, ops: seq<Op>, oks: seq<bool>, i: nat, ip: Ip, now: int)
    requires cfg.enabled && IsHistory(cfg, tables, ops, oks) && KeepsSlot(tables, i, ip) && ip != ""
    requires ops != [] && ops[0] == FailOf(ip, now) && tables[0][i].failures >= MAX_AUTH_FAILURES - 1
    requires ChecksBefore(ops, ip, now + BLOCK_DURATION) && NotBefore(ops, ip, now)
    ensures AdmissionsOf(ops, oks, ip) == 0
  {
    hide Does;
    assert Does(cfg, tables[0], ops[0], tables[0 + 1], oks[0]);
    SlotStep(cfg, tables[0], ops[0], tables[1], oks[0], i);
    BlockedByFirst(cfg, tables, ops, oks, i, ip);
  }

  // ----- What an eviction forgets

  /** Once evicted, an address is unknown: its next check is decided as its very
      first one would be, whatever block or count it had. */
  lemma EvictionForgets(cfg: Config, t: seq<Entry>, op: Op, u: seq<Entry>, ok: bool, i: int, later: int,
                        v: seq<Entry>, again: bool)
    requires Does(cfg, t, op, u, ok) && Distinct(t) && 0 <= i < |t| && t[i].ip != "" && Evicts(cfg, t, op, i)
    requires Does(cfg, u, CheckOf(t[i].ip, later), v, again)
    ensures !Tracks(u, t[i].ip)
    ensures again <==> cfg.maxPerIp > 0 && (cfg.enabled ==> cfg.maxRate > 0)
  {
    EvictedIsUnknown(cfg, t, op, u, ok, i);
    hide Evicts;
    var mid, j := DoesVisit(cfg, u, CheckOf(t[i].ip, later), v, again);
    AdmitIff(NewEntry(t[i].ip, later), later, cfg);
  }

  lemma EvictedIsUnknown(cfg: Config, t: seq<Entry>, op: Op, u: seq<Entry>, ok: bool, i: int)
    requires Does(cfg, t, op, u, ok) && Distinct(t) && 0 <= i < |t| && t[i].ip != "" && Evicts(cfg, t, op, i)
    ensures !Tracks(u, t[i].ip)
  {
    var mid, j := DoesVisit(cfg, t, op, u, ok);
    hide Does, Visited;
    VictimIsUnique(t, i, j);
    VisitedKeepsIp(mid[j], VisitOf(op), cfg);
    NotTracked(t, i, u, t[i].ip);
  }

  /** Some other address for each number. */
  function Other(k: nat): Ip {
    seq(k + 2, _ => 'x')
  }

  /** The check of an unknown address that takes slot `i`. */
  lemma TakesSlot(cfg: Config, t: seq<Entry>, i: int, ip: Ip, now: int) returns (u: seq<Entry>)
    requires cfg.maxPerIp >= 1 && (cfg.enabled ==> cfg.maxRate >= 1) && !Tracks(t, ip) && Victim(t, i)
    ensures Checks(t, ip, now, cfg, u, true) && |u| == |t|
    ensures u[i].ip == ip && u[i].windowStart == now && u[i].active == 1
    ensures forall k :: 0 <= k < |t| && k != i ==> u[k] == t[k]
  {
    var mid := t[i := NewEntry(ip, now)];
    hide Victim;
    assert Gets(t, ip, now, mid, i);
    u := mid[i := Admit(mid[i], now, cfg).0];
    assert Admit(mid[i], now, cfg).1;
  }

  // ----- A history in which a blocked address gets in

  lemma HistoryExtends(
    cfg: Config, tables: seq<seq<Entry>>, ops: seq<Op>, oks: seq<bool>, op: Op, u: seq<Entry>, ok: bool)
    requires IsHistory(cfg, tables, ops, oks) && Does(cfg, tables[|ops|], op, u, ok)
    ensures IsHistory(cfg, tables + [u], ops + [op], oks + [ok])
  {
    hide Does;
    var ts, os, ks := tables + [u], ops + [op], oks + [ok];
    forall k | 0 <= k < |os|
      ensures Does(cfg, ts[k], os[k], ts[k + 1], ks[k])
    {
      if k < |ops| {
        assert Does(cfg, tables[k], ops[k], tables[k + 1], oks[k]);
      }
    }
  }

  /** A failure or a release of the address in slot `i`. */
  lemma VisitsSlot(cfg: Config, t: seq<Entry>, i: int, op: Op) returns (u: seq<Entry>)
    requires Distinct(t) && 0 <= i < |t| && t[i].ip == op.ip != "" && (op.FailOf? || op.ReleaseOf?)
    ensures u == t[i := Visited(t[i], VisitOf(op), cfg)] && Does(cfg, t, op, u, false)
  {
    u := t[i := Visited(t[i], VisitOf(op), cfg)];
    hide Failed;
    assert Gets(t, op.ip, op.now, t, i);
  }

  /** "A" is blocked, without connections, in the first slot; others follow. */
  ghost predicate Filling(t: seq<Entry>, n: nat) {
    && 1 <= n <= |t| == SLOTS
    && t[0].ip == "A" && t[0].windowStart == 0 && t[0].active == 0 && t[0].blocked && t[0].blockUntil == 300
    && (forall k :: 1 <= k < n ==> t[k].ip == Other(k) && t[k].windowStart == 5 && t[k].active == 0)
    && (forall k :: n <= k < SLOTS ==> t[k].ip == "" && t[k].active == 0)
  }

  lemma OthersAreLong()
    ensures forall k: nat :: |Other(k)| == k + 2
  {
  }

  lemma FillingIsDistinct(t: seq<Entry>, n: nat)
    requires Filling(t, n)
    ensures Distinct(t) && !Tracks(t, "B") && !Tracks(t, Other(n))
  {
    OthersAreLong();
    hide Other;
  }

  /** One more address comes and goes at 5. */
  lemma FillNext(cfg: Config, t: seq<Entry>, n: nat) returns (u: seq<Entry>, v: seq<Entry>)
    requires Filling(t, n) && n < SLOTS && cfg.maxPerIp >= 1 && (cfg.enabled ==> cfg.maxRate >= 1)
    ensures Does(cfg, t, CheckOf(Other(n), 5), u, true) && Does(cfg, u, ReleaseOf(Other(n), 5), v, false)
    ensures Filling(v, n + 1)
  {
    FillingIsDistinct(t, n);
    OthersAreLong();
    hide Other, Checks;
    assert t[n].ip == "";
    assert Victim(t, n);
    u := TakesSlot(cfg, t, n, Other(n), 5);
    assert Does(cfg, t, CheckOf(Other(n), 5), u, true);
    SlotStep(cfg, t, CheckOf(Other(n), 5), u, true, 0);
    v := VisitsSlot(cfg, u, n, ReleaseOf(Other(n), 5));
  }

  /** The table with nothing but an entry for "A". */
  ghost predicate OnlyA(t: seq<Entry>, e: Entry) {
    |t| == SLOTS && t[0] == e && e.ip == "A" && forall k :: 0 < k < SLOTS ==> t[k] == NewEntry("", 0)
  }

  /** "A" is admitted at 0 and fails `n` times. */
  lemma {:induction false} FailingRun(cfg: Config, n: nat)
    returns (tables: seq<seq<Entry>>, ops: seq<Op>, oks: seq<bool>)
    requires cfg.enabled && cfg.maxPerIp >= 1 && cfg.maxRate >= 1
    ensures IsHistory(cfg, tables, ops, oks) && tables[0] == seq(SLOTS, _ => NewEntry("", 0))
    ensures OnlyA(tables[|ops|], FailedTimes(NewEntry("A", 0).(recent := 1, active := 1), n))
    decreases n
  {
    hide Failed;
    if n == 0 {
      var t0 := seq(SLOTS, _ => NewEntry("", 0));
      assert forall k :: 0 <= k < SLOTS ==> t0[k] == NewEntry("", 0);
      assert Victim(t0, 0);
      var t := TakesSlotExactly(cfg, t0, 0, "A", 0);
      HistoryExtends(cfg, [t0], [], [], CheckOf("A", 0), t, true);
      tables, ops, oks := [t0] + [t], [] + [CheckOf("A", 0)], [] + [true];
    } else {
      tables, ops, oks := FailingRun(cfg, n - 1);
      FailedKeepsIp(n);
      hide Does;
      var u := VisitsSlot(cfg, tables[|ops|], 0, FailOf("A", 0));
      HistoryExtends(cfg, tables, ops, oks, FailOf("A", 0), u, false);
      tables, ops, oks := tables + [u], ops + [FailOf("A", 0)], oks + [false];
    }
  }

  /** "A" is admitted at 0, fails five times and leaves. */
  lemma BlockedRun(cfg: Config) returns (tables: seq<seq<Entry>>, ops: seq<Op>, oks: seq<bool>)
    requires cfg.enabled && cfg.maxPerIp >= 1 && cfg.maxRate >= 1
    ensures IsHistory(cfg, tables, ops, oks) && tables[0] == seq(SLOTS, _ => NewEntry("", 0))
    ensures Filling(tables[|ops|], 1)
  {
    hide Does, FailedTimes;
    tables, ops, oks := FailingRun(cfg, 5);
    BlockedAfterFive();
    var u := VisitsSlot(cfg, tables[|ops|], 0, ReleaseOf("A", 0));
    HistoryExtends(cfg, tables, ops, oks, ReleaseOf("A", 0), u, false);
    tables, ops, oks := tables + [u], ops + [ReleaseOf("A", 0)], oks + [false];
  }

  function FailedTimes(e: Entry, n: nat): Entry {
    if n == 0 then e else Failed(FailedTimes(e, n - 1), 0)
  }

  lemma {:induction false} FailedKeepsIp(n: nat)
    ensures FailedTimes(NewEntry("A", 0).(recent := 1, active := 1), n).ip == "A"
  {
    if n > 0 {
      FailedKeepsIp(n - 1);
    }
  }

  lemma BlockedAfterFive()
    ensures FailedTimes(NewEntry("A", 0).(recent := 1, active := 1), 5) == Entry("A", 0, 1, 1, 5, true, 300)
  {
    var e := NewEntry("A", 0).(recent := 1, active := 1);
    assert FailedTimes(e, 1) == e.(failures := 1);
    assert FailedTimes(e, 2) == e.(failures := 2);
    assert FailedTimes(e, 3) == e.(failures := 3);
    assert FailedTimes(e, 4) == e.(failures := 4);
  }

  /** The first check of an address, and what its entry then is. */
  lemma TakesSlotExactly(cfg: Config, t: seq<Entry>, i: int, ip: Ip, now: int) returns (u: seq<Entry>)
    requires cfg.enabled && cfg.maxPerIp >= 1 && cfg.maxRate >= 1 && !Tracks(t, ip) && Victim(t, i)
    ensures Checks(t, ip, now, cfg, u, true) && u == t[i := NewEntry(ip, now).(recent := 1, active := 1)]
  {
    var mid := t[i := NewEntry(ip, now)];
    hide Victim;
    assert Gets(t, ip, now, mid, i);
    u := mid[i := Admit(mid[i], now, cfg).0];
    assert Admit(mid[i], now, cfg).1;
  }

  /** 255 other addresses then fill the table. */
  lemma {:induction false} FillingRun(cfg: Config, n: nat)
    returns (tables: seq<seq<Entry>>, ops: seq<Op>, oks: seq<bool>)
    requires cfg.enabled && cfg.maxPerIp >= 1 && cfg.maxRate >= 1 && 1 <= n <= SLOTS
    ensures IsHistory(cfg, tables, ops, oks) && tables[0] == seq(SLOTS, _ => NewEntry("", 0))
    ensures Filling(tables[|ops|], n)
    decreases n
  {
    hide Does, Filling;
    if n == 1 {
      tables, ops, oks := BlockedRun(cfg);
    } else {
      tables, ops, oks := FillingRun(cfg, n - 1);
      var u, v := FillNext(cfg, tables[|ops|], n - 1);
      var a, b := CheckOf(Other(n - 1), 5), ReleaseOf(Other(n - 1), 5);
      HistoryExtends(cfg, tables, ops, oks, a, u, true);
      HistoryExtends(cfg, tables + [u], ops + [a], oks + [true], b, v, false);
      tables, ops, oks := tables + [u] + [v], ops + [a] + [b], oks + [true] + [false];
    }
  }

  /** A history from the empty table in which a blocked address gets in: "A" fails
      five times at 0 and is blocked until 300, 255 others come and go, a check of "B"
      at 10 takes its slot, and its own check at 11 is admitted. */
  lemma BlockForgotten(cfg: Config) returns (tables: seq<seq<Entry>>, ops: seq<Op>, oks: seq<bool>)
    requires cfg.enabled && cfg.maxPerIp >= 1 && cfg.maxRate >= 1
    ensures IsHistory(cfg, tables, ops, oks) && tables[0] == seq(SLOTS, _ => NewEntry("", 0))
    ensures |ops| >= 2 && ops[|ops| - 2] == CheckOf("B", 10) && ops[|ops| - 1] == CheckOf("A", 11) && oks[|ops| - 1]
    ensures var t := tables[|ops| - 2];
      |t| == SLOTS && t[0].ip == "A" && t[0].blocked && t[0].blockUntil == 300
  {
    tables, ops, oks := FillingRun(cfg, SLOTS);
    var t := tables[|ops|];
    FillingIsDistinct(t, SLOTS);
    OthersAreLong();
    hide Other, Checks;
    assert t[1].active == 0;
    assert Victim(t, 0);
    var u := TakesSlot(cfg, t, 0, "B", 10);
    assert u[1] == t[1];
    assert Victim(u, 1);
    var v := TakesSlot(cfg, u, 1, "A", 11);
    assert Does(cfg, t, CheckOf("B", 10), u, true) && Does(cfg, u, CheckOf("A", 11), v, true);
    hide Does;
    HistoryExtends(cfg, tables, ops, oks, CheckOf("B", 10), u, true);
    HistoryExtends(cfg, tables + [u], ops + [CheckOf("B", 10)], oks + [true], CheckOf("A", 11), v, true);
    tables, ops, oks := tables + [u] + [v], ops + [CheckOf("B", 10)] + [CheckOf("A", 11)], oks + [true] + [true];
  }
}
