/**
  When an address is admitted, told from its own past alone: by counting the
  connections, checks and failures that happened since certain moments, instead of
  by the counters and flags that src/ratelimit.c keeps in the address's slot.
 */
module RateHistory {
  import opened RateLimit
  import opened RateLimitTable

  /** How many authentication failures a stretch of visits holds. */
  function Failures(visits: seq<Visit>): nat {
    if visits == [] then 0
    else Failures(visits[..|visits| - 1]) + (if visits[|visits| - 1].FailAt? then 1 else 0)
  }

  function CheckCount(visits: seq<Visit>): nat {
    if visits == [] then 0
    else CheckCount(visits[..|visits| - 1]) + (if visits[|visits| - 1].CheckAt? then 1 else 0)
  }

  function TimeOf(v: Visit): int {
    if v.ReleaseNow? then 0 else v.now
  }

  /** What happened to an address since it got its slot, at `start`. */
  datatype Past = Past(cfg: Config, start: int, visits: seq<Visit>) {

    /** Its connections after the first `n` visits: admitted and not yet released. */
    ghost function Live(n: nat): int
      requires n <= |visits|
      decreases n, 0
    {
      if n == 0 then 0
      else if visits[n - 1].CheckAt? then Live(n - 1) + (if Admitted(n - 1) then 1 else 0)
      else if visits[n - 1].ReleaseNow? && Live(n - 1) > 0 then Live(n - 1) - 1
      else Live(n - 1)
    }

    /** A check is admitted below the concurrent limit, unless the address is shut
        out or has used up the rate of its window. */
    ghost predicate Admitted(k: nat)
      requires k < |visits|
      decreases k, 4
    {
      && visits[k].CheckAt? && Live(k) < cfg.maxPerIp
      && (cfg.enabled ==> !Shut(k, visits[k].now) && Used(k) < cfg.maxRate)
    }

    /** A check that counts towards the rate. */
    ghost predicate Counted(k: nat)
      requires k < |visits|
      decreases k, 4
    {
      visits[k].CheckAt? && Live(k) < cfg.maxPerIp && !Shut(k, visits[k].now)
    }

    /** A visit that starts a block: the fifth failure since the last block was
        lifted, or any further one; or a check beyond the rate. */
    ghost predicate Starts(k: nat)
      requires k < |visits|
      decreases k, 5
    {
      if visits[k].FailAt? then Failures(visits[Lifted(k)..k + 1]) >= 5
      else Counted(k) && Used(k) >= cfg.maxRate
    }

    /** The visit that started the block in force after the first `n` visits. */
    ghost predicate InForce(j: int, n: nat)
      requires n <= |visits|
      decreases n, 2
    {
      Lifted(n) <= j < n && Starts(j) && forall i :: j < i < n ==> !Starts(i)
    }

    /** The check that lifted the last block, or the beginning. */
    ghost function Lifted(n: nat): (r: nat)
      requires n <= |visits|
      ensures r <= n
      decreases n, 1
    {
      if n == 0 then 0
      else if Counted(n - 1) && Blocked(n - 1) then n - 1
      else Lifted(n - 1)
    }

    /** Some block is in force, whether or not its time is over. */
    ghost predicate Blocked(n: nat)
      requires n <= |visits|
      decreases n, 3
    {
      exists j :: InForce(j, n)
    }

    /** Shut out for 300 seconds from the start of the block. */
    ghost predicate Shut(n: nat, now: int)
      requires n <= |visits|
      decreases n, 3
    {
      exists j :: InForce(j, n) && now < TimeOf(visits[j]) + 300
    }

    /** The counted check that opened the current window; -1 is the slot's own beginning. */
    ghost function Window(n: nat): (w: int)
      requires n <= |visits|
      ensures -1 <= w < n && (w >= 0 ==> visits[w].CheckAt?)
      decreases n, 0
    {
      if n == 0 then -1
      else if Counted(n - 1) && visits[n - 1].now - OpenedAt(Window(n - 1)) >= 60 then n - 1
      else Window(n - 1)
    }

    function OpenedAt(w: int): int
      requires -1 <= w < |visits| && (w >= 0 ==> visits[w].CheckAt?)
    {
      if w < 0 then start else visits[w].now
    }

    /** How much of the rate a check finds used: the counted checks of a window that
        is less than 60 seconds old. */
    ghost function Used(k: nat): int
      requires k < |visits| && visits[k].CheckAt?
      decreases k, 3
    {
      if visits[k].now - OpenedAt(Window(k)) >= 60 then 0
      else CountedFrom(Window(k), k)
    }

    ghost function CountedFrom(a: int, n: nat): nat
      requires n <= |visits|
      decreases n, 0
    {
      if n == 0 || n <= a then 0 else CountedFrom(a, n - 1) + (if Counted(n - 1) then 1 else 0)
    }
  }

  // ----- The slot keeps what the past says

  ghost predicate Remembers(h: Past, n: nat, e: Entry)
    requires n <= |h.visits|
  {
    && e.active == h.Live(n)
    && (h.cfg.enabled ==>
          && e.failures == Failures(h.visits[h.Lifted(n)..n])
          && e.windowStart == h.OpenedAt(h.Window(n))
          && e.recent == h.CountedFrom(h.Window(n), n)
          && (e.blocked <==> h.Blocked(n))
          && (forall j :: h.InForce(j, n) ==> e.blockUntil == TimeOf(h.visits[j]) + 300))
  }

  lemma FreshRemembers(h: Past, ip: Ip)
    ensures Remembers(h, 0, NewEntry(ip, h.start))
  {
    assert h.visits[0..0] == [];
  }

  lemma FailuresNext(visits: seq<Visit>, a: nat, n: nat)
    requires a <= n < |visits|
    ensures Failures(visits[a..n + 1]) == Failures(visits[a..n]) + (if visits[n].FailAt? then 1 else 0)
  {
    assert visits[a..n + 1][..n - a] == visits[a..n];
  }

  /** Whether a block is in force decides the check exactly as the flag of the slot does. */
  lemma ShutIff(h: Past, n: nat, e: Entry, now: int)
    requires n <= |h.visits| && h.cfg.enabled && Remembers(h, n, e)
    ensures h.Shut(n, now) <==> e.blocked && now < e.blockUntil
  {
    if e.blocked {
      assert h.Blocked(n);
      var j :| h.InForce(j, n);
    }
  }

  /** A visit that starts a block puts it in force; any other keeps the one before,
      unless it lifts it. */
  lemma ForceNext(h: Past, n: nat, next: nat)
    requires next == n + 1 <= |h.visits|
    ensures h.Starts(n) ==> forall j :: h.InForce(j, next) <==> j == n
    ensures !h.Starts(n) && h.Lifted(next) == h.Lifted(n) ==> forall j :: h.InForce(j, next) <==> h.InForce(j, n)
    ensures !h.Starts(n) && h.Lifted(next) == n ==> forall j :: !h.InForce(j, next)
  {
  }

  /** Only checks and failures move the moments that are counted from. */
  lemma Unmoved(h: Past, n: nat, next: nat)
    requires next == n + 1 <= |h.visits| && !h.visits[n].CheckAt?
    ensures h.Lifted(next) == h.Lifted(n) && h.Window(next) == h.Window(n)
    ensures h.CountedFrom(h.Window(n), next) == h.CountedFrom(h.Window(n), n)
    ensures Failures(h.visits[h.Lifted(n)..next])
      == Failures(h.visits[h.Lifted(n)..n]) + (if h.visits[n].FailAt? then 1 else 0)
  {
    FailuresNext(h.visits, h.Lifted(n), n);
  }

  lemma FailRemembers(h: Past, n: nat, next: nat, e: Entry)
    requires next == n + 1 <= |h.visits| && h.visits[n].FailAt? && Remembers(h, n, e)
    ensures Remembers(h, next, Visited(e, h.visits[n], h.cfg))
  {
    if h.cfg.enabled {
      ForceNext(h, n, next);
      Unmoved(h, n, next);
      assert h.Starts(n) ==> h.InForce(n, next);
      assert h.Blocked(next) == (h.Starts(n) || h.Blocked(n));
    }
  }

  lemma ReleaseRemembers(h: Past, n: nat, next: nat, e: Entry)
    requires next == n + 1 <= |h.visits| && h.visits[n].ReleaseNow? && Remembers(h, n, e)
    ensures Remembers(h, next, Visited(e, h.visits[n], h.cfg))
  {
    if h.cfg.enabled {
      ForceNext(h, n, next);
      Unmoved(h, n, next);
      assert h.Blocked(next) == h.Blocked(n);
    }
  }

  /** A check that is not counted changes nothing but the number of visits. */
  lemma UncountedRemembers(h: Past, n: nat, next: nat, e: Entry)
    requires next == n + 1 <= |h.visits| && h.visits[n].CheckAt? && Remembers(h, n, e) && h.cfg.enabled
    requires !h.Counted(n)
    ensures !Admit(e, h.visits[n].now, h.cfg).1 && Remembers(h, next, Visited(e, h.visits[n], h.cfg))
  {
    ShutIff(h, n, e, h.visits[n].now);
    ForceNext(h, n, next);
    FailuresNext(h.visits, h.Lifted(n), n);
    assert h.Lifted(next) == h.Lifted(n) && h.Window(next) == h.Window(n);
    assert h.Blocked(next) == h.Blocked(n);
  }

  /** A counted check opens a window once the last one is a minute old, and is the next of
      its window. */
  lemma CountedOpens(h: Past, n: nat, next: nat)
    requires next == n + 1 <= |h.visits| && h.Counted(n)
    ensures var opens := h.visits[n].now - h.OpenedAt(h.Window(n)) >= 60;
      && h.Window(next) == (if opens then n else h.Window(n))
      && h.CountedFrom(h.Window(next), next) == (if opens then 0 else h.CountedFrom(h.Window(n), n)) + 1
      && h.Used(n) == (if opens then 0 else h.CountedFrom(h.Window(n), n))
  {
    assert h.CountedFrom(n, n) == 0;
  }

  /** It lifts the block in force, if there is one, and with it the failures; only if it
      is beyond the rate there is one afterwards. */
  lemma CountedLifts(h: Past, n: nat, next: nat)
    requires next == n + 1 <= |h.visits| && h.Counted(n)
    ensures Failures(h.visits[h.Lifted(next)..next]) == (if h.Blocked(n) then 0 else Failures(h.visits[h.Lifted(n)..n]))
    ensures h.Blocked(next) <==> h.Starts(n)
    ensures h.Starts(n) ==> forall j :: h.InForce(j, next) <==> j == n
    ensures h.Starts(n) <==> h.Used(n) >= h.cfg.maxRate
  {
    ForceNext(h, n, next);
    assert h.visits[n..n] == [];
    FailuresNext(h.visits, h.Lifted(n), n);
    FailuresNext(h.visits, n, n);
    assert h.Lifted(next) == if h.Blocked(n) then n else h.Lifted(n);
    if h.Starts(n) {
      assert h.InForce(n, next);
    } else {
      assert forall j :: !h.InForce(j, next) by {
        if !h.Blocked(n) {
          assert forall j :: !h.InForce(j, n);
        }
      }
      assert !h.Blocked(next);
    }
  }

  lemma CountedRemembers(h: Past, n: nat, next: nat, e: Entry)
    requires next == n + 1 <= |h.visits| && h.visits[n].CheckAt? && Remembers(h, n, e) && h.cfg.enabled
    requires h.Counted(n)
    ensures h.Admitted(n) <==> Admit(e, h.visits[n].now, h.cfg).1
    ensures Remembers(h, next, Visited(e, h.visits[n], h.cfg))
  {
    var now := h.visits[n].now;
    ShutIff(h, n, e, now);
    CountedOpens(h, n, next);
    CountedLifts(h, n, next);
    var used := h.Used(n);
    var u := Visited(e, h.visits[n], h.cfg);
    assert h.Live(n) < h.cfg.maxPerIp && !h.Shut(n, now);
    assert h.Admitted(n) <==> used < h.cfg.maxRate;
    assert u.recent == used + 1;
    assert u.active == h.Live(next);
    assert u.blocked == (used >= h.cfg.maxRate);
  }

  /** The slot decides a check as the past of its address says, and remembers it. */
  lemma VisitRemembers(h: Past, n: nat, next: nat, e: Entry)
    requires next == n + 1 <= |h.visits| && Remembers(h, n, e)
    ensures Remembers(h, next, Visited(e, h.visits[n], h.cfg))
    ensures h.visits[n].CheckAt? ==> (h.Admitted(n) <==> Admit(e, h.visits[n].now, h.cfg).1)
  {
    hide Remembers;
    match h.visits[n]
    case FailAt(_) => FailRemembers(h, n, next, e);
    case ReleaseNow => ReleaseRemembers(h, n, next, e);
    case CheckAt(_) =>
      if !h.cfg.enabled {
        UnlimitedRemembers(h, n, next, e);
      } else if h.Counted(n) {
        CountedRemembers(h, n, next, e);
      } else {
        UncountedRemembers(h, n, next, e);
      }
  }

  lemma UnlimitedRemembers(h: Past, n: nat, next: nat, e: Entry)
    requires next == n + 1 <= |h.visits| && h.visits[n].CheckAt? && Remembers(h, n, e) && !h.cfg.enabled
    ensures h.Admitted(n) <==> Admit(e, h.visits[n].now, h.cfg).1
    ensures Remembers(h, next, Visited(e, h.visits[n], h.cfg))
  {
  }

  // ----- Over any history of the table

  /** A history that begins with the visit that gives an address its slot, which it then keeps. */
  ghost predicate OwnsSlot(cfg: Config, tables: seq<seq<Entry>>, ops: seq<Op>, oks: seq<bool>, i: nat, ip: Ip) {
    && IsHistory(cfg, tables, ops, oks) && ip != "" && ops != []
    && ops[0].ip == ip && LooksUp(cfg, ops[0]) && !Tracks(tables[0], ip)
    && KeepsSlot(tables[1..], i, ip)
  }

  /** What happened to the address in it. */
  function PastOf(cfg: Config, ops: seq<Op>, ip: Ip): Past
    requires ops != []
  {
    Past(cfg, ops[0].now, VisitsOf(ops, ip))
  }

  lemma {:induction false} VisitsOfConcat(a: seq<Op>, b: seq<Op>, ip: Ip)
    ensures VisitsOf(a + b, ip) == VisitsOf(a, ip) + VisitsOf(b, ip)
    decreases |a|
  {
    hide VisitOf;
    if a == [] {
      assert a + b == b;
    } else {
      VisitsOfConcat(a[1..], b, ip);
      var first := if a[0].ip == ip then [VisitOf(a[0])] else [];
      assert (a + b)[1..] == a[1..] + b && (a + b)[0] == a[0];
      assert VisitsOf(a + b, ip) == first + VisitsOf(a[1..] + b, ip);
      assert VisitsOf(a, ip) == first + VisitsOf(a[1..], ip);
    }
  }

  /** The number of visits before the `k`-th operation, and which visit that operation is. */
  lemma VisitAt(ops: seq<Op>, ip: Ip, k: nat)
    requires k < |ops|
    ensures var n, vs := |VisitsOf(ops[..k], ip)|, VisitsOf(ops, ip);
      && |VisitsOf(ops[..k + 1], ip)| == n + (if ops[k].ip == ip then 1 else 0) <= |vs|
      && (ops[k].ip == ip ==> vs[n] == VisitOf(ops[k]))
  {
    var one := [ops[k]];
    assert one[1..] == [];
    assert VisitsOf(one, ip) == if ops[k].ip == ip then [VisitOf(ops[k])] else [];
    assert ops[..k + 1] == ops[..k] + one;
    assert ops == ops[..k + 1] + ops[k + 1..];
    VisitsOfConcat(ops[..k], one, ip);
    VisitsOfConcat(ops[..k + 1], ops[k + 1..], ip);
  }

  lemma FirstVisit(cfg: Config, t: seq<Entry>, op: Op, u: seq<Entry>, ok: bool, i: nat)
    requires Does(cfg, t, op, u, ok) && LooksUp(cfg, op) && op.ip != "" && !Tracks(t, op.ip) && Distinct(t)
    requires i < |u| && u[i].ip == op.ip
    ensures Distinct(u) && u[i] == Visited(NewEntry(op.ip, op.now), VisitOf(op), cfg)
    ensures op.CheckOf? ==> ok == Admit(NewEntry(op.ip, op.now), op.now, cfg).1
  {
    var mid, j := DoesVisit(cfg, t, op, u, ok);
    hide Does, Visited, Admit, Victim;
    VisitedKeepsIp(mid[j], VisitOf(op), cfg);
    assert forall k :: 0 <= k < |t| && k != j ==> mid[k] == t[k] && mid[k].ip != op.ip;
    assert i == j;
    assert Distinct(mid) by {
      forall a, b | 0 <= a < b < |mid| && mid[a].ip != ""
        ensures mid[a].ip != mid[b].ip
      {
      }
    }
    SameIpsStayDistinct(mid, u);
  }

  /** After each operation the slot remembers the past of its address. */
  lemma {:induction false} SlotRemembers(cfg: Config, tables: seq<seq<Entry>>, ops: seq<Op>, oks: seq<bool>, i: nat,
                                         ip: Ip, k: nat)
    requires OwnsSlot(cfg, tables, ops, oks, i, ip) && 0 < k <= |ops|
    ensures var n := |VisitsOf(ops[..k], ip)|;
      n <= |VisitsOf(ops, ip)| && i < |tables[k]| && Distinct(tables[k]) && tables[k][i].ip == ip
      && Remembers(PastOf(cfg, ops, ip), n, tables[k][i])
    decreases k
  {
    hide Does, Remembers, Visited, Admit, Evicts;
    var h := PastOf(cfg, ops, ip);
    VisitAt(ops, ip, k - 1);
    assert Does(cfg, tables[k - 1], ops[k - 1], tables[k - 1 + 1], oks[k - 1]);
    assert tables[1..][k - 1] == tables[k];
    var n := |VisitsOf(ops[..k - 1], ip)|;
    if k == 1 {
      assert ops[..0] == [];
      FirstVisit(cfg, tables[0], ops[0], tables[1], oks[0], i);
      FreshRemembers(h, ip);
      VisitRemembers(h, 0, 1, NewEntry(ip, h.start));
    } else {
      SlotRemembers(cfg, tables, ops, oks, i, ip, k - 1);
      SlotStep(cfg, tables[k - 1], ops[k - 1], tables[k], oks[k - 1], i);
      if ops[k - 1].ip == ip {
        VisitRemembers(h, n, n + 1, tables[k - 1][i]);
      }
    }
  }

  /** Every check of an address, from the one that gave it its slot and as long as it
      keeps the slot, is admitted if and only if its own past says so. */
  lemma AdmittedIff(cfg: Config, tables: seq<seq<Entry>>, ops: seq<Op>, oks: seq<bool>, i: nat, ip: Ip, k: nat)
    requires OwnsSlot(cfg, tables, ops, oks, i, ip) && k < |ops| && ops[k].CheckOf? && ops[k].ip == ip
    ensures var n := |VisitsOf(ops[..k], ip)|;
      n < |VisitsOf(ops, ip)| && (oks[k] <==> PastOf(cfg, ops, ip).Admitted(n))
  {
    hide Does, Remembers, Visited, Admit, Evicts;
    var h := PastOf(cfg, ops, ip);
    var n := |VisitsOf(ops[..k], ip)|;
    VisitAt(ops, ip, k);
    assert Does(cfg, tables[k], ops[k], tables[k + 1], oks[k]);
    if k == 0 {
      assert ops[..0] == [];
      assert tables[1..][0] == tables[1];
      FirstVisit(cfg, tables[0], ops[0], tables[1], oks[0], i);
      FreshRemembers(h, ip);
      VisitRemembers(h, 0, 1, NewEntry(ip, h.start));
    } else {
      SlotRemembers(cfg, tables, ops, oks, i, ip, k);
      SlotStep(cfg, tables[k], ops[k], tables[k + 1], oks[k], i);
      VisitRemembers(h, n, n + 1, tables[k][i]);
    }
  }

  // ----- An address that gives no reason

  predicate WithinMinute(v: Visit, w: Visit) {
    v.CheckAt? && w.CheckAt? && w.now - v.now < 60
  }

  /** Fewer than five failures, and no 60 seconds with more checks than the rate. */
  ghost predicate Untroubled(h: Past) {
    && Failures(h.visits) < 5
    && (forall k :: 0 <= k < |h.visits| && h.visits[k].CheckAt? ==> h.visits[k].now >= h.start)
    && (forall a, k :: 0 <= a <= k < |h.visits| && WithinMinute(h.visits[a], h.visits[k]) ==>
          CheckCount(h.visits[a..k + 1]) <= h.cfg.maxRate)
  }

  lemma {:induction false} FailuresWithin(visits: seq<Visit>, a: nat, b: nat)
    requires a <= b <= |visits|
    ensures Failures(visits[a..b]) <= Failures(visits)
    decreases |visits|
  {
    if b < |visits| {
      FailuresWithin(visits[..|visits| - 1], a, b);
      assert visits[..|visits| - 1][a..b] == visits[a..b];
    } else if a < b {
      FailuresWithin(visits[..|visits| - 1], a, b - 1);
      assert visits[..b - 1][a..b - 1] == visits[a..b - 1];
      FailuresNext(visits, a, b - 1);
    }
  }

  lemma {:induction false} CountedAreChecks(h: Past, a: nat, n: nat)
    requires a <= n <= |h.visits|
    ensures h.CountedFrom(a, n) <= CheckCount(h.visits[a..n])
    decreases n
  {
    if a < n {
      CountedAreChecks(h, a, n - 1);
      assert h.visits[a..n][..n - 1 - a] == h.visits[a..n - 1];
    }
  }

  lemma {:induction false} CountedFromStart(h: Past, a: nat, n: nat)
    requires a <= n <= |h.visits| && forall k :: 0 <= k < a ==> !h.visits[k].CheckAt?
    ensures h.CountedFrom(-1, n) == h.CountedFrom(a, n)
    decreases n
  {
    if n > 0 {
      CountedFromStart(h, if a < n then a else n - 1, n - 1);
    }
  }

  lemma FirstCheck(visits: seq<Visit>, k: nat) returns (a: nat)
    requires k < |visits| && visits[k].CheckAt?
    ensures a <= k && visits[a].CheckAt? && forall j :: 0 <= j < a ==> !visits[j].CheckAt?
  {
    a := 0;
    while !visits[a].CheckAt?
      invariant a <= k && forall j :: 0 <= j < a ==> !visits[j].CheckAt?
      decreases k - a
    {
      a := a + 1;
    }
  }

  /** Counted checks from a check on, less than a minute before this one. */
  lemma RateIsLeftFrom(h: Past, a: nat, k: nat)
    requires Untroubled(h) && a <= k < |h.visits| && WithinMinute(h.visits[a], h.visits[k])
    ensures h.CountedFrom(a, k) < h.cfg.maxRate
  {
    CountedAreChecks(h, a, k);
    assert h.visits[a..k + 1][..k - a] == h.visits[a..k];
  }

  /** Such an address never uses up its rate. */
  lemma RateIsLeft(h: Past, k: nat)
    requires Untroubled(h) && k < |h.visits| && h.visits[k].CheckAt? && h.cfg.maxRate >= 1
    ensures h.Used(k) < h.cfg.maxRate
  {
    var w := h.Window(k);
    if h.visits[k].now - h.OpenedAt(w) < 60 {
      if w < 0 {
        var a := FirstCheck(h.visits, k);
        assert h.visits[a].now >= h.start;
        CountedFromStart(h, a, k);
        RateIsLeftFrom(h, a, k);
      } else {
        RateIsLeftFrom(h, w, k);
      }
    }
  }

  lemma NeverStarts(h: Past, k: nat)
    requires Untroubled(h) && k < |h.visits| && h.cfg.maxRate >= 1
    ensures !h.Starts(k)
  {
    if h.visits[k].FailAt? {
      FailuresWithin(h.visits, h.Lifted(k), k + 1);
    } else if h.visits[k].CheckAt? {
      RateIsLeft(h, k);
    }
  }

  /** ... so each of its checks is admitted exactly when it is below the concurrent limit. */
  lemma UntroubledIff(h: Past, k: nat)
    requires Untroubled(h) && k < |h.visits| && h.visits[k].CheckAt? && h.cfg.maxRate >= 1
    ensures h.Admitted(k) <==> h.Live(k) < h.cfg.maxPerIp
  {
    RateIsLeft(h, k);
    forall j
      ensures !h.InForce(j, k)
    {
      if 0 <= j < k {
        NeverStarts(h, j);
      }
    }
    assert !h.Shut(k, h.visits[k].now);
  }

  /** The same in the table, whatever other addresses do. */
  lemma UntroubledIsAdmitted(
    cfg: Config, tables: seq<seq<Entry>>, ops: seq<Op>, oks: seq<bool>, i: nat, ip: Ip, k: nat)
    requires OwnsSlot(cfg, tables, ops, oks, i, ip) && k < |ops| && ops[k].CheckOf? && ops[k].ip == ip
    requires Untroubled(PastOf(cfg, ops, ip)) && cfg.maxRate >= 1
    ensures var n := |VisitsOf(ops[..k], ip)|;
      n < |VisitsOf(ops, ip)| && (oks[k] <==> PastOf(cfg, ops, ip).Live(n) < cfg.maxPerIp)
  {
    hide OwnsSlot, Untroubled;
    AdmittedIff(cfg, tables, ops, oks, i, ip, k);
    VisitAt(ops, ip, k);
    UntroubledIff(PastOf(cfg, ops, ip), |VisitsOf(ops[..k], ip)|);
  }
}
