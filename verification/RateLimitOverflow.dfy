/**
  Why the accounting of src/ratelimit.c needs at most 256 connections: a run of
  257 connections from different addresses that evicts an address with one.
 */
module RateLimitOverflow {
  import opened RateLimit
  import opened RateLimitTable

  /** What a configuration must allow for anyone to be admitted. */
  ghost predicate Admits(cfg: Config) {
    cfg.maxPerIp >= 1 && (cfg.enabled ==> cfg.maxRate >= 1)
  }

  function Start(): World {
    World(seq(SLOTS, _ => NewEntry("", 0)), 0, map[])
  }

  /** After `n` connections from different addresses, all at time 0 and all admitted. */
  ghost predicate Filled(w: World, n: nat) {
    && n <= |w.table| == SLOTS && w.total == n
    && (forall k :: 0 <= k < n ==> w.table[k].ip == Other(k) && w.table[k].active == 1)
    && (forall k :: 0 <= k < SLOTS ==> w.table[k].windowStart == 0)
    && (forall k :: n <= k < SLOTS ==> w.table[k].ip == "")
    && (forall id: Id :: id in w.conns <==> id < n)
    && (forall id :: id in w.conns ==> w.conns[id] == Connection(Other(id), Held))
  }

  lemma OthersDiffer()
    ensures forall j: nat, k: nat :: Other(j) == Other(k) ==> j == k
    ensures forall k: nat :: Other(k) != ""
  {
    assert forall k: nat :: |Other(k)| == k + 2;
  }

  /** The next connection: accepted, checked, admitted. */
  lemma NextConnection(cfg: Config, w: World, n: nat, i: int) returns (mid: World, v: World)
    requires Admits(cfg) && Filled(w, n) && n < cfg.maxConnections && Victim(w.table, i)
    ensures Next(cfg, w, Accept(n, Other(n)), mid) && Next(cfg, mid, Check(n, 0), v)
    ensures |v.table| == SLOTS && v.total == n + 1 && v.conns == w.conns[n := Connection(Other(n), Held)]
    ensures v.table[i].ip == Other(n) && v.table[i].windowStart == 0 && v.table[i].active == 1
    ensures forall k :: 0 <= k < SLOTS && k != i ==> v.table[k] == w.table[k]
  {
    OthersDiffer();
    mid := World(w.table, w.total + 1, w.conns[n := Connection(Other(n), Counted)]);
    assert !Tracks(w.table, Other(n));
    hide Victim, Filled, Other;
    var u := TakesSlot(cfg, w.table, i, Other(n), 0);
    v := World(u, mid.total, Move(mid, n, Held));
    hide Checks;
    assert Checks(mid.table, mid.conns[n].ip, 0, cfg, v.table, true)
      && v.conns == Move(mid, n, if true then Held else Done);
  }

  lemma FilledVictim(w: World, n: nat)
    requires Filled(w, n)
    ensures Victim(w.table, if n < SLOTS then n else 0)
  {
    OthersDiffer();
    hide Other;
    if n < SLOTS {
      assert w.table[n].ip == "";
    }
  }

  lemma FilledNext(w: World, n: nat, v: World)
    requires Filled(w, n) && n < SLOTS
    requires |v.table| == SLOTS && v.total == n + 1 && v.conns == w.conns[n := Connection(Other(n), Held)]
    requires v.table[n].ip == Other(n) && v.table[n].windowStart == 0 && v.table[n].active == 1
    requires forall k :: 0 <= k < SLOTS && k != n ==> v.table[k] == w.table[k]
    ensures Filled(v, n + 1)
  {
  }

  lemma RunExtends(cfg: Config, trace: seq<World>, steps: seq<Step>, a: Step, mid: World, b: Step, v: World)
    requires IsRun(cfg, trace, steps)
    requires Next(cfg, trace[|steps|], a, mid) && Next(cfg, mid, b, v)
    ensures IsRun(cfg, trace + [mid, v], steps + [a, b])
  {
    hide Next;
    var t, s := trace + [mid, v], steps + [a, b];
    forall i | 0 <= i < |s|
      ensures Next(cfg, t[i], s[i], t[i + 1])
    {
      if i < |steps| {
        assert Next(cfg, trace[i], steps[i], trace[i + 1]);
      }
    }
  }

  /** Up to 256 such connections fill the table. */
  lemma {:induction false} FillingRun(cfg: Config, n: nat) returns (trace: seq<World>, steps: seq<Step>)
    requires Admits(cfg) && n <= SLOTS && n <= cfg.maxConnections
    ensures IsRun(cfg, trace, steps) && Filled(trace[|steps|], n)
    decreases n
  {
    hide Next;
    if n == 0 {
      trace, steps := [Start()], [];
      assert forall k :: 0 <= k < SLOTS ==> Start().table[k] == NewEntry("", 0);
      assert Filled(Start(), 0);
    } else {
      hide Filled;
      trace, steps := FillingRun(cfg, n - 1);
      var w := trace[|steps|];
      FilledVictim(w, n - 1);
      var mid, v := NextConnection(cfg, w, n - 1, n - 1);
      FilledNext(w, n - 1, v);
      RunExtends(cfg, trace, steps, Accept(n - 1, Other(n - 1)), mid, Check(n - 1, 0), v);
      trace, steps := trace + [mid, v], steps + [Accept(n - 1, Other(n - 1)), Check(n - 1, 0)];
      assert trace[|steps|] == v;
    }
  }

  /** The 257th takes the slot of the first, which still has its connection. */
  lemma OverflowRun(cfg: Config) returns (trace: seq<World>, steps: seq<Step>)
    requires Admits(cfg) && cfg.maxConnections > SLOTS
    ensures IsRun(cfg, trace, steps) && |steps| >= 1
    ensures var before, after := trace[|steps| - 1], trace[|steps|];
      && 0 in before.conns && 0 in after.conns
      && before.conns[0] == Connection(Other(0), Held) && Tracks(before.table, Other(0))
      && after.conns[0] == Connection(Other(0), Held) && !Tracks(after.table, Other(0))
      && !Inv(cfg, after)
  {
    hide Next;
    trace, steps := FillingRun(cfg, SLOTS);
    var w := trace[|steps|];
    FilledVictim(w, SLOTS);
    var mid, v := NextConnection(cfg, w, SLOTS, 0);
    RunExtends(cfg, trace, steps, Accept(SLOTS, Other(SLOTS)), mid, Check(SLOTS, 0), v);
    trace, steps := trace + [mid, v], steps + [Accept(SLOTS, Other(SLOTS)), Check(SLOTS, 0)];
    OthersDiffer();
    hide Other;
    assert w.table[0].ip == Other(0);
    assert !Tracks(v.table, Other(0));
    AcceptKeepsTable(cfg, w, SLOTS, Other(SLOTS), mid);
    LostBreaks(cfg, v, 0);
  }

  lemma AcceptKeepsTable(cfg: Config, w: World, id: Id, ip: Ip, v: World)
    requires Next(cfg, w, Accept(id, ip), v)
    ensures v.table == w.table && v.conns == w.conns[id := Connection(ip, Counted)]
  {
  }

  ghost predicate AlwaysExact(cfg: Config) {
    forall trace, steps, n :: IsRun(cfg, trace, steps) && 0 <= n < |trace| ==> Inv(cfg, trace[n])
  }

  /** The accounting is exact in every run if and only if at most 256 connections are allowed. */
  lemma ExactIff(cfg: Config)
    requires Admits(cfg) && cfg.maxConnections >= 1
    ensures AlwaysExact(cfg) <==> cfg.maxConnections <= SLOTS
  {
    hide Inv, Next, IsRun;
    if cfg.maxConnections <= SLOTS {
      forall trace, steps, n | IsRun(cfg, trace, steps) && 0 <= n < |trace|
        ensures Inv(cfg, trace[n])
      {
        RunKeeps(cfg, trace, steps, n);
      }
    } else {
      var trace, steps := OverflowRun(cfg);
      RunLength(cfg, trace, steps);
      assert !Inv(cfg, trace[|steps|]);
    }
  }

  lemma RunLength(cfg: Config, trace: seq<World>, steps: seq<Step>)
    requires IsRun(cfg, trace, steps)
    ensures |trace| == |steps| + 1
  {
  }
}
