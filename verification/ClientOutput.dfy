/**
  The output half of src/client.c: a bounded outbox per client, flushed against
  the peer's SSH window (RFC 4254, section 5.2).  Window sizes and the results
  of channel writes are whatever the outside makes them.
 */
module ClientOutput {
  import opened Bytes

  const CAPACITY := 131072
  const FLUSH_BUDGET := 32768
  const MAX_CHUNK := 32768

  // ----- The channel, and the calls made on it

  /** A look at the window, or a write of `len` bytes and its result. */
  datatype Call = Window(size: nat) | Write(len: nat, sent: int)

  /** The first `k` bytes of the data have reached the channel. */
  ghost predicate Carried(before: seq<byte>, data: seq<byte>, k: int, after: seq<byte>) {
    0 <= k <= |data| && after == before + data[..k]
  }

  /** Each write offers at least one byte, at most a packet, and no more than the
      window that was seen just before. */
  ghost predicate Polite(log: seq<Call>) {
    forall i :: 0 <= i < |log| && log[i].Write? ==>
      i > 0 && log[i - 1].Window? && 0 < log[i].len <= log[i - 1].size && log[i].len <= MAX_CHUNK
  }

  /** The last look found the window closed. */
  predicate Stalled(calls: seq<Call>) {
    calls != [] && calls[|calls| - 1] == Window(0)
  }

  /** The last write failed. */
  predicate Broke(calls: seq<Call>) {
    calls != [] && calls[|calls| - 1].Write? && calls[|calls| - 1].sent <= 0
  }

  /** How many bytes the writes took. */
  function SentIn(calls: seq<Call>): int {
    if calls == [] then 0
    else
      var last := calls[|calls| - 1];
      SentIn(calls[..|calls| - 1]) + (if last.Write? && last.sent > 0 then last.sent else 0)
  }

  /** Each write offers as much of `n` bytes as the packet, the window and the budget allow. */
  ghost predicate Greedy(calls: seq<Call>, n: nat, budget: nat) {
    forall i :: 0 <= i < |calls| && calls[i].Write? ==>
      i > 0 && calls[i - 1].Window? && IsOffer(calls[i].len, calls[i - 1].size, n, budget, SentIn(calls[..i]))
  }

  /** The least of the packet, the window, what remains, and what the budget leaves. */
  predicate IsOffer(len: nat, window: nat, n: nat, budget: nat, sent: int) {
    var most := Min(Min(MAX_CHUNK, window), n - sent);
    len == if budget > 0 then Min(most, budget - sent) else most
  }

  lemma LooksNext(base: seq<Call>, calls: seq<Call>, window: nat, n: nat, budget: nat)
    requires Greedy(calls, n, budget) && Polite(base + calls)
    ensures var all := calls + [Window(window)];
      && Greedy(all, n, budget) && SentIn(all) == SentIn(calls)
      && base + all == base + calls + [Window(window)] && Polite(base + all)
  {
    hide Greedy, Polite, IsOffer;
    assert (calls + [Window(window)])[..|calls|] == calls;
    GreedyNext(calls, Window(window), n, budget);
    PoliteNext(base + calls, Window(window));
    Assoc(base, calls, [Window(window)]);
  }

  lemma WritesNext(base: seq<Call>, calls: seq<Call>, len: nat, sent: int, n: nat, budget: nat)
    requires Greedy(calls, n, budget) && Polite(base + calls) && calls != [] && calls[|calls| - 1].Window?
    requires len > 0 && IsOffer(len, calls[|calls| - 1].size, n, budget, SentIn(calls))
    ensures var all := calls + [Write(len, sent)];
      && Greedy(all, n, budget) && SentIn(all) == SentIn(calls) + (if sent > 0 then sent else 0)
      && base + all == base + calls + [Write(len, sent)] && Polite(base + all)
  {
    OfferFits(len, calls[|calls| - 1].size, n, budget, SentIn(calls));
    hide Greedy, Polite, IsOffer;
    assert (calls + [Write(len, sent)])[..|calls|] == calls;
    assert (base + calls)[|base + calls| - 1] == calls[|calls| - 1];
    GreedyNext(calls, Write(len, sent), n, budget);
    PoliteNext(base + calls, Write(len, sent));
    Assoc(base, calls, [Write(len, sent)]);
  }

  lemma GreedyNext(calls: seq<Call>, c: Call, n: nat, budget: nat)
    requires Greedy(calls, n, budget)
    requires c.Write? ==> calls != [] && calls[|calls| - 1].Window?
    requires c.Write? ==> IsOffer(c.len, calls[|calls| - 1].size, n, budget, SentIn(calls))
    ensures Greedy(calls + [c], n, budget)
  {
    hide IsOffer, SentIn;
    var all := calls + [c];
    forall i | 0 <= i < |all| && all[i].Write?
      ensures i > 0 && all[i - 1].Window? && IsOffer(all[i].len, all[i - 1].size, n, budget, SentIn(all[..i]))
    {
      assert all[..i] == calls[..i];
      assert calls[..|calls|] == calls;
    }
  }

  lemma PoliteNext(log: seq<Call>, c: Call)
    requires Polite(log)
    requires c.Write? ==>
      log != [] && log[|log| - 1].Window? && 0 < c.len <= log[|log| - 1].size && c.len <= MAX_CHUNK
    ensures Polite(log + [c])
  {
  }

  lemma OfferFits(len: nat, window: nat, n: nat, budget: nat, sent: int)
    requires IsOffer(len, window, n, budget, sent)
    ensures len <= window && len <= MAX_CHUNK
  {
  }

  lemma NothingCalled(base: seq<Call>, n: nat, budget: nat)
    ensures base + [] == base && Greedy([], n, budget) && SentIn([]) == 0
  {
  }

  lemma SinceIs(base: seq<Call>, calls: seq<Call>)
    ensures base <= base + calls && Since(base, base + calls) == calls
  {
  }

  /** The calls that turned the first log into the second. */
  function Since(before: seq<Call>, after: seq<Call>): seq<Call> {
    if |before| <= |after| then after[|before|..] else []
  }

  class Channel {
    ghost var stream: seq<byte>
    ghost var log: seq<Call>

    /** `ssh_channel_window_size` */
    method WindowSize() returns (window: nat)
      modifies this`log
      ensures log == old(log) + [Window(window)]
    {
      window := *;
      log := log + [Window(window)];
    }

    /** `ssh_channel_write`: writes some of the bytes, or fails having written some of them. */
    method Write(chunk: seq<byte>) returns (sent: int)
      modifies this
      ensures sent <= |chunk| && log == old(log) + [Call.Write(|chunk|, sent)]
      ensures exists k :: Carried(old(stream), chunk, k, stream) && (sent > 0 ==> k == sent)
    {
      var k: nat :| k <= |chunk|;
      var failed: bool := *;
      ghost var was := stream;
      stream := stream + chunk[..k];
      sent := if failed then -1 else k;
      log := log + [Call.Write(|chunk|, sent)];
      assert Carried(was, chunk, k, stream);
    }
  }

  // ----- What a client's output does, whatever the channel does

  /** Output as seen from outside: whether the client is connected, what is
      queued, what went over the channel, what callers were accepted for, and the
      calls made on the channel. */
  datatype Output = Output(
    connected: bool, pending: seq<byte>, stream: seq<byte>, accepted: seq<byte>, log: seq<Call>)

  const EMPTY := Output(true, [], [], [], [])

  /** A prefix of the queue goes out: all of it, or the whole budget, or what went
      before the window closed.  Only a failing write disconnects; it may leave a
      part of the queue on the channel. */
  ghost predicate Flushed(s: Output, t: Output, budget: nat) {
    && t.accepted == s.accepted && s.log <= t.log
    && (t.connected <==> s.connected && !Broke(Since(s.log, t.log)))
    && exists k :: Carried(s.stream, s.pending, k, t.stream) && k <= budget
         && (t.connected ==> t.pending == s.pending[k..])
         && (t.connected ==> k == |s.pending| || k == budget || Stalled(Since(s.log, t.log)))
         && (!t.connected ==> t.pending == s.pending)
  }

  /** Data joins the queue whole if there is room and memory for it; otherwise the
      client is disconnected. */
  predicate Enqueued(s: Output, data: seq<byte>, memory: bool, t: Output) {
    if |s.pending| + |data| <= CAPACITY && memory
    then t == s.(pending := s.pending + data, accepted := s.accepted + data)
    else t == s.(connected := false)
  }

  /** Data goes straight to the channel, all of it or with a failure; a closed
      window is one. */
  ghost predicate Direct(s: Output, data: seq<byte>, t: Output) {
    && t.accepted == s.accepted + data && t.pending == s.pending && s.log <= t.log
    && (t.connected <==> s.connected && !Broke(Since(s.log, t.log)) && !Stalled(Since(s.log, t.log)))
    && exists k :: Carried(s.stream, data, k, t.stream) && (t.connected ==> k == |data|)
  }

  /** `memory` is whether the outbox is there or can be allocated. */
  datatype Event = Send(data: seq<byte>, memory: bool) | Flush | Drop

  /** One step of an interactive client: a send, a flush, or the peer going away. */
  ghost predicate Next(s: Output, e: Event, t: Output) {
    match e
    case Send(data, memory) =>
      if !s.connected || data == [] then t == s
      else exists mid ::
             Enqueued(s, data, memory, mid) && (if mid.connected then Flushed(mid, t, FLUSH_BUDGET) else t == mid)
    case Flush => if !s.connected then t == s else Flushed(s, t, FLUSH_BUDGET)
    case Drop => t == s.(connected := false)
  }

  /** The channel carries a prefix of what was accepted; while connected, the
      queue holds exactly the rest. */
  ghost predicate Consistent(s: Output) {
    && s.stream <= s.accepted
    && (s.connected ==> s.stream + s.pending == s.accepted)
  }

  lemma FlushKeeps(s: Output, t: Output, budget: nat)
    requires Consistent(s) && s.connected && Flushed(s, t, budget)
    ensures Consistent(t) && s.stream <= t.stream && |t.stream| <= |s.stream| + budget
  {
    var k :| Carried(s.stream, s.pending, k, t.stream) && k <= budget && (t.connected ==> t.pending == s.pending[k..]);
    assert s.pending == s.pending[..k] + s.pending[k..];
    Assoc(s.stream, s.pending[..k], s.pending[k..]);
  }

  lemma StepKeeps(s: Output, e: Event, t: Output)
    requires Consistent(s) && Next(s, e, t)
    ensures Consistent(t) && s.stream <= t.stream && s.accepted <= t.accepted
    ensures !s.connected ==> !t.connected && t.stream == s.stream && t.accepted == s.accepted
    ensures |t.stream| <= |s.stream| + FLUSH_BUDGET
  {
    hide Flushed;
    match e
    case Send(data, memory) =>
      if s.connected && data != [] {
        var mid :|
          Enqueued(s, data, memory, mid) && (if mid.connected then Flushed(mid, t, FLUSH_BUDGET) else t == mid);
        Assoc(s.stream, s.pending, data);
        if mid.connected {
          FlushKeeps(mid, t, FLUSH_BUDGET);
          FlushAccepts(mid, t, FLUSH_BUDGET);
        }
      }
    case Flush =>
      if s.connected {
        FlushKeeps(s, t, FLUSH_BUDGET);
        FlushAccepts(s, t, FLUSH_BUDGET);
      }
    case Drop =>
  }

  lemma FlushAccepts(s: Output, t: Output, budget: nat)
    requires Flushed(s, t, budget)
    ensures t.accepted == s.accepted
  {
  }

  ghost predicate IsRun(trace: seq<Output>, events: seq<Event>) {
    && |trace| == |events| + 1
    && trace[0] == EMPTY
    && forall i :: 0 <= i < |events| ==> Next(trace[i], events[i], trace[i + 1])
  }

  /** At every point of every run the channel carries a prefix of the accepted
      stream, and until the first failure nothing is lost or repeated. */
  lemma {:induction false} RunIsConsistent(trace: seq<Output>, events: seq<Event>, i: nat)
    requires IsRun(trace, events) && i < |trace|
    ensures Consistent(trace[i])
    ensures |trace[i].stream| <= i * FLUSH_BUDGET
    decreases i
  {
    hide Next, Consistent;
    if i == 0 {
      EmptyIsConsistent();
    } else {
      RunIsConsistent(trace, events, i - 1);
      assert Next(trace[i - 1], events[i - 1], trace[i - 1 + 1]);
      StepKeeps(trace[i - 1], events[i - 1], trace[i]);
    }
  }

  lemma EmptyIsConsistent()
    ensures Consistent(EMPTY)
  {
  }

  /** After a disconnection nothing more reaches the channel. */
  lemma {:induction false} SilentAfterFailure(trace: seq<Output>, events: seq<Event>, i: nat, j: nat)
    requires IsRun(trace, events) && i <= j < |trace| && !trace[i].connected
    ensures !trace[j].connected && trace[j].stream == trace[i].stream
    decreases j
  {
    hide Next, Consistent;
    if i < j {
      SilentAfterFailure(trace, events, i, j - 1);
      RunIsConsistent(trace, events, j - 1);
      assert Next(trace[j - 1], events[j - 1], trace[j - 1 + 1]);
      StepKeeps(trace[j - 1], events[j - 1], trace[j]);
    }
  }

  // ----- Progress

  /** Whether the data of an event does not fit the queue. */
  predicate Overflows(s: Output, e: Event) {
    e.Send? && e.data != [] && !(|s.pending| + |e.data| <= CAPACITY && e.memory)
  }

  /** What disconnects a client: its peer, a full queue, or a failing write, and nothing else. */
  lemma DisconnectsIff(s: Output, e: Event, t: Output)
    requires s.connected && Next(s, e, t)
    ensures s.log <= t.log
    ensures !t.connected <==> e.Drop? || Overflows(s, e) || Broke(Since(s.log, t.log))
  {
  }

  /** No write failed, and every look found the window open. */
  ghost predicate Open(calls: seq<Call>) {
    forall i :: 0 <= i < |calls| ==> if calls[i].Window? then calls[i].size > 0 else calls[i].sent > 0
  }

  /** With the window open and writes that succeed, a step sends all that is queued or
      the whole budget. */
  lemma OpenFlush(s: Output, t: Output, budget: nat)
    requires Flushed(s, t, budget) && s.connected && Open(Since(s.log, t.log))
    ensures var k := Min(budget, |s.pending|);
      t.connected && t.pending == s.pending[k..] && t.stream == s.stream + s.pending[..k]
  {
  }

  /** What a step queues before it flushes. */
  function Offered(s: Output, e: Event): seq<byte> {
    if e.Send? then s.pending + e.data else s.pending
  }

  lemma OpenStep(s: Output, e: Event, t: Output)
    requires Next(s, e, t) && s.connected && !e.Drop? && !Overflows(s, e) && !(e.Send? && e.data == [])
    requires Open(Since(s.log, t.log))
    ensures var all := Offered(s, e);
      var k := Min(FLUSH_BUDGET, |all|);
      t.connected && t.pending == all[k..] && t.stream == s.stream + all[..k]
  {
    hide Flushed, Open;
    if e.Send? {
      var mid :|
        Enqueued(s, e.data, e.memory, mid) && (if mid.connected then Flushed(mid, t, FLUSH_BUDGET) else t == mid);
      OpenFlush(mid, t, FLUSH_BUDGET);
    } else {
      OpenFlush(s, t, FLUSH_BUDGET);
    }
  }

  /** A run of flushes from any state. */
  ghost predicate Flushes(trace: seq<Output>) {
    && trace != []
    && (forall i :: 0 <= i < |trace| - 1 ==> Next(trace[i], Flush, trace[i + 1]))
  }

  ghost predicate StaysOpen(trace: seq<Output>) {
    forall i :: 0 <= i < |trace| - 1 ==> Open(Since(trace[i].log, trace[i + 1].log))
  }

  /** Each flush of an open channel takes a whole budget off the queue, as long as
      there is one. */
  lemma {:induction false} FlushesDrain(trace: seq<Output>, i: nat)
    requires Flushes(trace) && StaysOpen(trace) && trace[0].connected && i < |trace|
    ensures var s, k := trace[0], Min(|trace[0].pending|, i * FLUSH_BUDGET);
      trace[i].connected && trace[i].pending == s.pending[k..] && trace[i].stream == s.stream + s.pending[..k]
    decreases i
  {
    var s := trace[0];
    if i == 0 {
      assert s.pending[..0] == [];
    } else {
      hide Flushed, Open;
      FlushesDrain(trace, i - 1);
      assert Next(trace[i - 1], Flush, trace[i - 1 + 1]);
      assert Open(Since(trace[i - 1].log, trace[i - 1 + 1].log));
      OpenStep(trace[i - 1], Flush, trace[i]);
      DrainMore(s.stream, s.pending, Min(|s.pending|, (i - 1) * FLUSH_BUDGET), FLUSH_BUDGET);
    }
  }

  lemma DrainMore(stream: seq<byte>, data: seq<byte>, j: nat, budget: nat)
    requires j <= |data|
    ensures var rest := data[j..];
      var k := Min(budget, |rest|);
      && rest[k..] == data[j + k..]
      && stream + data[..j] + rest[..k] == stream + data[..j + k]
  {
    var k := Min(budget, |data[j..]|);
    assert data[..j + k] == data[..j] + data[j..][..k];
    Assoc(stream, data[..j], data[j..][..k]);
  }

  /** A connected client whose window stays open and whose writes succeed has sent
      everything after enough flushes. */
  lemma EverythingIsSent(trace: seq<Output>)
    requires Flushes(trace) && StaysOpen(trace) && trace[0].connected
    requires |trace| - 1 >= |trace[0].pending| / FLUSH_BUDGET + 1
    ensures var t := trace[|trace| - 1];
      t.connected && t.pending == [] && t.stream == trace[0].stream + trace[0].pending
  {
    FlushesDrain(trace, |trace| - 1);
    var s := trace[0];
    assert s.pending[..|s.pending|] == s.pending;
  }

  // ----- The client

  class Client {
    const channel: Channel
    /** Whether this is an exec session. */
    const exec: bool
    var connected: bool
    var outbox: array?<byte>
    var outboxPos: nat
    var outboxLen: nat
    ghost var accepted: seq<byte>

    ghost predicate Valid()
      reads this, outbox
    {
      outbox != null ==> outbox.Length == CAPACITY && outboxPos <= outboxLen <= CAPACITY
    }

    ghost function Pending(): seq<byte>
      requires Valid()
      reads this, outbox
    {
      if outbox == null then [] else outbox[outboxPos..outboxLen]
    }

    ghost function Value(): Output
      requires Valid()
      reads this, outbox, channel
    {
      Output(connected, Pending(), channel.stream, accepted, channel.log)
    }

    constructor (exec: bool)
      ensures Valid() && Value() == EMPTY && this.exec == exec
      ensures fresh(channel)
    {
      this.exec := exec;
      var c := new Channel;
      c.stream, c.log := [], [];
      channel := c;
      connected, outbox, outboxPos, outboxLen := true, null, 0, 0;
      accepted := [];
    }

    /** `client_send_fail` */
    method Fail()
      modifies this`connected
      ensures !connected
    {
      connected := false;
    }

    /** `client_write_direct_locked` */
    method WriteDirect(data: seq<byte>, budget: nat, failOnClosedWindow: bool) returns (rc: int)
      requires Polite(channel.log)
      modifies this`connected, channel
      ensures Polite(channel.log) && old(channel.log) <= channel.log
      ensures exists k ::
                && Carried(old(channel.stream), data, k, channel.stream)
                && (budget > 0 ==> k <= budget) && (rc >= 0 ==> k == rc)
      ensures rc >= 0 ==> connected == old(connected)
      ensures rc < 0 ==> !connected
      ensures var calls := Since(old(channel.log), channel.log);
        && Greedy(calls, |data|, budget)
        && (rc < 0 <==> Broke(calls) || (failOnClosedWindow && Stalled(calls)))
        && (rc >= 0 ==> rc == |data| || (budget > 0 && rc == budget) || (!failOnClosedWindow && Stalled(calls)))
    {
      hide Polite, Greedy, SentIn, IsOffer, Carried;
      ghost var was, base := channel.stream, channel.log;
      ghost var calls: seq<Call> := [];
      var total: nat := 0;
      var left := budget;
      NothingCarried(was, data);
      NothingCalled(base, |data|, budget);
      while total < |data|
        invariant total <= |data| && connected == old(connected) && Polite(channel.log)
        invariant Carried(was, data, total, channel.stream)
        invariant budget > 0 ==> 0 < left && total + left == budget
        invariant budget == 0 ==> left == 0
        invariant channel.log == base + calls && Greedy(calls, |data|, budget) && SentIn(calls) == total
        invariant !Broke(calls) && !Stalled(calls)
        decreases |data| - total
      {
        var window := channel.WindowSize();
        LooksNext(base, calls, window, |data|, budget);
        calls := calls + [Window(window)];
        if window == 0 {
          SinceIs(base, calls);
          if !failOnClosedWindow {
            break;
          }
          Fail();
          assert Carried(was, data, total, channel.stream);
          return -1;
        }
        var chunk := ChunkSize(|data|, total, window, budget, left);
        label before:
        var sent := channel.Write(data[total..total + chunk]);
        WritesNext(base, calls, chunk, sent, |data|, budget);
        calls := calls + [Call.Write(chunk, sent)];
        ghost var k :| Carried(old@before(channel.stream), data[total..total + chunk], k, channel.stream)
          && (sent > 0 ==> k == sent);
        PrefixGrows(was, data, total, chunk, old@before(channel.stream), k, channel.stream);
        if sent <= 0 {
          SinceIs(base, calls);
          Fail();
          return -1;
        }
        total := total + sent;
        if left > 0 {
          left := left - sent;
          if left == 0 {
            break;
          }
        }
      }
      SinceIs(base, calls);
      assert Carried(was, data, total, channel.stream);
      return total;
    }

    /** How much the next write offers. */
    static method ChunkSize(n: nat, total: nat, window: nat, budget: nat, left: nat) returns (chunk: nat)
      requires total < n && window > 0 && left == (if budget > 0 then budget - total else 0)
      requires budget > 0 ==> left > 0
      ensures IsOffer(chunk, window, n, budget, total) && 0 < chunk <= n - total
      ensures budget > 0 ==> chunk <= left
    {
      var remaining := n - total;
      chunk := if remaining > MAX_CHUNK then MAX_CHUNK else remaining;
      if chunk > window {
        chunk := window;
      }
      if left > 0 && chunk > left {
        chunk := left;
      }
    }

    /** `client_flush_output_locked` */
    method FlushOutbox(budget: nat) returns (rc: int)
      requires Valid() && Polite(channel.log) && budget > 0 && connected
      modifies this`connected, this`outboxPos, this`outboxLen, channel
      ensures Valid() && Polite(channel.log) && Flushed(old(Value()), Value(), budget)
      ensures rc == if connected then 0 else -1
    {
      hide Flushed, Polite, Carried, Greedy, Broke, Stalled;
      ghost var s := Value();
      if outbox == null || outboxPos >= outboxLen {
        if outbox != null {
          outboxPos, outboxLen := 0, 0;
        }
        NothingCarried(s.stream, s.pending);
        NoCalls(s.log);
        FlushedBy(s, Value(), 0, budget);
        return 0;
      }
      var sent := WriteDirect(outbox[outboxPos..outboxLen], budget, false);
      ghost var k :| Carried(s.stream, s.pending, k, channel.stream) && k <= budget && (sent >= 0 ==> k == sent);
      CarriedInRange(s.stream, s.pending, k, channel.stream);
      if sent < 0 {
        FlushedBy(s, Value(), k, budget);
        return -1;
      }
      outboxPos := outboxPos + sent;
      assert outbox[outboxPos..outboxLen] == s.pending[k..];
      if outboxPos >= outboxLen {
        outboxPos, outboxLen := 0, 0;
      }
      FlushedBy(s, Value(), k, budget);
      return 0;
    }

    /** `client_compact_outbox`: moves the queued bytes to the front, in place. */
    method Compact()
      requires Valid()
      modifies this`outboxPos, this`outboxLen, outbox
      ensures Valid() && Pending() == old(Pending()) && (outbox != null ==> outboxPos == 0)
    {
      if outbox == null || outboxPos == 0 {
        return;
      }
      var n := outboxLen - outboxPos;
      MoveToFront(outbox, outboxPos, n);
      outboxLen := n;
      outboxPos := 0;
      assert outbox[0..n] == outbox[..n];
    }

    /** `client_enqueue_output_locked`; `hasMemory` is whether the first allocation succeeds. */
    method Enqueue(data: seq<byte>, hasMemory: bool) returns (rc: int)
      requires Valid() && connected && data != []
      modifies this, outbox
      ensures Valid() && (outbox == old(outbox) || fresh(outbox))
      ensures Enqueued(old(Value()), data, old(outbox) != null || hasMemory, Value())
      ensures rc == if connected then 0 else -1
      ensures connected <==> old(|Pending()|) + |data| <= CAPACITY && (old(outbox) != null || hasMemory)
      ensures channel.log == old(channel.log)
    {
      if |data| > CAPACITY {
        Fail();
        return -1;
      }
      if outbox == null {
        if !hasMemory {
          Fail();
          return -1;
        }
        outbox := new byte[CAPACITY];
        outboxLen, outboxPos := 0, 0;
        assert Pending() == [];
      }
      Compact();
      if outboxLen + |data| > CAPACITY {
        Fail();
        return -1;
      }
      ghost var before := outbox[..outboxLen];
      assert before == old(Pending());
      CopyAt(outbox, outboxLen, data);
      outboxLen := outboxLen + |data|;
      assert outbox[0..outboxLen] == outbox[..outboxLen] == before + data;
      accepted := accepted + data;
      return 0;
    }

    /** `client_send` of an interactive client */
    method SendInteractive(data: seq<byte>, hasMemory: bool) returns (rc: int)
      requires Valid() && Polite(channel.log) && !exec
      modifies this, outbox, channel
      ensures Valid() && (outbox == old(outbox) || fresh(outbox)) && Polite(channel.log)
      ensures Next(old(Value()), Send(data, old(outbox) != null || hasMemory), Value())
      ensures rc == 0 ==> accepted == old(accepted) + data
      ensures rc == 0 <==> data == [] || connected
    {
      if data == [] {
        assert accepted + [] == accepted;
        return 0;
      }
      if !connected {
        return -1;
      }
      ghost var memory := outbox != null || hasMemory;
      rc := Enqueue(data, hasMemory);
      if rc == 0 {
        ghost var mid := Value();
        assert mid.accepted == old(accepted) + data;
        rc := FlushOutbox(FLUSH_BUDGET);
        assert Enqueued(old(Value()), data, memory, mid) && Flushed(mid, Value(), FLUSH_BUDGET);
      } else {
        assert Enqueued(old(Value()), data, memory, Value());
      }
    }

    /** `client_send` of an exec session */
    method SendExec(data: seq<byte>) returns (rc: int)
      requires Valid() && Polite(channel.log) && exec
      modifies this, channel
      ensures Valid() && Polite(channel.log) && outbox == old(outbox)
      ensures old(connected) && data != [] ==> Direct(old(Value()), data, Value())
      ensures !old(connected) || data == [] ==> Value() == old(Value())
      ensures rc == 0 && data != [] ==> connected && channel.stream == old(channel.stream) + data
      ensures rc != 0 ==> rc == -1 && !connected
    {
      if data == [] {
        return 0;
      }
      if !connected {
        return -1;
      }
      accepted := accepted + data;
      rc := WriteDirect(data, 0, true);
      assert data[..|data|] == data;
      rc := if rc == |data| then 0 else -1;
    }

    /** `client_flush_output` */
    method FlushOutput() returns (rc: int)
      requires Valid() && Polite(channel.log)
      modifies this, channel
      ensures Valid() && outbox == old(outbox) && Polite(channel.log)
      ensures Next(old(Value()), Flush, Value())
      ensures rc == 0 <==> connected
    {
      if !connected {
        return -1;
      }
      rc := FlushOutbox(FLUSH_BUDGET);
    }
  }

  lemma FlushedBy(s: Output, t: Output, k: int, budget: nat)
    requires Carried(s.stream, s.pending, k, t.stream) && k <= budget && t.accepted == s.accepted
    requires t.connected ==> t.pending == s.pending[k..]
    requires !t.connected ==> t.pending == s.pending
    requires s.log <= t.log && (t.connected <==> s.connected && !Broke(Since(s.log, t.log)))
    requires t.connected ==> k == |s.pending| || k == budget || Stalled(Since(s.log, t.log))
    ensures Flushed(s, t, budget)
  {
  }

  lemma NoCalls(log: seq<Call>)
    ensures Since(log, log) == [] && !Broke([]) && !Stalled([])
  {
  }

  lemma NothingCarried(stream: seq<byte>, data: seq<byte>)
    ensures Carried(stream, data, 0, stream)
  {
  }

  lemma CarriedInRange(stream: seq<byte>, data: seq<byte>, k: int, after: seq<byte>)
    requires Carried(stream, data, k, after)
    ensures 0 <= k <= |data|
  {
  }

  lemma PrefixGrows(was: seq<byte>, data: seq<byte>, total: nat, chunk: nat, before: seq<byte>, k: int,
                    after: seq<byte>)
    requires Carried(was, data, total, before)
    requires total + chunk <= |data| && Carried(before, data[total..total + chunk], k, after)
    ensures Carried(was, data, total + k, after) && 0 <= k <= chunk
  {
    assert data[total..total + chunk][..k] == data[total..total + k];
    assert data[..total + k] == data[..total] + data[total..total + k];
    Assoc(was, data[..total], data[total..total + k]);
  }
}
