/** The room of src/chat_room.c: who is in it, and its recent messages. */
module ChatRoom {
  import opened Common
  import opened MessageFile
  import ClientLifetime

  const MAX_MESSAGES := 100

  /** Removing is taking out the first occurrence and closing the gap. */
  lemma {:induction false} WithoutFirst(s: seq<ClientLifetime.ClientId>, c: ClientLifetime.ClientId, i: nat)
    requires i < |s| && s[i] == c && c !in s[..i]
    ensures ClientLifetime.Without(s, c) == s[..i] + s[i + 1..]
  {
    if i > 0 {
      assert s[0] == s[..i][0];
      assert s[1..][..i - 1] == s[..i][1..];
      WithoutFirst(s[1..], c, i - 1);
      assert s[1..][i - 1 + 1..] == s[i + 1..];
      assert s[..i] == [s[0]] + s[1..][..i - 1];
    }
  }

  lemma {:induction false} WithoutAbsent(s: seq<ClientLifetime.ClientId>, c: ClientLifetime.ClientId)
    requires c !in s
    ensures ClientLifetime.Without(s, c) == s
  {
    if s != [] {
      WithoutAbsent(s[1..], c);
    }
  }

  /** What the history holds once all of `ms` were broadcast to a room that held `before`. */
  function History(before: seq<Message>, ms: seq<Message>): seq<Message>
    decreases |ms|
  {
    if ms == [] then before else History(LastN(before + [ms[0]], MAX_MESSAGES), ms[1..])
  }

  lemma LastNAgain<T>(s: seq<T>, x: T, n: nat)
    ensures LastN(LastN(s, n) + [x], n) == LastN(s + [x], n)
  {
  }

  /** Over any run of broadcasts the history is the last hundred messages. */
  lemma {:induction false} HistoryIsLast(past: seq<Message>, ms: seq<Message>)
    ensures History(LastN(past, MAX_MESSAGES), ms) == LastN(past + ms, MAX_MESSAGES)
    decreases |ms|
  {
    hide LastN;
    if ms == [] {
      assert past + ms == past;
    } else {
      LastNAgain(past, ms[0], MAX_MESSAGES);
      HistoryIsLast(past + [ms[0]], ms[1..]);
      assert past + ms == past + [ms[0]] + ms[1..];
    }
  }

  /** Broadcasting in two portions is broadcasting the whole. */
  lemma {:induction false} HistoryConcat(before: seq<Message>, a: seq<Message>, b: seq<Message>)
    ensures History(before, a + b) == History(History(before, a), b)
    decreases |a|
  {
    if a == [] {
      assert a + b == b;
    } else {
      assert (a + b)[1..] == a[1..] + b;
      HistoryConcat(LastN(before + [a[0]], MAX_MESSAGES), a[1..], b);
    }
  }

  class Room {
    const clients: array<ClientLifetime.ClientId>
    var clientCount: nat
    const messages: array<Message>
    var messageCount: nat
    var updateSeq: nat

    ghost predicate Valid()
      reads this
    {
      clientCount <= clients.Length && messages.Length == MAX_MESSAGES && messageCount <= MAX_MESSAGES
    }

    ghost function Clients(): seq<ClientLifetime.ClientId>
      requires Valid()
      reads this, clients
    {
      clients[..clientCount]
    }

    ghost function Messages(): seq<Message>
      requires Valid()
      reads this, messages
    {
      messages[..messageCount]
    }

    /** `room_create`, with the messages loaded from the log. */
    constructor (capacity: nat, loaded: array<Message>, count: nat)
      requires loaded.Length == MAX_MESSAGES && count <= MAX_MESSAGES
      ensures Valid() && Clients() == [] && clients.Length == capacity && fresh(clients)
      ensures messages == loaded && Messages() == loaded[..count] && updateSeq == 0
    {
      clients := new ClientLifetime.ClientId[capacity];
      clientCount := 0;
      messages := loaded;
      messageCount := count;
      updateSeq := 0;
    }

    /** `room_add_client` */
    method AddClient(c: ClientLifetime.ClientId) returns (ok: bool)
      requires Valid()
      modifies this`clientCount, clients
      ensures Valid() && ok == (|old(Clients())| < clients.Length)
      ensures Clients() == if ok then old(Clients()) + [c] else old(Clients())
    {
      ok := clientCount < clients.Length;
      if ok {
        clients[clientCount] := c;
        clientCount := clientCount + 1;
      }
    }

    /** `room_remove_client`: the others keep their order. */
    method RemoveClient(c: ClientLifetime.ClientId)
      requires Valid()
      modifies this`clientCount, clients
      ensures Valid() && Clients() == ClientLifetime.Without(old(Clients()), c)
    {
      hide ClientLifetime.Without;
      ghost var before := clients[..clientCount];
      var i := FindClient(clients, clientCount, c);
      assert before[..i] == clients[..i];
      if i < clientCount {
        WithoutFirst(before, c, i);
        assert before[i + 1..] == clients[i + 1..clientCount];
        CloseGap(clients, i, clientCount);
        clientCount := clientCount - 1;
      } else {
        WithoutAbsent(before, c);
      }
    }

    /** `room_broadcast`: the history keeps the last hundred messages. */
    method Broadcast(m: Message)
      requires Valid()
      modifies this`messageCount, this`updateSeq, messages
      ensures Valid() && Messages() == LastN(old(Messages()) + [m], MAX_MESSAGES)
      ensures updateSeq == old(updateSeq) + 1
    {
      ghost var before := messages[..messageCount];
      if messageCount >= MAX_MESSAGES {
        ShiftDown(messages);
        messageCount := MAX_MESSAGES - 1;
      }
      messages[messageCount] := m;
      messageCount := messageCount + 1;
      updateSeq := updateSeq + 1;
    }
  }

  /** The search loop of a removal. */
  method FindClient(a: array<ClientLifetime.ClientId>, n: nat, c: ClientLifetime.ClientId) returns (i: nat)
    requires n <= a.Length
    ensures i <= n && c !in a[..i] && (i < n ==> a[i] == c)
  {
    i := 0;
    while i < n && a[i] != c
      invariant i <= n && c !in a[..i]
    {
      i := i + 1;
    }
  }

  /** The shift loop of a removal at `i` among the first `n`. */
  method CloseGap(a: array<ClientLifetime.ClientId>, i: nat, n: nat)
    requires i < n <= a.Length
    modifies a
    ensures a[..n - 1] == old(a[..i]) + old(a[i + 1..n])
  {
    ghost var all := a[..];
    for j := i to n - 1
      invariant a[..i] == all[..i] && a[i..j] == all[i + 1..j + 1] && a[j..] == all[j..]
    {
      assert a[j + 1] == a[j..][1] == all[j..][1];
      a[j] := a[j + 1];
      assert a[j + 1..] == all[j..][1..];
    }
    assert a[..n - 1] == a[..i] + a[i..n - 1];
  }
}
