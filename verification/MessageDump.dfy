/**
  `message_dump_text` of src/message.c: the text of all records, or of the last
  ones through a ring indexed modulo its size, in a buffer that grows by doubling.
 */
module MessageDump {
  import opened Bytes
  import opened Common
  import opened MessageLog
  import opened MessageFile

  const SIZE_MAX: nat := 0xFFFF_FFFF_FFFF_FFFF
  const FIRST_CAPACITY: nat := 1024

  /** The largest capacity that doubling reaches. */
  const LAST_CAPACITY: nat := 0x8000_0000_0000_0000

  // ----- Growth

  function Pow2(k: nat): (p: nat)
    ensures p >= 1
  {
    if k == 0 then 1 else 2 * Pow2(k - 1)
  }

  ghost predicate IsCapacity(c: nat) {
    exists k: nat :: k <= 53 && c == FIRST_CAPACITY * Pow2(k)
  }

  lemma {:induction false} Pow2Monotone(j: nat, k: nat)
    requires j <= k
    ensures Pow2(j) <= Pow2(k)
    decreases k
  {
    if j < k {
      Pow2Monotone(j, k - 1);
    }
  }

  lemma LastCapacity()
    ensures FIRST_CAPACITY * Pow2(53) == LAST_CAPACITY
  {
    assert Pow2(10) == 1024;
    assert Pow2(20) == 1024 * 1024;
    assert Pow2(30) == 1024 * 1024 * 1024;
    assert Pow2(40) == 1024 * 1024 * 1024 * 1024;
    assert Pow2(50) == 1024 * 1024 * 1024 * 1024 * 1024;
  }

  /** Doubling stays among the capacities until the last one. */
  lemma CapacityDoubles(c: nat)
    requires IsCapacity(c)
    ensures FIRST_CAPACITY <= c <= LAST_CAPACITY
    ensures c <= SIZE_MAX / 2 ==> IsCapacity(2 * c)
    ensures c > SIZE_MAX / 2 ==> c == LAST_CAPACITY
  {
    var k: nat :| k <= 53 && c == FIRST_CAPACITY * Pow2(k);
    LastCapacity();
    Pow2Monotone(k, 53);
    if k < 53 {
      Pow2Monotone(k, 52);
      var next := k + 1;
      assert Pow2(next) == 2 * Pow2(k);
    }
  }

  /** The doubling loop: ends with room for the text and its NUL, unless none is left. */
  method Doubled(capacity: nat, len: nat, needed: nat) returns (r: Option<nat>)
    requires if capacity == 0 then len == 0 else IsCapacity(capacity) && len < capacity
    ensures r.None? <==> len + needed + 1 > LAST_CAPACITY
    ensures r.Some? ==> IsCapacity(r.value) && capacity <= r.value && len + needed + 1 <= r.value <= LAST_CAPACITY
    ensures r.Some? ==> r.value <= FIRST_CAPACITY || r.value == capacity || r.value < 2 * (len + needed + 1)
  {
    assert IsCapacity(FIRST_CAPACITY) by { assert FIRST_CAPACITY == FIRST_CAPACITY * Pow2(0); }
    var c := if capacity != 0 then capacity else FIRST_CAPACITY;
    while needed + 1 > c - len
      invariant IsCapacity(c) && len < c && c >= capacity
      invariant c <= FIRST_CAPACITY || c == capacity || c < 2 * (len + needed + 1)
      decreases LAST_CAPACITY - c
    {
      CapacityDoubles(c);
      if c > SIZE_MAX / 2 {
        return None;
      }
      CapacityDoubles(2 * c);
      c := c * 2;
    }
    CapacityDoubles(c);
    r := Some(c);
  }

  method Reallocate(a: array<byte>, n: nat, size: nat) returns (b: array<byte>)
    requires n <= a.Length && n <= size
    ensures fresh(b) && b.Length == size && b[..n] == a[..n]
  {
    b := new byte[size];
    for i := 0 to n
      invariant b[..i] == a[..i]
    {
      b[i] := a[i];
    }
  }

  /** The growing output: `capacity` bytes of it may be used, `len` are text. */
  class Buffer {
    var output: array<byte>
    var capacity: nat
    var len: nat

    ghost predicate Valid()
      reads this, output
    {
      if capacity == 0 then len == 0
      else IsCapacity(capacity) && capacity <= output.Length && len < capacity && output[len] == 0
    }

    ghost function Contents(): seq<byte>
      requires Valid()
      reads this, output
    {
      if capacity == 0 then [] else output[..len]
    }

    constructor ()
      ensures Valid() && Contents() == [] && fresh(output)
    {
      output := new byte[1];
      capacity := 0;
      len := 0;
    }

    method Text() returns (s: seq<byte>)
      requires Valid()
      ensures s == Contents()
    {
      s := if capacity == 0 then [] else output[..len];
    }

    /** The doubling loop and `realloc`; earlier bytes survive. */
    method Grow(needed: nat) returns (ok: bool)
      requires Valid()
      modifies this`output, this`capacity
      ensures len == old(len)
      ensures ok <==> len + needed + 1 <= LAST_CAPACITY
      ensures !ok ==> output == old(output) && capacity == old(capacity)
      ensures ok ==> fresh(output) && IsCapacity(capacity) && capacity == output.Length && len + needed + 1 <= capacity
      ensures ok ==> output[..len] == old(Contents())
    {
      var r := Doubled(capacity, len, needed);
      ok := r.Some?;
      if ok {
        var grown := Reallocate(output, len, r.value);
        output, capacity := grown, r.value;
      }
    }

    /** `append_dump_record`: fails only when the text would pass half the address space. */
    method AppendRecord(m: Message, codec: Codec) returns (ok: bool)
      requires Valid()
      modifies this, output
      ensures Valid() && (fresh(output) || output == old(output))
      ensures ok <==> |old(Contents())| + |Record(codec, m)| + 1 <= LAST_CAPACITY
      ensures Contents() == if ok then old(Contents()) + Record(codec, m) else old(Contents())
    {
      hide Record, IsCapacity;
      var text := Record(codec, m);
      var needed := |text|;
      var available := if capacity > len then capacity - len else 0;
      ok := true;
      if needed + 1 > available {
        ok := Grow(needed);
        if !ok {
          return;
        }
      } else {
        CapacityDoubles(capacity);
      }
      assert output[..len] == old(Contents());
      CopyAt(output, len, text + [0]);
      assert output[len + needed] == output[..len + needed + 1][len + needed];
      assert output[..len + needed] == output[..len + needed + 1][..len + needed];
      len := len + needed;
    }
  }

  // ----- The ring

  /** The ring holds the last records of `done`, each at its number modulo the size. */
  ghost predicate Ring(ring: seq<Message>, done: seq<Message>) {
    |ring| > 0 && forall k :: 0 <= k < |done| && |done| - |ring| <= k ==> ring[k % |ring|] == done[k]
  }

  lemma ModDiffers(a: nat, b: nat, n: nat)
    requires a < b < a + n
    ensures a % n != b % n
  {
    var q, r := a / n, a % n + (b - a);
    if r < n {
      QuotientUnique(b, q, r, n);
    } else {
      QuotientUnique(b, q + 1, r - n, n);
    }
  }

  lemma ModShift(a: nat, i: nat, n: nat)
    requires n > 0 && i < n && a >= n
    ensures (a % n + i) % n == (a - n + i) % n
  {
    var q, r := a / n, a % n;
    assert a - n + i == (q - 1) * n + (r + i);
    ModOfSum(q - 1, r + i, n);
  }

  lemma {:induction false} ModOfSum(q: nat, x: nat, n: nat)
    requires n > 0
    ensures (q * n + x) % n == x % n
  {
    var y := q * n + x;
    assert y == (q + x / n) * n + x % n;
    QuotientUnique(y, q + x / n, x % n, n);
  }

  lemma QuotientUnique(y: nat, q: int, r: nat, n: int)
    requires r < n && y == q * n + r
    ensures y % n == r
  {
    var d := y / n - q;
    assert d * n == r - y % n;
    assert d >= 1 ==> d * n >= n;
    assert d <= -1 ==> d * n <= -n;
  }

  lemma RingAppend(ring: seq<Message>, done: seq<Message>, m: Message)
    requires Ring(ring, done)
    ensures Ring(ring[|done| % |ring| := m], done + [m])
  {
    var n := |ring|;
    forall k | 0 <= k <= |done| && |done| + 1 - n <= k
      ensures ring[|done| % n := m][k % n] == (done + [m])[k]
    {
      if k < |done| {
        ModDiffers(k, |done|, n);
      }
    }
  }

  /** Where the `i`-th record of the output stands in the ring. */
  lemma RingAt(ring: seq<Message>, done: seq<Message>, i: nat)
    requires Ring(ring, done) && i < Min(|done|, |ring|)
    ensures var start := if |done| < |ring| then 0 else |done| % |ring|;
      ring[(start + i) % |ring|] == LastN(done, |ring|)[i]
  {
    var n := |ring|;
    var k := |done| - Min(|done|, n) + i;
    assert ring[k % n] == done[k];
    hide Ring;
    if |done| >= n {
      ModShift(|done|, i, n);
    }
  }

  // ----- The dump

  /** A bounded dump is the part of the full dump from some record on. */
  lemma BoundedDumpIsSuffix(codec: Codec, ms: seq<Message>, n: nat)
    ensures var k := |ms| - Min(|ms|, n);
      LogText(codec, ms) == LogText(codec, ms[..k]) + LogText(codec, LastN(ms, n))
  {
    var k := |ms| - Min(|ms|, n);
    assert ms == ms[..k] + LastN(ms, n);
    LogTextSplit(codec, ms[..k], LastN(ms, n));
  }

  /** What a dump prints. */
  ghost function Dumped(file: seq<byte>, maxRecords: nat, now: int, codec: Codec): seq<Message> {
    var all := Records(Reads(file), now, codec);
    if maxRecords == 0 then all else LastN(all, maxRecords)
  }

  method FillRing(file: seq<byte>, ring: array<Message>, now: int, codec: Codec) returns (seen: nat)
    requires ring.Length > 0
    modifies ring
    ensures seen == |Records(Reads(file), now, codec)| && Ring(ring[..], Records(Reads(file), now, codec))
  {
    var line := new byte[MAX_LINE];
    ghost var done: seq<Message> := [];
    var pos := 0;
    seen := 0;
    assert file[0..] == file;
    assert done + Records(Reads(file[0..]), now, codec) == Records(Reads(file), now, codec);
    assert Ring(ring[..], done);
    hide *;
    while pos < |file|
      invariant pos <= |file| && line.Length == MAX_LINE && seen == |done| && Ring(ring[..], done)
      invariant done + Records(Reads(file[pos..]), now, codec) == Records(Reads(file), now, codec)
      decreases |file| - pos
    {
      var end, r := ReadRecord(file, pos, line, now, codec);
      NextRecord(file, pos, end, now, codec);
      Assoc(done, Item(r), Records(Reads(file[end..]), now, codec));
      ItemIs(r);
      if r.Some? {
        RingAppend(ring[..], done, r.value);
        ring[seen % ring.Length] := r.value;
        seen := seen + 1;
      }
      done := done + Item(r);
      pos := end;
    }
    NothingLeft(file, pos, now, codec);
    assert done + [] == done;
  }

  lemma LogTextStep(codec: Codec, ms: seq<Message>, i: nat)
    requires i < |ms|
    ensures LogText(codec, ms[..i + 1]) == LogText(codec, ms[..i]) + Record(codec, ms[i])
    ensures |LogText(codec, ms[..i + 1])| <= |LogText(codec, ms)|
  {
    hide LogText, Record;
    assert ms[..i + 1] == ms[..i] + [ms[i]];
    LogTextSplit(codec, ms[..i], [ms[i]]);
    LogTextOne(codec, ms[i]);
    assert ms == ms[..i + 1] + ms[i + 1..];
    LogTextSplit(codec, ms[..i + 1], ms[i + 1..]);
  }

  /** The text of these messages and its NUL fit a buffer. */
  ghost predicate Fits(codec: Codec, ms: seq<Message>) {
    |LogText(codec, ms)| + 1 <= LAST_CAPACITY
  }

  /** Appends the next of `ms`; on failure not all of them could fit. */
  method AppendNext(buffer: Buffer, m: Message, codec: Codec, ghost ms: seq<Message>, ghost i: nat) returns (ok: bool)
    requires buffer.Valid() && i < |ms| && ms[i] == m && buffer.Contents() == LogText(codec, ms[..i])
    modifies buffer, buffer.output
    ensures buffer.Valid() && (fresh(buffer.output) || buffer.output == old(buffer.output))
    ensures ok ==> buffer.Contents() == LogText(codec, ms[..i + 1])
    ensures !ok ==> !Fits(codec, ms)
  {
    LogTextStep(codec, ms, i);
    hide LogText, Record;
    ok := buffer.AppendRecord(m, codec);
  }

  /** Prints the ring, oldest first. */
  method PrintRing(ring: array<Message>, seen: nat, buffer: Buffer, codec: Codec, ghost done: seq<Message>)
    returns (ok: bool)
    requires seen == |done| && Ring(ring[..], done) && buffer.Valid() && buffer.Contents() == []
    modifies buffer, buffer.output
    ensures buffer.Valid()
    ensures ok ==> buffer.Contents() == LogText(codec, LastN(done, ring.Length))
    ensures !ok ==> !Fits(codec, LastN(done, ring.Length))
  {
    var n := ring.Length;
    var count := if seen < n then seen else n;
    var start := if seen < n then 0 else seen % n;
    ghost var ms := LastN(done, n);
    assert ms[..0] == [] && |ms| == count;
    hide LastN, Fits, LogText;
    assert LogText(codec, []) == [] by { NoText(codec); }
    for i := 0 to count
      invariant buffer.Valid() && (fresh(buffer.output) || buffer.output == old(buffer.output))
      invariant buffer.Contents() == LogText(codec, ms[..i])
    {
      hide *;
      RingAt(ring[..], done, i);
      ok := AppendNext(buffer, ring[(start + i) % n], codec, ms, i);
      if !ok {
        return;
      }
    }
    assert ms[..count] == ms;
    ok := true;
  }

  lemma NoText(codec: Codec)
    ensures LogText(codec, []) == []
  {
  }

  /** Prints every record as it is read. */
  method PrintAll(file: seq<byte>, buffer: Buffer, now: int, codec: Codec) returns (ok: bool)
    requires buffer.Valid() && buffer.Contents() == []
    modifies buffer, buffer.output
    ensures buffer.Valid()
    ensures ok ==> buffer.Contents() == LogText(codec, Records(Reads(file), now, codec))
    ensures !ok ==> !Fits(codec, Records(Reads(file), now, codec))
  {
    var line := new byte[MAX_LINE];
    ghost var all := Records(Reads(file), now, codec);
    ghost var i: nat := 0;
    var pos := 0;
    assert file[0..] == file && all[..0] == [];
    assert all[0..] == Records(Reads(file[0..]), now, codec);
    while pos < |file|
      invariant pos <= |file| && line.Length == MAX_LINE && i <= |all|
      invariant buffer.Valid() && (fresh(buffer.output) || buffer.output == old(buffer.output))
      invariant line != buffer.output && fresh(line)
      invariant all[i..] == Records(Reads(file[pos..]), now, codec)
      invariant buffer.Contents() == LogText(codec, all[..i])
      decreases |file| - pos
    {
      hide *;
      var end, r := ReadRecord(file, pos, line, now, codec);
      NextRecord(file, pos, end, now, codec);
      ItemIs(r);
      if r.Some? {
        ConsAt(all, i, r.value, Records(Reads(file[end..]), now, codec));
        ok := AppendNext(buffer, r.value, codec, all, i);
        if !ok {
          return;
        }
        i := i + 1;
      }
      pos := end;
    }
    NothingLeft(file, pos, now, codec);
    assert all[..i] == all;
    ok := true;
  }

  lemma ConsAt<T>(s: seq<T>, i: nat, x: T, rest: seq<T>)
    requires i <= |s| && s[i..] == [x] + rest
    ensures i < |s| && s[i] == x && s[i + 1..] == rest
  {
    assert |s[i..]| >= 1;
    assert s[i] == s[i..][0];
    assert s[i + 1..] == s[i..][1..];
  }

  /** `message_dump_text`: the text of exactly the records asked for; it fails
      only for a negative limit or a text beyond the last capacity. */
  method DumpText(file: seq<byte>, maxRecords: int, now: int, codec: Codec) returns (rc: int, text: seq<byte>)
    ensures rc == 0 <==> maxRecords >= 0 && Fits(codec, Dumped(file, maxRecords, now, codec))
    ensures rc == 0 ==> text == LogText(codec, Dumped(file, maxRecords, now, codec))
    ensures rc != 0 ==> rc == -1 && text == []
  {
    rc, text := -1, [];
    if maxRecords < 0 {
      return;
    }
    var buffer := new Buffer();
    var ok;
    if maxRecords == 0 {
      ok := PrintAll(file, buffer, now, codec);
    } else {
      var ring := new Message[maxRecords];
      var seen := FillRing(file, ring, now, codec);
      ok := PrintRing(ring, seen, buffer, codec, Records(Reads(file), now, codec));
    }
    if ok {
      ContentsFit(buffer);
      rc := 0;
      text := buffer.Text();
    }
  }

  lemma ContentsFit(buffer: Buffer)
    requires buffer.Valid()
    ensures |buffer.Contents()| + 1 <= LAST_CAPACITY
  {
    if buffer.capacity != 0 {
      CapacityDoubles(buffer.capacity);
    }
  }
}
