/**
  The message log file of src/message.c: saving, the backward scan that loads
  its last lines, the shifting window of a search, and the ring and the growing
  buffer of a dump.  A file is its bytes; each operation holds the file lock
  throughout, so it sees one content.
 */
module MessageFile {
  import opened Bytes
  import opened Common
  import opened MessageLog

  const CHUNK := 4096

  /** The last `n` elements, or all of them. */
  function LastN<T>(s: seq<T>, n: nat): seq<T> {
    if n < |s| then s[|s| - n..] else s
  }

  // ----- Saving

  /** The sanitising loop, on a NUL-terminated buffer. */
  method CleanInPlace(a: array<byte>, r: byte, ghost text: seq<byte>)
    requires Holds(a[..], text) && r != 0
    modifies a
    ensures Holds(a[..], Clean(text, r))
  {
    hide Clean;
    CleanIs(text, r);
    var p := 0;
    while a[p] != 0
      invariant p <= |text| < a.Length && a[|text|] == 0 && NoNul(text)
      invariant a[..p] == Clean(text, r)[..p] && a[p..|text|] == text[p..]
      decreases |text| - p
    {
      assert p < |text| ==> a[p] == a[p..|text|][0];
      assert a[p + 1..|text|] == a[p..|text|][1..];
      if a[p] == PIPE || a[p] == NEWLINE || a[p] == RETURN {
        a[p] := r;
      }
      assert a[..p + 1] == a[..p] + [a[p]];
      p := p + 1;
    }
    assert a[..][..|text|] == a[..|text|];
  }

  lemma CleanIs(s: seq<byte>, r: byte)
    ensures |Clean(s, r)| == |s|
    ensures forall k :: 0 <= k < |s| ==> Clean(s, r)[k] == if Unsafe(s[k]) then r else s[k]
    ensures NoNul(s) && r != 0 ==> NoNul(Clean(s, r))
  {
  }

  /** `strncpy` of at most `size - 1` bytes, terminated, then sanitised and read out. */
  method Safe(src: seq<byte>, size: nat, r: byte) returns (s: seq<byte>)
    requires NoNul(src) && size > 0 && r != 0
    ensures s == Clean(Clip(src, size - 1), r) && NoNul(s)
  {
    var field := new byte[size];
    CopyString(field, src);
    var n := StrLen(field);
    ghost var text := field[..n];
    assert field[..][..n] == text;
    CleanInPlace(field, r, text);
    CleanIs(text, r);
    assert field[0..] == field[..];
    s := ReadText(field, 0, Clean(text, r));
  }

  /** `message_save`: appends the record of the sanitised message, if it fits the record buffer. */
  method Save(file: seq<byte>, m: Message, codec: Codec) returns (rc: int, after: seq<byte>)
    requires NoNul(m.username) && NoNul(m.content) && NoNul(codec.format(m.timestamp))
    ensures rc == if |Record(codec, Sanitised(m))| < MAX_RECORD then 0 else -1
    ensures after == if rc == 0 then file + Record(codec, Sanitised(m)) else file
  {
    var username := Safe(m.username, MAX_USERNAME_LEN, UNDERSCORE);
    var content := Safe(m.content, MAX_MESSAGE_LEN, SPACE);
    hide Clean, Record;
    var safe := Message(m.timestamp, username, content);
    var record := new byte[MAX_RECORD];
    var needed;
    rc, needed := FormatRecord(safe, record, codec);
    after := file;
    if rc == 0 {
      var n := StrLen(record);
      assert Clip(Record(codec, safe), MAX_RECORD - 1) == Record(codec, safe);
      after := file + record[..needed];
    }
  }

  // ----- Reading lines

  ghost predicate NoNewline(file: seq<byte>, a: nat, b: nat) {
    forall k :: a <= k < b && k < |file| ==> file[k] != NEWLINE
  }

  lemma LineEnds(file: seq<byte>, pos: nat, end: nat)
    requires pos < end <= |file| && NoNewline(file, pos, end - 1) && (file[end - 1] == NEWLINE || end == |file|)
    ensures LineLength(file[pos..]) == end - pos
  {
    var s := file[pos..];
    assert forall k :: 0 <= k < |s| ==> s[k] == file[pos + k];
    if file[end - 1] == NEWLINE {
      IndexIs(s, NEWLINE, end - 1 - pos);
    } else {
      IndexIs(s, NEWLINE, |s|);
    }
  }

  lemma LineGoesOn(file: seq<byte>, pos: nat, end: nat)
    requires pos <= end <= |file| && NoNewline(file, pos, end)
    ensures LineLength(file[pos..]) == end - pos + LineLength(file[end..])
  {
    var s, t := file[pos..], file[end..];
    assert forall k :: 0 <= k < |s| ==> s[k] == file[pos + k];
    IndexIs(s, NEWLINE, end - pos + Index(t, NEWLINE));
  }

  /** `fgets`: at most a buffer of one line. */
  method ReadLine(file: seq<byte>, pos: nat, line: array<byte>) returns (n: nat)
    requires pos < |file| && line.Length >= 2
    modifies line
    ensures 0 < n < line.Length && pos + n <= |file| && line[..n] == file[pos..pos + n] && line[n] == 0
    ensures n == Min(LineLength(file[pos..]), line.Length - 1)
  {
    hide LineLength;
    n := 0;
    while n < line.Length - 1 && pos + n < |file|
      invariant n < line.Length && pos + n <= |file| && line[..n] == file[pos..pos + n]
      invariant NoNewline(file, pos, pos + n)
    {
      line[n] := file[pos + n];
      n := n + 1;
      if line[n - 1] == NEWLINE {
        LineEnds(file, pos, pos + n);
        line[n] := 0;
        return;
      }
    }
    line[n] := 0;
    LineGoesOn(file, pos, pos + n);
  }

  /** `discard_line_remainder` */
  method DiscardRemainder(file: seq<byte>, pos: nat) returns (end: nat)
    requires pos <= |file|
    ensures end == pos + LineLength(file[pos..])
  {
    hide LineLength;
    end := pos;
    while end < |file|
      invariant pos <= end <= |file| && NoNewline(file, pos, end)
    {
      end := end + 1;
      if file[end - 1] == NEWLINE {
        LineEnds(file, pos, end);
        return;
      }
    }
    LineGoesOn(file, pos, end);
  }

  /** How every reader takes its next line: whole, or skipped when it overflows
      the buffer; what it gets reads as the text up to the first NUL does. */
  method ReadRecord(file: seq<byte>, pos: nat, line: array<byte>, now: int, codec: Codec)
    returns (end: nat, r: Option<Message>)
    requires pos < |file| && line.Length == MAX_LINE
    modifies line
    ensures pos < end <= |file| && end == pos + ReadLength(file[pos..])
    ensures r == Parsed(Text(file[pos..end]), now, codec)
  {
    hide Parsed, LineLength, Index, Text;
    var n := ReadLine(file, pos, line);
    ghost var got := file[pos..pos + n];
    assert line[..][..n] == got;
    TextBeforeNul(line[..], n);
    var len := StrLen(line);
    hide ReadLength;
    if len >= line.Length - 1 && line[len - 1] != NEWLINE {
      LongRead(file, pos, n, got);
      LongReadOf(file[pos..], got, now, codec);
      end := DiscardRemainder(file, pos + n);
      DropTake(file, pos, end - pos);
      r := None;
    } else {
      assert len == |Text(got)|;
      ShortRead(file, pos, n, got);
      end := pos + n;
      r := ParseRecord(line[..len], now, codec);
    }
  }

  /** A buffer full without newline or NUL: the rest of the line is dropped, and it was no record. */
  lemma LongRead(file: seq<byte>, pos: nat, n: nat, got: seq<byte>)
    requires pos + n <= |file| && got == file[pos..pos + n] && Text(got) == got
    requires n == MAX_LINE - 1 <= LineLength(file[pos..]) && got[n - 1] != NEWLINE
    ensures LineLength(file[pos..]) == n + LineLength(file[pos + n..])
    ensures got == file[pos..][..n] && NoNul(got)
  {
    assert n > 0;
    hide *;
    NoNewlineIn(file, pos, n);
    LineGoesOn(file, pos, pos + n);
    TextIsPrefix(got);
    DropTake(file, pos, n);
  }

  lemma LongReadOf(s: seq<byte>, got: seq<byte>, now: int, codec: Codec)
    requires |got| == MAX_LINE - 1 <= LineLength(s) && got == s[..|got|] && NoNul(got) && got[|got| - 1] != NEWLINE
    ensures ReadLength(s) == LineLength(s) <= |s| && Parsed(Text(s[..LineLength(s)]), now, codec) == None
  {
    hide Parsed, Text;
    WholeLine(s, |got|);
    NotARecord(s, |got|, now, codec);
  }

  lemma NoNewlineIn(file: seq<byte>, pos: nat, n: nat)
    requires 0 < n && pos + n <= |file| && n <= LineLength(file[pos..]) && file[pos..pos + n][n - 1] != NEWLINE
    ensures NoNewline(file, pos, pos + n)
  {
    var s := file[pos..];
    assert forall k :: 0 <= k < |s| ==> s[k] == file[pos + k];
  }

  lemma WholeLine(s: seq<byte>, n: nat)
    requires n == MAX_LINE - 1 <= |s| && NoNul(s[..n])
    ensures ReadLength(s) == LineLength(s) <= |s|
  {
  }

  lemma NotARecord(s: seq<byte>, n: nat, now: int, codec: Codec)
    requires n == MAX_LINE - 1 <= LineLength(s) && s[n - 1] != NEWLINE
    ensures Parsed(Text(s[..LineLength(s)]), now, codec) == None
  {
    var x := s[..LineLength(s)];
    TextIsPrefix(x);
    var t := Text(x);
    hide Text;
    assert forall k :: 0 <= k < |t| ==> t[k] == x[k] == s[k];
    if |t| < MAX_LINE {
      hide LineLength;
      if t != [] {
        LastIsNot(s, n, |t|);
      }
      NotTerminated(t, now, codec);
    }
  }

  lemma LastIsNot(s: seq<byte>, n: nat, k: nat)
    requires n == MAX_LINE - 1 <= LineLength(s) && s[n - 1] != NEWLINE && 0 < k <= LineLength(s) && k < MAX_LINE
    ensures s[k - 1] != NEWLINE
  {
  }

  /** Otherwise the read stops where the buffer's content does. */
  lemma ShortRead(file: seq<byte>, pos: nat, n: nat, got: seq<byte>)
    requires 0 < n && pos + n <= |file| && got == file[pos..pos + n] && n == Min(LineLength(file[pos..]), MAX_LINE - 1)
    requires |Text(got)| < MAX_LINE - 1 || (|Text(got)| > 0 && Text(got)[|Text(got)| - 1] == NEWLINE)
    ensures ReadLength(file[pos..]) == n
  {
    var s := file[pos..];
    assert forall k :: 0 <= k < |s| ==> s[k] == file[pos + k];
    TextIsPrefix(got);
    assert s[..n] == got;
    if LineLength(s) > n {
      assert forall k :: 0 <= k < n ==> s[k] != NEWLINE;
      assert forall k :: 0 <= k < |Text(got)| ==> Text(got)[k] == s[k];
      assert got[|Text(got)|] == 0;
    }
  }

  lemma ReadsUnfold(s: seq<byte>)
    requires s != []
    ensures Reads(s) == [Text(s[..ReadLength(s)])] + Reads(s[ReadLength(s)..])
  {
  }

  /** What the rest of a file holds: its next read's record, if any, then the others. */
  lemma NextRead(file: seq<byte>, pos: nat, end: nat)
    requires pos < |file| && end == pos + ReadLength(file[pos..])
    ensures pos < end <= |file| && Reads(file[pos..]) == [Text(file[pos..end])] + Reads(file[end..])
  {
    ReadsUnfold(file[pos..]);
    hide Reads, Text;
    DropTake(file, pos, end - pos);
    DropDrop(file, pos, end - pos);
  }

  lemma NextRecord(file: seq<byte>, pos: nat, end: nat, now: int, codec: Codec)
    requires pos < |file| && end == pos + ReadLength(file[pos..])
    ensures pos < end <= |file|
    ensures Records(Reads(file[pos..]), now, codec)
      == Item(Parsed(Text(file[pos..end]), now, codec)) + Records(Reads(file[end..]), now, codec)
  {
    hide Parsed, ReadLength, Reads, Text;
    NextRead(file, pos, end);
    var x := Text(file[pos..end]);
    assert ([x] + Reads(file[end..]))[1..] == Reads(file[end..]);
  }

  /** An oversized line whose length a NUL hides. */
  ghost predicate Hidden(line: seq<byte>) {
    |line| >= MAX_LINE && 0 in line[..MAX_LINE - 1]
  }

  ghost predicate NoneHidden(file: seq<byte>) {
    forall k :: 0 <= k < |Lines(file)| ==> !Hidden(Lines(file)[k])
  }

  /** Each line up to its first NUL. */
  ghost function Texts(lines: seq<seq<byte>>): seq<seq<byte>> {
    if lines == [] then [] else [Text(lines[0])] + Texts(lines[1..])
  }

  lemma FirstHidden(file: seq<byte>)
    requires file != []
    ensures Hidden(file[..LineLength(file)]) <==> ReadLength(file) < LineLength(file)
    ensures NoneHidden(file) <==> !Hidden(file[..LineLength(file)]) && NoneHidden(file[LineLength(file)..])
  {
    HiddenReads(file);
    LinesUnfold(file);
    hide LineLength, Lines, Hidden, ReadLength;
    var first, rest := file[..LineLength(file)], Lines(file[LineLength(file)..]);
    assert Lines(file)[0] == first;
    assert forall k :: 0 <= k < |rest| ==> Lines(file)[k + 1] == rest[k];
  }

  lemma HiddenReads(file: seq<byte>)
    requires file != []
    ensures Hidden(file[..LineLength(file)]) <==> ReadLength(file) < LineLength(file)
  {
    hide LineLength;
    var n := LineLength(file);
    if n >= MAX_LINE {
      assert file[..n][..MAX_LINE - 1] == file[..MAX_LINE - 1];
    }
  }

  /** Behind the first part of an oversized line stands the rest of it, as a line. */
  lemma RestIsALine(file: seq<byte>, n: nat)
    requires 0 < n < LineLength(file)
    ensures n < |file| && |Lines(file[n..])| == |Lines(file)|
  {
    assert NoNewline(file, 0, n);
    var end := LineLength(file);
    assert end <= |file| && file[0..] == file;
    hide *;
    LineGoesOn(file, 0, n);
    LinesTo(file, 0, end);
    LinesTo(file, n, end);
  }

  lemma LinesTo(file: seq<byte>, a: nat, end: nat)
    requires a < |file| && end == a + LineLength(file[a..])
    ensures end <= |file| && |Lines(file[a..])| == 1 + |Lines(file[end..])|
  {
    hide *;
    LinesFrom(file, a);
  }

  /** Reading never takes fewer turns than there are lines, and more when one is hidden. */
  lemma {:induction false} ReadsAtLeast(file: seq<byte>)
    ensures |Reads(file)| >= |Lines(file)| && (!NoneHidden(file) ==> |Reads(file)| > |Lines(file)|)
    decreases |file|
  {
    hide LineLength, ReadLength, Lines, Reads;
    if file == [] {
      NoLines(file);
      assert file[|file|..] == file;
    } else {
      ReadsUnfold(file);
      LinesUnfold(file);
      FirstHidden(file);
      ReadsAtLeast(file[ReadLength(file)..]);
      if Hidden(file[..LineLength(file)]) {
        RestIsALine(file, ReadLength(file));
      } else {
        ReadReachesEnd(file);
      }
    }
  }

  lemma ReadReachesEnd(file: seq<byte>)
    ensures ReadLength(file) <= LineLength(file)
  {
  }

  /** A reader gets the lines, each up to its first NUL, if and only if no
      oversized line has a NUL among its first 2047 bytes. */
  lemma {:induction false} ReadsAreTextsIff(file: seq<byte>)
    ensures Reads(file) == Texts(Lines(file)) <==> NoneHidden(file)
    decreases |file|
  {
    hide LineLength, ReadLength, Lines, Reads, Text;
    TextsSize(Lines(file));
    ReadsAtLeast(file);
    if file == [] {
      NoLines(file);
      assert file[|file|..] == file;
      NothingLeft(file, 0, 0, Codec(_ => [], _ => 0));
    } else if NoneHidden(file) {
      ReadsUnfold(file);
      LinesUnfold(file);
      FirstHidden(file);
      ReadReachesEnd(file);
      ReadsAreTextsIff(file[LineLength(file)..]);
      var first, rest := file[..LineLength(file)], Lines(file[LineLength(file)..]);
      assert ([first] + rest)[1..] == rest;
    }
  }

  lemma {:induction false} TextsSize(lines: seq<seq<byte>>)
    ensures |Texts(lines)| == |lines|
  {
    if lines != [] {
      TextsSize(lines[1..]);
    }
  }

  // ----- Loading the last lines

  /** The newlines between two places. */
  function Newlines(file: seq<byte>, a: nat, b: nat): nat
    requires b <= |file|
    decreases b - a
  {
    if a >= b then 0 else (if file[a] == NEWLINE then 1 else 0) + Newlines(file, a + 1, b)
  }

  /** One past the last byte that the backward scan looks at. */
  function ScanEnd(file: seq<byte>): (last: nat)
    requires file != []
    ensures last <= |file| && (last < |file| ==> file[last] == NEWLINE)
  {
    if file[|file| - 1] == NEWLINE then |file| - 1 else |file|
  }

  lemma LinesFrom(file: seq<byte>, a: nat)
    requires a < |file|
    ensures var end := a + LineLength(file[a..]);
      a < end <= |file| && |Lines(file[a..])| == 1 + |Lines(file[end..])|
  {
    LinesUnfold(file[a..]);
    hide Lines;
    DropDrop(file, a, LineLength(file[a..]));
  }

  lemma LinesUnfold(s: seq<byte>)
    requires s != []
    ensures Lines(s) == [s[..LineLength(s)]] + Lines(s[LineLength(s)..])
  {
  }

  /** A byte before a line belongs to it, or is a line's end. */
  lemma LinesStep(file: seq<byte>, a: nat)
    requires a < |file|
    ensures |Lines(file[a..])| ==
      if a + 1 == |file| then 1 else |Lines(file[a + 1..])| + (if file[a] == NEWLINE then 1 else 0)
  {
    hide LineLength, Lines;
    LinesFrom(file, a);
    if a + 1 == |file| || file[a] == NEWLINE {
      LineEnds(file, a, a + 1);
      assert a + 1 == |file| ==> |Lines(file[a + 1..])| == 0 by { NoLines(file); }
    } else {
      LineGoesOn(file, a, a + 1);
      LinesFrom(file, a + 1);
    }
  }

  lemma NoLines(file: seq<byte>)
    ensures Lines(file[|file|..]) == []
  {
  }

  /** Counting newlines counts lines. */
  lemma {:induction false} NewlinesCountLines(file: seq<byte>, a: nat)
    requires a < |file|
    ensures |Lines(file[a..])| == 1 + Newlines(file, a, ScanEnd(file))
    decreases |file| - a
  {
    hide Lines;
    LinesStep(file, a);
    if a + 1 < |file| {
      NewlinesCountLines(file, a + 1);
    }
  }

  lemma StartFound(file: seq<byte>, p: nat, n: nat)
    requires file != [] && p < ScanEnd(file) && file[p] == NEWLINE && Newlines(file, p + 1, ScanEnd(file)) == n - 1
    ensures p + 1 < |file| && Lines(file[p + 1..]) == LastN(Lines(file), n)
  {
    hide Lines, Newlines;
    NewlinesCountLines(file, p + 1);
    var head, tail := file[..p + 1], file[p + 1..];
    assert Terminated(head);
    assert file == head + tail;
    LinesConcat(head, tail);
    LastNOfConcat(Lines(head), Lines(tail));
  }

  lemma LastNOfConcat<T>(a: seq<T>, b: seq<T>)
    ensures LastN(a + b, |b|) == b
  {
  }

  lemma WholeFile(file: seq<byte>, n: nat)
    requires file != [] && Newlines(file, 0, ScanEnd(file)) < n
    ensures Lines(file[0..]) == LastN(Lines(file), n)
  {
    NewlinesCountLines(file, 0);
    assert file[0..] == file;
  }

  /** The inner loop: looks backwards through one chunk for the `n`-th newline. */
  method ScanChunk(chunk: array<byte>, size: nat, n: nat, found: nat, ghost file: seq<byte>, ghost at: nat)
    returns (count: nat, i: int)
    requires size <= chunk.Length && at + size <= |file| && chunk[..size] == file[at..at + size]
    requires file != [] && at + size <= ScanEnd(file) && found == Newlines(file, at + size, ScanEnd(file)) < n
    ensures -1 <= i < size && count == Newlines(file, at + i + 1, ScanEnd(file)) + (if i >= 0 then 1 else 0)
    ensures i < 0 ==> count < n
    ensures i >= 0 ==> count == n && file[at + i] == NEWLINE
  {
    count, i := found, size - 1;
    while i >= 0
      invariant -1 <= i < size && count == Newlines(file, at + i + 1, ScanEnd(file)) < n
    {
      assert chunk[i] == chunk[..size][i];
      if chunk[i] == NEWLINE {
        count := count + 1;
        if count >= n {
          return;
        }
      }
      i := i - 1;
    }
  }

  lemma NoNewlines(file: seq<byte>)
    requires file != []
    ensures Newlines(file, ScanEnd(file), ScanEnd(file)) == 0
  {
  }

  /** The backward scan of `message_load`, 4096 bytes at a time. */
  method FindStart(file: seq<byte>, n: nat) returns (start: nat)
    requires file != [] && n >= 1
    ensures start <= |file| && Lines(file[start..]) == LastN(Lines(file), n)
  {
    hide Lines, LastN, Newlines;
    NoNewlines(file);
    var pos := |file| - 1;
    if file[pos] == NEWLINE {
      pos := pos - 1;
    }
    var found := 0;
    var chunk := new byte[CHUNK];
    while pos >= 0 && found < n
      invariant -1 <= pos < ScanEnd(file) && found == Newlines(file, pos + 1, ScanEnd(file)) < n
      decreases pos
    {
      var readSize := if pos >= CHUNK then CHUNK else pos + 1;
      var readPos := pos - readSize + 1;
      CopyAt(chunk, 0, file[readPos..readPos + readSize]);
      assert chunk[..0] == [];
      var i;
      found, i := ScanChunk(chunk, readSize, n, found, file, readPos);
      if i >= 0 {
        StartFound(file, readPos + i, n);
        return readPos + i + 1;
      }
      pos := pos - readSize;
    }
    WholeFile(file, n);
    start := 0;
  }

  method Put(messages: array<Message>, count: nat, r: Option<Message>) returns (after: nat)
    requires count < messages.Length
    modifies messages
    ensures count <= after <= count + 1 && after <= messages.Length
      && messages[..after] == old(messages[..count]) + Item(r)
  {
    after := count;
    if r.Some? {
      messages[count] := r.value;
      after := count + 1;
    }
  }

  /** The first `n` elements, or all of them. */
  function FirstN<T>(s: seq<T>, n: nat): seq<T> {
    if n < |s| then s[..n] else s
  }

  /** The forward reading of `message_load`. */
  method ReadForward(file: seq<byte>, start: nat, messages: array<Message>, now: int, codec: Codec) returns (count: nat)
    requires start <= |file|
    modifies messages
    ensures count <= messages.Length
    ensures messages[..count] == FirstN(Records(Reads(file[start..]), now, codec), messages.Length)
  {
    var line := new byte[MAX_LINE];
    hide *;
    var pos := start;
    count := 0;
    assert messages[..0] == [];
    while pos < |file| && count < messages.Length
      invariant pos <= |file| && count <= messages.Length && line.Length == MAX_LINE
      invariant messages[..count] + Records(Reads(file[pos..]), now, codec) == Records(Reads(file[start..]), now, codec)
      decreases |file| - pos
    {
      var end, r := ReadRecord(file, pos, line, now, codec);
      NextRecord(file, pos, end, now, codec);
      Assoc(messages[..count], Item(r), Records(Reads(file[end..]), now, codec));
      count := Put(messages, count, r);
      pos := end;
    }
    NothingLeft(file, pos, now, codec);
    FirstNOf(messages[..count], Records(Reads(file[pos..]), now, codec), messages.Length);
  }

  lemma FirstNOf<T>(a: seq<T>, b: seq<T>, n: nat)
    requires |a| <= n && (|a| == n || b == [])
    ensures FirstN(a + b, n) == a
  {
  }

  /** What the last `n` lines of a file hold, read again. */
  ghost function Loaded(file: seq<byte>, n: nat, now: int, codec: Codec): seq<Message> {
    FirstN(Records(Reads(Joined(LastN(Lines(file), n))), now, codec), n)
  }

  /** Without NUL bytes: the records among the last `n` lines. */
  lemma LoadedIs(file: seq<byte>, n: nat, now: int, codec: Codec)
    requires NoNul(file)
    ensures Loaded(file, n, now, codec) == Records(LastN(Lines(file), n), now, codec)
  {
    var lines := Lines(file);
    LinesJoin(file);
    var k := |lines| - Min(|lines|, n);
    var tail := LastN(lines, n);
    SuffixOfLines(file, k);
    hide Lines, Reads, Records;
    assert lines[k..] == tail;
    ReadsAreLines(Joined(tail));
    RecordsFewer(tail, now, codec);
  }

  /** Joining the last lines and splitting again gives them back. */
  lemma {:induction false} SuffixOfLines(file: seq<byte>, k: nat)
    requires k <= |Lines(file)|
    ensures Lines(Joined(Lines(file)[k..])) == Lines(file)[k..]
    ensures NoNul(file) ==> NoNul(Joined(Lines(file)[k..]))
    decreases k
  {
    hide LineLength;
    if k == 0 {
      LinesJoin(file);
      assert Lines(file)[0..] == Lines(file);
    } else {
      var rest := file[LineLength(file)..];
      SuffixOfLines(rest, k - 1);
      assert Lines(file)[k..] == Lines(rest)[k - 1..];
    }
  }

  lemma {:induction false} RecordsFewer(lines: seq<seq<byte>>, now: int, codec: Codec)
    ensures |Records(lines, now, codec)| <= |lines|
    ensures |Records(lines, now, codec)| == |lines| <==>
      forall k :: 0 <= k < |lines| ==> Parsed(lines[k], now, codec).Some?
  {
    hide Parsed;
    if lines != [] {
      RecordsFewer(lines[1..], now, codec);
      assert forall k :: 0 <= k < |lines| - 1 ==> lines[1..][k] == lines[k + 1];
      assert forall k :: 0 < k < |lines| ==> lines[k] == lines[1..][k - 1];
    }
  }

  /** `message_load`: the records among the last lines of the file, oldest first. */
  method Load(file: seq<byte>, maxMessages: nat, now: int, codec: Codec) returns (messages: array<Message>, count: nat)
    requires maxMessages >= 1
    ensures count <= messages.Length == maxMessages
    ensures messages[..count] == Loaded(file, maxMessages, now, codec)
    ensures NoNul(file) ==> messages[..count] == Records(LastN(Lines(file), maxMessages), now, codec)
  {
    if NoNul(file) {
      LoadedIs(file, maxMessages, now, codec);
    }
    hide Records, NoNul, Reads;
    messages := new Message[maxMessages];
    count := 0;
    if |file| == 0 {
      NothingLoaded(maxMessages, now, codec);
      return;
    }
    hide Lines;
    var start := FindStart(file, maxMessages);
    LinesJoin(file[start..]);
    count := ReadForward(file, start, messages, now, codec);
  }

  lemma NothingLoaded(n: nat, now: int, codec: Codec)
    ensures Loaded([], n, now, codec) == []
  {
  }

  lemma NothingLeft(file: seq<byte>, pos: nat, now: int, codec: Codec)
    requires pos <= |file|
    ensures pos == |file| ==> Reads(file[pos..]) == [] && Records(Reads(file[pos..]), now, codec) == []
  {
    assert pos == |file| ==> file[pos..] == [];
  }

  /** Saving messages and loading the last `n` of them, as a restarted server
      does, restores exactly those, sanitised and in order. */
  lemma LoadRestoresSaved(file: seq<byte>, ms: seq<Message>, n: nat, now: int, codec: Codec)
    requires Lawful(codec, now) && Terminated(file) && n <= |ms| && forall k :: 0 <= k < |ms| ==> MessageOk(ms[k], now)
    ensures Loaded(SavedAll(file, ms, codec), n, now, codec) == LastN(SanitisedAll(ms), n)
  {
    hide Loaded, Lawful, MessageOk, Storable, LogText;
    var safe := SanitisedAll(ms);
    forall k | 0 <= k < |safe|
      ensures Storable(safe[k], now)
    {
      SanitisedIsStorable(ms[k], now);
    }
    SavedAllIs(file, ms, codec);
    LastRecords(file, safe, n, now, codec);
  }

  /** Plain messages come back byte for byte as they were posted. */
  lemma LoadRestoresPlain(file: seq<byte>, ms: seq<Message>, n: nat, now: int, codec: Codec)
    requires Lawful(codec, now) && Terminated(file) && n <= |ms| && AllPlain(ms, now)
    ensures Loaded(SavedAll(file, ms, codec), n, now, codec) == LastN(ms, n)
  {
    hide Loaded, Lawful, SavedAll, LastN;
    PlainStays(ms, now);
    LoadRestoresSaved(file, ms, n, now, codec);
  }

  lemma LastRecords(file: seq<byte>, ms: seq<Message>, n: nat, now: int, codec: Codec)
    requires Lawful(codec, now) && Terminated(file) && n <= |ms| && forall k :: 0 <= k < |ms| ==> Storable(ms[k], now)
    ensures Loaded(file + LogText(codec, ms), n, now, codec) == LastN(ms, n)
  {
    hide Lines, Reads, Records, Lawful, Storable;
    var earlier, latest := ms[..|ms| - n], ms[|ms| - n..];
    assert ms == earlier + latest;
    LogTextSplit(codec, earlier, latest);
    hide LogText;
    var a, b := file + LogText(codec, earlier), LogText(codec, latest);
    Assoc(file, LogText(codec, earlier), b);
    LogTerminated(file, earlier, now, codec);
    LinesConcat(a, b);
    LogReadsBack([], latest, now, codec);
    LogLines(latest, now, codec);
    assert [] + b == b;
    NoRecordsInNothing(now, codec);
    LastNOfConcat(Lines(a), Lines(b));
    LinesJoin(b);
    assert [] + latest == latest;
  }

  /** Each record of a log text is a line of its own. */
  lemma {:induction false} LogLines(ms: seq<Message>, now: int, codec: Codec)
    requires Lawful(codec, now) && forall k :: 0 <= k < |ms| ==> Storable(ms[k], now)
    ensures |Lines(LogText(codec, ms))| == |ms|
    decreases |ms|
  {
    hide Lawful, Storable, Record, OneLine, Lines, Reads, Parsed;
    if ms == [] {
      NoRecordsInNothing(now, codec);
    } else {
      var x := Record(codec, ms[0]);
      RecordIsOneLine(ms[0], now, codec);
      LinesOfOne(x);
      LinesConcat(x, LogText(codec, ms[1..]));
      LogLines(ms[1..], now, codec);
    }
  }

  lemma NoRecordsInNothing(now: int, codec: Codec)
    ensures Lines([]) == [] && Records(Reads([]), now, codec) == []
  {
  }

  lemma {:induction false} LogTextSplit(codec: Codec, a: seq<Message>, b: seq<Message>)
    ensures LogText(codec, a + b) == LogText(codec, a) + LogText(codec, b)
  {
    hide Record;
    if a == [] {
      assert a + b == b;
    } else {
      assert (a + b)[1..] == a[1..] + b;
      LogTextSplit(codec, a[1..], b);
      Assoc(Record(codec, a[0]), LogText(codec, a[1..]), LogText(codec, b));
    }
  }

  lemma LogTextOne(codec: Codec, m: Message)
    ensures LogText(codec, [m]) == Record(codec, m)
  {
    assert [m][1..] == [];
  }

  lemma {:induction false} LogTerminated(file: seq<byte>, ms: seq<Message>, now: int, codec: Codec)
    requires Lawful(codec, now) && Terminated(file) && forall k :: 0 <= k < |ms| ==> Storable(ms[k], now)
    ensures Terminated(file + LogText(codec, ms))
    decreases |ms|
  {
    hide Storable, Lawful, Record, OneLine, Reads, Parsed;
    if ms == [] {
      assert file + LogText(codec, ms) == file;
    } else {
      RecordIsOneLine(ms[0], now, codec);
      LogTerminated(file + Record(codec, ms[0]), ms[1..], now, codec);
      Assoc(file, Record(codec, ms[0]), LogText(codec, ms[1..]));
    }
  }

  // ----- Searching

  function Fold(b: byte): byte {
    if 0x41 <= b <= 0x5A then b + 0x20 else b
  }

  /** `strcasestr` finds `query` in `s`. */
  predicate Contains(s: seq<byte>, query: seq<byte>) {
    exists i | 0 <= i <= |s| - |query| :: FoundAt(s, i, query)
  }

  predicate FoundAt(s: seq<byte>, i: nat, query: seq<byte>)
    requires i + |query| <= |s|
  {
    forall k | 0 <= k < |query| :: Fold(s[i + k]) == Fold(query[k])
  }

  predicate Matches(m: Message, query: seq<byte>) {
    Contains(m.username, query) || Contains(m.content, query)
  }

  function Matching(ms: seq<Message>, query: seq<byte>): seq<Message> {
    if ms == [] then [] else (if Matches(ms[0], query) then [ms[0]] else []) + Matching(ms[1..], query)
  }

  /** The same letter in either case, or the same byte. */
  predicate SameLetter(a: byte, b: byte) {
    a == b || (0x41 <= a <= 0x5A && b == a + 32) || (0x41 <= b <= 0x5A && a == b + 32)
  }

  ghost predicate SameLetters(a: seq<byte>, b: seq<byte>) {
    |a| == |b| && forall k :: 0 <= k < |a| ==> SameLetter(a[k], b[k])
  }

  /** A part of the text is the query, up to the case of ASCII letters. */
  ghost predicate HasPart(text: seq<byte>, query: seq<byte>) {
    exists a, b :: 0 <= a <= b <= |text| && SameLetters(text[a..b], query)
  }

  lemma ContainsIff(text: seq<byte>, query: seq<byte>)
    ensures Contains(text, query) <==> HasPart(text, query)
  {
    if i :| 0 <= i <= |text| - |query| && FoundAt(text, i, query) {
      assert SameLetters(text[i..i + |query|], query);
    }
    if a, b :| 0 <= a <= b <= |text| && SameLetters(text[a..b], query) {
      assert forall k :: 0 <= k < |query| ==> text[a + k] == text[a..b][k];
      assert FoundAt(text, a, query);
    }
  }

  /** A search matches a message if and only if its name or its text holds the query. */
  lemma MatchesIff(m: Message, query: seq<byte>)
    ensures Matches(m, query) <==> HasPart(m.username, query) || HasPart(m.content, query)
  {
    ContainsIff(m.username, query);
    ContainsIff(m.content, query);
  }

  /** A search finds exactly the messages that match, each as often as the log has it,
      in the order of the log. */
  lemma {:induction false} MatchingIs(ms: seq<Message>, query: seq<byte>)
    ensures IsSubsequence(Matching(ms, query), ms)
    ensures forall m :: multiset(Matching(ms, query))[m] == if Matches(m, query) then multiset(ms)[m] else 0
  {
    hide Matches;
    if ms != [] {
      var first, rest := ms[0], ms[1..];
      MatchingIs(rest, query);
      assert ms == [first] + rest;
      assert Matching(ms, query) == (if Matches(first, query) then [first] else []) + Matching(rest, query);
      if Matches(first, query) {
        assert Matching(ms, query)[1..] == Matching(rest, query);
      } else {
        assert Matching(ms, query) == Matching(rest, query);
      }
    }
  }

  /** What one line contributes to a search. */
  function Hit(r: Option<Message>, query: seq<byte>): seq<Message> {
    if r.Some? && Matches(r.value, query) then [r.value] else []
  }

  /** The matches in what a file holds from `pos` on. */
  ghost function Hits(file: seq<byte>, pos: nat, query: seq<byte>, now: int, codec: Codec): seq<Message>
    requires pos <= |file|
  {
    Matching(Records(Reads(file[pos..]), now, codec), query)
  }

  lemma NextHit(file: seq<byte>, pos: nat, end: nat, query: seq<byte>, now: int, codec: Codec)
    requires pos < |file| && end == pos + ReadLength(file[pos..])
    ensures pos < end <= |file|
    ensures Hits(file, pos, query, now, codec)
      == Hit(Parsed(Text(file[pos..end]), now, codec), query) + Hits(file, end, query, now, codec)
  {
    NextRecord(file, pos, end, now, codec);
    hide Parsed, Records, Reads, ReadLength, Matches, Text;
    var r, rest := Parsed(Text(file[pos..end]), now, codec), Records(Reads(file[end..]), now, codec);
    if r.Some? {
      assert ([r.value] + rest)[1..] == rest;
    } else {
      assert Item(r) + rest == rest;
    }
  }

  lemma NoHits(file: seq<byte>, query: seq<byte>, now: int, codec: Codec)
    ensures Hits(file, |file|, query, now, codec) == []
  {
    NothingLeft(file, |file|, now, codec);
  }

  /** The last `n` after one more. */
  lemma LastNAppend<T>(s: seq<T>, x: T, n: nat)
    requires n >= 1
    ensures LastN(s + [x], n) == if |s| < n then LastN(s, n) + [x] else LastN(s, n)[1..] + [x]
  {
  }

  /** The `memmove` that drops the first element of a full window. */
  method ShiftDown(results: array<Message>)
    requires results.Length >= 1
    modifies results
    ensures results[..results.Length - 1] == old(results[1..])
  {
    ghost var all := results[..];
    for i := 0 to results.Length - 1
      invariant results[..i] == all[1..i + 1] && results[i..] == all[i..]
    {
      assert results[i + 1] == results[i..][1] == all[i..][1];
      results[i] := results[i + 1];
      assert results[i + 1..] == all[i..][1..];
    }
  }

  /** Stores a match, shifting the window down once it is full. */
  method ShiftIn(results: array<Message>, count: nat, m: Message) returns (after: nat)
    requires count <= results.Length && results.Length >= 1
    modifies results
    ensures after == Min(count + 1, results.Length)
    ensures results[..after] == (if count < results.Length then old(results[..count]) else old(results[1..])) + [m]
  {
    if count < results.Length {
      results[count] := m;
      after := count + 1;
    } else {
      ShiftDown(results);
      results[results.Length - 1] := m;
      after := count;
    }
  }

  /** `message_search`: the last matches of the whole log, in order. */
  method Search(file: seq<byte>, query: seq<byte>, maxResults: nat, now: int, codec: Codec)
    returns (results: array<Message>, count: nat)
    requires maxResults >= 1
    ensures count <= results.Length == maxResults
    ensures query == [] ==> count == 0
    ensures query != [] ==> results[..count] == LastN(Matching(Records(Reads(file), now, codec), query), maxResults)
  {
    results := new Message[maxResults];
    count := 0;
    if query == [] {
      return;
    }
    count := SearchLoop(file, query, results, now, codec);
    assert file[0..] == file;
  }

  /** What the window holds of the matches so far. */
  ghost predicate Window(results: seq<Message>, count: nat, done: seq<Message>) {
    count == Min(|done|, |results|) && results[..count] == LastN(done, |results|)
  }

  method AddMatch(results: array<Message>, count: nat, m: Message, ghost done: seq<Message>) returns (after: nat)
    requires results.Length >= 1 && Window(results[..], count, done)
    modifies results
    ensures Window(results[..], after, done + [m])
  {
    ghost var n := results.Length;
    LastNAppend(done, m, n);
    assert results[..][..count] == results[..count];
    assert count == n ==> results[..count][1..] == results[1..];
    after := ShiftIn(results, count, m);
    assert results[..][..after] == results[..after];
  }

  /** One turn of the search loop, with the record that was read. */
  method SearchTurn(results: array<Message>, count: nat, r: Option<Message>, query: seq<byte>, ghost done: seq<Message>)
    returns (after: nat)
    requires results.Length >= 1 && Window(results[..], count, done)
    modifies results
    ensures Window(results[..], after, done + Hit(r, query))
  {
    hide *;
    after := count;
    HitIs(r, query);
    if r.Some? && Matches(r.value, query) {
      after := AddMatch(results, count, r.value, done);
    } else {
      assert done + [] == done;
    }
  }

  method SearchLoop(file: seq<byte>, query: seq<byte>, results: array<Message>, now: int, codec: Codec)
    returns (count: nat)
    requires results.Length >= 1
    modifies results
    ensures count <= results.Length && results[..count] == LastN(Hits(file, 0, query, now, codec), results.Length)
  {
    var line := new byte[MAX_LINE];
    ghost var done: seq<Message> := [];
    count := 0;
    var pos := 0;
    assert Window(results[..], 0, done);
    hide *;
    assert done + Hits(file, 0, query, now, codec) == Hits(file, 0, query, now, codec);
    while pos < |file|
      invariant pos <= |file| && line.Length == MAX_LINE && Window(results[..], count, done)
      invariant done + Hits(file, pos, query, now, codec) == Hits(file, 0, query, now, codec)
      decreases |file| - pos
    {
      var end, r := ReadRecord(file, pos, line, now, codec);
      NextHit(file, pos, end, query, now, codec);
      Assoc(done, Hit(r, query), Hits(file, end, query, now, codec));
      count := SearchTurn(results, count, r, query, done);
      done := done + Hit(r, query);
      pos := end;
    }
    NoHits(file, query, now, codec);
    assert done + [] == done;
    WindowIs(results, count, done);
  }

  lemma WindowIs(results: array<Message>, count: nat, done: seq<Message>)
    requires Window(results[..], count, done)
    ensures count <= results.Length && results[..count] == LastN(done, results.Length)
  {
    assert results[..][..count] == results[..count];
  }

  lemma HitIs(r: Option<Message>, query: seq<byte>)
    ensures Hit(r, query) == if r.Some? && Matches(r.value, query) then [r.value] else []
  {
  }
}
