/**
  Records of messages.log: one line `timestamp|username|content` each
  (src/message_log.c), the sanitiser that protects them (src/message.c), and the
  tool that checks and recovers a log (src/message_log_tool.c).
 */
module MessageLog {
  import opened Bytes
  import opened Common
  import Utf8

  const MAX_LINE := 2048
  const MAX_RECORD := MAX_USERNAME_LEN + MAX_MESSAGE_LEN + 48
  const WINDOW_BACK := 31536000 * 10
  const WINDOW_AHEAD := 86400

  const PIPE: byte := 0x7C
  const RETURN: byte := 0x0D
  const UNDERSCORE: byte := 0x5F
  const SPACE: byte := 0x20

  /** Timestamps as UTC text of section 5.6 of RFC 3339, written and read by the
      C library; reading gives -1 for anything it does not accept. */
  datatype Codec = Codec(format: int -> seq<byte>, parse: seq<byte> -> int)

  predicate InWindow(t: int, now: int) {
    now - WINDOW_BACK <= t <= now + WINDOW_AHEAD
  }

  ghost predicate TimestampText(x: seq<byte>) {
    x != [] && |x| <= 46 && NoNul(x) && PIPE !in x && NEWLINE !in x
  }

  /** What the records rely on: the text of a time is short, has no separator,
      and reads back. */
  ghost predicate Lawful(codec: Codec, now: int) {
    forall t :: InWindow(t, now) ==> TimestampText(codec.format(t)) && codec.parse(codec.format(t)) == t
  }

  // ----- One record

  /** The first place of `c`, or the length. */
  function Index(s: seq<byte>, c: byte): (i: nat)
    ensures i <= |s| && (forall k :: 0 <= k < i ==> s[k] != c) && (i < |s| ==> s[i] == c)
  {
    if s == [] || s[0] == c then 0 else 1 + Index(s[1..], c)
  }

  function Record(codec: Codec, m: Message): seq<byte> {
    codec.format(m.timestamp) + [PIPE] + m.username + [PIPE] + m.content + [NEWLINE]
  }

  function Accept(ts: seq<byte>, username: seq<byte>, content: seq<byte>, now: int, codec: Codec): Option<Message> {
    if ts == [] || username == [] || content == [] then None
    else if |username| >= MAX_USERNAME_LEN || |content| >= MAX_MESSAGE_LEN then None
    else if !Utf8.Valid(username) || !Utf8.Valid(content) then None
    else
      var t := codec.parse(ts);
      if t == -1 || !InWindow(t, now) then None else Some(Message(t, username, content))
  }

  /** The places of the two separators, if there are exactly two. */
  function Separators(body: seq<byte>): (r: Option<(nat, nat)>)
    ensures r.Some? ==> r.value.0 < r.value.1 < |body|
  {
    var i := Index(body, PIPE);
    if i == |body| then None
    else
      var rest := body[i + 1..];
      var j := Index(rest, PIPE);
      if j == |rest| || Index(rest[j + 1..], PIPE) < |rest[j + 1..]| then None else Some((i, i + 1 + j))
  }

  function ParsedBody(body: seq<byte>, now: int, codec: Codec): Option<Message> {
    var at := Separators(body);
    if at.None? then None
    else
      var (i, k) := at.value;
      var rest := body[i + 1..];
      Accept(body[..i], rest[..k - i - 1], rest[k - i..], now, codec)
  }

  function Parsed(line: seq<byte>, now: int, codec: Codec): Option<Message> {
    if |line| == 0 || line[|line| - 1] != NEWLINE || |line| >= MAX_LINE then None
    else ParsedBody(line[..|line| - 1], now, codec)
  }

  ghost predicate IsRecord(line: seq<byte>, ts: seq<byte>, m: Message) {
    && line == ts + [PIPE] + m.username + [PIPE] + m.content + [NEWLINE]
    && PIPE !in ts && PIPE !in m.username && PIPE !in m.content
  }

  ghost predicate FieldOk(s: seq<byte>, limit: nat) {
    s != [] && |s| < limit && Utf8.Valid(s)
  }

  ghost predicate MessageOk(m: Message, now: int) {
    && FieldOk(m.username, MAX_USERNAME_LEN) && FieldOk(m.content, MAX_MESSAGE_LEN)
    && m.timestamp != -1 && InWindow(m.timestamp, now)
  }

  lemma IndexIs(s: seq<byte>, c: byte, i: nat)
    requires i <= |s| && c !in s[..i] && (i < |s| ==> s[i] == c)
    ensures Index(s, c) == i
  {
    assert forall k :: 0 <= k < i ==> s[..i][k] == s[k];
  }

  /** Three fields without separators are found again. */
  lemma BodyOfFields(ts: seq<byte>, username: seq<byte>, content: seq<byte>, now: int, codec: Codec)
    requires PIPE !in ts && PIPE !in username
    ensures ParsedBody(ts + [PIPE] + username + [PIPE] + content, now, codec)
      == if PIPE in content then None else Accept(ts, username, content, now, codec)
  {
    hide Accept, Separators;
    SeparatorsOfFields(ts, username, content);
    Regroup(ts + [PIPE], username, content);
    FieldCut(ts, username + [PIPE] + content);
    FieldCut(username, content);
  }

  lemma FieldCut(a: seq<byte>, rest: seq<byte>)
    ensures (a + [PIPE] + rest)[..|a|] == a && (a + [PIPE] + rest)[|a| + 1..] == rest
    ensures PIPE !in a ==> Index(a + [PIPE] + rest, PIPE) == |a|
  {
    var s := a + [PIPE] + rest;
    assert s[..|a|] == a;
    if PIPE !in a {
      IndexIs(s, PIPE, |a|);
    }
  }

  lemma SeparatorsOfFields(ts: seq<byte>, username: seq<byte>, content: seq<byte>)
    requires PIPE !in ts && PIPE !in username
    ensures Separators(ts + [PIPE] + username + [PIPE] + content)
      == if PIPE in content then None else Some((|ts|, |ts| + 1 + |username|))
  {
    hide Separators, Index;
    Regroup(ts + [PIPE], username, content);
    FieldCut(ts, username + [PIPE] + content);
    FieldCut(username, content);
    TwoSeparators(ts + [PIPE] + username + [PIPE] + content, |ts|, |ts| + 1 + |username|);
    IndexFinds(content, PIPE);
  }

  lemma IndexFinds(s: seq<byte>, c: byte)
    ensures c in s <==> Index(s, c) < |s|
    ensures Index(s, c) <= |s|
  {
  }

  lemma FieldsOfBody(body: seq<byte>, m: Message, now: int, codec: Codec) returns (ts: seq<byte>)
    requires ParsedBody(body, now, codec) == Some(m)
    ensures PIPE !in ts && PIPE !in m.username && PIPE !in m.content
    ensures body == ts + [PIPE] + m.username + [PIPE] + m.content
    ensures Accept(ts, m.username, m.content, now, codec) == Some(m)
  {
    hide Accept;
    var (i, k) := Separators(body).value;
    SeparatorsSplit(body);
    hide Separators;
    var rest := body[i + 1..];
    ts := body[..i];
    AcceptKeepsFields(ts, rest[..k - i - 1], rest[k - i..], now, codec);
    hide *;
    Regroup(ts + [PIPE], m.username, m.content);
  }

  lemma SeparatorsSplit(body: seq<byte>)
    requires Separators(body).Some?
    ensures var (i, k) := Separators(body).value;
      var rest := body[i + 1..];
      var username, content := rest[..k - i - 1], rest[k - i..];
      && body == body[..i] + [PIPE] + (username + [PIPE] + content)
      && PIPE !in body[..i] && PIPE !in username && PIPE !in content
  {
    var (i, k) := Separators(body).value;
    var rest := body[i + 1..];
    SplitAt(body, i);
    SplitAt(rest, k - i - 1);
  }

  lemma Regroup(a: seq<byte>, b: seq<byte>, c: seq<byte>)
    ensures a + (b + [PIPE] + c) == a + b + [PIPE] + c
  {
  }

  lemma AcceptKeepsFields(ts: seq<byte>, username: seq<byte>, content: seq<byte>, now: int, codec: Codec)
    ensures var r := Accept(ts, username, content, now, codec);
      r.Some? ==> r.value.username == username && r.value.content == content
  {
  }

  lemma SplitAt(s: seq<byte>, i: nat)
    requires i < |s|
    ensures s == s[..i] + [s[i]] + s[i + 1..]
  {
  }

  lemma DropLast(s: seq<byte>, x: byte)
    ensures (s + [x])[..|s + [x]| - 1] == s
  {
  }

  /** A line reads as a message exactly when it is that message's three fields,
      none with a separator of its own, all within their limits. */
  lemma ParsedIff(line: seq<byte>, m: Message, now: int, codec: Codec)
    ensures Parsed(line, now, codec) == Some(m) <==>
      && |line| < MAX_LINE && MessageOk(m, now)
      && exists ts :: ts != [] && codec.parse(ts) == m.timestamp && IsRecord(line, ts, m)
  {
    hide ParsedBody;
    if Parsed(line, now, codec) == Some(m) {
      var ts := FieldsOfBody(line[..|line| - 1], m, now, codec);
      hide Parsed, Utf8.Valid;
      assert line == line[..|line| - 1] + [NEWLINE];
      assert IsRecord(line, ts, m);
    }
    if |line| < MAX_LINE && MessageOk(m, now) {
      if ts :| ts != [] && codec.parse(ts) == m.timestamp && IsRecord(line, ts, m) {
        RecordParses(line, ts, m, now, codec);
      }
    }
  }

  lemma RecordParses(line: seq<byte>, ts: seq<byte>, m: Message, now: int, codec: Codec)
    requires |line| < MAX_LINE && MessageOk(m, now) && ts != [] && codec.parse(ts) == m.timestamp
      && IsRecord(line, ts, m)
    ensures Parsed(line, now, codec) == Some(m)
  {
    var body := ts + [PIPE] + m.username + [PIPE] + m.content;
    assert line[..|line| - 1] == body;
    BodyOfFields(ts, m.username, m.content, now, codec);
  }

  /** A written record reads back exactly when the message fits the format. */
  lemma RecordReadsBackIff(m: Message, now: int, codec: Codec)
    requires Lawful(codec, now) && InWindow(m.timestamp, now)
    ensures Parsed(Record(codec, m), now, codec) == Some(m) <==>
      MessageOk(m, now) && PIPE !in m.username && PIPE !in m.content
    ensures MessageOk(m, now) ==> |Record(codec, m)| < MAX_RECORD
  {
    var ts, line := codec.format(m.timestamp), Record(codec, m);
    ParsedIff(line, m, now, codec);
    if MessageOk(m, now) && PIPE !in m.username && PIPE !in m.content {
      assert IsRecord(line, ts, m);
    }
    if other :| IsRecord(line, other, m) {
    }
  }

  /** Any time that reads back: the record is replayed if and only if it is at most ten
      years old and at most a day ahead of the clock. */
  lemma ReplayedIff(m: Message, now: int, codec: Codec)
    requires FieldOk(m.username, MAX_USERNAME_LEN) && FieldOk(m.content, MAX_MESSAGE_LEN)
    requires PIPE !in m.username && PIPE !in m.content && m.timestamp != -1
    requires var ts := codec.format(m.timestamp); TimestampText(ts) && codec.parse(ts) == m.timestamp
    ensures Parsed(Record(codec, m), now, codec) == Some(m) <==>
      now - 10 * 365 * 24 * 3600 <= m.timestamp <= now + 24 * 3600
  {
    hide Parsed;
    var ts, line := codec.format(m.timestamp), Record(codec, m);
    ParsedIff(line, m, now, codec);
    assert IsRecord(line, ts, m);
  }

  // ----- Lines

  /** How far the first line reaches, its newline included. */
  function LineLength(s: seq<byte>): (n: nat)
    ensures n <= |s| && (s != [] ==> n > 0)
  {
    if Index(s, NEWLINE) < |s| then Index(s, NEWLINE) + 1 else |s|
  }

  function Lines(file: seq<byte>): seq<seq<byte>> {
    if file == [] then [] else [file[..LineLength(file)]] + Lines(file[LineLength(file)..])
  }

  function Records(lines: seq<seq<byte>>, now: int, codec: Codec): seq<Message> {
    if lines == [] then [] else Item(Parsed(lines[0], now, codec)) + Records(lines[1..], now, codec)
  }

  function Item(r: Option<Message>): seq<Message> {
    if r.Some? then [r.value] else []
  }

  lemma ItemIs(r: Option<Message>)
    ensures Item(r) == if r.Some? then [r.value] else []
  {
  }

  /** Whole lines: nothing, or something that ends with a newline. */
  ghost predicate Terminated(s: seq<byte>) {
    s == [] || s[|s| - 1] == NEWLINE
  }

  lemma FirstLineOf(a: seq<byte>, b: seq<byte>)
    requires a != [] && Terminated(a)
    ensures LineLength(a + b) == LineLength(a)
    ensures (a + b)[..LineLength(a)] == a[..LineLength(a)] && (a + b)[LineLength(a)..] == a[LineLength(a)..] + b
    ensures Terminated(a[LineLength(a)..])
  {
    var i := Index(a, NEWLINE);
    assert (a + b)[..i] == a[..i];
    IndexIs(a + b, NEWLINE, i);
  }

  /** Splitting a concatenation after a newline splits its parts. */
  lemma {:induction false} LinesConcat(a: seq<byte>, b: seq<byte>)
    requires Terminated(a)
    ensures Lines(a + b) == Lines(a) + Lines(b)
    decreases |a|
  {
    if a == [] {
      assert a + b == b;
    } else {
      FirstLineOf(a, b);
      hide LineLength;
      LinesConcat(a[LineLength(a)..], b);
      Assoc([a[..LineLength(a)]], Lines(a[LineLength(a)..]), Lines(b));
    }
  }

  ghost predicate OneLine(x: seq<byte>) {
    x != [] && NEWLINE !in x[..|x| - 1]
  }

  lemma LengthOfOne(x: seq<byte>)
    requires OneLine(x)
    ensures LineLength(x) == |x|
  {
    if x[|x| - 1] == NEWLINE {
      IndexIs(x, NEWLINE, |x| - 1);
    } else {
      assert x == x[..|x| - 1] + [x[|x| - 1]];
      IndexIs(x, NEWLINE, |x|);
    }
  }

  lemma LinesOfOne(x: seq<byte>)
    requires OneLine(x)
    ensures Lines(x) == [x]
  {
    LengthOfOne(x);
    assert x[..|x|] == x && x[|x|..] == [];
  }

  /** Lines lose nothing: joined, they are the file. */
  function Joined(lines: seq<seq<byte>>): seq<byte> {
    if lines == [] then [] else lines[0] + Joined(lines[1..])
  }

  lemma {:induction false} LinesJoin(file: seq<byte>)
    ensures Joined(Lines(file)) == file
  {
    if file != [] {
      LinesJoin(file[LineLength(file)..]);
    }
  }

  // ----- What a reader gets

  /** How far one read of a line reaches: to its end, the discarded remainder of
      an oversized line included; but only as far as the buffer when a NUL in it
      hides that the line goes on. */
  function ReadLength(s: seq<byte>): (n: nat)
    ensures n <= |s| && (s != [] ==> n > 0)
  {
    var n := LineLength(s);
    if n >= MAX_LINE && 0 in s[..MAX_LINE - 1] then MAX_LINE - 1 else n
  }

  /** The texts that reading a file line by line delivers, each up to its first NUL. */
  ghost function Reads(file: seq<byte>): seq<seq<byte>> {
    if file == [] then [] else [Text(file[..ReadLength(file)])] + Reads(file[ReadLength(file)..])
  }

  /** Without NUL bytes they are the lines. */
  lemma {:induction false} ReadsAreLines(file: seq<byte>)
    requires NoNul(file)
    ensures Reads(file) == Lines(file)
    decreases |file|
  {
    hide LineLength;
    if file != [] {
      var n := LineLength(file);
      assert ReadLength(file) == n;
      TextOfAll(file[..n]);
      ReadsAreLines(file[n..]);
    }
  }

  lemma FirstReadOf(a: seq<byte>, b: seq<byte>)
    requires a != [] && Terminated(a)
    ensures ReadLength(a + b) == ReadLength(a)
    ensures (a + b)[..ReadLength(a)] == a[..ReadLength(a)] && (a + b)[ReadLength(a)..] == a[ReadLength(a)..] + b
    ensures Terminated(a[ReadLength(a)..])
  {
    FirstLineOf(a, b);
    hide LineLength;
    if LineLength(a) >= MAX_LINE {
      assert (a + b)[..MAX_LINE - 1] == a[..MAX_LINE - 1];
    }
  }

  /** Reading a concatenation after a newline reads its parts. */
  lemma {:induction false} ReadsConcat(a: seq<byte>, b: seq<byte>)
    requires Terminated(a)
    ensures Reads(a + b) == Reads(a) + Reads(b)
    decreases |a|
  {
    if a == [] {
      assert a + b == b;
    } else {
      FirstReadOf(a, b);
      hide ReadLength, Text;
      ReadsConcat(a[ReadLength(a)..], b);
      Assoc([Text(a[..ReadLength(a)])], Reads(a[ReadLength(a)..]), Reads(b));
    }
  }

  lemma ReadsOfOne(x: seq<byte>)
    requires OneLine(x) && NoNul(x)
    ensures Reads(x) == [x]
  {
    hide Reads, Lines;
    ReadsAreLines(x);
    LinesOfOne(x);
  }

  /** A text with at most one newline, at its end. */
  ghost predicate AtMostOneLine(x: seq<byte>) {
    x == [] || OneLine(x)
  }

  lemma {:induction false} ReadsAreSingle(file: seq<byte>)
    ensures forall k :: 0 <= k < |Reads(file)| ==> AtMostOneLine(Reads(file)[k])
    decreases |file|
  {
    if file != [] {
      var n := ReadLength(file);
      ReadsAreSingle(file[n..]);
      var x := Text(file[..n]);
      TextIsPrefix(file[..n]);
      assert forall k :: 0 <= k < |x| - 1 ==> x[..|x| - 1][k] == file[..n][k] == file[k];
      assert AtMostOneLine(x);
    }
  }

  lemma {:induction false} RecordsConcat(a: seq<seq<byte>>, b: seq<seq<byte>>, now: int, codec: Codec)
    ensures Records(a + b, now, codec) == Records(a, now, codec) + Records(b, now, codec)
  {
    hide Parsed;
    if a == [] {
      assert a + b == b;
    } else {
      assert (a + b)[1..] == a[1..] + b && (a + b)[0] == a[0];
      RecordsConcat(a[1..], b, now, codec);
      Assoc(Item(Parsed(a[0], now, codec)), Records(a[1..], now, codec), Records(b, now, codec));
    }
  }

  // ----- The formatter and the parser, as they work on buffers

  /** `message_log_format_record` */
  method FormatRecord(m: Message, buffer: array<byte>, codec: Codec) returns (rc: int, needed: nat)
    requires NoNul(codec.format(m.timestamp)) && NoNul(m.username) && NoNul(m.content)
    modifies buffer
    ensures needed == |Record(codec, m)|
    ensures rc == if buffer.Length == 0 || needed < buffer.Length then 0 else -1
    ensures buffer.Length > 0 ==> Text(buffer[..]) == Clip(Record(codec, m), buffer.Length - 1) && 0 in buffer[..]
  {
    var text := Record(codec, m);
    needed := |text|;
    if buffer.Length == 0 {
      return 0, needed;
    }
    CopyString(buffer, text);
    rc := if needed < buffer.Length then 0 else -1;
  }

  /** `strchr` in the text that stands at `from`. */
  method FindChar(a: array<byte>, from: nat, c: byte, ghost text: seq<byte>) returns (i: int)
    requires from <= a.Length && Holds(a[from..], text) && c != 0
    ensures i == if Index(text, c) < |text| then from + Index(text, c) else -1
  {
    ghost var all := a[from..];
    i := from;
    while a[i] != 0 && a[i] != c
      invariant from <= i <= from + |text| < a.Length && all == a[from..]
      invariant forall k :: 0 <= k < i - from ==> text[k] != c
      decreases a.Length - i
    {
      assert a[i] == all[i - from];
      i := i + 1;
    }
    assert a[i] == all[i - from];
    assert i < from + |text| ==> text[i - from] == all[..|text|][i - from];
    IndexIs(text, c, i - from);
    if a[i] != c {
      i := -1;
    }
  }

  /** The text that stands at `from`, read out. */
  method ReadText(a: array<byte>, from: nat, ghost text: seq<byte>) returns (s: seq<byte>)
    requires from <= a.Length && Holds(a[from..], text)
    ensures s == text
  {
    ghost var all := a[from..];
    s := [];
    while a[from + |s|] != 0
      invariant |s| <= |text| && s == text[..|s|] && all == a[from..] && from + |text| < a.Length
      decreases |text| - |s|
    {
      assert a[from + |s|] == all[|s|];
      assert |s| < |text| ==> text[|s|] == all[..|text|][|s|];
      s := s + [a[from + |s|]];
    }
    assert a[from + |s|] == all[|s|];
    assert forall k :: 0 <= k < |text| ==> text[k] == all[..|text|][k];
  }

  lemma HoldsFrom(a: seq<byte>, from: nat, text: seq<byte>)
    requires from + |text| < |a| && a[from..from + |text|] == text && a[from + |text|] == 0 && NoNul(text)
    ensures Holds(a[from..], text)
  {
  }

  /** Ending a text earlier, at its `i`-th byte, leaves two. */
  lemma CutText(a: seq<byte>, from: nat, text: seq<byte>, i: nat)
    requires from <= |a| && Holds(a[from..], text) && i < |text|
    ensures from + |text| < |a|
    ensures var b := a[from + i := 0];
      Holds(b[from..], text[..i]) && Holds(b[from + i + 1..], text[i + 1..]) && b[..from] == a[..from]
    ensures Holds(a[from + i + 1..], text[i + 1..])
  {
    var b := a[from + i := 0];
    assert a[from..from + |text|] == text by { assert a[from..][..|text|] == text; }
    assert from + |text| < |a| && a[from + |text|] == a[from..][|text|];
    HoldsFrom(b, from, text[..i]);
    HoldsFrom(b, from + i + 1, text[i + 1..]);
    HoldsFrom(a, from + i + 1, text[i + 1..]);
  }

  /** The text behind the first `n` bytes of a text. */
  lemma TextBehind(a: array<byte>, from: nat, text: seq<byte>, n: nat)
    requires from <= a.Length && Holds(a[from..], text) && n <= |text|
    ensures from + |text| < a.Length && Holds(a[from + n..], text[n..])
  {
    assert a[from + n..] == a[from..][n..];
    assert a[from + n..][..|text| - n] == a[from..][..|text|][n..];
  }

  lemma IndexBound(s: seq<byte>, c: byte)
    ensures Index(s, c) <= |s|
  {
  }

  lemma NoSeparator(body: seq<byte>)
    requires Index(body, PIPE) == |body|
    ensures Separators(body) == None
  {
  }

  lemma OneSeparator(body: seq<byte>, first: nat)
    requires Index(body, PIPE) == first < |body| && Index(body[first + 1..], PIPE) == |body[first + 1..]|
    ensures Separators(body) == None
  {
  }

  lemma TwoSeparators(body: seq<byte>, first: nat, second: nat)
    requires Index(body, PIPE) == first < second < |body| && Index(body[first + 1..], PIPE) == second - first - 1
    ensures var content := body[first + 1..][second - first..];
      Separators(body) == if Index(content, PIPE) < |content| then None else Some((first, second))
  {
    hide Index;
  }

  /** The three `strchr` searches. */
  method FindSeparators(copy: array<byte>, ghost body: seq<byte>) returns (r: Option<(nat, nat)>)
    requires Holds(copy[0..], body)
    ensures r == Separators(body)
  {
    assert PIPE != 0;
    hide *;
    var first := FindChar(copy, 0, PIPE, body);
    IndexBound(body, PIPE);
    if first < 0 {
      NoSeparator(body);
      r := None;
    } else {
      r := FindSecond(copy, first, body);
    }
  }

  method FindSecond(copy: array<byte>, first: nat, ghost body: seq<byte>) returns (r: Option<(nat, nat)>)
    requires Holds(copy[0..], body) && Index(body, PIPE) == first < |body|
    ensures r == Separators(body)
  {
    assert PIPE != 0;
    hide *;
    r := None;
    TextBehind(copy, 0, body, first + 1);
    ghost var rest := body[first + 1..];
    var second := FindChar(copy, first + 1, PIPE, rest);
    IndexBound(rest, PIPE);
    if second < 0 {
      OneSeparator(body, first);
      return;
    }
    TextBehind(copy, first + 1, rest, second - first);
    var third := FindChar(copy, second + 1, PIPE, rest[second - first..]);
    TwoSeparators(body, first, second);
    if third < 0 {
      r := Some((first, second));
    }
  }

  /** The part of `message_log_parse_record` that splits its copy in place. */
  method ParseBody(copy: array<byte>, ghost body: seq<byte>, now: int, codec: Codec) returns (r: Option<Message>)
    requires Holds(copy[0..], body)
    modifies copy
    ensures r == ParsedBody(body, now, codec)
  {
    hide Holds, Accept, NoNul, Separators;
    var at := FindSeparators(copy, body);
    if at.None? {
      return None;
    }
    var (first, second) := at.value;
    assert copy[..][0..] == copy[0..];
    CutText(copy[..], 0, body, first);
    copy[first] := 0;
    assert copy[..][0..] == copy[0..] && copy[..][first + 1..] == copy[first + 1..];
    r := SplitFields(copy, first, second, body[..first], body[first + 1..], now, codec);
  }

  /** With the first separator overwritten: overwrites the second, and checks the fields. */
  method SplitFields(copy: array<byte>, first: nat, second: nat, ghost ts: seq<byte>, ghost rest: seq<byte>,
                     now: int, codec: Codec)
    returns (r: Option<Message>)
    requires first < second < first + 1 + |rest| && first + 1 <= copy.Length
    requires Holds(copy[0..], ts) && |ts| == first && Holds(copy[first + 1..], rest)
    modifies copy
    ensures r == Accept(ts, rest[..second - first - 1], rest[second - first..], now, codec)
  {
    hide Accept;
    ghost var before := copy[..];
    ghost var j := second - first - 1;
    assert before[first + 1..] == copy[first + 1..];
    CutText(before, first + 1, rest, j);
    assert before[0..] == before;
    copy[second] := 0;
    assert copy[..] == before[second := 0];
    assert copy[first + 1..] == copy[..][first + 1..] && copy[second + 1..] == copy[..][second + 1..];
    assert copy[0..][..first] == before[..first];
    hide *;
    var stamp := ReadText(copy, 0, ts);
    var username := ReadText(copy, first + 1, rest[..j]);
    var content := ReadText(copy, second + 1, rest[j + 1..]);
    r := CheckFields(stamp, username, content, now, codec);
  }

  method CheckFields(ts: seq<byte>, username: seq<byte>, content: seq<byte>, now: int, codec: Codec)
    returns (r: Option<Message>)
    requires NoNul(username) && NoNul(content)
    ensures r == Accept(ts, username, content, now, codec)
  {
    hide Utf8.Valid, Utf8.EncodeAll, Utf8.Scalars;
    if ts == [] || username == [] || content == [] {
      return None;
    }
    if |username| >= MAX_USERNAME_LEN || |content| >= MAX_MESSAGE_LEN {
      return None;
    }
    var userOk := Utf8.IsValidString(username);
    var contentOk := Utf8.IsValidString(content);
    if !userOk || !contentOk {
      return None;
    }
    var t := codec.parse(ts);
    if t == -1 || t > now + WINDOW_AHEAD || t < now - WINDOW_BACK {
      return None;
    }
    return Some(Message(t, username, content));
  }

  /** The line, without its newline, in a buffer of its own. */
  method CopyLine(line: seq<byte>) returns (copy: array<byte>)
    requires NoNul(line) && 0 < |line| < MAX_LINE
    ensures fresh(copy) && Holds(copy[0..], line[..|line| - 1])
  {
    var n := |line|;
    copy := new byte[MAX_LINE];
    CopyAt(copy, 0, line + [0]);
    ghost var body := line[..n - 1];
    assert copy[..n - 1] == copy[..n + 1][..n - 1] == body;
    copy[n - 1] := 0;
    assert copy[..n - 1] == body;
    assert copy[0..][..n - 1] == copy[..n - 1];
  }

  /** `message_log_parse_record` */
  method ParseRecord(line: seq<byte>, now: int, codec: Codec) returns (r: Option<Message>)
    requires NoNul(line)
    ensures r == Parsed(line, now, codec)
  {
    hide ParsedBody, Holds;
    var n := |line|;
    if n == 0 || line[n - 1] != NEWLINE || n >= MAX_LINE {
      return None;
    }
    var copy := CopyLine(line);
    r := ParseBody(copy, line[..n - 1], now, codec);
  }

  // ----- Whole logs

  /** The records of messages, one after the other. */
  function LogText(codec: Codec, ms: seq<Message>): seq<byte> {
    if ms == [] then [] else Record(codec, ms[0]) + LogText(codec, ms[1..])
  }

  /** A message whose record is one line that reads back. */
  ghost predicate Storable(m: Message, now: int) {
    && MessageOk(m, now)
    && PIPE !in m.username && PIPE !in m.content && NEWLINE !in m.username && NEWLINE !in m.content
  }

  lemma RecordHasNoNul(m: Message, now: int, codec: Codec)
    requires Lawful(codec, now) && Storable(m, now)
    ensures NoNul(Record(codec, m)) && NoNul(codec.format(m.timestamp)) && NoNul(m.username) && NoNul(m.content)
  {
    Utf8.ValidHasNoNul(m.username);
    Utf8.ValidHasNoNul(m.content);
    hide Utf8.Valid;
  }

  lemma RecordIsOneLine(m: Message, now: int, codec: Codec)
    requires Lawful(codec, now) && Storable(m, now)
    ensures OneLine(Record(codec, m)) && Terminated(Record(codec, m)) && Reads(Record(codec, m)) == [Record(codec, m)]
    ensures Parsed(Record(codec, m), now, codec) == Some(m)
  {
    hide Parsed, Reads;
    RecordReadsBackIff(m, now, codec);
    RecordHasNoNul(m, now, codec);
    var body := codec.format(m.timestamp) + [PIPE] + m.username + [PIPE] + m.content;
    assert NEWLINE !in body;
    DropLast(body, NEWLINE);
    ReadsOfOne(Record(codec, m));
  }

  /** Storable messages written after whole lines read back, in order, after
      whatever those lines held; every new line is a valid record. */
  lemma {:induction false} LogReadsBack(file: seq<byte>, ms: seq<Message>, now: int, codec: Codec)
    requires Lawful(codec, now) && Terminated(file) && forall k :: 0 <= k < |ms| ==> Storable(ms[k], now)
    ensures Records(Reads(file + LogText(codec, ms)), now, codec) == Records(Reads(file), now, codec) + ms
    ensures |Reads(file + LogText(codec, ms))| == |Reads(file)| + |ms|
    decreases |ms|
  {
    hide Reads, Parsed, Record, Lawful;
    if ms == [] {
      assert file + LogText(codec, ms) == file;
    } else {
      var x := Record(codec, ms[0]);
      RecordIsOneLine(ms[0], now, codec);
      LogReadsBack(file + x, ms[1..], now, codec);
      Assoc(file, x, LogText(codec, ms[1..]));
      ReadsConcat(file, x);
      RecordsConcat(Reads(file), [x], now, codec);
      assert Records([x], now, codec) == [ms[0]];
      assert ms == [ms[0]] + ms[1..];
      Assoc(Records(Reads(file), now, codec), [ms[0]], ms[1..]);
    }
  }

  // ----- Saving

  predicate Unsafe(b: byte) {
    b == PIPE || b == NEWLINE || b == RETURN
  }

  /** Every separator replaced. */
  function Clean(s: seq<byte>, r: byte): seq<byte> {
    seq(|s|, i requires 0 <= i < |s| => if Unsafe(s[i]) then r else s[i])
  }

  function Sanitised(m: Message): Message {
    Message(m.timestamp, Clean(Clip(m.username, MAX_USERNAME_LEN - 1), UNDERSCORE),
            Clean(Clip(m.content, MAX_MESSAGE_LEN - 1), SPACE))
  }

  /** Replacing one ASCII byte by another neither breaks nor repairs UTF-8. */
  lemma {:induction false} CleanKeepsValidity(s: seq<byte>, r: byte)
    requires 0 < r < 0x80
    ensures Utf8.Valid(Clean(s, r)) <==> Utf8.Valid(s)
    decreases |s|
  {
    hide Utf8.Valid;
    if i :| 0 <= i < |s| && Unsafe(s[i]) {
      CleanKeepsValidity(s[..i], r);
      CleanKeepsValidity(s[i + 1..], r);
      assert s == s[..i] + [s[i]] + s[i + 1..];
      assert Clean(s, r) == Clean(s[..i], r) + [r] + Clean(s[i + 1..], r);
      Utf8.AsciiSplits(s[..i], s[i], s[i + 1..]);
      Utf8.AsciiSplits(Clean(s[..i], r), r, Clean(s[i + 1..], r));
    } else {
      assert Clean(s, r) == s;
    }
  }

  lemma SanitisedIsStorable(m: Message, now: int)
    requires MessageOk(m, now)
    ensures Storable(Sanitised(m), now)
  {
    hide Utf8.Valid;
    assert Clip(m.username, MAX_USERNAME_LEN - 1) == m.username && Clip(m.content, MAX_MESSAGE_LEN - 1) == m.content;
    CleanKeepsValidity(m.username, UNDERSCORE);
    CleanKeepsValidity(m.content, SPACE);
  }

  function SanitisedAll(ms: seq<Message>): seq<Message> {
    seq(|ms|, i requires 0 <= i < |ms| => Sanitised(ms[i]))
  }

  /** What saving messages one after the other leaves in the file. */
  function SavedAll(file: seq<byte>, ms: seq<Message>, codec: Codec): seq<byte>
    decreases |ms|
  {
    if ms == [] then file else SavedAll(file + Record(codec, Sanitised(ms[0])), ms[1..], codec)
  }

  lemma {:induction false} SavedAllIs(file: seq<byte>, ms: seq<Message>, codec: Codec)
    ensures SavedAll(file, ms, codec) == file + LogText(codec, SanitisedAll(ms))
    decreases |ms|
  {
    hide Record;
    if ms == [] {
      assert file + LogText(codec, SanitisedAll(ms)) == file;
    } else {
      var x := Record(codec, Sanitised(ms[0]));
      SavedAllIs(file + x, ms[1..], codec);
      assert SanitisedAll(ms)[1..] == SanitisedAll(ms[1..]);
      Assoc(file, x, LogText(codec, SanitisedAll(ms[1..])));
    }
  }

  /** Saved messages read back, sanitised, in order, after whatever the log held. */
  lemma SavedMessagesReadBack(file: seq<byte>, ms: seq<Message>, now: int, codec: Codec)
    requires Lawful(codec, now) && Terminated(file) && forall k :: 0 <= k < |ms| ==> MessageOk(ms[k], now)
    ensures Records(Reads(SavedAll(file, ms, codec)), now, codec) == Records(Reads(file), now, codec) + SanitisedAll(ms)
    ensures |Reads(SavedAll(file, ms, codec))| == |Reads(file)| + |ms|
  {
    hide Reads, Records, Lawful, MessageOk, Storable;
    forall k | 0 <= k < |ms|
      ensures Storable(SanitisedAll(ms)[k], now)
    {
      SanitisedIsStorable(ms[k], now);
    }
    SavedAllIs(file, ms, codec);
    LogReadsBack(file, SanitisedAll(ms), now, codec);
  }

  /** What is saved of a message, byte by byte: at most 63 bytes of the name and 1023 of
      the text; '_' in the name and a space in the text for each '|', LF and CR, and
      every other byte as it was posted. */
  lemma SavedBytes(m: Message)
    ensures var s := Sanitised(m);
      && s.timestamp == m.timestamp
      && |s.username| == Min(|m.username|, 63) && |s.content| == Min(|m.content|, 1023)
      && (forall k :: 0 <= k < |s.username| ==>
            s.username[k] == if m.username[k] in {0x7C, 0x0A, 0x0D} then 0x5F else m.username[k])
      && (forall k :: 0 <= k < |s.content| ==>
            s.content[k] == if m.content[k] in {0x7C, 0x0A, 0x0D} then 0x20 else m.content[k])
  {
  }

  /** A message without these three bytes. */
  ghost predicate Plain(m: Message) {
    && (forall k :: 0 <= k < |m.username| ==> m.username[k] !in {0x7C, 0x0A, 0x0D})
    && (forall k :: 0 <= k < |m.content| ==> m.content[k] !in {0x7C, 0x0A, 0x0D})
  }

  ghost predicate AllPlain(ms: seq<Message>, now: int) {
    forall k :: 0 <= k < |ms| ==> MessageOk(ms[k], now) && Plain(ms[k])
  }

  /** A message within the limits is saved unchanged exactly when it has none of them. */
  lemma SavedUnchangedIff(m: Message, now: int)
    requires MessageOk(m, now)
    ensures Sanitised(m) == m <==> Plain(m)
  {
    SavedBytes(m);
    hide Sanitised, Utf8.Valid;
    var s := Sanitised(m);
    if Plain(m) {
      assert s.username == m.username && s.content == m.content;
    }
  }

  lemma PlainStays(ms: seq<Message>, now: int)
    requires AllPlain(ms, now)
    ensures SanitisedAll(ms) == ms
  {
    forall k | 0 <= k < |ms|
      ensures SanitisedAll(ms)[k] == ms[k]
    {
      SavedUnchangedIff(ms[k], now);
    }
  }

  /** Plain messages read back byte for byte as they were posted, in order. */
  lemma PlainMessagesReadBack(file: seq<byte>, ms: seq<Message>, now: int, codec: Codec)
    requires Lawful(codec, now) && Terminated(file) && AllPlain(ms, now)
    ensures Records(Reads(SavedAll(file, ms, codec)), now, codec) == Records(Reads(file), now, codec) + ms
  {
    hide Reads, Records, Lawful, SavedAll;
    PlainStays(ms, now);
    SavedMessagesReadBack(file, ms, now, codec);
  }

  /** From which text the timestamp of `m` is read when its record is saved behind
      the unfinished line `torn`, if from any.  The torn bytes are part of it, unless
      they hold a separator or a NUL or make the line too long; but where a NUL hides
      an oversized line, a reader starts afresh every 2047 bytes. */
  function TornStamp(torn: seq<byte>, m: Message, codec: Codec): Option<seq<byte>>
    decreases |torn|
  {
    var stamp, n := codec.format(m.timestamp), MAX_LINE - 1;
    if |torn + Record(codec, m)| < MAX_LINE then
      if PIPE in torn || 0 in torn then None else Some(torn + stamp)
    else if 0 !in Clip(torn, n) then None
    else if |torn| >= n then TornStamp(torn[n..], m, codec)
    else if n - |torn| < |stamp| then Some(stamp[n - |torn|..])
    else None
  }

  /** What the message is then read as. */
  function TornReading(torn: seq<byte>, m: Message, now: int, codec: Codec): Option<Message> {
    var stamp := TornStamp(torn, m, codec);
    if stamp.None? then None else Restamped(m, stamp.value, now, codec)
  }

  /** The message with its time read from another text. */
  function Restamped(m: Message, stamp: seq<byte>, now: int, codec: Codec): Option<Message> {
    var t := codec.parse(stamp);
    if stamp == [] || t == -1 || !InWindow(t, now) then None else Some(m.(timestamp := t))
  }

  /** A line with the fields of `m` behind another timestamp text. */
  lemma RestampedParses(stamp: seq<byte>, m: Message, now: int, codec: Codec)
    requires Storable(m, now)
    ensures var line := stamp + [PIPE] + m.username + [PIPE] + m.content + [NEWLINE];
      PIPE !in stamp && |line| < MAX_LINE ==> Parsed(line, now, codec) == Restamped(m, stamp, now, codec)
  {
    hide ParsedBody;
    if PIPE !in stamp {
      DropLast(stamp + [PIPE] + m.username + [PIPE] + m.content, NEWLINE);
      BodyOfFields(stamp, m.username, m.content, now, codec);
    }
  }

  /** A torn line that is short enough, without NUL. */
  lemma TornParses(torn: seq<byte>, m: Message, now: int, codec: Codec)
    requires Lawful(codec, now) && Storable(m, now) && NoNul(torn) && |torn + Record(codec, m)| < MAX_LINE
    ensures Parsed(torn + Record(codec, m), now, codec) == TornReading(torn, m, now, codec)
  {
    if PIPE in torn {
      TornDoesNotParse(torn, m, now, codec);
    } else {
      var stamp := codec.format(m.timestamp);
      assert torn + Record(codec, m) == torn + stamp + [PIPE] + m.username + [PIPE] + m.content + [NEWLINE];
      RestampedParses(torn + stamp, m, now, codec);
    }
  }

  /** What stands behind the first `k` bytes of a record: a record with a shorter
      timestamp, or none. */
  lemma RecordTail(m: Message, k: nat, now: int, codec: Codec)
    requires Lawful(codec, now) && Storable(m, now) && k < |Record(codec, m)|
    ensures var stamp := codec.format(m.timestamp);
      Parsed(Record(codec, m)[k..], now, codec)
      == if k < |stamp| then Restamped(m, stamp[k..], now, codec) else None
  {
    hide Parsed, Behind, Restamped;
    var stamp := codec.format(m.timestamp);
    RecordReadsBackIff(m, now, codec);
    if k <= |stamp| {
      StampInFront(stamp, m);
      StampInFront(stamp[k..], m);
      DropInFirst(stamp, Behind(m), k);
      RestampedParses(stamp[k..], m, now, codec);
      EmptyStamp(m, now, codec);
    } else {
      LateTail(m, k, now, codec);
    }
  }

  lemma EmptyStamp(m: Message, now: int, codec: Codec)
    ensures Restamped(m, [], now, codec) == None
  {
  }

  /** What stands behind the timestamp of a record. */
  function Behind(m: Message): seq<byte> {
    [PIPE] + m.username + [PIPE] + m.content + [NEWLINE]
  }

  lemma StampInFront(stamp: seq<byte>, m: Message)
    ensures stamp + [PIPE] + m.username + [PIPE] + m.content + [NEWLINE] == stamp + Behind(m)
  {
  }

  lemma DropInFirst(a: seq<byte>, b: seq<byte>, k: nat)
    requires k <= |a|
    ensures (a + b)[k..] == a[k..] + b
  {
  }

  lemma LateTail(m: Message, k: nat, now: int, codec: Codec)
    requires PIPE !in m.username && PIPE !in m.content && |codec.format(m.timestamp)| < k < |Record(codec, m)|
    ensures Parsed(Record(codec, m)[k..], now, codec) == None
  {
    hide ParsedBody;
    var r := Record(codec, m);
    var tail := r[k..];
    var body, only := tail[..|tail| - 1], |codec.format(m.timestamp)| + 1 + |m.username| - k;
    forall i | 0 <= i < |body| && i != only
      ensures body[i] != PIPE
    {
      assert body[i] == r[k + i];
      TailHasNoOther(m, codec, k + i);
    }
    AtMostOneSeparator(body, only, now, codec);
  }

  /** What a reader gets behind the first `k` bytes of a record. */
  lemma TailRead(m: Message, k: nat, now: int, codec: Codec)
    requires Lawful(codec, now) && Storable(m, now) && k < |Record(codec, m)|
    ensures var stamp := codec.format(m.timestamp);
      Records(Reads(Record(codec, m)[k..]), now, codec)
      == Item(if k < |stamp| then Restamped(m, stamp[k..], now, codec) else None)
  {
    hide Lawful, Storable, Parsed, Reads, Restamped;
    RecordIsOneLine(m, now, codec);
    RecordHasNoNul(m, now, codec);
    RecordTail(m, k, now, codec);
    hide Record;
    var r := Record(codec, m);
    var tail := r[k..];
    assert tail[..|tail| - 1] == r[..|r| - 1][k..];
    ReadsOfOne(tail);
    OneRecord(tail, now, codec);
  }

  lemma TailHasNoOther(m: Message, codec: Codec, i: nat)
    requires PIPE !in m.username && PIPE !in m.content
    requires |codec.format(m.timestamp)| < i < |Record(codec, m)| && i != |codec.format(m.timestamp)| + 1 + |m.username|
    ensures Record(codec, m)[i] != PIPE
  {
    var n, u := |codec.format(m.timestamp)| + 1, |m.username|;
    if i < n + u {
      assert Record(codec, m)[i] == m.username[i - n];
    } else if i < n + u + 1 + |m.content| {
      assert Record(codec, m)[i] == m.content[i - n - u - 1];
    }
  }

  lemma AtMostOneSeparator(body: seq<byte>, only: int, now: int, codec: Codec)
    requires forall i :: 0 <= i < |body| && i != only ==> body[i] != PIPE
    ensures ParsedBody(body, now, codec) == None
  {
    hide Accept;
    var i := Index(body, PIPE);
    if i < |body| {
      var rest := body[i + 1..];
      assert forall k :: 0 <= k < |rest| ==> rest[k] == body[i + 1 + k];
      assert Index(rest, PIPE) == |rest|;
    }
  }

  /** The record saved behind a torn line survives if and only if it has a text for
      its timestamp that reads as its own time. */
  lemma SurvivesTornIff(torn: seq<byte>, m: Message, now: int, codec: Codec)
    requires Lawful(codec, now) && Storable(m, now) && NEWLINE !in torn
    ensures Records(Reads(torn + Record(codec, m)), now, codec) == [m] <==>
      (var stamp := TornStamp(torn, m, codec); stamp.Some? && codec.parse(stamp.value) == m.timestamp)
  {
    hide Record, Reads, Records, TornStamp, Utf8.Valid;
    TornRead(torn, m, now, codec);
    StampNotEmpty(torn, m, codec);
  }

  lemma {:induction false} StampNotEmpty(torn: seq<byte>, m: Message, codec: Codec)
    requires codec.format(m.timestamp) != []
    ensures TornStamp(torn, m, codec).Some? ==> TornStamp(torn, m, codec).value != []
    decreases |torn|
  {
    hide Record;
    if |torn| >= MAX_LINE - 1 {
      StampNotEmpty(torn[MAX_LINE - 1..], m, codec);
    }
  }

  /** Torn bytes that save what follows: a NUL and 2046 more are one read of their
      own, and the record behind them is untouched. */
  lemma HiddenTornSurvives(torn: seq<byte>, m: Message, now: int, codec: Codec)
    requires Lawful(codec, now) && Storable(m, now) && NEWLINE !in torn
    requires |torn| == MAX_LINE - 1 && 0 in torn
    ensures Records(Reads(torn + Record(codec, m)), now, codec) == [m]
  {
    RecordReadsBackIff(m, now, codec);
    assert Clip(torn, MAX_LINE - 1) == torn && torn[MAX_LINE - 1..] == [];
    var stamp := codec.format(m.timestamp);
    assert TornStamp([], m, codec) == Some(stamp) by {
      assert [] + stamp == stamp;
    }
    hide Reads, Records;
    SurvivesTornIff(torn, m, now, codec);
  }

  /** What a log that ends in a torn line, of any bytes, holds after further messages
      were saved: only the first of them is affected, and it reads as `TornReading` says. */
  lemma TornLineTakesOne(file: seq<byte>, torn: seq<byte>, m: Message, ms: seq<Message>, now: int, codec: Codec)
    requires Lawful(codec, now) && Terminated(file) && NEWLINE !in torn
    requires MessageOk(m, now) && forall k :: 0 <= k < |ms| ==> MessageOk(ms[k], now)
    ensures Records(Reads(SavedAll(file + torn, [m] + ms, codec)), now, codec)
      == Records(Reads(file), now, codec) + Item(TornReading(torn, Sanitised(m), now, codec)) + SanitisedAll(ms)
  {
    hide Reads, Lawful, MessageOk, Parsed, Records, Clean, TornReading;
    var safe := Sanitised(m);
    SanitisedIsStorable(m, now);
    var x := torn + Record(codec, safe);
    TornRead(torn, safe, now, codec);
    ReadsConcat(file, x);
    Assoc(file, torn, Record(codec, safe));
    RecordsConcat(Reads(file), Reads(x), now, codec);
    assert ([m] + ms)[0] == m && ([m] + ms)[1..] == ms;
    SavedMessagesReadBack(file + x, ms, now, codec);
  }

  lemma {:induction false} TornRead(torn: seq<byte>, m: Message, now: int, codec: Codec)
    requires Lawful(codec, now) && NEWLINE !in torn && Storable(m, now)
    ensures var x := torn + Record(codec, m);
      Terminated(x) && Records(Reads(x), now, codec) == Item(TornReading(torn, m, now, codec))
    decreases |torn|
  {
    hide Lawful, Storable, Parsed, Reads, Restamped;
    RecordIsOneLine(m, now, codec);
    RecordHasNoNul(m, now, codec);
    var r, n := Record(codec, m), MAX_LINE - 1;
    var x := torn + r;
    assert OneLine(x) by {
      assert x[..|x| - 1] == torn + r[..|r| - 1];
    }
    if |x| < MAX_LINE && NoNul(torn) {
      hide Record;
      ReadsOfOne(x);
      TornParses(torn, m, now, codec);
      OneRecord(x, now, codec);
    } else if |x| < MAX_LINE {
      hide Record;
      NulRead(torn, r, now, codec);
    } else if 0 !in Clip(torn, n) {
      hide Record;
      OversizedRead(torn, r, now, codec);
    } else {
      hide Record;
      HiddenRead(torn, r, now, codec);
      if |torn| >= n {
        assert x[n..] == torn[n..] + r;
        TornRead(torn[n..], m, now, codec);
      } else {
        assert x[n..] == r[n - |torn|..];
        TailRead(m, n - |torn|, now, codec);
      }
    }
  }

  lemma OneRecord(line: seq<byte>, now: int, codec: Codec)
    ensures Records([line], now, codec) == Item(Parsed(line, now, codec))
  {
    hide Parsed;
    assert [line][1..] == [];
    assert Item(Parsed(line, now, codec)) + [] == Item(Parsed(line, now, codec));
  }

  /** A text up to a NUL before the newline is no record. */
  lemma NulText(torn: seq<byte>, r: seq<byte>, now: int, codec: Codec)
    requires !NoNul(torn) && NEWLINE !in torn
    ensures Parsed(Text(torn + r), now, codec) == None
  {
    hide Parsed;
    var x := torn + r;
    var t := Text(x);
    TextIsPrefix(x);
    var k :| 0 <= k < |torn| && torn[k] == 0;
    assert x[k] == 0;
    assert |t| <= k;
    assert t == torn[..|t|];
    NotTerminated(t, now, codec);
  }

  /** A line with a NUL in it holds no record. */
  lemma NulRead(torn: seq<byte>, r: seq<byte>, now: int, codec: Codec)
    requires !NoNul(torn) && NEWLINE !in torn && OneLine(torn + r) && |torn + r| < MAX_LINE
    ensures Records(Reads(torn + r), now, codec) == []
  {
    hide Parsed, Text;
    WholeRead(torn + r);
    NulText(torn, r, now, codec);
    OneRecord(Text(torn + r), now, codec);
  }

  /** A line that one read takes whole. */
  lemma WholeRead(x: seq<byte>)
    requires OneLine(x) && (|x| < MAX_LINE || 0 !in x[..MAX_LINE - 1])
    ensures Reads(x) == [Text(x)]
  {
    LengthOfOne(x);
    hide LineLength, Text;
    assert ReadLength(x) == |x|;
    assert x[..|x|] == x && x[|x|..] == [];
  }

  /** An oversized line that no NUL hides holds no record. */
  lemma OversizedRead(torn: seq<byte>, r: seq<byte>, now: int, codec: Codec)
    requires NEWLINE !in torn && OneLine(torn + r) && NoNul(r)
    requires |torn + r| >= MAX_LINE && 0 !in Clip(torn, MAX_LINE - 1)
    ensures Records(Reads(torn + r), now, codec) == []
  {
    var x := torn + r;
    var front := Clip(torn, MAX_LINE - 1);
    assert forall i :: 0 <= i < MAX_LINE - 1 ==> x[i] == if i < |torn| then front[i] else r[i - |torn|];
    WholeRead(x);
    if NoNul(torn) {
      TextOfAll(x);
    } else {
      NulText(torn, r, now, codec);
    }
    OneRecord(Text(x), now, codec);
  }

  /** An oversized line that a NUL hides is read in parts, the first of them no record. */
  lemma HiddenRead(torn: seq<byte>, r: seq<byte>, now: int, codec: Codec)
    requires NEWLINE !in torn && OneLine(torn + r)
    requires |torn + r| >= MAX_LINE && 0 in Clip(torn, MAX_LINE - 1)
    ensures Records(Reads(torn + r), now, codec) == Records(Reads((torn + r)[MAX_LINE - 1..]), now, codec)
  {
    var x, n := torn + r, MAX_LINE - 1;
    LengthOfOne(x);
    hide LineLength, Parsed;
    var k :| 0 <= k < |Clip(torn, n)| && Clip(torn, n)[k] == 0;
    assert x[..n][k] == 0;
    assert ReadLength(x) == n;
    assert x[..n] == Clip(torn, n) + x[|Clip(torn, n)|..n];
    NulText(Clip(torn, n), x[|Clip(torn, n)|..n], now, codec);
    var first, rest := Text(x[..n]), Reads(x[n..]);
    hide Text;
    assert ([first] + rest)[0] == first && ([first] + rest)[1..] == rest;
    assert [] + Records(rest, now, codec) == Records(rest, now, codec);
  }

  lemma NotTerminated(x: seq<byte>, now: int, codec: Codec)
    requires x == [] || x[|x| - 1] != NEWLINE
    ensures Parsed(x, now, codec) == None
  {
  }

  lemma TornDoesNotParse(torn: seq<byte>, m: Message, now: int, codec: Codec)
    requires PIPE in torn
    ensures Parsed(torn + Record(codec, m), now, codec) == None
  {
    hide ParsedBody;
    var line := torn + Record(codec, m);
    var ts := codec.format(m.timestamp);
    var body := line[..|line| - 1];
    var b, c := |torn| + |ts|, |torn| + |ts| + 1 + |m.username|;
    assert body[Index(torn, PIPE)] == PIPE;
    assert body[b] == PIPE && body[c] == PIPE;
    ThreeSeparators(body, Index(torn, PIPE), b, c, now, codec);
  }

  lemma ThreeSeparators(body: seq<byte>, a: nat, b: nat, c: nat, now: int, codec: Codec)
    requires a < b < c < |body| && body[a] == body[b] == body[c] == PIPE
    ensures ParsedBody(body, now, codec) == None
  {
    var i := Index(body, PIPE);
    assert i <= a;
    var rest := body[i + 1..];
    var j := Index(rest, PIPE);
    assert rest[b - i - 1] == PIPE;
    assert j <= b - i - 1;
    assert rest[j + 1..][c - i - 1 - j - 1] == PIPE;
  }

  // ----- Recovering

  lemma {:induction false} RecordsAreStorable(lines: seq<seq<byte>>, now: int, codec: Codec)
    requires forall k :: 0 <= k < |lines| ==> AtMostOneLine(lines[k])
    ensures forall k :: 0 <= k < |Records(lines, now, codec)| ==> Storable(Records(lines, now, codec)[k], now)
    ensures |Records(lines, now, codec)| <= |lines|
  {
    hide Parsed;
    if lines != [] {
      RecordsAreStorable(lines[1..], now, codec);
      var first := Parsed(lines[0], now, codec);
      if first.Some? {
        LineIsStorable(lines[0], first.value, now, codec);
      }
    }
  }

  lemma LineIsStorable(line: seq<byte>, m: Message, now: int, codec: Codec)
    requires AtMostOneLine(line) && Parsed(line, now, codec) == Some(m)
    ensures Storable(m, now)
  {
    hide Parsed;
    ParsedIff(line, m, now, codec);
    hide MessageOk;
    var ts :| IsRecord(line, ts, m);
    var body := ts + [PIPE] + m.username + [PIPE] + m.content;
    DropLast(body, NEWLINE);
    assert forall k :: 0 <= k < |m.username| ==> body[|ts| + 1 + k] == m.username[k];
    assert forall k :: 0 <= k < |m.content| ==> body[|ts| + 1 + |m.username| + 1 + k] == m.content[k];
  }

  /** Recovering any log and scanning the result finds the same messages and
      nothing invalid. */
  lemma RecoverIsFaithful(file: seq<byte>, now: int, codec: Codec)
    requires Lawful(codec, now)
    ensures var ms := Records(Reads(file), now, codec);
      && Records(Reads(LogText(codec, ms)), now, codec) == ms
      && |Reads(LogText(codec, ms))| == |ms|
  {
    hide Records, Lawful;
    var ms := Records(Reads(file), now, codec);
    ReadsAreSingle(file);
    RecordsAreStorable(Reads(file), now, codec);
    LogReadsBack([], ms, now, codec);
    assert [] + LogText(codec, ms) == LogText(codec, ms);
    assert Records([], now, codec) == [] by { NoRecords(now, codec); }
  }

  lemma NoRecords(now: int, codec: Codec)
    ensures Records([], now, codec) == []
  {
  }

  /** Codecs as required exist, whatever the time. */
  lemma LawfulCodecExists(now: int) returns (codec: Codec)
    ensures Lawful(codec, now)
  {
    var low := now - WINDOW_BACK;
    codec := Codec(t => Digits(t - low), s => Number(s) + low);
    forall t | InWindow(t, now)
      ensures TimestampText(codec.format(t)) && codec.parse(codec.format(t)) == t
    {
      DigitsReadBack(t - low);
    }
  }

  /** The time -1, one second before 1970, is written but does not read back; it
      is in the window of clocks up to the end of 1979. */
  lemma MinusOneIsLost(m: Message, now: int, codec: Codec)
    requires Lawful(codec, now) && InWindow(-1, now) && m.timestamp == -1 && PIPE !in m.username && PIPE !in m.content
    ensures Parsed(Record(codec, m), now, codec) == None
    ensures -WINDOW_AHEAD - 1 <= now < WINDOW_BACK
  {
    var ts := codec.format(-1);
    DropLast(ts + [PIPE] + m.username + [PIPE] + m.content, NEWLINE);
    BodyOfFields(ts, m.username, m.content, now, codec);
  }

  /** An input for it: at the clock's zero. */
  lemma MinusOneExample() returns (m: Message, codec: Codec)
    ensures Lawful(codec, 0) && InWindow(m.timestamp, 0) && m.timestamp == -1
    ensures FieldOk(m.username, MAX_USERNAME_LEN) && FieldOk(m.content, MAX_MESSAGE_LEN)
    ensures PIPE !in m.username && PIPE !in m.content
    ensures Parsed(Record(codec, m), 0, codec) == None
  {
    codec := LawfulCodecExists(0);
    m := Message(-1, [0x61], [0x62]);
    Utf8.SingleByte(0x61);
    Utf8.SingleByte(0x62);
    assert [0x61][1..] == [] && [0x62][1..] == [];
    assert Utf8.Valid([0x61]) && Utf8.Valid([0x62]);
    MinusOneIsLost(m, 0, codec);
  }

  function Digits(n: int): seq<byte> {
    [0x80 + n % 100, 0x80 + n / 100 % 100, 0x80 + n / 10000 % 100, 0x80 + n / 1000000 % 100, 0x80 + n / 100000000 % 100]
  }

  function Number(s: seq<byte>): int {
    if |s| != 5 then 0
    else
      var a: int, b: int, c: int, d: int, e: int := s[0], s[1], s[2], s[3], s[4];
      a - 0x80 + 100 * (b - 0x80) + 10000 * (c - 0x80) + 1000000 * (d - 0x80) + 100000000 * (e - 0x80)
  }

  lemma DigitsReadBack(n: int)
    requires 0 <= n <= WINDOW_BACK + WINDOW_AHEAD
    ensures Number(Digits(n)) == n
  {
    var a := n / 100;
    var b := a / 100;
    var c := b / 100;
    var d := c / 100;
    assert n / 10000 == b && n / 1000000 == c && n / 100000000 == d && d < 100;
  }
}
