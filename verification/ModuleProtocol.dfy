/**
  The lines exchanged with modules, src/module_protocol.c: the event printer
  and the response parser, and what a reader of an event line gets back.
 */
module ModuleProtocol {
  import opened Bytes
  import opened Common
  import opened Utf8
  import opened JsonText
  import opened JsonGrammar

  const TYPE: seq<byte> := [0x74, 0x79, 0x70, 0x65]
  const MESSAGE: seq<byte> := [0x6D, 0x65, 0x73, 0x73, 0x61, 0x67, 0x65]
  const ID: seq<byte> := [0x69, 0x64]
  const TIMESTAMP: seq<byte> := [0x74, 0x69, 0x6D, 0x65, 0x73, 0x74, 0x61, 0x6D, 0x70]
  const SENDER: seq<byte> := [0x73, 0x65, 0x6E, 0x64, 0x65, 0x72]
  const KIND: seq<byte> := [0x6B, 0x69, 0x6E, 0x64]
  const TEXT: seq<byte> := [0x74, 0x65, 0x78, 0x74]
  const PLAIN_TEXT: seq<byte> := [0x70, 0x6C, 0x61, 0x69, 0x6E, 0x5F, 0x74, 0x65, 0x78, 0x74]
  const METADATA: seq<byte> := [0x6D, 0x65, 0x74, 0x61, 0x64, 0x61, 0x74, 0x61]
  /** "message.created" and "message.create" */
  const MESSAGE_CREATED: seq<byte> := MESSAGE + [0x2E, 0x63, 0x72, 0x65, 0x61, 0x74, 0x65, 0x64]
  const MESSAGE_CREATE: seq<byte> := MESSAGE + [0x2E, 0x63, 0x72, 0x65, 0x61, 0x74, 0x65]

  const LINE_MAX := 4096

  // ----- Objects built from printed names and values

  datatype Field = Field(name: seq<byte>, value: Value)

  function FieldMember(f: Field): Member {
    Member([], PrintPieces(f.name), [], [], f.value, [])
  }

  function Build(fs: seq<Field>): Members
    requires fs != []
  {
    if |fs| == 1 then LastMember(FieldMember(fs[0])) else MoreMembers(FieldMember(fs[0]), Build(fs[1..]))
  }

  function Printed(text: seq<byte>): Value {
    Str(PrintPieces(text))
  }

  predicate NameOk(n: seq<byte>) {
    n != [] && |n| < KEY_SIZE && forall i :: 0 <= i < |n| ==> n[i] != 0
  }

  predicate FieldOk(f: Field) {
    NameOk(f.name) && ValueOk(f.value)
  }

  predicate FieldsOk(fs: seq<Field>) {
    forall i :: 0 <= i < |fs| ==> FieldOk(fs[i])
  }

  ghost predicate DistinctNames(fs: seq<Field>) {
    forall i, j :: 0 <= i < j < |fs| ==> fs[i].name != fs[j].name
  }

  lemma {:induction false} BuildOk(fs: seq<Field>)
    requires fs != [] && FieldsOk(fs)
    ensures MembersOk(Build(fs)) && KeysReadable(Build(fs))
  {
    hide PrintPieces, ValueOk, Meaning;
    PrintedMeaning(fs[0].name);
    if |fs| > 1 {
      BuildOk(fs[1..]);
    }
    assert MemberOk(FieldMember(fs[0]));
  }

  lemma {:induction false} NamedOfBuild(fs: seq<Field>, key: seq<byte>)
    requires fs != [] && FieldsOk(fs) && MembersOk(Build(fs)) && DistinctNames(fs)
    ensures (forall i :: 0 <= i < |fs| ==> fs[i].name != key) ==> Named(Build(fs), key) == []
    ensures forall i :: 0 <= i < |fs| && fs[i].name == key ==> Named(Build(fs), key) == [fs[i].value]
  {
    hide PrintPieces, ValueOk, Meaning;
    PrintedMeaning(fs[0].name);
    if |fs| > 1 {
      BuildOk(fs[1..]);
      NamedOfBuild(fs[1..], key);
      assert forall i :: 1 <= i < |fs| ==> fs[i] == fs[1..][i - 1];
      assert [] + Named(Build(fs[1..]), key) == Named(Build(fs[1..]), key);
    }
  }

  /** Reading a printed field of an object with distinct names gives its text back. */
  lemma LookupPrinted(fs: seq<Field>, i: nat, text: seq<byte>, rest: seq<byte>, size: nat)
    requires i < |fs| && FieldsOk(fs) && DistinctNames(fs)
    requires fs[i].value == Printed(text) && NoNul(text) && |text| < size
    ensures GetField(ValueText(Object(Build(fs))) + rest, fs[i].name, size) == Some(text)
  {
    hide *;
    BuildOk(fs);
    NamedOfBuild(fs, fs[i].name);
    StringOfPrinted(text, size);
    FieldFacts(fs, i);
    LookupIsLastMember([], Build(fs), rest, fs[i].name, size);
    assert [] + ValueText(Object(Build(fs))) + rest == ValueText(Object(Build(fs))) + rest;
  }

  lemma FieldFacts(fs: seq<Field>, i: nat)
    requires i < |fs| && FieldsOk(fs)
    ensures fs[i].name != [] && Blank([])
  {
  }

  lemma StringOfPrinted(text: seq<byte>, size: nat)
    requires NoNul(text) && |text| < size
    ensures ValueOk(Printed(text)) && StringOf(Printed(text), size) == Some(text)
  {
    PrintedMeaning(text);
  }

  /** A name and its colon. */
  function Key(name: seq<byte>): seq<byte> {
    JsonString(name) + [COLON]
  }

  function FieldsText(fs: seq<Field>): seq<byte>
    requires fs != []
  {
    if |fs| == 1 then Key(fs[0].name) + ValueText(fs[0].value)
    else Key(fs[0].name) + ValueText(fs[0].value) + [COMMA] + FieldsText(fs[1..])
  }

  lemma PrintedText(text: seq<byte>)
    requires NoNul(text)
    ensures ValueText(Printed(text)) == StringText(PrintPieces(text)) == JsonString(text)
    ensures ValueOk(Printed(text))
  {
    PrintedMeaning(text);
  }

  lemma FieldMemberText(f: Field)
    requires FieldOk(f)
    ensures MemberText(FieldMember(f)) == Key(f.name) + ValueText(f.value)
  {
    hide ValueText, StringText, PrintPieces, JsonString, ValueOk;
    PrintedText(f.name);
    var n, v := JsonString(f.name), ValueText(f.value);
    assert [] + n + [] + [COLON] + [] + v + [] == n + [COLON] + v;
  }

  lemma {:induction false} BuildText(fs: seq<Field>)
    requires fs != [] && FieldsOk(fs)
    ensures MembersText(Build(fs)) == FieldsText(fs)
  {
    hide MemberText, ValueText, Key, FieldOk;
    FieldMemberText(fs[0]);
    if |fs| > 1 {
      BuildText(fs[1..]);
    }
  }

  // ----- The event line

  /** The fields of the nested message object. */
  function MessageFields(id: seq<byte>, ts: seq<byte>, user: seq<byte>, content: seq<byte>): (fs: seq<Field>)
    ensures |fs| == 6
  {
    [Field(ID, Printed(id)), Field(TIMESTAMP, Printed(ts)), Field(SENDER, Printed(user)),
     Field(KIND, Printed(TEXT)), Field(PLAIN_TEXT, Printed(content)), Field(METADATA, EmptyObject([]))]
  }

  function EventFields(id: seq<byte>, ts: seq<byte>, user: seq<byte>, content: seq<byte>): seq<Field> {
    [Field(TYPE, Printed(MESSAGE_CREATED)), Field(MESSAGE, Object(Build(MessageFields(id, ts, user, content))))]
  }

  // The literal parts of the format strings, in the order they are printed.
  function Part1(): seq<byte> {
    [OPEN_BRACE] + Key(TYPE) + JsonString(MESSAGE_CREATED) + [COMMA] + Key(MESSAGE) + [OPEN_BRACE] + Key(ID)
  }
  function Part2(): seq<byte> { [COMMA] + Key(TIMESTAMP) }
  function Part3(): seq<byte> { [COMMA] + Key(SENDER) }
  function Part4(): seq<byte> { [COMMA] + Key(KIND) + JsonString(TEXT) + [COMMA] + Key(PLAIN_TEXT) }
  function Part5(): seq<byte> {
    [COMMA] + Key(METADATA) + [OPEN_BRACE, CLOSE_BRACE] + [CLOSE_BRACE, CLOSE_BRACE, NEWLINE]
  }

  /** The event line as the printer emits it. */
  function EventLine(id: seq<byte>, ts: seq<byte>, user: seq<byte>, content: seq<byte>): seq<byte> {
    Part1() + JsonString(id) + Part2() + JsonString(ts) + Part3() + JsonString(user)
    + Part4() + JsonString(content) + Part5()
  }

  predicate PlainName(n: seq<byte>) {
    forall i :: 0 <= i < |n| ==> n[i] >= 0x20 && n[i] != QUOTE && n[i] != BACKSLASH
  }

  /** The printer's own names need no escapes, so they stand in the format strings as they are. */
  lemma {:induction false} NamePrintsPlain(n: seq<byte>)
    requires PlainName(n)
    ensures EscapeAll(n) == n && JsonString(n) == [QUOTE] + n + [QUOTE]
  {
    if n != [] {
      NamePrintsPlain(n[1..]);
    }
  }

  // The format strings of the printer, byte for byte, with the event type filled in.
  /** `{"type":"message.created",` and `"message":{"id":` */
  const FORMAT1A: seq<byte> := [
    0x7B, 0x22, 0x74, 0x79, 0x70, 0x65, 0x22, 0x3A, 0x22, 0x6D, 0x65, 0x73, 0x73, 0x61, 0x67, 0x65,
    0x2E, 0x63, 0x72, 0x65, 0x61, 0x74, 0x65, 0x64, 0x22, 0x2C]
  const FORMAT1B: seq<byte> := [
    0x22, 0x6D, 0x65, 0x73, 0x73, 0x61, 0x67, 0x65, 0x22, 0x3A, 0x7B, 0x22, 0x69, 0x64, 0x22, 0x3A]
  const FORMAT1: seq<byte> := FORMAT1A + FORMAT1B
  /** `,"timestamp":` */
  const FORMAT2: seq<byte> := [
    0x2C, 0x22, 0x74, 0x69, 0x6D, 0x65, 0x73, 0x74, 0x61, 0x6D, 0x70, 0x22, 0x3A]
  /** `,"sender":` */
  const FORMAT3: seq<byte> := [
    0x2C, 0x22, 0x73, 0x65, 0x6E, 0x64, 0x65, 0x72, 0x22, 0x3A]
  /** `,"kind":"text","plain_text":` */
  const FORMAT4: seq<byte> := [
    0x2C, 0x22, 0x6B, 0x69, 0x6E, 0x64, 0x22, 0x3A, 0x22, 0x74, 0x65, 0x78, 0x74, 0x22, 0x2C, 0x22,
    0x70, 0x6C, 0x61, 0x69, 0x6E, 0x5F, 0x74, 0x65, 0x78, 0x74, 0x22, 0x3A]
  /** `,"metadata":{}}}\n` */
  const FORMAT5: seq<byte> := [
    0x2C, 0x22, 0x6D, 0x65, 0x74, 0x61, 0x64, 0x61, 0x74, 0x61, 0x22, 0x3A, 0x7B, 0x7D, 0x7D, 0x7D,
    0x0A]

  /** What the format strings hold: punctuation, names and texts without escapes. */
  lemma FormatsAreParts()
    ensures FORMAT1 == Part1() && FORMAT2 == Part2() && FORMAT3 == Part3() && FORMAT4 == Part4() && FORMAT5 == Part5()
  {
    hide *;
    FirstFormat();
    OtherFormats();
    FourthFormat();
  }

  /** A name between quotes, and with its colon. */
  lemma Quoted(n: seq<byte>)
    requires PlainName(n)
    ensures JsonString(n) == [QUOTE] + n + [QUOTE] && Key(n) == [QUOTE] + n + [QUOTE, COLON]
  {
    hide EscapeAll, JsonString;
    NamePrintsPlain(n);
  }

  lemma FirstFormat()
    ensures FORMAT1 == Part1()
  {
    hide *;
    FirstFormatA();
    FirstFormatB();
    var front := [OPEN_BRACE] + Key(TYPE) + JsonString(MESSAGE_CREATED) + [COMMA];
    Assoc(front, Key(MESSAGE), [OPEN_BRACE]);
    Assoc(front, Key(MESSAGE) + [OPEN_BRACE], Key(ID));
    Part1Is();
  }

  lemma FirstFormatA()
    ensures FORMAT1A == [OPEN_BRACE] + Key(TYPE) + JsonString(MESSAGE_CREATED) + [COMMA]
    ensures FORMAT1 == FORMAT1A + FORMAT1B
  {
    hide JsonString, Key;
    Quoted(TYPE);
    Quoted(MESSAGE_CREATED);
  }

  lemma FirstFormatB()
    ensures FORMAT1B == Key(MESSAGE) + [OPEN_BRACE] + Key(ID)
  {
    hide JsonString, Key;
    Quoted(MESSAGE);
    Quoted(ID);
  }

  lemma Part1Is()
    ensures Part1()
      == [OPEN_BRACE] + Key(TYPE) + JsonString(MESSAGE_CREATED) + [COMMA] + Key(MESSAGE) + [OPEN_BRACE] + Key(ID)
  {
  }

  lemma OtherFormats()
    ensures FORMAT2 == Part2() && FORMAT3 == Part3() && FORMAT5 == Part5()
  {
    hide JsonString, Key;
    Quoted(TIMESTAMP);
    Quoted(SENDER);
    Quoted(METADATA);
  }

  lemma FourthFormat()
    ensures FORMAT4 == Part4()
  {
    hide JsonString, Key;
    Quoted(KIND);
    Quoted(TEXT);
    Quoted(PLAIN_TEXT);
  }

  lemma NamesOk()
    ensures NameOk(TYPE) && NameOk(MESSAGE) && NameOk(ID) && NameOk(TIMESTAMP) && NameOk(SENDER)
    ensures NameOk(KIND) && NameOk(PLAIN_TEXT) && NameOk(METADATA) && NoNul(TEXT)
  {
  }

  lemma FieldsArePlain(id: seq<byte>, ts: seq<byte>, user: seq<byte>, content: seq<byte>)
    requires NoNul(id) && NoNul(ts) && NoNul(user) && NoNul(content)
    ensures FieldsOk(MessageFields(id, ts, user, content)) && DistinctNames(MessageFields(id, ts, user, content))
  {
    hide Printed, FieldOk, NameOk, DistinctNames;
    NamesOk();
    PrintedFieldOk(ID, id);
    PrintedFieldOk(TIMESTAMP, ts);
    PrintedFieldOk(SENDER, user);
    PrintedFieldOk(KIND, TEXT);
    PrintedFieldOk(PLAIN_TEXT, content);
    PrintedFieldOk(METADATA, []);
    MessageNamesDiffer(id, ts, user, content);
  }

  lemma PrintedFieldOk(name: seq<byte>, text: seq<byte>)
    requires NameOk(name) && NoNul(text)
    ensures FieldOk(Field(name, Printed(text))) && FieldOk(Field(name, EmptyObject([])))
  {
    PrintedText(text);
  }

  lemma MessageNamesDiffer(id: seq<byte>, ts: seq<byte>, user: seq<byte>, content: seq<byte>)
    ensures DistinctNames(MessageFields(id, ts, user, content))
  {
    hide Printed;
    var fs := MessageFields(id, ts, user, content);
    assert |fs[0].name| == 2 && |fs[1].name| == 9 && |fs[2].name| == 6;
    assert |fs[3].name| == 4 && |fs[4].name| == 10 && |fs[5].name| == 8;
  }

  lemma EventFieldsOk(id: seq<byte>, ts: seq<byte>, user: seq<byte>, content: seq<byte>)
    requires NoNul(id) && NoNul(ts) && NoNul(user) && NoNul(content)
    ensures FieldsOk(EventFields(id, ts, user, content)) && DistinctNames(EventFields(id, ts, user, content))
  {
    hide Printed, Build, MessageFields, MembersOk, KeysReadable;
    FieldsArePlain(id, ts, user, content);
    BuildOk(MessageFields(id, ts, user, content));
    PrintedText(MESSAGE_CREATED);
  }

  lemma LastFieldText(f: Field)
    requires FieldOk(f)
    ensures FieldsText([f]) == Key(f.name) + ValueText(f.value)
  {
  }

  lemma NextFieldText(f: Field, fs: seq<Field>)
    requires fs != []
    ensures FieldsText([f] + fs) == Key(f.name) + ValueText(f.value) + [COMMA] + FieldsText(fs)
  {
    assert ([f] + fs)[1..] == fs;
  }

  /** The text of the nested object. */
  lemma MessageText(id: seq<byte>, ts: seq<byte>, user: seq<byte>, content: seq<byte>)
    requires NoNul(id) && NoNul(ts) && NoNul(user) && NoNul(content)
    ensures ValueText(Object(Build(MessageFields(id, ts, user, content)))) ==
      [OPEN_BRACE] + (Key(ID) + JsonString(id) + [COMMA] + (Key(TIMESTAMP) + JsonString(ts) + [COMMA]
      + (Key(SENDER) + JsonString(user) + [COMMA] + (Key(KIND) + JsonString(TEXT) + [COMMA]
      + (Key(PLAIN_TEXT) + JsonString(content) + [COMMA]
      + (Key(METADATA) + [OPEN_BRACE, CLOSE_BRACE])))))) + [CLOSE_BRACE]
  {
    hide Key, JsonString, FieldsText, PrintPieces, ValueOk;
    var fs := MessageFields(id, ts, user, content);
    FieldsArePlain(id, ts, user, content);
    BuildText(fs);
    PrintedText(id);
    PrintedText(ts);
    PrintedText(user);
    PrintedText(TEXT);
    PrintedText(content);
    LastFieldText(fs[5]);
    assert ValueText(EmptyObject([])) == [OPEN_BRACE, CLOSE_BRACE];
    NextFieldText(fs[4], [fs[5]]);
    NextFieldText(fs[3], [fs[4]] + [fs[5]]);
    NextFieldText(fs[2], [fs[3]] + ([fs[4]] + [fs[5]]));
    NextFieldText(fs[1], [fs[2]] + ([fs[3]] + ([fs[4]] + [fs[5]])));
    NextFieldText(fs[0], [fs[1]] + ([fs[2]] + ([fs[3]] + ([fs[4]] + [fs[5]]))));
    assert fs == [fs[0]] + ([fs[1]] + ([fs[2]] + ([fs[3]] + ([fs[4]] + [fs[5]]))));
  }

  /** What stands before the nested object. */
  function Head(): seq<byte> {
    [OPEN_BRACE] + Key(TYPE) + JsonString(MESSAGE_CREATED) + [COMMA] + Key(MESSAGE)
  }

  lemma PushField(k: seq<byte>, j: seq<byte>, t: seq<byte>, z: seq<byte>)
    ensures k + (j + ([COMMA] + (t + z))) == k + j + [COMMA] + t + z
    ensures [COMMA] + (k + (j + z)) == [COMMA] + k + (j + z)
  {
  }

  lemma RightNest(a: seq<byte>, b: seq<byte>, c: seq<byte>, d: seq<byte>, e: seq<byte>)
    ensures a + b + c + d + e == a + (b + (c + (d + e)))
  {
  }

  /** The event line is the JSON text of one object, then a newline. */
  lemma EventLineNests(id: seq<byte>, ts: seq<byte>, user: seq<byte>, content: seq<byte>)
    requires NoNul(id) && NoNul(ts) && NoNul(user) && NoNul(content)
    ensures EventLine(id, ts, user, content) ==
      Head() + (ValueText(Object(Build(MessageFields(id, ts, user, content)))) + [CLOSE_BRACE, NEWLINE])
  {
    hide Key, JsonString, Build, MessageFields, ValueText;
    MessageText(id, ts, user, content);
    var j1, j2, j3, j4 := JsonString(id), JsonString(ts), JsonString(user), JsonString(content);
    var z: seq<byte> := [CLOSE_BRACE, CLOSE_BRACE, NEWLINE];
    var t6 := Key(METADATA) + [OPEN_BRACE, CLOSE_BRACE];
    var t5 := Key(PLAIN_TEXT) + j4 + [COMMA] + t6;
    var t4 := Key(KIND) + JsonString(TEXT) + [COMMA] + t5;
    var t3 := Key(SENDER) + j3 + [COMMA] + t4;
    var t2 := Key(TIMESTAMP) + j2 + [COMMA] + t3;
    var t1 := Key(ID) + j1 + [COMMA] + t2;
    assert Part5() == [COMMA] + (t6 + z);
    PushField(Key(PLAIN_TEXT), j4, t6, z);
    PushField(Key(KIND), JsonString(TEXT), t5, z);
    var r4 := j4 + Part5();
    assert Part4() + r4 == [COMMA] + (t4 + z) by {
      RightNest([COMMA], Key(KIND), JsonString(TEXT), [COMMA], Key(PLAIN_TEXT));
      Regroup([COMMA], Key(KIND), JsonString(TEXT), Key(PLAIN_TEXT), r4);
    }
    PushField(Key(SENDER), j3, t4, z);
    var r3 := j3 + (Part4() + r4);
    assert Part3() + r3 == [COMMA] + (t3 + z) by {
      Assoc([COMMA], Key(SENDER), r3);
    }
    PushField(Key(TIMESTAMP), j2, t3, z);
    var r2 := j2 + (Part3() + r3);
    assert Part2() + r2 == [COMMA] + (t2 + z) by {
      Assoc([COMMA], Key(TIMESTAMP), r2);
    }
    PushField(Key(ID), j1, t2, z);
    var r1 := j1 + (Part2() + r2);
    assert EventLine(id, ts, user, content) == Part1() + r1 by {
      RightNest(Part1(), j1, Part2(), j2, Part3());
      RightNest(j3, Part4(), j4, Part5(), []);
      NineParts(Part1(), j1, Part2(), j2, Part3(), j3, Part4(), j4, Part5());
    }
    assert Part1() + r1 == Head() + ([OPEN_BRACE] + (t1 + z)) by {
      Assoc(Head(), [OPEN_BRACE], Key(ID));
      Assoc(Head(), [OPEN_BRACE] + Key(ID), r1);
      Assoc([OPEN_BRACE], Key(ID), r1);
    }
    assert [OPEN_BRACE] + (t1 + z) == [OPEN_BRACE] + t1 + [CLOSE_BRACE] + [CLOSE_BRACE, NEWLINE];
  }

  lemma Regroup(c: seq<byte>, k: seq<byte>, t: seq<byte>, p: seq<byte>, r: seq<byte>)
    ensures c + k + t + c + p + r == c + (k + (t + (c + (p + r))))
  {
  }

  lemma NineParts(a: seq<byte>, b: seq<byte>, c: seq<byte>, d: seq<byte>, e: seq<byte>,
                  f: seq<byte>, g: seq<byte>, h: seq<byte>, i: seq<byte>)
    ensures a + b + c + d + e + f + g + h + i == a + (b + (c + (d + (e + (f + (g + (h + i)))))))
  {
    Assoc(a + b + c + d + e + f + g, h, i);
    Assoc(a + b + c + d + e + f, g, h + i);
    Assoc(a + b + c + d + e, f, g + (h + i));
    Assoc(a + b + c + d, e, f + (g + (h + i)));
    Assoc(a + b + c, d, e + (f + (g + (h + i))));
    Assoc(a + b, c, d + (e + (f + (g + (h + i)))));
    Assoc(a, b, c + (d + (e + (f + (g + (h + i))))));
  }

  /** The whole line, as the text of the event object. */
  lemma EventLineIsJson(id: seq<byte>, ts: seq<byte>, user: seq<byte>, content: seq<byte>)
    requires NoNul(id) && NoNul(ts) && NoNul(user) && NoNul(content)
    ensures EventLine(id, ts, user, content) ==
      ValueText(Object(Build(EventFields(id, ts, user, content)))) + [NEWLINE]
  {
    hide Key, JsonString, Build, MessageFields, FieldsText, PrintPieces, ValueOk, FieldOk, MembersText, EventLine;
    var fs := EventFields(id, ts, user, content);
    var m := ValueText(fs[1].value);
    EventFieldsOk(id, ts, user, content);
    EventLineNests(id, ts, user, content);
    BuildText(fs);
    FieldIsOk(fs, 1);
    LastFieldText(fs[1]);
    NextFieldText(fs[0], [fs[1]]);
    assert fs == [fs[0]] + [fs[1]];
    PrintedText(MESSAGE_CREATED);
    ObjectText(Build(fs));
    var k1, v, k2 := Key(TYPE), JsonString(MESSAGE_CREATED), Key(MESSAGE);
    assert [OPEN_BRACE] + (k1 + v + [COMMA] + (k2 + m)) + [CLOSE_BRACE] + [NEWLINE]
        == [OPEN_BRACE] + k1 + v + [COMMA] + k2 + (m + [CLOSE_BRACE, NEWLINE]);
  }

  lemma FieldIsOk(fs: seq<Field>, i: nat)
    requires FieldsOk(fs) && i < |fs|
    ensures FieldOk(fs[i])
  {
  }

  lemma ObjectText(ms: Members)
    ensures ValueText(Object(ms)) == [OPEN_BRACE] + MembersText(ms) + [CLOSE_BRACE]
  {
  }

  /** Reading an event line back: its type, and behind its head the nested
      object with every text it was printed from, byte for byte. */
  lemma EventReadsBack(id: seq<byte>, ts: seq<byte>, user: seq<byte>, content: seq<byte>, size: nat)
    requires NoNul(id) && NoNul(ts) && NoNul(user) && NoNul(content)
    requires |MESSAGE_CREATED| < size && |id| < size && |ts| < size && |user| < size && |content| < size
    ensures var line := EventLine(id, ts, user, content);
      && line != [] && line[|line| - 1] == NEWLINE
      && GetField(line, TYPE, size) == Some(MESSAGE_CREATED)
      && Head() <= line
      && (var nested := line[|Head()|..];
          && GetField(nested, ID, size) == Some(id)
          && GetField(nested, TIMESTAMP, size) == Some(ts)
          && GetField(nested, SENDER, size) == Some(user)
          && GetField(nested, PLAIN_TEXT, size) == Some(content))
  {
    hide GetField, ValueText, Build, Printed, EventLine, Head, FieldsOk, DistinctNames;
    var line := EventLine(id, ts, user, content);
    var es, fs := EventFields(id, ts, user, content), MessageFields(id, ts, user, content);
    EventFieldsOk(id, ts, user, content);
    FieldsArePlain(id, ts, user, content);
    EventLineIsJson(id, ts, user, content);
    EventLineNests(id, ts, user, content);
    LookupPrinted(es, 0, MESSAGE_CREATED, [NEWLINE], size);
    var z: seq<byte> := [CLOSE_BRACE, NEWLINE];
    assert line[|Head()|..] == ValueText(Object(Build(fs))) + z;
    LookupPrinted(fs, 0, id, z, size);
    LookupPrinted(fs, 1, ts, z, size);
    LookupPrinted(fs, 2, user, z, size);
    LookupPrinted(fs, 4, content, z, size);
  }

  // ----- Printing it

  /** The bound on a text that needs no hexadecimal escapes. */
  lemma {:induction false} PrintedLength(text: seq<byte>)
    requires forall i :: 0 <= i < |text| ==> text[i] >= 0x20
    ensures |JsonString(text)| <= 2 * |text| + 2
  {
    if text != [] {
      PrintedLength(text[1..]);
    }
  }

  /** Every message without control bytes fits the event buffer of the runtime. */
  lemma EventFits(id: seq<byte>, ts: seq<byte>, user: seq<byte>, content: seq<byte>)
    requires |id| < 64 && |ts| < 64 && |user| < MAX_USERNAME_LEN && |content| < MAX_MESSAGE_LEN
    requires forall i :: 0 <= i < |id + ts + user + content| ==> (id + ts + user + content)[i] >= 0x20
    ensures |EventLine(id, ts, user, content)| < LINE_MAX - 1
  {
    hide JsonString;
    var all := id + ts + user + content;
    assert forall i :: 0 <= i < |id| ==> id[i] == all[i];
    assert forall i :: 0 <= i < |ts| ==> ts[i] == all[|id| + i];
    assert forall i :: 0 <= i < |user| ==> user[i] == all[|id| + |ts| + i];
    assert forall i :: 0 <= i < |content| ==> content[i] == all[|id| + |ts| + |user| + i];
    PrintedLength(id);
    PrintedLength(ts);
    PrintedLength(user);
    PrintedLength(content);
    PrintedLength(TYPE);
    PrintedLength(MESSAGE_CREATED);
    PrintedLength(MESSAGE);
    PrintedLength(ID);
    PrintedLength(TIMESTAMP);
    PrintedLength(SENDER);
    PrintedLength(KIND);
    PrintedLength(TEXT);
    PrintedLength(PLAIN_TEXT);
    PrintedLength(METADATA);
  }

  /** `tnt_module_append_message_created`; `timestamp` is the formatted text of the message's time. */
  method AppendMessageCreated(buffer: array<byte>, pos: nat, id: seq<byte>, timestamp: seq<byte>,
                              user: seq<byte>, content: seq<byte>) returns (rc: int, end: nat)
    requires pos <= buffer.Length && NoNul(user) && NoNul(content)
    modifies buffer
    ensures rc == 0 || rc == -1
    ensures end <= buffer.Length
    ensures buffer.Length == 0 || id == [] || !Valid(user) || !Valid(content) ==>
      rc == -1 && end == pos && buffer[..] == old(buffer[..])
    ensures buffer.Length > 0 && id != [] && Valid(user) && Valid(content) ==>
      buffer[..end] == Fill(old(buffer[..pos]), EventLine(id, timestamp, user, content), buffer.Length)
    ensures buffer.Length > 0 && id != [] && Valid(user) && Valid(content) && pos < buffer.Length - 1 ==>
      (rc == 0 <==> pos + |EventLine(id, timestamp, user, content)| < buffer.Length - 1)
    ensures buffer.Length > 0 && id != [] && Valid(user) && Valid(content) && pos >= buffer.Length - 1 ==>
      rc == 0 && end == pos && buffer[..pos] == old(buffer[..pos])
    ensures rc == 0 && pos < buffer.Length - 1 ==>
      buffer[..end] == old(buffer[..pos]) + EventLine(id, timestamp, user, content)
  {
    hide *;
    var size := buffer.Length;
    if size == 0 || id == [] {
      return -1, pos;
    }
    var okUser := IsValidString(user);
    var okContent := IsValidString(content);
    if !okUser || !okContent {
      return -1, pos;
    }
    end := PrintEvent(buffer, pos, id, timestamp, user, content);
    rc := if end >= size - 1 && end == size - 1 && pos != end then -1 else 0;
    FullStays(old(buffer[..pos]), EventLine(id, timestamp, user, content), size);
    if pos < size - 1 {
      ResultMeans(buffer[..end], old(buffer[..pos]), EventLine(id, timestamp, user, content), size);
    }
  }

  /** One of the printer's appends, literal or string. */
  method AppendPart(buffer: array<byte>, pos: nat, text: seq<byte>, quoted: bool,
                    ghost before: seq<byte>, ghost sofar: seq<byte>) returns (end: nat)
    requires pos <= buffer.Length && buffer[..pos] == Fill(before, sofar, buffer.Length)
    modifies buffer
    ensures end <= buffer.Length
    ensures buffer[..end] == Fill(before, sofar + (if quoted then JsonString(text) else text), buffer.Length)
  {
    hide Fill, JsonString;
    if quoted {
      end := AppendString(buffer, pos, text);
    } else {
      end := AppendBytes(buffer, pos, text);
    }
    FillTwice(before, sofar, if quoted then JsonString(text) else text, buffer.Length);
  }

  /** The appends themselves. */
  method PrintEvent(buffer: array<byte>, pos: nat, id: seq<byte>, timestamp: seq<byte>,
                    user: seq<byte>, content: seq<byte>) returns (end: nat)
    requires pos <= buffer.Length
    modifies buffer
    ensures end <= buffer.Length
    ensures buffer[..end] == Fill(old(buffer[..pos]), EventLine(id, timestamp, user, content), buffer.Length)
  {
    hide *;
    FormatsAreParts();
    ghost var b := buffer[..pos];
    FillNothing(b, buffer.Length);
    end := PrintFront(buffer, pos, id, timestamp, user, b);
    ghost var front := FORMAT1 + JsonString(id) + FORMAT2 + JsonString(timestamp) + FORMAT3 + JsonString(user);
    end := AppendPart(buffer, end, FORMAT4, false, b, front);
    end := AppendPart(buffer, end, content, true, b, front + FORMAT4);
    end := AppendPart(buffer, end, FORMAT5, false, b, front + FORMAT4 + JsonString(content));
    EventLineIs(id, timestamp, user, content);
  }

  lemma EventLineIs(id: seq<byte>, ts: seq<byte>, user: seq<byte>, content: seq<byte>)
    ensures EventLine(id, ts, user, content)
      == Part1() + JsonString(id) + Part2() + JsonString(ts) + Part3() + JsonString(user)
         + Part4() + JsonString(content) + Part5()
  {
  }

  /** The appends up to the sender. */
  method PrintFront(buffer: array<byte>, pos: nat, id: seq<byte>, timestamp: seq<byte>, user: seq<byte>,
                    ghost b: seq<byte>)
    returns (end: nat)
    requires pos <= buffer.Length && buffer[..pos] == Fill(b, [], buffer.Length)
    modifies buffer
    ensures end <= buffer.Length
    ensures var front := FORMAT1 + JsonString(id) + FORMAT2 + JsonString(timestamp) + FORMAT3 + JsonString(user);
      buffer[..end] == Fill(b, front, buffer.Length)
  {
    hide *;
    ghost var j1, j2 := JsonString(id), JsonString(timestamp);
    end := AppendPart(buffer, pos, FORMAT1, false, b, []);
    assert [] + FORMAT1 == FORMAT1;
    end := AppendPart(buffer, end, id, true, b, FORMAT1);
    end := AppendPart(buffer, end, FORMAT2, false, b, FORMAT1 + j1);
    end := AppendPart(buffer, end, timestamp, true, b, FORMAT1 + j1 + FORMAT2);
    end := AppendPart(buffer, end, FORMAT3, false, b, FORMAT1 + j1 + FORMAT2 + j2);
    end := AppendPart(buffer, end, user, true, b, FORMAT1 + j1 + FORMAT2 + j2 + FORMAT3);
  }

  lemma FillNothing(before: seq<byte>, size: nat)
    ensures |before| <= size ==> Fill(before, [], size) == before
  {
    assert before + [] == before;
  }

  lemma ResultMeans(after: seq<byte>, before: seq<byte>, data: seq<byte>, size: nat)
    requires size > 0 && after == Fill(before, data, size) && |before| < size - 1
    ensures |after| < size - 1 <==> |before| + |data| < size - 1
    ensures |after| <= size - 1
    ensures |after| < size - 1 ==> after == before + data
  {
  }

  // ----- The response line

  /** `has_plain_text_controls` */
  predicate HasControls(text: seq<byte>) {
    exists i :: 0 <= i < |text| && (text[i] < 32 || text[i] == 127)
  }

  const TYPE_SIZE := 64

  /** The text a "message.create" response asks to publish. */
  ghost function CreateText(line: seq<byte>): Option<seq<byte>> {
    if GetField(line, TYPE, TYPE_SIZE) != Some(MESSAGE_CREATE) then None
    else
      var t := GetField(line, PLAIN_TEXT, MAX_MESSAGE_LEN);
      if t.None? || t.value == [] || !Valid(t.value) || HasControls(t.value) then None else t
  }

  /** A text that may be shown to everybody. */
  ghost predicate Publishable(t: seq<byte>) {
    t != [] && |t| <= 1023 && Valid(t) && forall i :: 0 <= i < |t| ==> t[i] >= 0x20 && t[i] != 0x7F
  }

  /** The string that the last member of a name holds, if every member of that name is
      one that fits. */
  ghost function LastText(ms: Members, key: seq<byte>, size: nat): Option<seq<byte>>
    requires MembersOk(ms)
  {
    NamedOk(ms, key);
    var vs := Named(ms, key);
    if vs != [] && forall i :: 0 <= i < |vs| ==> StringOf(vs[i], size).Some?
    then StringOf(vs[|vs| - 1], size) else None
  }

  lemma TypeIs(before: seq<byte>, ms: Members, rest: seq<byte>)
    requires Blank(before) && MembersOk(ms) && KeysReadable(ms)
    ensures GetField(before + ValueText(Object(ms)) + rest, TYPE, TYPE_SIZE) == LastText(ms, TYPE, 64)
  {
    hide GetField, Named, MembersOk, KeysReadable, ValueText, StringOf, ValueOk;
    NamedOk(ms, TYPE);
    LookupIsLastMember(before, ms, rest, TYPE, 64);
  }

  /** Whatever a response is, only publishable texts are taken from it. */
  lemma OnlyPublishable(line: seq<byte>)
    ensures CreateText(line).Some? ==> Publishable(CreateText(line).value)
  {
    hide GetField, Valid;
    FoundFits(line, PLAIN_TEXT, MAX_MESSAGE_LEN);
  }

  /** A response that is a well-formed object with readable keys asks for a text if and
      only if its type is "message.create" and that text, its "plain_text", is publishable. */
  lemma CreatesIff(before: seq<byte>, ms: Members, rest: seq<byte>, text: seq<byte>)
    requires Blank(before) && MembersOk(ms) && KeysReadable(ms)
    ensures CreateText(before + ValueText(Object(ms)) + rest) == Some(text) <==>
      && LastText(ms, TYPE, 64) == Some(MESSAGE_CREATE)
      && LastText(ms, PLAIN_TEXT, 1024) == Some(text) && Publishable(text)
  {
    hide GetField, Valid, Named, MembersOk, KeysReadable, ValueText, StringOf, ValueOk;
    NamedOk(ms, TYPE);
    NamedOk(ms, PLAIN_TEXT);
    LookupIsLastMember(before, ms, rest, TYPE, 64);
    LookupIsLastMember(before, ms, rest, PLAIN_TEXT, 1024);
    FoundFits(before + ValueText(Object(ms)) + rest, PLAIN_TEXT, 1024);
  }

  /** A field of the line, copied out of its buffer. */
  method ReadField(line: seq<byte>, key: seq<byte>, size: nat) returns (r: Option<seq<byte>>)
    requires NoNul(line) && NoNul(key)
    ensures r == GetField(line, key, size)
    ensures r.Some? ==> NoNul(r.value)
  {
    hide GetField;
    var out := new byte[size];
    var ok := GetStringField(line, key, out);
    if !ok {
      return None;
    }
    var n := StrLen(out);
    return Some(out[..n]);
  }

  method FindControls(text: seq<byte>) returns (found: bool)
    ensures found == HasControls(text)
  {
    var i := 0;
    while i < |text| && text[i] >= 32 && text[i] != 127
      invariant 0 <= i <= |text|
      invariant forall k :: 0 <= k < i ==> text[k] >= 32 && text[k] != 127
    {
      i := i + 1;
    }
    return i < |text|;
  }

  /** `tnt_module_parse_message_create` */
  method ParseMessageCreate(line: seq<byte>) returns (r: Option<seq<byte>>)
    requires NoNul(line)
    ensures r == CreateText(line)
  {
    hide GetField, Valid, HasControls;
    var typeText := ReadField(line, TYPE, TYPE_SIZE);
    if typeText != Some(MESSAGE_CREATE) {
      return None;
    }
    var text := ReadField(line, PLAIN_TEXT, MAX_MESSAGE_LEN);
    if text.None? || text.value == [] {
      return None;
    }
    var valid := IsValidString(text.value);
    var controls := FindControls(text.value);
    return if valid && !controls then text else None;
  }

  /** A response printed with the same printer is understood: the text comes back byte for byte. */
  lemma CreateReadsBack(text: seq<byte>, rest: seq<byte>)
    requires text != [] && |text| < MAX_MESSAGE_LEN && Valid(text) && NoNul(text) && !HasControls(text)
    ensures CreateText(ValueText(Object(Build([Field(TYPE, Printed(MESSAGE_CREATE)),
                                               Field(PLAIN_TEXT, Printed(text))])))
                       + rest) == Some(text)
  {
    hide GetField, ValueText, Build, Printed, FieldsOk, DistinctNames, Valid, HasControls;
    var fs := [Field(TYPE, Printed(MESSAGE_CREATE)), Field(PLAIN_TEXT, Printed(text))];
    CreateFieldsOk(text);
    LookupPrinted(fs, 0, MESSAGE_CREATE, rest, TYPE_SIZE);
    LookupPrinted(fs, 1, text, rest, MAX_MESSAGE_LEN);
  }

  lemma CreateFieldsOk(text: seq<byte>)
    requires NoNul(text)
    ensures var fs := [Field(TYPE, Printed(MESSAGE_CREATE)), Field(PLAIN_TEXT, Printed(text))];
      FieldsOk(fs) && DistinctNames(fs)
    ensures NoNul(MESSAGE_CREATE)
  {
    hide PrintPieces;
    PrintedText(MESSAGE_CREATE);
    PrintedText(text);
  }
}
