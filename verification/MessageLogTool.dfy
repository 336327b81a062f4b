/** The check and recover commands of src/message_log_tool.c. */
module MessageLogTool {
  import opened Bytes
  import opened Common
  import opened MessageLog
  import opened MessageFile
  import Utf8

  datatype Report = Report(seen: nat, valid: nat, invalid: nat, firstInvalid: nat)

  /** Which lines are records, which is the first that is not (counting from 1, or 0). */
  ghost predicate Reports(report: Report, lines: seq<seq<byte>>, now: int, codec: Codec) {
    && report.seen == |lines|
    && report.valid == |Records(lines, now, codec)|
    && report.invalid == |lines| - report.valid
    && report.firstInvalid <= |lines|
    && (var n := if report.firstInvalid == 0 then |lines| else report.firstInvalid - 1;
        forall k :: 0 <= k < n ==> Parsed(lines[k], now, codec).Some?)
    && (report.firstInvalid > 0 ==> Parsed(lines[report.firstInvalid - 1], now, codec).None?)
  }

  function Counted(report: Report, valid: bool): Report {
    Report(report.seen + 1,
           if valid then report.valid + 1 else report.valid,
           if valid then report.invalid else report.invalid + 1,
           if !valid && report.firstInvalid == 0 then report.seen + 1 else report.firstInvalid)
  }

  lemma ReportsNext(report: Report, lines: seq<seq<byte>>, line: seq<byte>, now: int, codec: Codec)
    requires Reports(report, lines, now, codec)
    ensures Reports(Counted(report, Parsed(line, now, codec).Some?), lines + [line], now, codec)
    ensures Records(lines + [line], now, codec) == Records(lines, now, codec) + Item(Parsed(line, now, codec))
  {
    hide Parsed;
    RecordsConcat(lines, [line], now, codec);
    assert Records([line], now, codec) == Item(Parsed(line, now, codec)) by {
      OneRecord(line, now, codec);
    }
  }

  /** No invalid line is counted exactly when every line is a record. */
  lemma CleanIff(report: Report, lines: seq<seq<byte>>, now: int, codec: Codec)
    requires Reports(report, lines, now, codec)
    ensures report.invalid == 0 <==> report.firstInvalid == 0
    ensures report.invalid == 0 <==> forall k :: 0 <= k < |lines| ==> Parsed(lines[k], now, codec).Some?
  {
    hide Parsed;
    RecordsFewer(lines, now, codec);
  }

  /** A recovered log, checked again at the same time: nothing invalid, same messages. */
  lemma RecoverThenCheck(file: seq<byte>, report: Report, now: int, codec: Codec)
    requires Lawful(codec, now)
    requires Reports(report, Reads(LogText(codec, Records(Reads(file), now, codec))), now, codec)
    ensures report.invalid == 0 && report.valid == |Records(Reads(file), now, codec)|
    ensures Records(Reads(LogText(codec, Records(Reads(file), now, codec))), now, codec)
      == Records(Reads(file), now, codec)
  {
    hide Lawful, Records, Reads, Parsed, LogText;
    RecoverIsFaithful(file, now, codec);
  }

  lemma ReadsNext(file: seq<byte>, done: seq<seq<byte>>, pos: nat, end: nat)
    requires pos < |file| && end == pos + ReadLength(file[pos..]) && done + Reads(file[pos..]) == Reads(file)
    ensures pos < end <= |file| && done + [Text(file[pos..end])] + Reads(file[end..]) == Reads(file)
  {
    hide *;
    NextRead(file, pos, end);
    Assoc(done, [Text(file[pos..end])], Reads(file[end..]));
  }

  lemma ParsedIsOk(line: seq<byte>, m: Message, now: int, codec: Codec)
    requires Lawful(codec, now) && Parsed(line, now, codec) == Some(m)
    ensures NoNul(codec.format(m.timestamp)) && NoNul(m.username) && NoNul(m.content) && |Record(codec, m)| < MAX_RECORD
  {
    hide Parsed;
    ParsedIff(line, m, now, codec);
    Utf8.ValidHasNoNul(m.username);
    Utf8.ValidHasNoNul(m.content);
    RecordReadsBackIff(m, now, codec);
  }

  /** `print_recovered_record`: always fits its buffer. */
  method PrintRecovered(m: Message, codec: Codec, ghost line: seq<byte>, ghost now: int) returns (out: seq<byte>)
    requires Lawful(codec, now) && Parsed(line, now, codec) == Some(m)
    ensures out == Record(codec, m)
  {
    ParsedIsOk(line, m, now, codec);
    hide Parsed, Lawful, Record;
    var record := new byte[MAX_RECORD];
    var rc, n := FormatRecord(m, record, codec);
    assert Clip(Record(codec, m), MAX_RECORD - 1) == Record(codec, m);
    TextIsPrefix(record[..]);
    out := record[..n];
  }

  ghost function Printed(recover: bool, codec: Codec, ms: seq<Message>): seq<byte> {
    if recover then LogText(codec, ms) else []
  }

  method Emit(recover: bool, r: Option<Message>, out: seq<byte>, codec: Codec, ghost ms: seq<Message>,
              ghost line: seq<byte>, ghost now: int)
    returns (after: seq<byte>)
    requires Lawful(codec, now) && Parsed(line, now, codec) == r && out == Printed(recover, codec, ms)
    ensures after == Printed(recover, codec, ms + Item(r))
  {
    hide Lawful, Parsed, LogText, Record;
    after := out;
    if r.Some? && recover {
      LogTextSplit(codec, ms, [r.value]);
      LogTextOne(codec, r.value);
      var text := PrintRecovered(r.value, codec, line, now);
      after := after + text;
    } else if r.None? {
      assert ms + [] == ms;
    }
  }

  /** `scan_log`: the report describes every line; recovering prints the records. */
  method ScanLog(file: seq<byte>, recover: bool, now: int, codec: Codec)
    returns (report: Report, out: seq<byte>, clean: bool)
    requires Lawful(codec, now)
    ensures Reports(report, Reads(file), now, codec)
    ensures out == if recover then LogText(codec, Records(Reads(file), now, codec)) else []
    ensures clean <==> forall k :: 0 <= k < |Reads(file)| ==> Parsed(Reads(file)[k], now, codec).Some?
  {
    hide ReadLength, Parsed, Reads, Lawful, LogText, Reports, Records;
    report, out := ScanLines(file, recover, now, codec);
    CleanIff(report, Reads(file), now, codec);
    clean := report.invalid == 0;
  }

  method ScanLines(file: seq<byte>, recover: bool, now: int, codec: Codec) returns (report: Report, out: seq<byte>)
    requires Lawful(codec, now)
    ensures Reports(report, Reads(file), now, codec) && out == Printed(recover, codec, Records(Reads(file), now, codec))
  {
    var buffer := new byte[MAX_LINE];
    ghost var done: seq<seq<byte>> := [];
    var pos := 0;
    report, out := Report(0, 0, 0, 0), [];
    assert file[0..] == file && done + Reads(file) == Reads(file);
    assert Records(done, now, codec) == [] && LogText(codec, []) == [];
    hide *;
    while pos < |file|
      invariant pos <= |file| && buffer.Length == MAX_LINE && done + Reads(file[pos..]) == Reads(file)
      invariant Reports(report, done, now, codec) && out == Printed(recover, codec, Records(done, now, codec))
      decreases |file| - pos
    {
      var end, r := ReadRecord(file, pos, buffer, now, codec);
      ReadsNext(file, done, pos, end);
      ReportsNext(report, done, Text(file[pos..end]), now, codec);
      out := Emit(recover, r, out, codec, Records(done, now, codec), Text(file[pos..end]), now);
      report := Counted(report, r.Some?);
      done := done + [Text(file[pos..end])];
      pos := end;
    }
    NothingLeft(file, |file|, now, codec);
    assert done + [] == done;
  }
}
