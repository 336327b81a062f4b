/**
  The room and the log side by side.  A post or a module's message is saved and
  then broadcast (src/input.c, src/exec.c, src/module_runtime.c), a join, a leave
  or a new name is broadcast and then saved (src/input.c, src/commands.c); the
  halves of different threads interleave.  When does a restart, which loads the
  end of the log into a new room, restore the history of the old one?
 */
module Restart {
  import opened Bytes
  import opened Common
  import opened MessageLog
  import opened MessageFile
  import opened ChatRoom
  import Utf8

  // ----- Loading a clean log

  /** A log that the check command finds nothing wrong with. */
  ghost predicate CleanLog(file: seq<byte>, now: int, codec: Codec) {
    AllParse(Reads(file), now, codec)
  }

  ghost predicate AllParse(lines: seq<seq<byte>>, now: int, codec: Codec) {
    forall k :: 0 <= k < |lines| ==> Parsed(lines[k], now, codec).Some?
  }

  /** A read that is a record has no NUL and ends with its newline. */
  lemma FirstIsWhole(file: seq<byte>, now: int, codec: Codec)
    requires file != [] && Parsed(Text(file[..ReadLength(file)]), now, codec).Some?
    ensures NoNul(file[..ReadLength(file)]) && Terminated(file[..ReadLength(file)])
  {
    var n := ReadLength(file);
    var x := file[..n];
    var t := Text(x);
    TextIsPrefix(x);
    assert t != [] && t[|t| - 1] == NEWLINE;
    assert forall k :: 0 <= k < n - 1 ==> file[k] != NEWLINE;
    assert t[|t| - 1] == file[|t| - 1];
    assert t == x;
  }

  lemma {:induction false} CleanIsWhole(file: seq<byte>, now: int, codec: Codec)
    requires CleanLog(file, now, codec)
    ensures NoNul(file) && Terminated(file)
    decreases |file|
  {
    hide Parsed, ReadLength, Text, Reads;
    if file != [] {
      ReadsUnfold(file);
      var n, rest := ReadLength(file), file[ReadLength(file)..];
      var first, others := Text(file[..n]), Reads(rest);
      assert ([first] + others)[0] == first;
      assert forall k :: 0 <= k < |others| ==> ([first] + others)[k + 1] == others[k];
      FirstIsWhole(file, now, codec);
      CleanIsWhole(rest, now, codec);
      assert file == file[..n] + rest;
    }
  }

  /** Where every line is a record, the last records are those of the last lines. */
  lemma {:induction false} LastOfClean(lines: seq<seq<byte>>, k: nat, now: int, codec: Codec)
    requires AllParse(lines, now, codec) && k <= |lines|
    ensures |Records(lines, now, codec)| == |lines|
    ensures Records(lines[k..], now, codec) == Records(lines, now, codec)[k..]
    decreases |lines|
  {
    hide Parsed;
    if lines == [] {
      assert lines[k..] == [];
    } else {
      LastOfClean(lines[1..], if k == 0 then 0 else k - 1, now, codec);
      if k == 0 {
        assert lines[0..] == lines;
      } else {
        assert lines[k..] == lines[1..][k - 1..];
      }
    }
  }

  lemma CleanAfterSaves(file: seq<byte>, ms: seq<Message>, now: int, codec: Codec)
    requires Lawful(codec, now) && CleanLog(file, now, codec) && forall k :: 0 <= k < |ms| ==> MessageOk(ms[k], now)
    ensures CleanLog(SavedAll(file, ms, codec), now, codec)
  {
    hide Reads, Records, Lawful, MessageOk, Parsed;
    CleanIsWhole(file, now, codec);
    SavedMessagesReadBack(file, ms, now, codec);
    RecordsFewer(Reads(file), now, codec);
    RecordsFewer(Reads(SavedAll(file, ms, codec)), now, codec);
  }

  /** Saving messages to a clean log and loading its end gives the last of all of
      them, old and new, sanitised and in order. */
  lemma LoadAfterSaves(file: seq<byte>, ms: seq<Message>, n: nat, now: int, codec: Codec)
    requires Lawful(codec, now) && CleanLog(file, now, codec) && forall k :: 0 <= k < |ms| ==> MessageOk(ms[k], now)
    ensures Loaded(SavedAll(file, ms, codec), n, now, codec)
      == LastN(Records(Reads(file), now, codec) + SanitisedAll(ms), n)
  {
    hide Reads, Records, Lawful, MessageOk, Parsed, Lines, SavedAll, Loaded, Sanitised;
    var saved := SavedAll(file, ms, codec);
    CleanAfterSaves(file, ms, now, codec);
    CleanIsWhole(file, now, codec);
    CleanIsWhole(saved, now, codec);
    ReadsAreLines(saved);
    LoadedIs(saved, n, now, codec);
    SavedMessagesReadBack(file, ms, now, codec);
    var lines := Lines(saved);
    LastOfClean(lines, |lines| - Min(|lines|, n), now, codec);
  }

  /** What the new room holds, if the log got the messages in the order the room did. */
  lemma SameOrderRestores(file: seq<byte>, ms: seq<Message>, now: int, codec: Codec)
    requires Lawful(codec, now) && CleanLog(file, now, codec) && forall k :: 0 <= k < |ms| ==> MessageOk(ms[k], now)
    ensures Loaded(SavedAll(file, ms, codec), MAX_MESSAGES, now, codec)
      == History(Loaded(file, MAX_MESSAGES, now, codec), SanitisedAll(ms))
  {
    hide Loaded, Lawful, MessageOk, Records, CleanLog;
    LoadAfterSaves(file, ms, MAX_MESSAGES, now, codec);
    LoadAfterSaves(file, [], MAX_MESSAGES, now, codec);
    assert SavedAll(file, [], codec) == file;
    var past := Records(Reads(file), now, codec);
    assert past + SanitisedAll([]) == past;
    HistoryIsLast(past, SanitisedAll(ms));
  }

  /** ... and if all of them are plain, the history byte for byte. */
  lemma PlainRoomRestored(file: seq<byte>, ms: seq<Message>, now: int, codec: Codec)
    requires Lawful(codec, now) && CleanLog(file, now, codec) && AllPlain(ms, now)
    ensures Loaded(SavedAll(file, ms, codec), MAX_MESSAGES, now, codec)
      == History(Loaded(file, MAX_MESSAGES, now, codec), ms)
  {
    hide Loaded, Lawful, CleanLog, History, SavedAll;
    PlainStays(ms, now);
    SameOrderRestores(file, ms, now, codec);
  }

  // ----- Every interleaving of the halves

  type Thread = nat

  datatype Half = ToShow(msg: Message) | ToSave(msg: Message)

  /** What was saved and what was broadcast, in order, and whose other half is due. */
  datatype World = World(log: seq<Message>, room: seq<Message>, pending: map<Thread, Half>)

  datatype Step = Save(t: Thread, msg: Message) | Show(t: Thread, msg: Message) | Finish(t: Thread)

  const NOTHING := World([], [], map[])

  function Next(w: World, step: Step): World {
    match step
    case Save(t, m) => if t in w.pending then w else World(w.log + [m], w.room, w.pending[t := ToShow(m)])
    case Show(t, m) => if t in w.pending then w else World(w.log, w.room + [m], w.pending[t := ToSave(m)])
    case Finish(t) =>
      if t !in w.pending then w
      else if w.pending[t].ToShow? then World(w.log, w.room + [w.pending[t].msg], w.pending - {t})
      else World(w.log + [w.pending[t].msg], w.room, w.pending - {t})
  }

  function Run(w: World, steps: seq<Step>): World
    decreases |steps|
  {
    if steps == [] then w else Run(Next(w, steps[0]), steps[1..])
  }

  ghost predicate OnlyBy(steps: seq<Step>, ts: set<Thread>) {
    forall k :: 0 <= k < |steps| ==> steps[k].t in ts
  }

  ghost predicate AllOk(steps: seq<Step>, now: int) {
    forall k :: 0 <= k < |steps| && !steps[k].Finish? ==> MessageOk(steps[k].msg, now)
  }

  /** What is due is what the log has and the room lacks, or the other way round. */
  ghost predicate Differ(w: World, h: Half) {
    if h.ToShow? then w.log == w.room + [h.msg] else w.room == w.log + [h.msg]
  }

  /** One thread at work: log and room agree up to the half that is due. */
  ghost predicate InStep(w: World, ts: set<Thread>) {
    && w.pending.Keys <= ts
    && (w.pending == map[] ==> w.log == w.room)
    && (forall t :: t in w.pending ==>
          (w.pending == map[t := w.pending[t]] && Differ(w, w.pending[t])))
  }

  lemma StepInStep(w: World, step: Step, ts: set<Thread>)
    requires InStep(w, ts) && |ts| <= 1 && step.t in ts
    ensures InStep(Next(w, step), ts)
  {
    if w.pending != map[] {
      var u :| u in w.pending;
      AtMostOne(ts, u, step.t);
    }
    var v := Next(w, step);
    if step.Finish? && step.t in w.pending {
      assert v.pending == map[];
    }
  }

  lemma {:induction false} RunInStep(w: World, steps: seq<Step>, ts: set<Thread>)
    requires InStep(w, ts) && |ts| <= 1 && OnlyBy(steps, ts)
    ensures InStep(Run(w, steps), ts)
    decreases |steps|
  {
    hide InStep, Next;
    if steps != [] {
      StepInStep(w, steps[0], ts);
      RunInStep(Next(w, steps[0]), steps[1..], ts);
    }
  }

  ghost predicate WorldOk(w: World, now: int) {
    && (forall k :: 0 <= k < |w.log| ==> MessageOk(w.log[k], now))
    && (forall k :: 0 <= k < |w.room| ==> MessageOk(w.room[k], now))
    && (forall t :: t in w.pending ==> MessageOk(w.pending[t].msg, now))
  }

  lemma {:induction false} RunIsOk(w: World, steps: seq<Step>, now: int)
    requires WorldOk(w, now) && AllOk(steps, now)
    ensures WorldOk(Run(w, steps), now)
    decreases |steps|
  {
    hide MessageOk;
    if steps != [] {
      assert WorldOk(Next(w, steps[0]), now);
      RunIsOk(Next(w, steps[0]), steps[1..], now);
    }
  }

  // ----- When a restart restores the room

  /** A restart after this run, with nothing half done, gives the new room what the
      old one held. */
  ghost predicate Restores(file: seq<byte>, w: World, now: int, codec: Codec) {
    w.pending == map[] ==>
      Loaded(SavedAll(file, w.log, codec), MAX_MESSAGES, now, codec)
      == History(Loaded(file, MAX_MESSAGES, now, codec), SanitisedAll(w.room))
  }

  ghost predicate AlwaysRestores(file: seq<byte>, ts: set<Thread>, now: int, codec: Codec) {
    forall steps :: OnlyBy(steps, ts) && AllOk(steps, now) ==> Restores(file, Run(NOTHING, steps), now, codec)
  }

  lemma OneThreadRestores(file: seq<byte>, steps: seq<Step>, ts: set<Thread>, now: int, codec: Codec)
    requires Lawful(codec, now) && CleanLog(file, now, codec) && |ts| <= 1 && OnlyBy(steps, ts) && AllOk(steps, now)
    ensures Restores(file, Run(NOTHING, steps), now, codec)
  {
    hide Loaded, Lawful, MessageOk, CleanLog, History;
    RunInStep(NOTHING, steps, ts);
    RunIsOk(NOTHING, steps, now);
    var w := Run(NOTHING, steps);
    hide Run;
    if w.pending == map[] {
      SameOrderRestores(file, w.room, now, codec);
    }
  }

  /** Two threads that save in one order and broadcast in the other. */
  lemma SwappedRun(s: Thread, t: Thread, a: Message, b: Message)
    requires s != t
    ensures Run(NOTHING, [Save(s, a), Save(t, b), Finish(t), Finish(s)]) == World([a, b], [b, a], map[])
  {
    var s1, s2, s3, s4 := Save(s, a), Save(t, b), Finish(t), Finish(s);
    assert [s1, s2, s3, s4][1..] == [s2, s3, s4] && [s2, s3, s4][1..] == [s3, s4];
    assert [s3, s4][1..] == [s4] && [s4][1..] == [];
    var w1 := Next(NOTHING, s1);
    assert w1 == World([a], [], map[s := ToShow(a)]);
    var w2 := Next(w1, s2);
    assert w2 == World([a, b], [], map[s := ToShow(a), t := ToShow(b)]);
    var w3 := Next(w2, s3);
    assert w3 == World([a, b], [b], map[s := ToShow(a)]);
    var w4 := Next(w3, s4);
    assert w4 == World([a, b], [b, a], map[]);
    hide Next;
    assert Run(NOTHING, [s1, s2, s3, s4]) == Run(w1, [s2, s3, s4]);
    assert Run(w1, [s2, s3, s4]) == Run(w2, [s3, s4]);
    assert Run(w2, [s3, s4]) == Run(w3, [s4]);
    assert Run(w3, [s4]) == Run(w4, []);
  }

  /** A message of one letter, in any window. */
  function Letter(b: byte, now: int): Message {
    Message(if now == -1 then 0 else now, [0x61], [b])
  }

  lemma LetterIsOk(b: byte, now: int)
    requires 0x61 <= b <= 0x7A
    ensures MessageOk(Letter(b, now), now) && Sanitised(Letter(b, now)) == Letter(b, now)
  {
    Utf8.SingleByte(0x61);
    Utf8.SingleByte(b);
    assert [0x61][1..] == [] && [b][1..] == [];
    assert Utf8.Valid([0x61]) && Utf8.Valid([b]);
    var m := Letter(b, now);
    assert Clip(m.username, MAX_USERNAME_LEN - 1) == m.username && Clip(m.content, MAX_MESSAGE_LEN - 1) == m.content;
    assert Clean(m.username, UNDERSCORE) == m.username && Clean(m.content, SPACE) == m.content;
  }

  lemma SwappedDiffers(file: seq<byte>, a: Message, b: Message, now: int, codec: Codec)
    requires Lawful(codec, now) && CleanLog(file, now, codec) && MessageOk(a, now) && MessageOk(b, now)
    requires Sanitised(a) == a != b == Sanitised(b)
    ensures !Restores(file, World([a, b], [b, a], map[]), now, codec)
  {
    hide Loaded, Lawful, MessageOk, CleanLog, History, Records, Sanitised;
    var past := Records(Reads(file), now, codec);
    LoadAfterSaves(file, [a, b], MAX_MESSAGES, now, codec);
    SameOrderRestores(file, [b, a], now, codec);
    LoadAfterSaves(file, [b, a], MAX_MESSAGES, now, codec);
    assert SanitisedAll([a, b]) == [a, b] && SanitisedAll([b, a]) == [b, a];
    LastIsLast(past, a, b);
    LastIsLast(past, b, a);
  }

  lemma LastIsLast(past: seq<Message>, a: Message, b: Message)
    ensures var s := LastN(past + [a, b], MAX_MESSAGES); s != [] && s[|s| - 1] == b
  {
  }

  /** For a clean log: restarts always restore the history of the room, sanitised,
      if and only if at most one thread writes to both. */
  lemma RestoresIffOneThread(file: seq<byte>, ts: set<Thread>, now: int, codec: Codec)
    requires Lawful(codec, now) && CleanLog(file, now, codec)
    ensures AlwaysRestores(file, ts, now, codec) <==> |ts| <= 1
  {
    hide Run, Restores, Lawful, CleanLog, MessageOk;
    if |ts| <= 1 {
      forall steps | OnlyBy(steps, ts) && AllOk(steps, now)
        ensures Restores(file, Run(NOTHING, steps), now, codec)
      {
        OneThreadRestores(file, steps, ts, now, codec);
      }
    } else {
      var s, t := TwoOf(ts);
      var a, b := Letter(0x61, now), Letter(0x62, now);
      LetterIsOk(0x61, now);
      LetterIsOk(0x62, now);
      var steps := [Save(s, a), Save(t, b), Finish(t), Finish(s)];
      SwappedRun(s, t, a, b);
      SwappedDiffers(file, a, b, now, codec);
      assert OnlyBy(steps, ts) && AllOk(steps, now);
    }
  }
}
