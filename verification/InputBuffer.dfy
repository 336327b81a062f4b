/**
  The streaming input buffer of src/input_buffer.c: bytes arrive one at a time,
  UTF-8 is validated across calls, and only whole printable characters reach
  the text.
 */
module InputBuffer {
  import opened Bytes
  import opened Utf8

  /** The TNT_INPUT_APPEND_* bits; all clear is OK. */
  datatype Status = Status(ignored: bool, overflow: bool, invalid: bool) {
    function Or(other: Status): Status {
      Status(ignored || other.ignored, overflow || other.overflow, invalid || other.invalid)
    }
  }

  const OK := Status(false, false, false)
  const IGNORED := Status(true, false, false)
  const OVERFLOW := Status(false, true, false)
  const INVALID_UTF8 := Status(false, false, true)

  /** The text so far and the bytes of an unfinished character. */
  datatype Paste = Paste(text: seq<byte>, pending: seq<byte>)

  datatype Outcome = Outcome(paste: Paste, status: Status)

  // ----- What one call does

  /** The start of a character that still lacks continuation bytes. */
  predicate Unfinished(p: seq<byte>) {
    p == [] || (|p| < ByteLength(p[0]) && AllContinuation(p[1..]))
  }

  function Append(text: seq<byte>, size: nat, bytes: seq<byte>): (r: (seq<byte>, Status))
    ensures text <= r.0 && !r.1.invalid
  {
    if size == 0 || bytes == [] then (text, IGNORED)
    else if |text| + |bytes| >= size then (text, OVERFLOW)
    else (text + bytes, OK)
  }

  function AppendAsciiSpec(text: seq<byte>, size: nat, b: byte): (seq<byte>, Status) {
    if b < 32 || b >= 127 then (text, IGNORED) else Append(text, size, [b])
  }

  function AppendSequenceSpec(text: seq<byte>, size: nat, bytes: seq<byte>): (seq<byte>, Status) {
    if !ValidSequence(bytes) then (text, INVALID_UTF8) else Append(text, size, bytes)
  }

  /** A byte when no character is pending. */
  function Start(text: seq<byte>, size: nat, b: byte): Outcome {
    if b < 128 then
      var (t, s) := AppendAsciiSpec(text, size, b);
      Outcome(Paste(t, []), s)
    else if ByteLength(b) == 1 then Outcome(Paste(text, []), INVALID_UTF8)
    else Outcome(Paste(text, [b]), OK)
  }

  function Printable(st: Paste, size: nat, b: byte): Outcome {
    if st.pending == [] then Start(st.text, size, b)
    else if !IsContinuation(b) then
      var o := Start(st.text, size, b);
      Outcome(o.paste, INVALID_UTF8.Or(o.status))
    else
      var p := st.pending + [b];
      if |p| == ByteLength(p[0]) then
        var (t, s) := AppendSequenceSpec(st.text, size, p);
        Outcome(Paste(t, []), s)
      else Outcome(Paste(st.text, p), OK)
  }

  function NormaliseByte(b: byte, pasteMode: bool): byte {
    if pasteMode && (b == 0x0D || b == 0x0A || b == 0x09) then 0x20 else b
  }

  function Step(st: Paste, size: nat, b: byte, pasteMode: bool): Outcome {
    var c := NormaliseByte(b, pasteMode);
    if c < 32 then Outcome(Paste(st.text, []), if st.pending != [] then INVALID_UTF8.Or(IGNORED) else IGNORED)
    else Printable(st, size, c)
  }

  // ----- Whole streams

  function Normalise(stream: seq<byte>, pasteMode: bool): seq<byte> {
    seq(|stream|, i requires 0 <= i < |stream| => NormaliseByte(stream[i], pasteMode))
  }

  /** A stream of bytes, one call each; the statuses are or-ed together. */
  function Run(st: Paste, size: nat, stream: seq<byte>, pasteMode: bool): Outcome
    decreases |stream|
  {
    if stream == [] then Outcome(st, OK)
    else
      var o := Step(st, size, stream[0], pasteMode);
      var r := Run(o.paste, size, stream[1..], pasteMode);
      Outcome(r.paste, o.status.Or(r.status))
  }

  /** `tnt_input_utf8_state_finish` */
  function FinishStatus(st: Paste): Status {
    if st.pending == [] then OK else INVALID_UTF8
  }

  lemma StepKeepsUnfinished(st: Paste, size: nat, b: byte, pasteMode: bool)
    requires Unfinished(st.pending)
    ensures Unfinished(Step(st, size, b, pasteMode).paste.pending)
  {
    var c := NormaliseByte(b, pasteMode);
    if st.pending != [] && IsContinuation(c) {
      assert (st.pending + [c])[1..] == st.pending[1..] + [c];
    }
  }

  /** An unfinished character followed by anything but a continuation byte is invalid. */
  lemma BrokenCharacter(p: seq<byte>, rest: seq<byte>)
    requires Unfinished(p) && p != [] && (rest == [] || !IsContinuation(rest[0]))
    ensures !Valid(p + rest)
  {
    var s := p + rest;
    var n := ByteLength(p[0]);
    assert s[0] == p[0];
    if n <= |s| {
      assert s[..n][1..][|p| - 1] == rest[0];
    }
  }

  /** One byte: either it is flagged and the stream is beyond repair, or what
      is pending and to come is as valid as it was before. */
  lemma StepFlag(st: Paste, size: nat, b: byte, pasteMode: bool, rest: seq<byte>)
    requires Unfinished(st.pending) && b != 0
    ensures var o := Step(st, size, b, pasteMode);
      if o.status.invalid then !Valid(st.pending + [b] + rest)
      else Valid(st.pending + [b] + rest) == Valid(o.paste.pending + rest)
  {
    hide Valid, Assemble, InRangeForLength, Append;
    var p := st.pending;
    var c := NormaliseByte(b, pasteMode);
    assert p + [b] + rest == p + ([b] + rest);
    if p != [] && !IsContinuation(b) {
      BrokenCharacter(p, [b] + rest);
    } else if p != [] {
      var q := p + [b];
      assert q[1..] == p[1..] + [b];
      if |q| == ByteLength(q[0]) {
        FinishedCharacter(q, rest);
        assert [] + rest == rest;
      }
    } else {
      assert p + [b] + rest == [b] + rest;
      SingleByte(b);
      if b < 128 {
        assert [] + rest == rest;
        PrependSequence([b], rest);
      } else if ByteLength(b) == 1 {
        FinishedCharacter([b], rest);
      }
    }
  }

  lemma FinishedCharacter(q: seq<byte>, rest: seq<byte>)
    requires q != [] && |q| == ByteLength(q[0])
    ensures Valid(q + rest) <==> ValidSequence(q) && Valid(rest)
  {
    assert (q + rest)[..|q|] == q && (q + rest)[|q|..] == rest;
  }

  lemma EmptyIsValid()
    ensures Valid([])
  {
  }

  /** The automaton, its finishing call included, flags invalid UTF-8 exactly
      when the raw stream fails batch validation. */
  lemma {:induction false} FlagIffInvalid(st: Paste, size: nat, stream: seq<byte>, pasteMode: bool)
    requires Unfinished(st.pending) && NoNul(stream)
    ensures var o := Run(st, size, stream, pasteMode);
      o.status.Or(FinishStatus(o.paste)).invalid <==> !Valid(st.pending + stream)
    decreases |stream|
  {
    hide Valid, Step;
    if stream == [] {
      assert st.pending + stream == st.pending + [];
      if st.pending == [] {
        EmptyIsValid();
        assert st.pending + [] == [];
      } else {
        BrokenCharacter(st.pending, []);
      }
    } else {
      var o := Step(st, size, stream[0], pasteMode);
      StepKeepsUnfinished(st, size, stream[0], pasteMode);
      StepFlag(st, size, stream[0], pasteMode, stream[1..]);
      FlagIffInvalid(o.paste, size, stream[1..], pasteMode);
      assert st.pending + stream == st.pending + [stream[0]] + stream[1..];
    }
  }

  // ----- What reaches the text

  /** Valid UTF-8 without control characters. */
  ghost predicate Clean(t: seq<byte>) {
    Valid(t) && forall i :: 0 <= i < |t| ==> t[i] >= 32 && t[i] != 127
  }

  /** The code points one byte adds to the text: none or one. */
  function Emitted(st: Paste, size: nat, b: byte, pasteMode: bool): (e: seq<int>)
    ensures |e| <= 1
  {
    var c := NormaliseByte(b, pasteMode);
    if c < 32 then []
    else if c < 128 then (if c < 127 && |st.text| + 1 < size then [c] else [])
    else
      var p := st.pending + [c];
      if st.pending != [] && IsContinuation(c) && ValidSequence(p) && |st.text| + |p| < size then [Assemble(p)] else []
  }

  /** The text grows by exactly the encoding of what is emitted. */
  lemma StepAppends(st: Paste, size: nat, b: byte, pasteMode: bool)
    requires Unfinished(st.pending)
    ensures var o, e := Step(st, size, b, pasteMode), Emitted(st, size, b, pasteMode);
      && Scalars(e) && o.paste.text == st.text + EncodeAll(e)
      && (|st.text| < size ==> |o.paste.text| < size)
  {
    hide Assemble, InRangeForLength, EncodeAll, AllContinuation;
    var c := NormaliseByte(b, pasteMode);
    var p := st.pending + [c];
    EncodeNothing();
    if 32 <= c < 128 {
      SingleByte(c);
      OneCharacter([c], c);
    } else if c >= 128 && ValidSequence(p) {
      AssembleThenEncode(p);
      OneCharacter(p, Assemble(p));
    }
  }

  /** A clean text stays clean. */
  lemma StepKeepsClean(st: Paste, size: nat, b: byte, pasteMode: bool)
    requires Unfinished(st.pending) && Clean(st.text)
    ensures Clean(Step(st, size, b, pasteMode).paste.text)
  {
    hide Valid, Step, Assemble;
    var e, c := Emitted(st, size, b, pasteMode), NormaliseByte(b, pasteMode);
    var p := st.pending + [c];
    StepAppends(st, size, b, pasteMode);
    EncodeNothing();
    if e != [] {
      if c < 128 {
        SingleByte(c);
        OneCharacter([c], c);
      } else {
        AssembleThenEncode(p);
        OneCharacter(p, Assemble(p));
        PendingBytesAreHigh(p);
      }
      ValidConcat(st.text, EncodeAll(e));
    } else {
      assert st.text + [] == st.text;
    }
  }

  lemma PendingBytesAreHigh(p: seq<byte>)
    requires ValidSequence(p) && |p| > 1
    ensures forall i :: 0 <= i < |p| ==> p[i] >= 128
  {
    forall i | 0 <= i < |p|
      ensures p[i] >= 128
    {
      if i > 0 {
        assert IsContinuation(p[1..][i - 1]);
      }
    }
  }

  lemma OneCharacter(b: seq<byte>, cp: int)
    requires Scalar(cp) && Encode(cp) == b
    ensures Scalars([cp]) && EncodeAll([cp]) == b && Valid(b)
  {
    assert EncodeAll([cp]) == Encode(cp) + EncodeAll([]);
    EncodingIsValid([cp]);
  }

  lemma {:induction false} SubsequenceBehind(a: seq<int>, x: seq<int>, w: seq<int>)
    requires IsSubsequence(a, w)
    ensures IsSubsequence(a, x + w)
    decreases |x|
  {
    if x == [] {
      assert x + w == w;
    } else {
      SubsequenceBehind(a, x[1..], w);
      assert (x + w)[1..] == x[1..] + w;
    }
  }

  /** A decoding walk takes the bytes of a broken character one by one. */
  lemma {:induction false} WalkOverBroken(p: seq<byte>, rest: seq<byte>) returns (x: seq<int>)
    requires Unfinished(p) || AllContinuation(p)
    requires rest == [] || !IsContinuation(rest[0])
    ensures Walk(p + rest) == x + Walk(rest)
    decreases |p|
  {
    hide *;
    if p == [] {
      x := [];
      assert p + rest == rest;
    } else {
      BrokenHead(p, rest);
      var more := WalkOverBroken(p[1..], rest);
      WalkOne(p + rest);
      TailOfSum(p, rest);
      var head := [DecodeValue(p + rest)];
      Assoc(head, more, Walk(rest));
      x := head + more;
    }
  }

  lemma TailOfSum(p: seq<byte>, rest: seq<byte>)
    requires p != []
    ensures (p + rest)[1..] == p[1..] + rest
  {
  }

  lemma BrokenHead(p: seq<byte>, rest: seq<byte>)
    requires p != [] && (Unfinished(p) || AllContinuation(p)) && (rest == [] || !IsContinuation(rest[0]))
    ensures DecodeLength(p + rest) == 1 && AllContinuation(p[1..])
  {
    var s := p + rest;
    var n := ByteLength(p[0]);
    assert s[0] == p[0];
    assert Complete(s) ==> n == 1 by {
      assert n > |p| && n <= |s| ==> s[1..n][|p| - 1] == rest[0];
    }
  }

  lemma WalkOne(s: seq<byte>)
    requires s != [] && DecodeLength(s) == 1
    ensures Walk(s) == [DecodeValue(s)] + Walk(s[1..])
  {
  }

  /** What a byte emits stands in the walk in front of what is still to come. */
  lemma StepWalk(st: Paste, size: nat, b: byte, pasteMode: bool, rest: seq<byte>) returns (x: seq<int>)
    requires Unfinished(st.pending)
    ensures var o, c := Step(st, size, b, pasteMode), NormaliseByte(b, pasteMode);
      Walk(st.pending + [c] + rest) == x + Emitted(st, size, b, pasteMode) + Walk(o.paste.pending + rest)
  {
    hide Walk, Assemble, InRangeForLength;
    var c := NormaliseByte(b, pasteMode);
    var p := st.pending;
    if p != [] && IsContinuation(c) {
      var e := Emitted(st, size, b, pasteMode);
      var q := p + [c];
      assert q[1..] == p[1..] + [c];
      assert [] + rest == rest;
      if |q| == ByteLength(q[0]) {
        WalkOverFinished(q, rest);
        x := if e == [] then [Assemble(q)] else [];
        Witness(x, e, Walk(rest), [Assemble(q)], Walk(q + rest));
      } else {
        x := [];
        Witness([], [], Walk(q + rest), [], Walk(q + rest));
      }
    } else {
      x := StepWalkAfresh(st, size, b, pasteMode, rest);
    }
  }

  /** The same where the byte does not continue a character. */
  lemma StepWalkAfresh(st: Paste, size: nat, b: byte, pasteMode: bool, rest: seq<byte>) returns (x: seq<int>)
    requires Unfinished(st.pending) && (st.pending == [] || !IsContinuation(NormaliseByte(b, pasteMode)))
    ensures var o, c := Step(st, size, b, pasteMode), NormaliseByte(b, pasteMode);
      Walk(st.pending + [c] + rest) == x + Emitted(st, size, b, pasteMode) + Walk(o.paste.pending + rest)
  {
    hide Walk, Assemble, InRangeForLength;
    var c := NormaliseByte(b, pasteMode);
    var p := st.pending;
    var e := Emitted(st, size, b, pasteMode);
    assert [] + rest == rest;
    Assoc(p, [c], rest);
    var front := [];
    if p == [] {
      assert p + ([c] + rest) == [c] + rest;
      Witness([], [], Walk([c] + rest), [], Walk([c] + rest));
    } else {
      front := WalkOverBroken(p, [c] + rest);
    }
    if ByteLength(c) == 1 {
      SingleByte(c);
      WalkOverFinished([c], rest);
      Assoc(front, [c], Walk(rest));
      x := if e == [] then front + [c] else front;
      Witness(x, e, Walk(rest), front + [c], Walk(p + [c] + rest));
    } else {
      x := front;
      Witness(x, [], Walk([c] + rest), x, Walk(p + [c] + rest));
    }
  }

  lemma Witness(x: seq<int>, e: seq<int>, w: seq<int>, front: seq<int>, all: seq<int>)
    requires x + e == front && all == front + w
    ensures all == x + e + w
  {
  }

  lemma WalkOverFinished(q: seq<byte>, rest: seq<byte>)
    requires q != [] && |q| == ByteLength(q[0]) && AllContinuation(q[1..])
    ensures Walk(q + rest) == [Assemble(q)] + Walk(rest)
  {
    var s := q + rest;
    assert s[1..|q|] == q[1..] && s[..|q|] == q && s[|q|..] == rest;
  }

  /** Over a whole stream: the text grows by the encoding of code points that
      are a subsequence of the normalised stream's, stays clean and fits. */
  lemma {:induction false} AddsSubsequence(st: Paste, size: nat, stream: seq<byte>, pasteMode: bool)
    requires Unfinished(st.pending)
    ensures var o := Run(st, size, stream, pasteMode);
      && Unfinished(o.paste.pending)
      && (|st.text| < size ==> |o.paste.text| < size)
      && (Clean(st.text) ==> Clean(o.paste.text))
      && exists added :: Scalars(added) && o.paste.text == st.text + EncodeAll(added)
           && IsSubsequence(added, Walk(st.pending + Normalise(stream, pasteMode)))
    decreases |stream|
  {
    hide Step, Walk, Clean, EncodeAll, Emitted, IsSubsequence;
    if stream == [] {
      EncodeNothing();
      NothingIsSubsequence(Walk(st.pending + Normalise(stream, pasteMode)));
      assert st.text == st.text + EncodeAll([]);
    } else {
      var b, rest := stream[0], stream[1..];
      var o := Step(st, size, b, pasteMode);
      var e, c := Emitted(st, size, b, pasteMode), NormaliseByte(b, pasteMode);
      StepAppends(st, size, b, pasteMode);
      if Clean(st.text) {
        StepKeepsClean(st, size, b, pasteMode);
      }
      StepKeepsUnfinished(st, size, b, pasteMode);
      AddsSubsequence(o.paste, size, rest, pasteMode);
      var tail := Normalise(rest, pasteMode);
      var r := Run(o.paste, size, rest, pasteMode);
      var more :| Scalars(more) && r.paste.text == o.paste.text + EncodeAll(more)
        && IsSubsequence(more, Walk(o.paste.pending + tail));
      var x := StepWalk(st, size, b, pasteMode, tail);
      assert Normalise(stream, pasteMode) == [c] + tail;
      Assoc(st.pending, [c], tail);
      AddsMore(st.text, o.paste.text, r.paste.text, e, more, x, Walk(o.paste.pending + tail));
    }
  }

  /** What one byte adds, before what the others add. */
  lemma AddsMore(text: seq<byte>, next: seq<byte>, last: seq<byte>, e: seq<int>, more: seq<int>, x: seq<int>,
                 w: seq<int>)
    requires Scalars(e) && Scalars(more) && |e| <= 1 && IsSubsequence(more, w)
    requires next == text + EncodeAll(e) && last == next + EncodeAll(more)
    ensures Scalars(e + more) && last == text + EncodeAll(e + more) && IsSubsequence(e + more, x + e + w)
  {
    hide EncodeAll, IsSubsequence;
    EmittedInFront(e, more, x, w);
    EncodeAllConcat(e, more);
    Assoc(text, EncodeAll(e), EncodeAll(more));
  }

  lemma NothingIsSubsequence(b: seq<int>)
    ensures IsSubsequence([], b)
  {
  }

  lemma EncodeNothing()
    ensures EncodeAll([]) == []
  {
  }

  lemma EmittedInFront(e: seq<int>, more: seq<int>, x: seq<int>, w: seq<int>)
    requires IsSubsequence(more, w) && |e| <= 1
    ensures IsSubsequence(e + more, x + e + w)
  {
    if e == [] {
      assert e + more == more;
    } else {
      assert (e + w)[1..] == w && (e + more)[1..] == more;
    }
    assert e == [] ==> e + w == w;
    SubsequenceBehind(e + more, x, e + w);
    Assoc(x, e, w);
  }

  /** When no call reports anything, no byte is lost. */
  lemma {:induction false} NothingLost(st: Paste, size: nat, stream: seq<byte>, pasteMode: bool)
    requires Run(st, size, stream, pasteMode).status == OK
    ensures var o := Run(st, size, stream, pasteMode);
      o.paste.text + o.paste.pending == st.text + st.pending + Normalise(stream, pasteMode)
    decreases |stream|
  {
    if stream != [] {
      var o := Step(st, size, stream[0], pasteMode);
      NothingLost(o.paste, size, stream[1..], pasteMode);
      var c := NormaliseByte(stream[0], pasteMode);
      assert o.paste.text + o.paste.pending == st.text + st.pending + [c];
      hide Step;
      assert Normalise(stream, pasteMode) == [c] + Normalise(stream[1..], pasteMode);
      Assoc(st.text + st.pending, [c], Normalise(stream[1..], pasteMode));
    }
  }

  // ----- What valid input becomes, byte by byte

  /** What a byte of valid input shows: itself; one space for each CR, LF and TAB of a
      paste; nothing for any other control byte. */
  function ShownByte(b: byte, pasteMode: bool): seq<byte> {
    if pasteMode && b in {0x09, 0x0A, 0x0D} then [0x20]
    else if b < 0x20 || b == 0x7F then []
    else [b]
  }

  function Shown(stream: seq<byte>, pasteMode: bool): seq<byte> {
    if stream == [] then [] else ShownByte(stream[0], pasteMode) + Shown(stream[1..], pasteMode)
  }

  /** Whether a control byte is dropped. */
  predicate Drops(stream: seq<byte>, pasteMode: bool) {
    exists i :: 0 <= i < |stream| && ShownByte(stream[i], pasteMode) == []
  }

  lemma ShownStep(st: Paste, size: nat, b: byte, pasteMode: bool, rest: seq<byte>)
    requires Unfinished(st.pending) && b != 0 && Valid(st.pending + [b] + rest)
    requires |st.text| + |st.pending| + 1 < size
    ensures var o := Step(st, size, b, pasteMode);
      && Unfinished(o.paste.pending) && Valid(o.paste.pending + rest)
      && o.paste.text + o.paste.pending == st.text + st.pending + ShownByte(b, pasteMode)
      && o.status == (if ShownByte(b, pasteMode) == [] then IGNORED else OK)
  {
    StepKeepsUnfinished(st, size, b, pasteMode);
    StepFlag(st, size, b, pasteMode, rest);
    hide Valid, Assemble, InRangeForLength, AllContinuation;
    assert st.text + [] + [] == st.text && st.text + [] == st.text;
  }

  /** Valid input that fits: the text grows by exactly what the bytes show, nothing is
      pending at the end, and all that is ever reported is that control bytes were dropped. */
  lemma {:induction false} ValidStreamShows(st: Paste, size: nat, stream: seq<byte>, pasteMode: bool)
    requires Unfinished(st.pending) && Valid(st.pending + stream) && |st.text| + |st.pending| + |stream| < size
    ensures Run(st, size, stream, pasteMode)
      == Outcome(Paste(st.text + st.pending + Shown(stream, pasteMode), []),
                 if Drops(stream, pasteMode) then IGNORED else OK)
    decreases |stream|
  {
    hide Valid, Step, ShownByte;
    if stream == [] {
      if st.pending != [] {
        BrokenCharacter(st.pending, []);
      }
      assert st.text + [] + [] == st.text;
    } else {
      var b, rest := stream[0], stream[1..];
      assert st.pending + stream == st.pending + [b] + rest;
      ValidHasNoNul(st.pending + stream);
      assert b == (st.pending + stream)[|st.pending|];
      ShownStep(st, size, b, pasteMode, rest);
      var o := Step(st, size, b, pasteMode);
      assert |ShownByte(b, pasteMode)| <= 1 by { ShownIsOne(b, pasteMode); }
      ValidStreamShows(o.paste, size, rest, pasteMode);
      Assoc(st.text + st.pending, ShownByte(b, pasteMode), Shown(rest, pasteMode));
      DropsNext(stream, pasteMode);
    }
  }

  lemma ShownIsOne(b: byte, pasteMode: bool)
    ensures |ShownByte(b, pasteMode)| <= 1
  {
  }

  lemma DropsNext(stream: seq<byte>, pasteMode: bool)
    requires stream != []
    ensures Drops(stream, pasteMode) <==> ShownByte(stream[0], pasteMode) == [] || Drops(stream[1..], pasteMode)
  {
    hide ShownByte;
    var rest := stream[1..];
    assert forall i :: 0 <= i < |rest| ==> rest[i] == stream[i + 1];
    if i :| 0 <= i < |stream| && ShownByte(stream[i], pasteMode) == [] {
      assert i > 0 ==> ShownByte(rest[i - 1], pasteMode) == [];
    }
    if i :| 0 <= i < |rest| && ShownByte(rest[i], pasteMode) == [] {
      assert ShownByte(stream[i + 1], pasteMode) == [];
    }
  }

  /** Behind an unfinished character, a byte that does not continue it is taken as if
      nothing had gone before, but for the report. */
  lemma StartsAfresh(st: Paste, size: nat, b: byte, pasteMode: bool)
    requires st.pending != [] && !IsContinuation(b)
    ensures var o, p := Step(st, size, b, pasteMode), Step(Paste(st.text, []), size, b, pasteMode);
      o.paste == p.paste && o.status == INVALID_UTF8.Or(p.status)
  {
  }

  /** Whatever was broken off before it, valid input that fits is shown in full, and the
      break is reported. */
  lemma RecoversAfterBreak(st: Paste, size: nat, stream: seq<byte>, pasteMode: bool)
    requires Unfinished(st.pending) && stream != [] && Valid(stream) && |st.text| + |stream| < size
    ensures Run(st, size, stream, pasteMode)
      == Outcome(Paste(st.text + Shown(stream, pasteMode), []),
                 Status(Drops(stream, pasteMode), false, st.pending != []))
  {
    hide Step, Drops, Shown;
    assert [] + stream == stream && st.text + [] == st.text;
    ValidStreamShows(Paste(st.text, []), size, stream, pasteMode);
    if st.pending != [] {
      FirstIsNoContinuation(stream);
      StartsAfresh(st, size, stream[0], pasteMode);
    } else {
      assert st == Paste(st.text, []);
    }
  }

  lemma FirstIsNoContinuation(s: seq<byte>)
    requires Valid(s) && s != []
    ensures !IsContinuation(s[0])
  {
    assert ByteLength(s[0]) == 1 ==> s[..1] == [s[0]];
    SingleByte(s[0]);
  }

  ghost predicate NoControls(stream: seq<byte>) {
    forall i :: 0 <= i < |stream| ==> stream[i] >= 0x20 && stream[i] != 0x7F
  }

  lemma {:induction false} PlainShowsItself(stream: seq<byte>, pasteMode: bool)
    requires NoControls(stream)
    ensures Shown(stream, pasteMode) == stream && !Drops(stream, pasteMode)
  {
    if stream != [] {
      PlainShowsItself(stream[1..], pasteMode);
      DropsNext(stream, pasteMode);
    }
  }

  /** Valid input without control bytes is appended byte for byte, in both modes, and
      every call returns OK, if and only if it fits. */
  lemma PlainStreamFitsIff(text: seq<byte>, size: nat, stream: seq<byte>, pasteMode: bool)
    requires Valid(stream) && NoControls(stream) && |text| < size
    ensures var o := Run(Paste(text, []), size, stream, pasteMode);
      && (o.status == OK <==> |text| + |stream| < size)
      && (|text| + |stream| < size ==> o.paste == Paste(text + stream, []))
  {
    hide Valid, Run, Shown;
    assert [] + stream == stream && text + [] == text;
    var o := Run(Paste(text, []), size, stream, pasteMode);
    if |text| + |stream| < size {
      ValidStreamShows(Paste(text, []), size, stream, pasteMode);
      PlainShowsItself(stream, pasteMode);
    } else if o.status == OK {
      NothingLost(Paste(text, []), size, stream, pasteMode);
      AddsSubsequence(Paste(text, []), size, stream, pasteMode);
      ValidHasNoNul(stream);
      FlagIffInvalid(Paste(text, []), size, stream, pasteMode);
    }
  }

  /** Of any input, in any state: in a paste each CR, LF and TAB does what a space does,
      and every other byte what it does outside a paste ... */
  lemma PastedByte(st: Paste, size: nat, b: byte)
    ensures Step(st, size, b, true) == Step(st, size, if b in {0x09, 0x0A, 0x0D} then 0x20 else b, false)
    ensures st.pending == [] && |st.text| + 1 < size ==>
      Step(st, size, 0x20, false) == Outcome(Paste(st.text + [0x20], []), OK)
  {
  }

  /** ... where a control byte adds nothing, is reported, and breaks off a character that
      is not finished, which is reported too. */
  lemma ControlByte(st: Paste, size: nat, b: byte)
    requires b < 0x20 || b == 0x7F
    ensures var o := Step(st, size, b, false);
      o.paste == Paste(st.text, []) && o.status == Status(true, false, st.pending != [])
  {
  }

  // ----- The buffer and its automaton, changed in place

  class Input {
    /** The NUL-terminated input line. */
    const input: array<byte>
    /** `tnt_input_utf8_state_t` */
    const bytes: array<byte>
    var len: nat
    var expectedLen: nat

    ghost predicate Valid()
      reads this, input, bytes
    {
      && input != bytes && bytes.Length == 4 && len < 4
      && (input.Length > 0 ==> 0 in input[..])
      && Unfinished(bytes[..len])
      && (len > 0 ==> expectedLen == ByteLength(bytes[0]))
    }

    ghost function Value(): Paste
      requires Valid()
      reads this, input, bytes
    {
      Paste(Text(input[..]), bytes[..len])
    }

    constructor (size: nat)
      ensures Valid() && Value() == Paste([], []) && input.Length == size
      ensures fresh(input) && fresh(bytes)
    {
      input := new byte[size](_ => 0);
      bytes := new byte[4](_ => 0);
      len, expectedLen := 0, 0;
      new;
      assert input.Length > 0 ==> input[..][0] == 0;
    }

    /** `tnt_input_utf8_state_reset` */
    method Reset()
      requires Valid()
      modifies this, bytes
      ensures Valid() && Value() == old(Value()).(pending := [])
    {
      len, expectedLen := 0, 0;
      bytes[0], bytes[1], bytes[2], bytes[3] := 0, 0, 0, 0;
    }

    /** `append_bytes` */
    method AppendBytes(data: seq<byte>) returns (status: Status)
      requires Valid() && NoNul(data)
      modifies input
      ensures Valid() && bytes[..] == old(bytes[..])
      ensures (Text(input[..]), status) == Append(old(Text(input[..])), input.Length, data)
    {
      if input.Length == 0 || |data| == 0 {
        return IGNORED;
      }
      var cur := StrLen(input);
      if cur + |data| >= input.Length {
        return OVERFLOW;
      }
      ghost var was := input[..cur];
      for i := 0 to |data|
        invariant input[..cur + i] == was + data[..i]
        invariant bytes[..] == old(bytes[..])
      {
        input[cur + i] := data[i];
      }
      input[cur + |data|] := 0;
      assert input[..][..cur + |data|] == was + data;
      TextUpTo(input[..], cur + |data|);
      assert input[..][cur + |data|] == 0;
      return OK;
    }

    /** `tnt_input_append_ascii` */
    method AppendAscii(b: byte) returns (status: Status)
      requires Valid()
      modifies input
      ensures Valid() && bytes[..] == old(bytes[..])
      ensures (Text(input[..]), status) == AppendAsciiSpec(old(Text(input[..])), input.Length, b)
    {
      if b < 32 || b >= 127 {
        return IGNORED;
      }
      status := AppendBytes([b]);
    }

    /** `tnt_input_append_utf8_sequence` */
    method AppendSequence(data: seq<byte>) returns (status: Status)
      requires Valid()
      modifies input
      ensures Valid() && bytes[..] == old(bytes[..])
      ensures (Text(input[..]), status) == AppendSequenceSpec(old(Text(input[..])), input.Length, data)
    {
      if !ValidSequence(data) {
        return INVALID_UTF8;
      }
      SequenceHasNoNul(data);
      status := AppendBytes(data);
    }

    /** `start_utf8_sequence`, and the ASCII branch when nothing is pending */
    method StartByte(b: byte) returns (status: Status)
      requires Valid() && len == 0
      modifies this, input, bytes
      ensures Valid()
      ensures Outcome(Value(), status) == Start(old(Text(input[..])), input.Length, b)
    {
      if b < 128 {
        status := AppendAscii(b);
        return;
      }
      var expected := ByteLength(b);
      if expected <= 1 || expected > 4 {
        Reset();
        return INVALID_UTF8;
      }
      bytes[0] := b;
      len := 1;
      expectedLen := expected;
      assert bytes[..1] == [b];
      return OK;
    }

    /** `append_printable_byte` */
    method AppendPrintable(b: byte) returns (status: Status)
      requires Valid()
      modifies this, input, bytes
      ensures Valid()
      ensures Outcome(Value(), status) == Printable(old(Value()), input.Length, b)
    {
      if len == 0 {
        status := StartByte(b);
        return;
      }
      if !IsContinuation(b) {
        Reset();
        status := StartByte(b);
        status := INVALID_UTF8.Or(status);
        return;
      }
      ghost var q := bytes[..len] + [b];
      assert q[0] == bytes[0] && q[1..] == bytes[..len][1..] + [b];
      bytes[len] := b;
      len := len + 1;
      assert bytes[..len] == q;
      if len == expectedLen {
        var data := bytes[..len];
        len := len - 1;
        assert bytes[..len] == q[..len];
        assert q[..len][1..] == q[1..len];
        status := AppendSequence(data);
        Reset();
      } else {
        status := OK;
      }
    }

    /** `tnt_input_append_stream_byte` */
    method AppendStreamByte(b: byte, pasteMode: bool) returns (status: Status)
      requires Valid()
      modifies this, input, bytes
      ensures Valid()
      ensures Outcome(Value(), status) == Step(old(Value()), input.Length, b, pasteMode)
    {
      var c := NormaliseByte(b, pasteMode);
      if c < 32 {
        status := IGNORED;
        if len > 0 {
          Reset();
          status := INVALID_UTF8.Or(status);
        }
        return;
      }
      status := AppendPrintable(c);
    }

    /** `tnt_input_utf8_state_finish` */
    method Finish() returns (status: Status)
      requires Valid()
      modifies this, bytes
      ensures Valid() && Value() == old(Value()).(pending := [])
      ensures status == FinishStatus(old(Value()))
    {
      if len == 0 {
        return OK;
      }
      Reset();
      return INVALID_UTF8;
    }
  }
}
