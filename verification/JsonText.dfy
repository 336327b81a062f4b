/**
  The JSON printer, parser, skipper and field lookup of src/json_text.c, as
  functions over the text that is still unread and as the loops that compute
  them.
 */
module JsonText {
  import opened Bytes
  import opened Common
  import opened Utf8

  const QUOTE: byte := 0x22
  const BACKSLASH: byte := 0x5C
  const COLON: byte := 0x3A
  const COMMA: byte := 0x2C
  const OPEN_BRACE: byte := 0x7B
  const CLOSE_BRACE: byte := 0x7D
  const OPEN_BRACKET: byte := 0x5B
  const CLOSE_BRACKET: byte := 0x5D
  const LETTER_U: byte := 0x75

  // ----- Printing

  function HexDigit(v: int): byte
    requires 0 <= v < 16
  {
    if v < 10 then 0x30 + v else 0x61 + v - 10
  }

  function EscapeByte(b: byte): seq<byte> {
    if b == BACKSLASH then [BACKSLASH, BACKSLASH]
    else if b == QUOTE then [BACKSLASH, QUOTE]
    else if b == 0x08 then [BACKSLASH, 0x62]
    else if b == 0x0C then [BACKSLASH, 0x66]
    else if b == 0x0A then [BACKSLASH, 0x6E]
    else if b == 0x0D then [BACKSLASH, 0x72]
    else if b == 0x09 then [BACKSLASH, 0x74]
    else if b < 0x20 then [BACKSLASH, LETTER_U, 0x30, 0x30, HexDigit(b / 16), HexDigit(b % 16)]
    else [b]
  }

  function EscapeAll(text: seq<byte>): seq<byte> {
    if text == [] then [] else EscapeByte(text[0]) + EscapeAll(text[1..])
  }

  /** A text as a JSON string. */
  function JsonString(text: seq<byte>): seq<byte> {
    [QUOTE] + EscapeAll(text) + [QUOTE]
  }

  /** `tnt_json_append_string` */
  method AppendString(buffer: array<byte>, pos: nat, text: seq<byte>) returns (end: nat)
    requires pos <= buffer.Length
    modifies buffer
    ensures end <= buffer.Length && buffer[..end] == Fill(old(buffer[..pos]), JsonString(text), buffer.Length)
    ensures old(pos < buffer.Length && buffer[pos] == 0) ==> end < buffer.Length && buffer[end] == 0
  {
    hide Fill, EscapeByte;
    var size := buffer.Length;
    ghost var before := buffer[..pos];
    ghost var goal := Fill(before, JsonString(text), size);
    end := AppendBytes(buffer, pos, [QUOTE]);
    FillTwice(before, [QUOTE], EscapeAll(text) + [QUOTE], size);
    Assoc([QUOTE], EscapeAll(text), [QUOTE]);
    var i := 0;
    assert text[0..] == text;
    while i < |text| && end < size - 1
      invariant 0 <= i <= |text| && end <= size
      invariant Fill(buffer[..end], EscapeAll(text[i..]) + [QUOTE], size) == goal
      invariant old(pos < size && buffer[pos] == 0) ==> end < size && buffer[end] == 0
    {
      ghost var now, tail := buffer[..end], EscapeAll(text[i + 1..]) + [QUOTE];
      end := AppendBytes(buffer, end, EscapeByte(text[i]));
      FillTwice(now, EscapeByte(text[i]), tail, size);
      DropDrop(text, i, 1);
      Assoc(EscapeByte(text[i]), EscapeAll(text[i + 1..]), [QUOTE]);
      i := i + 1;
    }
    if end >= size - 1 {
      FullStays(buffer[..end], EscapeAll(text[i..]) + [QUOTE], size);
      FullStays(buffer[..end], [QUOTE], size);
    } else {
      assert text[i..] == [] && EscapeAll([]) + [QUOTE] == [QUOTE];
    }
    end := AppendBytes(buffer, end, [QUOTE]);
  }

  // ----- Parsing strings

  function HexValue(c: byte): int {
    if 0x30 <= c <= 0x39 then c - 0x30
    else if 0x61 <= c <= 0x66 then c - 0x61 + 10
    else if 0x41 <= c <= 0x46 then c - 0x41 + 10
    else -1
  }

  predicate IsHex(c: byte) {
    HexValue(c) >= 0
  }

  function Hex4(a: byte, b: byte, c: byte, d: byte): (u: int)
    ensures IsHex(a) && IsHex(b) && IsHex(c) && IsHex(d) ==> 0 <= u <= 0xFFFF
  {
    ((HexValue(a) * 16 + HexValue(b)) * 16 + HexValue(c)) * 16 + HexValue(d)
  }

  /** Four hexadecimal digits from index `i` on. */
  predicate HasHex4(s: seq<byte>, i: nat): (r: bool)
    ensures r ==> i + 4 <= |s|
  {
    IsHex(At(s, i)) && IsHex(At(s, i + 1)) && IsHex(At(s, i + 2)) && IsHex(At(s, i + 3))
  }

  function Hex4At(s: seq<byte>, i: nat): (u: int)
    ensures HasHex4(s, i) ==> 0 <= u <= 0xFFFF
  {
    Hex4(At(s, i), At(s, i + 1), At(s, i + 2), At(s, i + 3))
  }

  predicate IsHighSurrogate(u: int) {
    0xD800 <= u <= 0xDBFF
  }

  predicate IsLowSurrogate(u: int) {
    0xDC00 <= u <= 0xDFFF
  }

  function Pair(high: int, low: int): (cp: int)
    ensures IsHighSurrogate(high) && IsLowSurrogate(low) ==> 0x10000 <= cp <= 0x10FFFF
  {
    0x10000 + (high - 0xD800) * 1024 + (low - 0xDC00)
  }

  /** The byte a two-character escape stands for, or 0. */
  function ShortEscape(code: byte): byte {
    if code == QUOTE || code == BACKSLASH || code == 0x2F then code
    else if code == 0x62 then 0x08
    else if code == 0x66 then 0x0C
    else if code == 0x6E then 0x0A
    else if code == 0x72 then 0x0D
    else if code == 0x74 then 0x09
    else 0
  }

  /** What stands at the front of a string body. */
  datatype Unit = Bad | End | Item(len: nat, bytes: seq<byte>)

  function NextUnit(s: seq<byte>): (u: Unit)
    ensures u.End? ==> s != [] && s[0] == QUOTE
    ensures u.Item? ==> 1 <= u.len <= |s| && u.bytes != []
  {
    if s == [] then Bad
    else if s[0] == QUOTE then End
    else if s[0] < 0x20 then Bad
    else if s[0] != BACKSLASH then Item(1, [s[0]])
    else if At(s, 1) != LETTER_U then
      if ShortEscape(At(s, 1)) != 0 then Item(2, [ShortEscape(At(s, 1))]) else Bad
    else UnicodeUnit(s)
  }

  /** A `\\u` escape, with the low surrogate that must follow a high one. */
  function UnicodeUnit(s: seq<byte>): (u: Unit)
    ensures !u.End?
    ensures u.Item? ==> 1 <= u.len <= |s| && u.bytes != []
  {
    if !HasHex4(s, 2) then Bad
    else
      var u := Hex4At(s, 2);
      if IsHighSurrogate(u) then
        if At(s, 6) == BACKSLASH && At(s, 7) == LETTER_U && HasHex4(s, 8) && IsLowSurrogate(Hex4At(s, 8))
        then Item(12, Encode(Pair(u, Hex4At(s, 8)))) else Bad
      else if IsLowSurrogate(u) || u == 0 then Bad
      else Item(6, Encode(u))
  }

  /** The unread text behind a string, and its content. */
  datatype Parsed = Parsed(rest: seq<byte>, out: seq<byte>)

  /** The loop of `parse_json_string`; `size` counts the terminating NUL of the output. */
  function ParseBody(s: seq<byte>, out: seq<byte>, size: nat): Option<Parsed>
    decreases |s|
  {
    match NextUnit(s)
    case Bad => None
    case End => Some(Parsed(s[1..], out))
    case Item(n, bytes) =>
      if |out| + |bytes| >= size then None else ParseBody(s[n..], out + bytes, size)
  }

  function ParseString(s: seq<byte>, size: nat): Option<Parsed> {
    if At(s, 0) != QUOTE || size == 0 then None else ParseBody(s[1..], [], size)
  }

  /** `append_byte` and `append_decoded_codepoint` */
  method AppendDecoded(out: array<byte>, pos: nat, bytes: seq<byte>, ghost text: seq<byte>) returns (ok: bool)
    requires Holds(out[..], text) && pos == |text| && bytes != [] && NoNul(text + bytes)
    modifies out
    ensures ok == (pos + |bytes| < out.Length)
    ensures Holds(out[..], if ok then text + bytes else text)
  {
    if pos + |bytes| >= out.Length {
      return false;
    }
    for i := 0 to |bytes|
      invariant out[..pos + i] == text + bytes[..i]
    {
      out[pos + i] := bytes[i];
    }
    out[pos + |bytes|] := 0;
    assert out[..][..pos + |bytes|] == text + bytes;
    return true;
  }

  lemma AtBehind(s: seq<byte>, p: nat, k: nat)
    requires p <= |s|
    ensures At(s[p..], k) == At(s, p + k)
  {
  }

  /** `parse_hex4` */
  method ParseHex4(s: seq<byte>, p: nat) returns (r: Option<int>)
    ensures r == if HasHex4(s, p) then Some(Hex4At(s, p)) else None
  {
    HexDigits(s, p);
    var cp := 0;
    for i := 0 to 4
      invariant AllHex(s, p, i) && cp == HexOf(s, p, i)
    {
      var v := HexValue(At(s, p + i));
      if v < 0 {
        assert !AllHex(s, p, i + 1);
        if AllHex(s, p, 4) {
          FewerDigits(s, p, i + 1, 4);
        }
        return None;
      }
      cp := cp * 16 + v;
    }
    return Some(cp);
  }

  predicate AllHex(s: seq<byte>, p: nat, n: nat) {
    n == 0 || (AllHex(s, p, n - 1) && IsHex(At(s, p + n - 1)))
  }

  function HexOf(s: seq<byte>, p: nat, n: nat): int {
    if n == 0 then 0 else HexOf(s, p, n - 1) * 16 + HexValue(At(s, p + n - 1))
  }

  lemma FewerDigits(s: seq<byte>, p: nat, k: nat, n: nat)
    requires k <= n && AllHex(s, p, n)
    ensures AllHex(s, p, k)
  {
  }

  lemma HexDigits(s: seq<byte>, p: nat)
    ensures AllHex(s, p, 4) == HasHex4(s, p) && HexOf(s, p, 4) == Hex4At(s, p)
  {
    hide IsHex, HexValue;
    assert HexOf(s, p, 1) == HexValue(At(s, p));
    assert HexOf(s, p, 2) == HexOf(s, p, 1) * 16 + HexValue(At(s, p + 1));
    assert HexOf(s, p, 3) == HexOf(s, p, 2) * 16 + HexValue(At(s, p + 2));
    assert AllHex(s, p, 1) == IsHex(At(s, p));
    assert AllHex(s, p, 2) == (AllHex(s, p, 1) && IsHex(At(s, p + 1)));
    assert AllHex(s, p, 3) == (AllHex(s, p, 2) && IsHex(At(s, p + 2)));
  }

  lemma HexBehind(s: seq<byte>, p: nat, k: nat)
    requires p <= |s|
    ensures HasHex4(s[p..], k) == HasHex4(s, p + k) && Hex4At(s[p..], k) == Hex4At(s, p + k)
  {
    AtBehind(s, p, k);
    AtBehind(s, p, k + 1);
    AtBehind(s, p, k + 2);
    AtBehind(s, p, k + 3);
  }

  /** The escape branch for `\\u`, at index `p` of its backslash. */
  method ReadUnicode(s: seq<byte>, p: nat) returns (u: Unit)
    requires p < |s| && NoNul(s)
    ensures u == UnicodeUnit(s[p..])
  {
    hide HasHex4, Hex4At;
    AtBehind(s, p, 6);
    AtBehind(s, p, 7);
    HexBehind(s, p, 2);
    HexBehind(s, p, 8);
    var first := ParseHex4(s, p + 2);
    if first.None? {
      return Bad;
    }
    var cp, len := first.value, 6;
    if 0xD800 <= cp <= 0xDBFF {
      if At(s, p + 6) != BACKSLASH || At(s, p + 7) != LETTER_U {
        return Bad;
      }
      var low := ParseHex4(s, p + 8);
      if low.None? || low.value < 0xDC00 || low.value > 0xDFFF {
        return Bad;
      }
      cp, len := 0x10000 + (cp - 0xD800) * 1024 + (low.value - 0xDC00), 12;
    } else if 0xDC00 <= cp <= 0xDFFF {
      return Bad;
    }
    if cp == 0 {
      return Bad;
    }
    return Item(len, Encode(cp));
  }

  /** What one turn of the parsing loop takes at index `p`. */
  method ReadUnit(s: seq<byte>, p: nat) returns (u: Unit)
    requires p <= |s| && NoNul(s)
    ensures u == NextUnit(s[p..])
  {
    hide UnicodeUnit;
    if p == |s| {
      return Bad;
    }
    AtBehind(s, p, 1);
    var c := s[p];
    if c == QUOTE {
      return End;
    }
    if c < 0x20 {
      return Bad;
    }
    if c != BACKSLASH {
      return Item(1, [c]);
    }
    var esc := At(s, p + 1);
    if esc == LETTER_U {
      u := ReadUnicode(s, p);
      return;
    }
    var b := if esc == QUOTE || esc == BACKSLASH || esc == 0x2F then esc else 0;
    if esc == 0x62 {
      b := 0x08;
    } else if esc == 0x66 {
      b := 0x0C;
    } else if esc == 0x6E {
      b := 0x0A;
    } else if esc == 0x72 {
      b := 0x0D;
    } else if esc == 0x74 {
      b := 0x09;
    }
    u := if b != 0 then Item(2, [b]) else Bad;
  }

  /** `parse_json_string` at index `cursor` */
  method ParseJsonString(s: seq<byte>, cursor: nat, out: array<byte>) returns (ok: bool, next: nat)
    requires cursor <= |s| && NoNul(s)
    modifies out
    ensures ok <==> ParseString(s[cursor..], out.Length).Some?
    ensures ok ==> cursor < next <= |s| && 0 in out[..]
    ensures ok ==> ParseString(s[cursor..], out.Length) == Some(Parsed(s[next..], Text(out[..])))
  {
    if cursor == |s| || s[cursor] != QUOTE || out.Length == 0 {
      return false, cursor;
    }
    out[0] := 0;
    DropDrop(s, cursor, 1);
    ok, next := ParseUnits(s, cursor + 1, out);
  }

  /** The loop of `parse_json_string`. */
  method ParseUnits(s: seq<byte>, start: nat, out: array<byte>) returns (ok: bool, next: nat)
    requires start <= |s| && NoNul(s) && Holds(out[..], [])
    modifies out
    ensures ok <==> ParseBody(s[start..], [], out.Length).Some?
    ensures start <= next <= |s| && 0 in out[..]
    ensures ok ==> ParseBody(s[start..], [], out.Length) == Some(Parsed(s[next..], Text(out[..])))
  {
    hide *;
    var p, pos := start, 0;
    ghost var size, acc := out.Length, [];
    ghost var goal := ParseBody(s[start..], acc, size);
    var fits := true;
    var unit := ReadUnit(s, p);
    while unit.Item? && fits
      invariant start <= p <= |s| && unit == NextUnit(s[p..])
      invariant 0 <= pos == |acc| && Holds(out[..], acc)
      invariant if fits then ParseBody(s[p..], acc, size) == goal else goal == None
      decreases |s| - p, fits
    {
      ParseStepAt(s, p, acc, size, out[..]);
      fits := AppendDecoded(out, pos, unit.bytes, acc);
      if fits {
        acc := acc + unit.bytes;
        pos := pos + |unit.bytes|;
        p := p + unit.len;
        unit := ReadUnit(s, p);
      }
    }
    ParseEndAt(s, p, acc, size);
    TextIs(out[..], acc);
    ok := unit.End? && fits;
    next := if ok then p + 1 else p;
  }

  /** One turn of the loop, at index `p`. */
  lemma ParseStepAt(s: seq<byte>, p: nat, out: seq<byte>, size: nat, held: seq<byte>)
    requires p <= |s| && NextUnit(s[p..]).Item? && NoNul(s) && Holds(held, out)
    ensures var u := NextUnit(s[p..]);
      && p < p + u.len <= |s| && u.bytes != [] && NoNul(out + u.bytes)
      && ParseBody(s[p..], out, size) ==
         if |out| + |u.bytes| >= size then None else ParseBody(s[p + u.len..], out + u.bytes, size)
  {
    UnitHasNoNul(s[p..]);
    DropDrop(s, p, NextUnit(s[p..]).len);
  }

  lemma ParseEndAt(s: seq<byte>, p: nat, out: seq<byte>, size: nat)
    requires p <= |s|
    ensures NextUnit(s[p..]).Bad? ==> ParseBody(s[p..], out, size) == None
    ensures NextUnit(s[p..]).End? ==> p < |s| && ParseBody(s[p..], out, size) == Some(Parsed(s[p + 1..], out))
  {
    if p < |s| {
      DropDrop(s, p, 1);
    }
  }

  lemma UnitHasNoNul(s: seq<byte>)
    requires NoNul(s)
    ensures NextUnit(s).Item? ==> NoNul(NextUnit(s).bytes)
  {
    hide HasHex4, Hex4At, Encode;
    if NextUnit(s).Item? && NextUnit(s).len > 2 {
      EncodedHasNoNul(if NextUnit(s).len == 12 then Pair(Hex4At(s, 2), Hex4At(s, 8)) else Hex4At(s, 2));
    }
  }

  lemma EncodedHasNoNul(cp: int)
    requires Scalar(cp)
    ensures NoNul(Encode(cp))
  {
  }

  // ----- Skipping values

  /** `isspace` in the C locale */
  predicate IsSpace(c: byte) {
    c == 0x20 || 0x09 <= c <= 0x0D
  }

  function SkipWs(s: seq<byte>): (r: seq<byte>)
    ensures |r| <= |s| && !IsSpace(At(r, 0))
  {
    if IsSpace(At(s, 0)) then SkipWs(s[1..]) else s
  }

  /** `skip_ws` from index `p` */
  method SkipWhitespace(s: seq<byte>, p: nat) returns (q: nat)
    requires p <= |s|
    ensures p <= q <= |s| && s[q..] == SkipWs(s[p..])
  {
    q := p;
    while q < |s| && IsSpace(s[q])
      invariant p <= q <= |s| && SkipWs(s[q..]) == SkipWs(s[p..])
    {
      DropDrop(s, q, 1);
      q := q + 1;
    }
  }

  /** How many bytes one turn of the skipping loop passes; none when it fails. */
  function SkipLength(s: seq<byte>): (n: nat)
    ensures n <= |s|
  {
    if s == [] then 0
    else if s[0] == QUOTE then 1
    else if s[0] < 0x20 then 0
    else if s[0] != BACKSLASH then 1
    else if At(s, 1) == LETTER_U then (if HasHex4(s, 2) then 6 else 0)
    else if |s| >= 2 then 2
    else 0
  }

  /** The unread text behind a string body, found without decoding it. */
  function SkipBody(s: seq<byte>): (r: Option<seq<byte>>)
    ensures r.Some? ==> |r.value| < |s|
  {
    var n := SkipLength(s);
    if n == 0 then None
    else if s[0] == QUOTE then Some(s[1..])
    else SkipBody(s[n..])
  }

  function SkipString(s: seq<byte>): (r: Option<seq<byte>>)
    ensures r.Some? ==> |r.value| < |s|
  {
    if At(s, 0) != QUOTE then None else SkipBody(s[1..])
  }

  /** What one turn of the skipping loop passes at index `q`. */
  method PassUnit(s: seq<byte>, q: nat) returns (n: nat)
    requires q <= |s| && NoNul(s)
    ensures n == SkipLength(s[q..])
  {
    if q == |s| || (s[q] < 0x20 && s[q] != QUOTE) {
      return 0;
    }
    if s[q] != BACKSLASH {
      return 1;
    }
    AtBehind(s, q, 1);
    HexBehind(s, q, 2);
    if At(s, q + 1) == LETTER_U {
      var ignored := ParseHex4(s, q + 2);
      return if ignored.Some? then 6 else 0;
    }
    return if At(s, q + 1) != 0 then 2 else 0;
  }

  /** `skip_json_string` at index `p` */
  method SkipJsonString(s: seq<byte>, p: nat) returns (ok: bool, next: nat)
    requires p <= |s| && NoNul(s)
    ensures ok <==> SkipString(s[p..]).Some?
    ensures ok ==> p < next <= |s| && SkipString(s[p..]) == Some(s[next..])
  {
    if p == |s| || s[p] != QUOTE {
      return false, p;
    }
    var q := p + 1;
    ghost var goal := SkipString(s[p..]);
    DropDrop(s, p, 1);
    assert goal == SkipBody(s[q..]);
    ok, next := SkipUnits(s, q);
  }

  /** The loop of `skip_json_string`. */
  method SkipUnits(s: seq<byte>, start: nat) returns (ok: bool, next: nat)
    requires start <= |s| && NoNul(s)
    ensures ok <==> SkipBody(s[start..]).Some?
    ensures ok ==> start < next <= |s| && SkipBody(s[start..]) == Some(s[next..])
  {
    hide *;
    var q := start;
    ghost var goal := SkipBody(s[start..]);
    var n := PassUnit(s, q);
    while q < |s| && s[q] != QUOTE && n > 0
      invariant start <= q <= |s| && SkipBody(s[q..]) == goal && n == SkipLength(s[q..])
      decreases |s| - q
    {
      SkipStepAt(s, q, n);
      q := q + n;
      n := PassUnit(s, q);
    }
    SkipEndAt(s, q);
    ok := q < |s| && s[q] == QUOTE;
    next := if ok then q + 1 else q;
  }

  lemma SkipStepAt(s: seq<byte>, q: nat, n: nat)
    requires q < |s| && s[q] != QUOTE && n == SkipLength(s[q..]) && n > 0
    ensures q + n <= |s| && SkipBody(s[q + n..]) == SkipBody(s[q..])
  {
    DropDrop(s, q, n);
  }

  lemma SkipEndAt(s: seq<byte>, q: nat)
    requires q <= |s|
    ensures q < |s| && s[q] == QUOTE ==> SkipBody(s[q..]) == Some(s[q + 1..])
    ensures q == |s| || (s[q] != QUOTE && SkipLength(s[q..]) == 0) ==> SkipBody(s[q..]) == None
  {
    if q < |s| {
      DropDrop(s, q, 1);
    }
  }

  predicate IsOpen(c: byte) {
    c == OPEN_BRACE || c == OPEN_BRACKET
  }

  predicate IsClose(c: byte) {
    c == CLOSE_BRACE || c == CLOSE_BRACKET
  }

  /** The depth-counting loop: one iteration skips a string, if one starts
      here, and then exactly one byte. */
  function Scan(s: seq<byte>, depth: int): (r: Option<seq<byte>>)
    ensures r.Some? ==> |r.value| < |s|
    decreases |s|
  {
    var t := if At(s, 0) == QUOTE then SkipString(s) else Some(s);
    if t.None? || t.value == [] then None
    else
      var c := t.value[0];
      var d := if IsOpen(c) then depth + 1 else if IsClose(c) then depth - 1 else depth;
      if d > 0 then Scan(t.value[1..], d) else Some(t.value[1..])
  }

  predicate IsDelimiter(c: byte) {
    c == COMMA || IsClose(c)
  }

  /** Numbers and literals run up to the next delimiter. */
  function SkipAtom(s: seq<byte>): (r: seq<byte>)
    ensures |r| <= |s|
  {
    if s == [] || IsDelimiter(s[0]) then s else SkipAtom(s[1..])
  }

  function SkipValue(s: seq<byte>): Option<seq<byte>> {
    var t := SkipWs(s);
    if At(t, 0) == QUOTE then SkipString(t)
    else if IsOpen(At(t, 0)) then Scan(t, 0)
    else Some(SkipAtom(t))
  }

  /** One turn of the depth-counting loop. */
  lemma ScanStep(s: seq<byte>, depth: int)
    ensures s == [] ==> Scan(s, depth) == None
    ensures At(s, 0) == QUOTE && (SkipString(s).None? || SkipString(s).value == []) ==> Scan(s, depth) == None
    ensures s != [] && (s[0] != QUOTE || (SkipString(s).Some? && SkipString(s).value != [])) ==>
      Scan(s, depth) == ScanOne(if s[0] == QUOTE then SkipString(s).value else s, depth)
  {
  }

  /** The rest of a turn, at the byte behind any skipped string. */
  function ScanOne(t: seq<byte>, depth: int): Option<seq<byte>>
    requires t != []
  {
    var d := if IsOpen(t[0]) then depth + 1 else if IsClose(t[0]) then depth - 1 else depth;
    if d > 0 then Scan(t[1..], d) else Some(t[1..])
  }

  /** The depth-counting loop of `skip_json_value` */
  method SkipContainer(s: seq<byte>, p: nat) returns (ok: bool, next: nat)
    requires p <= |s| && NoNul(s)
    ensures ok <==> Scan(s[p..], 0).Some?
    ensures ok ==> p <= next <= |s| && Scan(s[p..], 0) == Some(s[next..])
  {
    hide SkipString, Scan;
    var q, depth := p, 0;
    while true
      invariant p <= q <= |s|
      invariant Scan(s[q..], depth) == Scan(s[p..], 0)
      decreases |s| - q
    {
      ScanStep(s[q..], depth);
      if At(s, q) == QUOTE {
        var skipped, after := SkipJsonString(s, q);
        if !skipped {
          return false, p;
        }
        q := after;
      }
      if q == |s| {
        return false, p;
      }
      DropDrop(s, q, 1);
      if IsOpen(s[q]) {
        depth := depth + 1;
      } else if IsClose(s[q]) {
        depth := depth - 1;
      }
      q := q + 1;
      if depth <= 0 {
        return true, q;
      }
    }
  }

  /** `skip_json_value` at index `p` */
  method SkipJsonValue(s: seq<byte>, p: nat) returns (ok: bool, next: nat)
    requires p <= |s| && NoNul(s)
    ensures ok <==> SkipValue(s[p..]).Some?
    ensures ok ==> p <= next <= |s| && SkipValue(s[p..]) == Some(s[next..])
  {
    hide SkipWs, SkipString, Scan;
    var q := SkipWhitespace(s, p);
    if At(s, q) == QUOTE {
      ok, next := SkipJsonString(s, q);
      return;
    }
    if IsOpen(At(s, q)) {
      ok, next := SkipContainer(s, q);
      return;
    }
    ghost var start := q;
    while q < |s| && !IsDelimiter(s[q])
      invariant start <= q <= |s| && SkipAtom(s[q..]) == SkipAtom(s[start..])
    {
      DropDrop(s, q, 1);
      q := q + 1;
    }
    return true, q;
  }

  // ----- Looking a field up

  const KEY_SIZE := 128

  /** A key, its colon and the white space up to the value. */
  function ReadKey(s: seq<byte>): (r: Option<Parsed>)
    ensures r.Some? ==> |r.value.rest| < |s|
  {
    var k := ParseString(SkipWs(s), KEY_SIZE);
    if k.None? then None
    else
      ParseShortens(SkipWs(s), KEY_SIZE);
      var c := SkipWs(k.value.rest);
      if At(c, 0) != COLON then None else Some(Parsed(SkipWs(c[1..]), k.value.out))
  }

  /** The loop of `tnt_json_get_string_field`, behind the opening brace. */
  function Fields(s: seq<byte>, key: seq<byte>, size: nat, found: Option<seq<byte>>): Option<seq<byte>>
    decreases |s|
  {
    var k := ReadKey(s);
    if k.None? then None
    else
      var after := FieldValue(k.value.rest, k.value.out == key, size);
      if after.None? then None
      else
        var now := if k.value.out == key then Some(after.value.out) else found;
        var t := SkipWs(after.value.rest);
        if At(t, 0) == COMMA then Fields(t[1..], key, size, now)
        else if At(t, 0) == CLOSE_BRACE then now
        else None
  }

  /** A wanted value is read, any other skipped. */
  function FieldValue(v: seq<byte>, wanted: bool, size: nat): (r: Option<Parsed>)
    ensures r.Some? ==> |r.value.rest| <= |v|
  {
    ParseShortens(v, size);
    SkipShortens(v);
    if wanted then ParseString(v, size)
    else
      var r := SkipValue(v);
      if r.None? then None else Some(Parsed(r.value, []))
  }

  lemma ParseBodyShortens(s: seq<byte>, out: seq<byte>, size: nat)
    ensures ParseBody(s, out, size).Some? ==> |ParseBody(s, out, size).value.rest| < |s|
    decreases |s|
  {
    match NextUnit(s)
    case Bad =>
    case End =>
    case Item(n, bytes) => ParseBodyShortens(s[n..], out + bytes, size);
  }

  lemma ParseShortens(s: seq<byte>, size: nat)
    ensures ParseString(s, size).Some? ==> |ParseString(s, size).value.rest| < |s|
  {
    if s != [] {
      ParseBodyShortens(s[1..], [], size);
    }
  }

  lemma SkipShortens(s: seq<byte>)
    ensures SkipValue(s).Some? ==> |SkipValue(s).value| <= |s|
  {
  }

  function GetField(json: seq<byte>, key: seq<byte>, size: nat): Option<seq<byte>> {
    var t := SkipWs(json);
    if key == [] || size == 0 || At(t, 0) != OPEN_BRACE then None else Fields(t[1..], key, size, None)
  }

  lemma {:induction false} ParsedFits(s: seq<byte>, out: seq<byte>, size: nat)
    requires |out| < size
    ensures ParseBody(s, out, size).Some? ==> |ParseBody(s, out, size).value.out| < size
    decreases |s|
  {
    hide NextUnit;
    var u := NextUnit(s);
    if u.Item? && |out| + |u.bytes| < size {
      ParsedFits(s[u.len..], out + u.bytes, size);
    }
  }

  lemma {:induction false} FieldFits(s: seq<byte>, key: seq<byte>, size: nat, found: Option<seq<byte>>)
    requires found.Some? ==> |found.value| < size
    ensures Fields(s, key, size, found).Some? ==> |Fields(s, key, size, found).value| < size
    decreases |s|
  {
    var k := ReadKey(s);
    hide ReadKey, ParseBody, SkipValue;
    if k.Some? {
      var v := k.value.rest;
      var after := FieldValue(v, k.value.out == key, size);
      if after.Some? {
        if k.value.out == key && size > 0 && v != [] {
          ParsedFits(v[1..], [], size);
        }
        var t := SkipWs(after.value.rest);
        if At(t, 0) == COMMA {
          FieldFits(t[1..], key, size, if k.value.out == key then Some(after.value.out) else found);
        }
      }
    }
  }

  /** A field that is found fits its buffer. */
  lemma FoundFits(json: seq<byte>, key: seq<byte>, size: nat)
    ensures GetField(json, key, size).Some? ==> |GetField(json, key, size).value| < size
  {
    hide Fields;
    FieldFits(if SkipWs(json) == [] then [] else SkipWs(json)[1..], key, size, None);
  }

  /** The part of the loop that reads one key. */
  method ReadFieldKey(json: seq<byte>, p: nat) returns (ok: bool, q: nat, name: seq<byte>)
    requires p <= |json| && NoNul(json)
    ensures ok <==> ReadKey(json[p..]).Some?
    ensures ok ==> p < q <= |json| && ReadKey(json[p..]) == Some(Parsed(json[q..], name))
  {
    hide SkipWs, ParseString;
    name := [];
    var parsedKey := new byte[KEY_SIZE];
    q := SkipWhitespace(json, p);
    ok, q := ParseJsonString(json, q, parsedKey);
    if !ok {
      return;
    }
    var n := StrLen(parsedKey);
    name := parsedKey[..n];
    q := SkipWhitespace(json, q);
    if At(json, q) != COLON {
      ok := false;
      return;
    }
    DropDrop(json, q, 1);
    q := SkipWhitespace(json, q + 1);
  }

  /** `tnt_json_get_string_field` */
  method GetStringField(json: seq<byte>, key: seq<byte>, out: array<byte>) returns (ok: bool)
    requires NoNul(json) && NoNul(key)
    modifies out
    ensures ok <==> GetField(json, key, out.Length).Some?
    ensures ok ==> GetField(json, key, out.Length) == Some(Text(out[..])) && 0 in out[..]
  {
    hide SkipWs, ParseString, SkipValue, ReadKey;
    if key == [] || out.Length == 0 {
      return false;
    }
    out[0] := 0;
    var p := SkipWhitespace(json, 0);
    assert json[0..] == json;
    if At(json, p) != OPEN_BRACE {
      return false;
    }
    DropDrop(json, p, 1);
    p := p + 1;
    var found := false;
    ghost var goal := GetField(json, key, out.Length);
    ghost var last: Option<seq<byte>> := None;
    assert goal == Fields(json[p..], key, out.Length, None);
    while true
      invariant p <= |json|
      invariant last == (if found then Some(Text(out[..])) else None) && (found ==> 0 in out[..])
      invariant Fields(json[p..], key, out.Length, last) == goal
      decreases |json| - p
    {
      var okKey, q, name := ReadFieldKey(json, p);
      if !okKey {
        return false;
      }
      var okValue;
      if name == key {
        okValue, q := ParseJsonString(json, q, out);
        if !okValue {
          return false;
        }
        found := true;
        last := Some(Text(out[..]));
      } else {
        okValue, q := SkipJsonValue(json, q);
        if !okValue {
          return false;
        }
      }
      q := SkipWhitespace(json, q);
      if At(json, q) == COMMA {
        DropDrop(json, q, 1);
        p := q + 1;
      } else {
        return At(json, q) == CLOSE_BRACE && found;
      }
    }
  }
}
