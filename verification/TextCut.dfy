/**
  Cutting text to a display width: the truncating functions of src/utf8.c and
  the command-line tail of src/tui_status.c.
 */
module TextCut {
  import opened Bytes
  import opened Utf8

  // ----- Widths

  /** `utf8_char_width` */
  function CharWidth(cp: int): (w: int)
    ensures 1 <= w <= 2
  {
    if cp < 0x80 then 1
    else if 0x4E00 <= cp <= 0x9FFF || 0x3400 <= cp <= 0x4DBF || 0x20000 <= cp <= 0x2A6DF
         || 0x2A700 <= cp <= 0x2B73F || 0x2B740 <= cp <= 0x2B81F || 0x2B820 <= cp <= 0x2CEAF
         || 0xF900 <= cp <= 0xFAFF || 0x2F800 <= cp <= 0x2FA1F then 2
    else if 0xAC00 <= cp <= 0xD7AF then 2
    else if 0x3040 <= cp <= 0x309F || 0x30A0 <= cp <= 0x30FF then 2
    else if 0xFF00 <= cp <= 0xFFEF then 2
    else 1
  }

  /** The wide characters: CJK ideographs and their extensions, the kana, the Hangul
      syllables, the compatibility ideographs and the full-width forms, as ranges. */
  const WIDE: seq<(int, int)> := [
    (0x3040, 0x30FF), (0x3400, 0x4DBF), (0x4E00, 0x9FFF), (0xAC00, 0xD7AF), (0xF900, 0xFAFF), (0xFF00, 0xFFEF),
    (0x20000, 0x2A6DF), (0x2A700, 0x2CEAF), (0x2F800, 0x2FA1F)]

  lemma WideIff(cp: int)
    ensures CharWidth(cp) == (if exists i :: 0 <= i < |WIDE| && WIDE[i].0 <= cp <= WIDE[i].1 then 2 else 1)
  {
    if CharWidth(cp) == 2 {
      var i := if cp < 0x3400 then 0 else if cp < 0x4E00 then 1 else if cp < 0xAC00 then 2 else if cp < 0xF900 then 3
        else if cp < 0xFF00 then 4 else if cp < 0x20000 then 5 else if cp < 0x2A700 then 6
        else if cp < 0x2F800 then 7 else 8;
      assert WIDE[i].0 <= cp <= WIDE[i].1;
    }
  }

  function Width(cps: seq<int>): nat {
    if cps == [] then 0 else CharWidth(cps[0]) + Width(cps[1..])
  }

  /** `utf8_string_width` */
  method StringWidth(s: seq<byte>) returns (width: nat)
    requires NoNul(s)
    ensures width == Width(Walk(s))
  {
    hide DecodeLength, DecodeValue, CharWidth;
    width := 0;
    var p := 0;
    while p < |s|
      invariant 0 <= p <= |s| && width + Width(Walk(s[p..])) == Width(Walk(s))
      decreases |s| - p
    {
      var cp, n := Decode(s, p);
      assert s[p..][n..] == s[p + n..];
      width := width + CharWidth(cp);
      p := p + n;
    }
  }

  // ----- utf8_truncate

  /** Whether a decoding walk over `s` stops between characters at `p`. */
  ghost predicate Aligned(s: seq<byte>, p: int)
    decreases |s|
  {
    p == 0 ||
    (s != [] && DecodeLength(s) <= p && Aligned(s[DecodeLength(s)..], p - DecodeLength(s)))
  }

  /** A lead byte without its continuation stays without it when a NUL is put behind it. */
  lemma CutKeepsHead(s: seq<byte>, p: nat)
    requires s != [] && DecodeLength(s) <= p <= |s|
    ensures DecodeLength(s[..p]) == DecodeLength(s) && DecodeValue(s[..p]) == DecodeValue(s)
  {
    var n := ByteLength(s[0]);
    if n <= p {
      assert s[..p][1..n] == s[1..n] && s[..p][..n] == s[..n];
    }
  }

  /** Cutting between characters changes the decoding of neither side. */
  lemma {:induction false} CutKeepsDecoding(s: seq<byte>, p: int)
    requires Aligned(s, p) && p <= |s|
    ensures Walk(s) == Walk(s[..p]) + Walk(s[p..])
    decreases |s|
  {
    hide DecodeLength, DecodeValue, CharWidth;
    if p == 0 {
      assert s[0..] == s;
    } else {
      var n := DecodeLength(s);
      CutKeepsHead(s, p);
      CutKeepsDecoding(s[n..], p - n);
      var a, b := s[n..][..p - n], s[p..];
      assert s[..p][n..] == a && b == s[n..][p - n..];
      Assoc([DecodeValue(s)], Walk(a), Walk(b));
    }
  }

  /** How many bytes `utf8_truncate` keeps. */
  function TruncateAt(s: seq<byte>, maxWidth: int): nat {
    if s == [] || CharWidth(DecodeValue(s)) > maxWidth then 0
    else DecodeLength(s) + TruncateAt(s[DecodeLength(s)..], maxWidth - CharWidth(DecodeValue(s)))
  }

  /** The kept prefix ends between characters and fits. */
  lemma {:induction false} TruncateFits(s: seq<byte>, maxWidth: nat)
    ensures var t := TruncateAt(s, maxWidth);
      Aligned(s, t) && t <= |s| && Width(Walk(s[..t])) <= maxWidth
    decreases |s|
  {
    hide DecodeLength, DecodeValue, CharWidth;
    var t := TruncateAt(s, maxWidth);
    if t != 0 {
      var n := DecodeLength(s);
      TruncateFits(s[n..], maxWidth - CharWidth(DecodeValue(s)));
      CutKeepsHead(s, t);
      assert s[..t][n..] == s[n..][..t - n];
    }
  }

  /** No longer prefix that ends between characters fits. */
  lemma {:induction false} TruncateIsLongest(s: seq<byte>, maxWidth: nat, p: int)
    requires Aligned(s, p) && p <= |s| && Width(Walk(s[..p])) <= maxWidth
    ensures p <= TruncateAt(s, maxWidth)
    decreases |s|
  {
    hide DecodeLength, DecodeValue, CharWidth;
    if p != 0 {
      var n := DecodeLength(s);
      CutKeepsHead(s, p);
      assert s[..p][n..] == s[n..][..p - n];
      TruncateIsLongest(s[n..], maxWidth - CharWidth(DecodeValue(s)), p - n);
    }
  }

  /** Truncating twice is truncating once. */
  lemma TruncateIdempotent(s: seq<byte>, maxWidth: nat)
    ensures var t := TruncateAt(s, maxWidth); t <= |s| && TruncateAt(s[..t], maxWidth) == t
  {
    var t := TruncateAt(s, maxWidth);
    TruncateFits(s, maxWidth);
    TruncateFits(s[..t], maxWidth);
    AlignedPrefix(s, t);
    assert s[..t][..t] == s[..t];
    TruncateIsLongest(s[..t], maxWidth, t);
  }

  lemma {:induction false} AlignedPrefix(s: seq<byte>, p: int)
    requires Aligned(s, p) && p <= |s|
    ensures Aligned(s[..p], p)
    decreases |s|
  {
    hide DecodeLength, DecodeValue, CharWidth;
    if p != 0 {
      var n := DecodeLength(s);
      CutKeepsHead(s, p);
      AlignedPrefix(s[n..], p - n);
      assert s[..p][n..] == s[n..][..p - n];
    }
  }

  /** `utf8_truncate`, in place */
  method Truncate(str: array<byte>, maxWidth: int)
    requires 0 in str[..]
    modifies str
    ensures var s := old(Text(str[..]));
      var t := TruncateAt(s, maxWidth);
      t <= |s| && t < str.Length && Text(str[..]) == s[..t] && str[..] == old(str[..])[t := 0]
  {
    hide DecodeLength, DecodeValue, CharWidth;
    var len := StrLen(str);
    var s := str[..len];
    var width, p := 0, 0;
    var lastValid := 0;
    while p < |s|
      invariant 0 <= p <= |s| && lastValid == p && str[..] == old(str[..])
      invariant p + TruncateAt(s[p..], maxWidth - width) == TruncateAt(s, maxWidth)
      decreases |s| - p
    {
      var cp, n := Decode(s, p);
      if width + CharWidth(cp) > maxWidth {
        break;
      }
      assert s[p..][n..] == s[p + n..];
      width := width + CharWidth(cp);
      p := p + n;
      lastValid := p;
    }
    str[lastValid] := 0;
    assert str[..] == old(str[..])[lastValid := 0];
    assert str[..][..lastValid] == old(str[..])[..len][..lastValid];
    TextUpTo(str[..], lastValid);
  }

  // ----- utf8_remove_last_char

  /** The bytes of one encoded character: a first byte and continuation bytes. */
  lemma EncodeShape(cp: int)
    requires Scalar(cp)
    ensures !IsContinuation(Encode(cp)[0]) && AllContinuation(Encode(cp)[1..])
  {
    EncodeThenAssemble(cp);
  }

  /** `utf8_remove_last_char`, in place: exactly the last encoded character goes. */
  method RemoveLastChar(str: array<byte>)
    requires 0 in str[..]
    modifies str
    ensures Text(str[..]) <= old(Text(str[..]))
    ensures forall cps, cp :: Scalars(cps) && Scalar(cp) && old(Text(str[..])) == EncodeAll(cps) + Encode(cp) ==>
      Text(str[..]) == EncodeAll(cps)
    ensures old(Text(str[..])) == [] ==> str[..] == old(str[..])
  {
    var len := StrLen(str);
    ghost var s := str[..len];
    if len == 0 {
      return;
    }
    var i := len - 1;
    while i > 0 && IsContinuation(str[i])
      invariant 0 <= i < len && AllContinuation(s[i + 1..])
    {
      assert s[i..] == [s[i]] + s[i + 1..];
      i := i - 1;
    }
    str[i] := 0;
    assert str[..][..i] == s[..i];
    TextUpTo(str[..], i);
    forall cps, cp | Scalars(cps) && Scalar(cp) && s == EncodeAll(cps) + Encode(cp)
      ensures Text(str[..]) == EncodeAll(cps)
    {
      LastCharStart(EncodeAll(cps), cp, i);
    }
  }

  lemma LastCharStart(a: seq<byte>, cp: int, i: nat)
    requires Scalar(cp) && i < |a + Encode(cp)|
    requires AllContinuation((a + Encode(cp))[i + 1..])
    requires i == 0 || !IsContinuation((a + Encode(cp))[i])
    ensures i == |a|
  {
    EncodeShape(cp);
    var s, e := a + Encode(cp), Encode(cp);
    assert s[|a|] == e[0];
  }

  // ----- ANSI-aware width and truncation

  const ESC: byte := 0x1B
  const BRACKET: byte := 0x5B
  const RESET: seq<byte> := [0x1B, 0x5B, 0x30, 0x6D]

  predicate IsFinal(b: byte) {
    0x40 <= b <= 0x7E
  }

  /** Index of the final byte of a control sequence, or `|s|`. */
  function FinalIndex(s: seq<byte>, from: nat): (i: nat)
    requires from <= |s|
    ensures from <= i <= |s|
    ensures forall k :: from <= k < i ==> !IsFinal(s[k])
    ensures i < |s| ==> IsFinal(s[i])
    decreases |s| - from
  {
    if from == |s| || IsFinal(s[from]) then from else FinalIndex(s, from + 1)
  }

  /** Whether the escape at the front is terminated (ECMA-48, section 5.4) or has its second byte. */
  predicate EscapeComplete(s: seq<byte>) {
    |s| >= 2 && (s[1] == BRACKET ==> FinalIndex(s, 2) < |s|)
  }

  function EscapeLength(s: seq<byte>): (n: nat)
    requires s != [] && s[0] == ESC
    ensures 1 <= n <= |s|
  {
    if !EscapeComplete(s) then 1
    else if s[1] == BRACKET then FinalIndex(s, 2) + 1
    else 2
  }

  /** `skip_ansi_sequence` at index `p` */
  method SkipEscape(s: seq<byte>, p: nat) returns (end: nat)
    requires p < |s| && s[p] == ESC && NoNul(s)
    ensures end == p + EscapeLength(s[p..]) <= |s|
  {
    ghost var t := s[p..];
    if At(s, p + 1) == BRACKET {
      var q := p + 2;
      while q < |s|
        invariant p + 2 <= q <= |s|
        invariant forall k :: 2 <= k < q - p ==> !IsFinal(t[k])
      {
        if IsFinal(s[q]) {
          assert IsFinal(t[q - p]);
          return q + 1;
        }
        q := q + 1;
      }
      return p + 1;
    }
    return if At(s, p + 1) != 0 then p + 2 else p + 1;
  }

  function TokenLength(s: seq<byte>): (n: nat)
    requires s != []
    ensures 1 <= n <= |s|
  {
    if s[0] == ESC then EscapeLength(s) else DecodeLength(s)
  }

  function TokenWidth(s: seq<byte>): nat
    requires s != []
  {
    if s[0] == ESC then 0 else CharWidth(DecodeValue(s))
  }

  function AnsiWidth(s: seq<byte>): nat {
    if s == [] then 0 else TokenWidth(s) + AnsiWidth(s[TokenLength(s)..])
  }

  /** `utf8_ansi_string_width` */
  method AnsiStringWidth(s: seq<byte>) returns (width: nat)
    requires NoNul(s)
    ensures width == AnsiWidth(s)
  {
    hide DecodeLength, DecodeValue, CharWidth, EscapeLength;
    width := 0;
    var p := 0;
    while p < |s|
      invariant 0 <= p <= |s| && width + AnsiWidth(s[p..]) == AnsiWidth(s)
      decreases |s| - p
    {
      if s[p] == ESC {
        var end := SkipEscape(s, p);
        assert s[p..][end - p..] == s[end..];
        p := end;
        continue;
      }
      var cp, n := Decode(s, p);
      assert s[p..][n..] == s[p + n..];
      width := width + CharWidth(cp);
      p := p + n;
    }
  }

  /** A control sequence of section 5.4 of ECMA-48, with its parameter, intermediate and
      final bytes, is one token without width, whatever follows. */
  lemma ControlSequence(params: seq<byte>, inter: seq<byte>, final: byte, rest: seq<byte>)
    requires forall i :: 0 <= i < |params| ==> 0x30 <= params[i] <= 0x3F
    requires forall i :: 0 <= i < |inter| ==> 0x20 <= inter[i] <= 0x2F
    requires 0x40 <= final <= 0x7E
    ensures var s := [ESC, BRACKET] + params + inter + [final] + rest;
      && TokenLength(s) == 3 + |params| + |inter| && TokenWidth(s) == 0
      && AnsiWidth(s) == AnsiWidth(rest)
  {
    var s := [ESC, BRACKET] + params + inter + [final] + rest;
    var f := 2 + |params| + |inter|;
    assert forall k :: 2 <= k < 2 + |params| ==> s[k] == params[k - 2];
    assert forall k :: 2 + |params| <= k < f ==> s[k] == inter[k - 2 - |params|];
    assert s[f] == final && IsFinal(s[f]);
    assert FinalIndex(s, 2) == f;
    assert s[f + 1..] == rest;
  }

  /** Any other byte behind an escape goes with it. */
  lemma EscapedByte(b: byte, rest: seq<byte>)
    requires b != BRACKET
    ensures AnsiWidth([ESC, b] + rest) == AnsiWidth(rest)
  {
    var s := [ESC, b] + rest;
    assert TokenLength(s) == 2 && s[2..] == rest;
  }

  /** Text without escapes has its plain width. */
  lemma {:induction false} PlainWidth(s: seq<byte>)
    requires ESC !in s
    ensures AnsiWidth(s) == Width(Walk(s))
    decreases |s|
  {
    hide DecodeLength, DecodeValue, CharWidth;
    if s != [] {
      PlainWidth(s[DecodeLength(s)..]);
    }
  }

  /** Whether every escape the scan meets is complete. */
  ghost predicate EscapesComplete(s: seq<byte>) {
    s == [] ||
    ((s[0] == ESC ==> EscapeComplete(s)) && EscapesComplete(s[TokenLength(s)..]))
  }

  /** Whether a token scan over `s` stops between tokens at `p`. */
  ghost predicate TokenAligned(s: seq<byte>, p: int)
    decreases |s|
  {
    p == 0 || (s != [] && TokenLength(s) <= p <= |s| && TokenAligned(s[TokenLength(s)..], p - TokenLength(s)))
  }

  /** Text that may follow a cut without joining the token before it. */
  predicate CleanTail(r: seq<byte>) {
    r == [] || !IsContinuation(r[0])
  }

  lemma CutKeepsToken(s: seq<byte>, p: nat, r: seq<byte>)
    requires s != [] && TokenLength(s) <= p <= |s| && CleanTail(r)
    requires s[0] == ESC ==> EscapeComplete(s) || r == []
    ensures TokenLength(s[..p] + r) == TokenLength(s) && TokenWidth(s[..p] + r) == TokenWidth(s)
  {
    var u := s[..p] + r;
    var n := ByteLength(s[0]);
    if s[0] == ESC {
      if EscapeComplete(s) && s[1] == BRACKET {
        var f := FinalIndex(s, 2);
        assert IsFinal(u[f]);
        assert forall k :: 2 <= k < f ==> u[k] == s[k];
      } else if !EscapeComplete(s) && p >= 2 {
        assert u == s[..p];
        assert forall k :: 2 <= k < p ==> u[k] == s[k];
      }
    } else if n <= p {
      assert u[1..n] == s[1..n] && u[..n] == s[..n];
    } else if n <= |u| {
      assert u[p] == r[0];
      assert u[1..n][p - 1] == u[p];
    }
  }

  lemma WidthUnfolds(s: seq<byte>)
    requires s != []
    ensures AnsiWidth(s) == TokenWidth(s) + AnsiWidth(s[TokenLength(s)..])
  {
  }

  /** The width of a cut text, from its first token on. */
  lemma WidthBehindToken(s: seq<byte>, p: nat, r: seq<byte>)
    requires s != [] && TokenLength(s) <= p <= |s| && CleanTail(r)
    requires s[0] == ESC ==> EscapeComplete(s) || r == []
    ensures var n := TokenLength(s);
      AnsiWidth(s[..p] + r) == TokenWidth(s) + AnsiWidth(s[n..][..p - n] + r)
    ensures r == [] ==> AnsiWidth(s[..p]) == TokenWidth(s) + AnsiWidth(s[TokenLength(s)..][..p - TokenLength(s)])
  {
    hide TokenLength, TokenWidth, EscapeComplete, AnsiWidth;
    var n := TokenLength(s);
    CutKeepsToken(s, p, r);
    WidthUnfolds(s[..p] + r);
    assert (s[..p] + r)[n..] == s[n..][..p - n] + r;
    if r == [] {
      assert s[..p] + r == s[..p] && s[n..][..p - n] + r == s[n..][..p - n];
    }
  }

  /** Where the first incomplete escape stands, or the length. */
  ghost function FirstIncomplete(s: seq<byte>): (q: nat)
    ensures q <= |s|
  {
    if s == [] || (s[0] == ESC && !EscapeComplete(s)) then 0
    else TokenLength(s) + FirstIncomplete(s[TokenLength(s)..])
  }

  lemma {:induction false} CompleteIff(s: seq<byte>)
    ensures EscapesComplete(s) <==> FirstIncomplete(s) == |s|
    decreases |s|
  {
    hide TokenLength, EscapeComplete;
    if s != [] && (s[0] == ESC ==> EscapeComplete(s)) {
      CompleteIff(s[TokenLength(s)..]);
    }
  }

  /** Behind a cut between tokens, before any incomplete escape, any clean tail
      is measured on its own. */
  lemma {:induction false} CutKeepsWidth(s: seq<byte>, p: int, r: seq<byte>)
    requires TokenAligned(s, p) && p <= FirstIncomplete(s) && CleanTail(r)
    ensures AnsiWidth(s[..p] + r) == AnsiWidth(s[..p]) + AnsiWidth(r)
    decreases |s|
  {
    hide TokenLength, TokenWidth, EscapeComplete;
    if p == 0 {
      assert s[..p] + r == r;
    } else {
      var n := TokenLength(s);
      WidthBehindToken(s, p, r);
      WidthBehindToken(s, p, []);
      CutKeepsWidth(s[n..], p - n, r);
    }
  }

  /** Where a truncating scan stops, and whether a style was left open there. */
  datatype Stop = Stop(len: nat, open: bool)

  /** A style is open behind any escape other than a reset. */
  predicate NextOpen(s: seq<byte>, open: bool)
    requires s != []
  {
    if s[0] == ESC then s[..EscapeLength(s)] != RESET else open
  }

  /** Scans tokens while they fit a buffer of `room` bytes and the width. */
  function AnsiScan(s: seq<byte>, room: int, maxWidth: int, open: bool): (r: Stop)
    ensures r.len <= |s|
  {
    if s == [] || TokenWidth(s) > maxWidth || TokenLength(s) >= room then Stop(0, open)
    else
      var n := TokenLength(s);
      var r := AnsiScan(s[n..], room - n, maxWidth - TokenWidth(s), NextOpen(s, open));
      Stop(n + r.len, r.open)
  }

  /** One step of the scan, for proofs that hide its definition. */
  lemma ScanStep(s: seq<byte>, room: int, maxWidth: int, open: bool)
    requires s != []
    ensures TokenLength(s) == (if s[0] == ESC then EscapeLength(s) else DecodeLength(s))
    ensures TokenWidth(s) == (if s[0] == ESC then 0 else CharWidth(DecodeValue(s)))
    ensures NextOpen(s, open) == (if s[0] == ESC then s[..EscapeLength(s)] != RESET else open)
    ensures TokenWidth(s) > maxWidth || TokenLength(s) >= room ==> AnsiScan(s, room, maxWidth, open) == Stop(0, open)
    ensures TokenWidth(s) <= maxWidth && TokenLength(s) < room ==>
      (var n := TokenLength(s);
       var r := AnsiScan(s[n..], room - n, maxWidth - TokenWidth(s), NextOpen(s, open));
       AnsiScan(s, room, maxWidth, open) == Stop(n + r.len, r.open))
  {
  }

  lemma {:induction false} AnsiCutFits(s: seq<byte>, room: int, maxWidth: nat, open: bool)
    requires room >= 1
    ensures var p := AnsiScan(s, room, maxWidth, open).len;
      TokenAligned(s, p) && p < room && AnsiWidth(s[..p]) <= maxWidth
    decreases |s|
  {
    hide TokenLength, TokenWidth, NextOpen, EscapeComplete;
    var p := AnsiScan(s, room, maxWidth, open).len;
    if p != 0 {
      var n := TokenLength(s);
      AnsiCutFits(s[n..], room - n, maxWidth - TokenWidth(s), NextOpen(s, open));
      CutKeepsToken(s, p, []);
      assert s[..p] + [] == s[..p] && s[..p][n..] == s[n..][..p - n];
    }
  }

  lemma {:induction false} AnsiCutIsLongest(s: seq<byte>, room: int, maxWidth: nat, open: bool, q: int)
    requires TokenAligned(s, q) && q <= |s| && q < room && AnsiWidth(s[..q]) <= maxWidth
    ensures q <= AnsiScan(s, room, maxWidth, open).len
    decreases |s|
  {
    hide AnsiScan, TokenLength, TokenWidth, NextOpen, EscapeComplete;
    if q != 0 {
      var n := TokenLength(s);
      ScanStep(s, room, maxWidth, open);
      CutKeepsToken(s, q, []);
      assert s[..q] + [] == s[..q] && s[..q][n..] == s[n..][..q - n];
      assert AnsiWidth(s[..q]) == TokenWidth(s) + AnsiWidth(s[n..][..q - n]);
      AnsiCutIsLongest(s[n..], room - n, maxWidth - TokenWidth(s), NextOpen(s, open), q - n);
    }
  }

  /** What `utf8_ansi_truncate` leaves in a buffer of `size` bytes. */
  function AnsiTruncated(s: seq<byte>, size: nat, maxWidth: int): seq<byte> {
    if size == 0 || maxWidth <= 0 then []
    else
      var stop := AnsiScan(s, size, maxWidth, false);
      if stop.len < |s| && stop.open && stop.len + |RESET| < size then s[..stop.len] + RESET else s[..stop.len]
  }

  /** Whether the output ends in a reset of its own. */
  predicate Resets(s: seq<byte>, size: nat, maxWidth: int) {
    && size > 0 && maxWidth > 0
    && (var stop := AnsiScan(s, size, maxWidth, false);
        stop.len < |s| && stop.open && stop.len + |RESET| < size)
  }

  /** The last escape of a text, if it has one. */
  ghost function LastEscape(s: seq<byte>): Option<seq<byte>> {
    if s == [] then None
    else
      var later := LastEscape(s[TokenLength(s)..]);
      if later.Some? then later else if s[0] == ESC then Some(s[..TokenLength(s)]) else None
  }

  lemma LastEscapeStep(s: seq<byte>, p: nat)
    requires s != [] && TokenLength(s) <= p <= |s|
    ensures var later := LastEscape(s[TokenLength(s)..][..p - TokenLength(s)]);
      LastEscape(s[..p]) == if later.Some? then later else if s[0] == ESC then Some(s[..TokenLength(s)]) else None
  {
    hide TokenLength, TokenWidth, EscapeComplete;
    var n := TokenLength(s);
    CutKeepsToken(s, p, []);
    assert s[..p] + [] == s[..p] && s[..p][n..] == s[n..][..p - n] && s[..p][..n] == s[..n];
  }

  /** A style is open where the scan stops exactly when the last escape before it is no reset. */
  lemma {:induction false} OpenIff(s: seq<byte>, room: int, maxWidth: nat, open: bool)
    requires room >= 1
    ensures var stop := AnsiScan(s, room, maxWidth, open);
      stop.open == var e := LastEscape(s[..stop.len]); if e.None? then open else e.value != RESET
    decreases |s|
  {
    hide TokenLength, TokenWidth, AnsiScan, NextOpen, EscapeComplete, LastEscape;
    var stop := AnsiScan(s, room, maxWidth, open);
    NoEscape();
    if s == [] {
      ScanEnd(room, maxWidth, open);
    } else {
      ScanStep(s, room, maxWidth, open);
      if TokenWidth(s) <= maxWidth && TokenLength(s) < room {
        var n := TokenLength(s);
        OpenIff(s[n..], room - n, maxWidth - TokenWidth(s), NextOpen(s, open));
        LastEscapeStep(s, stop.len);
      } else {
        assert s[..0] == [];
      }
    }
  }

  lemma NoEscape()
    ensures LastEscape([]) == None
  {
  }

  /** A reset is put behind the kept prefix if and only if something was cut off, the last
      escape kept is not one itself, and four bytes and the NUL have room. */
  lemma ResetsIff(s: seq<byte>, size: nat, maxWidth: int)
    requires size > 0 && maxWidth > 0
    ensures var p := AnsiScan(s, size, maxWidth, false).len;
      && (Resets(s, size, maxWidth) <==>
            p < |s| && p + 4 < size && LastEscape(s[..p]).Some? && LastEscape(s[..p]).value != [0x1B, 0x5B, 0x30, 0x6D])
      && AnsiTruncated(s, size, maxWidth)
         == s[..p] + (if Resets(s, size, maxWidth) then [0x1B, 0x5B, 0x30, 0x6D] else [])
  {
    OpenIff(s, size, maxWidth, false);
    var p := AnsiScan(s, size, maxWidth, false).len;
    assert s[..p] + [] == s[..p];
  }

  /** The output is the longest token-aligned prefix that fits, perhaps with a
      reset behind it, and it fits the buffer; without the reset, or with complete
      escapes, it also fits the width when measured again. */
  lemma AnsiTruncateCorrect(s: seq<byte>, size: nat, maxWidth: int)
    requires size >= 1
    ensures var out := AnsiTruncated(s, size, maxWidth);
      && |out| < size
      && (!Resets(s, size, maxWidth) || EscapesComplete(s) ==> AnsiWidth(out) <= (if maxWidth < 0 then 0 else maxWidth))
      && exists p :: TokenAligned(s, p) && p <= |s| && (out == s[..p] || out == s[..p] + RESET)
           && (maxWidth > 0 ==>
                 forall q :: TokenAligned(s, q) && p < q <= |s| ==> q >= size || AnsiWidth(s[..q]) > maxWidth)
  {
    if maxWidth > 0 {
      var p := AnsiScan(s, size, maxWidth, false).len;
      AnsiCutFits(s, size, maxWidth, false);
      if EscapesComplete(s) {
        CompleteIff(s);
        CutKeepsWidth(s, p, RESET);
        ResetHasNoWidth();
      }
      forall q | TokenAligned(s, q) && p < q <= |s|
        ensures q >= size || AnsiWidth(s[..q]) > maxWidth
      {
        if q < size && AnsiWidth(s[..q]) <= maxWidth {
          AnsiCutIsLongest(s, size, maxWidth, false, q);
        }
      }
    } else {
      assert TokenAligned(s, 0) && s[..0] == [];
    }
  }

  /** An incomplete escape before the reset joins it: alone, it takes the reset's
      escape byte and "[0m" shows; with its bracket, it takes everything up to the
      reset's bracket and "0m" shows. */
  lemma {:induction false} ResetAfterIncomplete(s: seq<byte>, p: int)
    requires TokenAligned(s, p) && FirstIncomplete(s) < p < |s|
    ensures var q := FirstIncomplete(s);
      AnsiWidth(s[..p] + RESET) == AnsiWidth(s[..q]) + (if p == q + 1 then 3 else 2)
    decreases |s|
  {
    hide TokenLength, TokenWidth, EscapeComplete, AnsiWidth;
    var q := FirstIncomplete(s);
    if s[0] == ESC && !EscapeComplete(s) {
      ResetJoined(s, p);
      assert s[..q] == [];
      NothingHasNoWidth();
    } else {
      var n := TokenLength(s);
      ResetAfterIncomplete(s[n..], p - n);
      assert RESET[0] == ESC;
      WidthBehindToken(s, p, RESET);
      WidthBehindToken(s, q, []);
    }
  }

  lemma ResetJoined(s: seq<byte>, p: int)
    requires 0 < p < |s| && s[0] == ESC && !EscapeComplete(s)
    ensures AnsiWidth(s[..p] + RESET) == if p == 1 then 3 else 2
  {
    var out := s[..p] + RESET;
    if p == 1 {
      assert TokenLength(out) == 2 && TokenWidth(out) == 0;
      assert out[2..] == [BRACKET] + [0x30, 0x6D];
    } else {
      BracketJoined(s, p);
      assert out[p + 2..] == [0x30, 0x6D];
    }
    hide TokenLength, TokenWidth;
    ShownByte(BRACKET, [0x30, 0x6D]);
    ShownByte(0x30, [0x6D]);
    ShownByte(0x6D, []);
  }

  lemma NothingHasNoWidth()
    ensures AnsiWidth([]) == 0
  {
  }

  lemma BracketJoined(s: seq<byte>, p: int)
    requires 1 < p < |s| && s[0] == ESC && !EscapeComplete(s)
    ensures var out := s[..p] + RESET;
      TokenLength(out) == p + 2 && TokenWidth(out) == 0
  {
    var out := s[..p] + RESET;
    assert out[p] == ESC && out[p + 1] == BRACKET;
    assert forall k :: 2 <= k < p ==> out[k] == s[k];
    assert FinalIndex(out, 2) == p + 1;
  }

  lemma ShownByte(b: byte, rest: seq<byte>)
    requires 0x20 <= b < 0x7F
    ensures AnsiWidth([b] + rest) == 1 + AnsiWidth(rest)
    ensures rest == [] ==> AnsiWidth([b]) == 1
  {
    var s := [b] + rest;
    assert DecodeLength(s) == 1 && DecodeValue(s) == b;
    assert s[1..] == rest;
    assert rest == [] ==> s == [b];
  }

  /** Exactly when the measured width exceeds the limit: a reset is put behind an
      incomplete escape, and what then shows of it is too wide. */
  lemma WidthExceedsIff(s: seq<byte>, size: nat, maxWidth: int)
    requires size >= 1
    ensures var p, q := AnsiScan(s, size, maxWidth, false).len, FirstIncomplete(s);
      AnsiWidth(AnsiTruncated(s, size, maxWidth)) > (if maxWidth < 0 then 0 else maxWidth) <==>
      Resets(s, size, maxWidth) && q < p && AnsiWidth(s[..q]) + (if p == q + 1 then 3 else 2) > maxWidth
  {
    var p, q := AnsiScan(s, size, maxWidth, false).len, FirstIncomplete(s);
    AnsiTruncateCorrect(s, size, maxWidth);
    if Resets(s, size, maxWidth) {
      AnsiCutFits(s, size, maxWidth, false);
      hide AnsiScan;
      if q < p {
        ResetAfterIncomplete(s, p);
      } else {
        CutKeepsWidth(s, p, RESET);
        ResetHasNoWidth();
      }
    }
  }

  lemma ResetHasNoWidth()
    ensures AnsiWidth(RESET) == 0
  {
    assert IsFinal(RESET[3]) && !IsFinal(RESET[2]);
    assert FinalIndex(RESET, 3) == 3;
    assert RESET[4..] == [];
  }

  /** Inputs that exceed a width of one, in both ways: the escape with its
      bracket, and the escape alone. */
  lemma UnterminatedEscapeBreaksWidth()
    ensures AnsiWidth(AnsiTruncated([ESC, BRACKET, 0x31, 0x31], 80, 1)) == 2
    ensures AnsiWidth(AnsiTruncated([0x61, ESC, BRACKET, 0x31], 80, 1)) == 4
  {
    BracketShown();
    EscapeAloneShown();
  }

  lemma BracketShown()
    ensures AnsiWidth(AnsiTruncated([ESC, BRACKET, 0x31, 0x31], 80, 1)) == 2
  {
    var s: seq<byte> := [ESC, BRACKET, 0x31, 0x31];
    assert FinalIndex(s, 4) == 4 && FinalIndex(s, 3) == 4;
    assert EscapeLength(s) == 1;
    var s1 := s[1..];
    assert s1 == [BRACKET, 0x31, 0x31];
    assert DecodeLength(s1) == 1 && TokenWidth(s1) == 1;
    var s2 := s1[1..];
    assert s2 == [0x31, 0x31];
    assert s[..1] == [ESC];
    assert AnsiScan(s2, 78, 0, true) == Stop(0, true);
    assert AnsiScan(s1, 79, 1, true) == Stop(1, true);
    assert AnsiScan(s, 80, 1, false) == Stop(2, true);
    assert AnsiTruncated(s, 80, 1) == s[..2] + RESET;
    ResetJoined(s, 2);
  }

  lemma EscapeAloneShown()
    ensures AnsiWidth(AnsiTruncated([0x61, ESC, BRACKET, 0x31], 80, 1)) == 4
  {
    var s: seq<byte> := [0x61, ESC, BRACKET, 0x31];
    assert DecodeLength(s) == 1 && TokenWidth(s) == 1;
    var s1 := s[1..];
    assert s1 == [ESC, BRACKET, 0x31];
    assert FinalIndex(s1, 3) == 3 && FinalIndex(s1, 2) == 3;
    assert EscapeLength(s1) == 1 && s1[..1] == [ESC];
    var s2 := s1[1..];
    assert s2 == [BRACKET, 0x31];
    assert AnsiScan(s2, 78, 0, true) == Stop(0, true);
    assert AnsiScan(s1, 79, 0, false) == Stop(1, true);
    assert AnsiScan(s, 80, 1, false) == Stop(2, true);
    var out := AnsiTruncated(s, 80, 1);
    assert out == [0x61] + (s1[..1] + RESET);
    ResetJoined(s1, 1);
    ShownByte(0x61, s1[..1] + RESET);
  }

  /** `utf8_ansi_truncate` */
  method AnsiTruncate(src: seq<byte>, dst: array<byte>, maxWidth: int)
    requires NoNul(src)
    modifies dst
    ensures dst.Length > 0 ==> Text(dst[..]) == AnsiTruncated(src, dst.Length, maxWidth)
  {
    var size := dst.Length;
    if size == 0 {
      return;
    }
    dst[0] := 0;
    if maxWidth <= 0 {
      TextUpTo(dst[..], 0);
      return;
    }
    var pos, truncated, open := CopyTokens(src, dst, maxWidth);
    ghost var out := src[..pos];
    if truncated && open {
      if pos + |RESET| < size {
        CopyAt(dst, pos, RESET);
        pos := pos + |RESET|;
        out := out + RESET;
      }
    }
    dst[pos] := 0;
    assert dst[..][..pos] == out;
    TextUpTo(dst[..], pos);
  }

  /** Its loop: copies tokens while they fit, watching for an open style. */
  method CopyTokens(src: seq<byte>, dst: array<byte>, maxWidth: int) returns (p: nat, truncated: bool, open: bool)
    requires NoNul(src) && dst.Length > 0 && maxWidth > 0
    modifies dst
    ensures AnsiScan(src, dst.Length, maxWidth, false) == Stop(p, open)
    ensures p < dst.Length && p <= |src| && dst[..p] == src[..p]
    ensures truncated <==> p < |src|
  {
    hide *;
    var size, width := dst.Length, 0;
    var copiedAnsi, lastAnsiWasReset := false, false;
    p, truncated, open := 0, false, false;
    assert src[0..] == src;
    while p < |src|
      invariant p <= |src| && p < size && 0 <= width <= maxWidth && !truncated
      invariant dst[..p] == src[..p] && open == (copiedAnsi && !lastAnsiWasReset)
      invariant var r := AnsiScan(src[p..], size - p, maxWidth - width, open);
        AnsiScan(src, size, maxWidth, false) == Stop(p + r.len, r.open)
      decreases |src| - p
    {
      ScanStep(src[p..], size - p, maxWidth - width, open);
      var end, w;
      if src[p] == ESC {
        end := SkipEscape(src, p);
        w := 0;
      } else {
        var cp, n := Decode(src, p);
        end := p + n;
        w := CharWidth(cp);
      }
      if width + w > maxWidth || end >= size {
        truncated := true;
        break;
      }
      DropDrop(src, p, end - p);
      TakeDrop(src, p, end);
      CopyAt(dst, p, src[p..end]);
      if src[p] == ESC {
        copiedAnsi := true;
        lastAnsiWasReset := src[p..end] == RESET;
      }
      open := copiedAnsi && !lastAnsiWasReset;
      width := width + w;
      p := end;
    }
    assert p == |src| ==> AnsiScan(src[p..], size - p, maxWidth - width, open) == Stop(0, open) by {
      ScanEnd(size - p, maxWidth - width, open);
    }
  }

  lemma TakeDrop(s: seq<byte>, p: nat, end: nat)
    requires p <= end <= |s|
    ensures s[p..][..end - p] == s[p..end] && s[..end] == s[..p] + s[p..end]
  {
  }

  lemma ScanEnd(room: int, maxWidth: int, open: bool)
    ensures AnsiScan([], room, maxWidth, open) == Stop(0, open)
  {
  }

  // ----- The command-line tail

  const MARKER: byte := 0x3C

  /** What the status line shows of `cps` in `avail` columns: all of it, or a
      marker and the longest suffix that fits the columns left. */
  ghost predicate ShowsTail(cps: seq<int>, avail: int, shown: seq<byte>)
    requires Scalars(cps)
  {
    if avail < 1 then shown == []
    else if Width(cps) <= avail then shown == EncodeAll(cps)
    else exists k :: 0 <= k <= |cps| && shown == [MARKER] + EncodeAll(cps[k..])
           && Width(cps[k..]) <= avail - 1
           && forall j :: 0 <= j < k ==> Width(cps[j..]) > avail - 1
  }

  lemma {:induction false} LongerSuffixIsWider(cps: seq<int>, j: nat, k: nat)
    requires j < k <= |cps|
    ensures Width(cps[j..]) > Width(cps[k..])
    decreases k - j
  {
    assert cps[j..][1..] == cps[j + 1..];
    if j + 1 < k {
      LongerSuffixIsWider(cps, j + 1, k);
    }
  }

  /** `format_command_input_tail` */
  method CommandInputTail(input: seq<byte>, availWidth: int, display: array<byte>)
    requires NoNul(input)
    modifies display
    ensures display.Length > 0 ==> forall cps :: Scalars(cps) && EncodeAll(cps) == input ==>
      exists shown :: ShowsTail(cps, availWidth, shown) && Text(display[..]) == Clip(shown, display.Length - 1)
  {
    hide Valid, Codepoints, Walk, EncodeAll, Width;
    if display.Length == 0 {
      return;
    }
    ghost var valid := Valid(input);
    ghost var cps := if valid then Codepoints(input) else [];
    if valid {
      ValidIsEncoding(input);
      WalkOfValid(input);
    }
    var shown: seq<byte>;
    if availWidth < 1 {
      shown := [];
    } else {
      var whole := StringWidth(input);
      if whole <= availWidth {
        shown := input;
      } else if availWidth - 1 < 1 {
        shown := [MARKER];
        if valid {
          NothingFits(cps);
        }
      } else {
        var tail := TailStart(input, availWidth - 1, cps);
        shown := [MARKER] + input[tail..];
      }
    }
    CopyString(display, shown);
    forall other | Scalars(other) && EncodeAll(other) == input
      ensures exists shown ::
                ShowsTail(other, availWidth, shown) && Text(display[..]) == Clip(shown, display.Length - 1)
    {
      EncodingIsValid(other);
      assert other == cps;
      assert ShowsTail(cps, availWidth, shown);
    }
  }

  lemma NothingFits(cps: seq<int>)
    requires Scalars(cps)
    ensures Width(cps) > 1 ==> ShowsTail(cps, 1, [MARKER])
  {
    var k := |cps|;
    assert cps[k..] == [];
    forall j | 0 <= j < k
      ensures Width(cps[j..]) > 0
    {
      LongerSuffixIsWider(cps, j, k);
    }
    assert [MARKER] == [MARKER] + EncodeAll(cps[k..]);
  }

  /** Where the suffix of `cps` from `k` begins, and which one it is. */
  ghost predicate SuffixAt(cps: seq<int>, k: int, input: seq<byte>, p: int)
    requires Scalars(cps)
  {
    0 <= k <= |cps| && 0 <= p <= |input| && input[..p] == EncodeAll(cps[..k]) && input[p..] == EncodeAll(cps[k..])
  }

  /** The backward loop that finds where the shown tail begins. */
  method TailStart(input: seq<byte>, tailWidth: int, ghost cps: seq<int>) returns (tail: nat)
    requires NoNul(input) && tailWidth >= 1 && Scalars(cps)
    ensures tail <= |input|
    ensures EncodeAll(cps) == input ==>
      exists k :: SuffixAt(cps, k, input, tail) && Width(cps[k..]) <= tailWidth
        && forall j :: 0 <= j < k ==> Width(cps[j..]) > tailWidth
  {
    ghost var known := EncodeAll(cps) == input;
    ghost var k := |cps|;
    var p, width := |input|, 0;
    tail := p;
    assert cps[..k] == cps && cps[k..] == [];
    while p > 0 && width < tailWidth
      invariant 0 <= p == tail <= |input| && 0 <= k <= |cps|
      invariant width <= tailWidth
      invariant known ==> SuffixAt(cps, k, input, p) && width == Width(cps[k..])
      decreases p
    {
      var q := p - 1;
      while q > 0 && IsContinuation(input[q])
        invariant 0 <= q < p && AllContinuation(input[q + 1..p])
      {
        assert input[q..p] == [input[q]] + input[q + 1..p];
        q := q - 1;
      }
      var cp, n := Decode(input, q);
      if known {
        PreviousChar(cps, k, input, p, q);
      }
      if width + CharWidth(cp) > tailWidth {
        if known {
          ShorterSuffixesFit(cps, k, tailWidth);
        }
        return;
      }
      width := width + CharWidth(cp);
      tail := q;
      p := q;
      k := if known then k - 1 else k;
    }
    if known {
      ShorterSuffixesFit(cps, k, tailWidth);
    }
  }

  /** If the next suffix is too wide, so are all longer ones. */
  lemma ShorterSuffixesFit(cps: seq<int>, k: nat, w: int)
    requires k <= |cps| && (k == 0 || Width(cps[k - 1..]) > w)
    ensures forall j :: 0 <= j < k ==> Width(cps[j..]) > w
  {
    forall j | 0 <= j < k
      ensures Width(cps[j..]) > w
    {
      if j < k - 1 {
        LongerSuffixIsWider(cps, j, k - 1);
      }
    }
  }

  lemma SplitAtChar(cps: seq<int>, k: nat)
    requires Scalars(cps) && 0 < k <= |cps|
    ensures EncodeAll(cps[..k]) == EncodeAll(cps[..k - 1]) + Encode(cps[k - 1])
    ensures EncodeAll(cps[k - 1..]) == Encode(cps[k - 1]) + EncodeAll(cps[k..])
    ensures Width(cps[k - 1..]) == CharWidth(cps[k - 1]) + Width(cps[k..])
  {
    var cp := cps[k - 1];
    assert cps[..k] == cps[..k - 1] + [cp];
    assert EncodeAll([cp]) == Encode(cp) + EncodeAll([]);
    EncodeAllConcat(cps[..k - 1], [cp]);
    assert cps[k - 1..][1..] == cps[k..];
  }

  lemma NonEmptyPrefix(cps: seq<int>, k: nat)
    requires Scalars(cps) && k <= |cps|
    ensures EncodeAll(cps[..k]) != [] ==> k > 0
  {
  }

  /** Walking back from a character boundary reaches the start of the character before it. */
  lemma PreviousChar(cps: seq<int>, k: nat, input: seq<byte>, p: nat, q: nat)
    requires Scalars(cps) && SuffixAt(cps, k, input, p) && q < p
    requires AllContinuation(input[q + 1..p]) && (q == 0 || !IsContinuation(input[q]))
    ensures k > 0 && SuffixAt(cps, k - 1, input, q)
    ensures DecodeValue(input[q..]) == cps[k - 1]
    ensures Width(cps[k - 1..]) == CharWidth(cps[k - 1]) + Width(cps[k..])
  {
    hide EncodeAll, Encode, Width, CharWidth, DecodeValue;
    assert k > 0 by {
      NonEmptyPrefix(cps, k);
    }
    SplitAtChar(cps, k);
    var a, e := EncodeAll(cps[..k - 1]), Encode(cps[k - 1]);
    assert (a + e)[q + 1..] == input[..p][q + 1..] == input[q + 1..p];
    assert (a + e)[q] == input[q];
    LastCharStart(a, cps[k - 1], q);
    assert input[..q] == input[..p][..q];
    assert input[q..] == input[..p][q..] + input[p..];
    DecodeEncoded(cps[k - 1], EncodeAll(cps[k..]));
  }
}
