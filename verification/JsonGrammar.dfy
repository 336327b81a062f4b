/**
  JSON texts by their grammar (RFC 8259), independent of any scanning loop, and
  what the code of src/json_text.c makes of them.
 */
module JsonGrammar {
  import opened Bytes
  import opened Utf8
  import opened JsonText

  // ----- Strings (section 7)

  /** A raw byte, a two-character escape, or an escape with four hexadecimal digits. */
  datatype Piece = Raw(b: byte) | Short(code: byte) | Hex(h1: byte, h2: byte, h3: byte, h4: byte)

  function PieceText(p: Piece): seq<byte> {
    match p
    case Raw(b) => [b]
    case Short(code) => [BACKSLASH, code]
    case Hex(a, b, c, d) => [BACKSLASH, LETTER_U, a, b, c, d]
  }

  predicate PieceOk(p: Piece) {
    match p
    case Raw(b) => b >= 0x20 && b != QUOTE && b != BACKSLASH
    case Short(code) => ShortEscape(code) != 0
    case Hex(a, b, c, d) => IsHex(a) && IsHex(b) && IsHex(c) && IsHex(d)
  }

  predicate PiecesOk(ps: seq<Piece>) {
    forall i :: 0 <= i < |ps| ==> PieceOk(ps[i])
  }

  function PiecesText(ps: seq<Piece>): seq<byte> {
    if ps == [] then [] else PieceText(ps[0]) + PiecesText(ps[1..])
  }

  /** The UTF-16 code unit of a hexadecimal escape. */
  function UnitOf(p: Piece): int
    requires p.Hex?
  {
    Hex4(p.h1, p.h2, p.h3, p.h4)
  }

  /** What the first pieces stand for: how many, and their bytes; nothing for a
      lone surrogate or for U+0000, which no C string can hold. */
  function FrontMeaning(ps: seq<Piece>): (m: Option<(nat, seq<byte>)>)
    requires ps != [] && PiecesOk(ps)
    ensures m.Some? ==> 1 <= m.value.0 <= |ps| && m.value.1 != []
  {
    match ps[0]
    case Raw(b) => Some((1, [b]))
    case Short(code) => Some((1, [ShortEscape(code)]))
    case Hex(_, _, _, _) =>
      var u := UnitOf(ps[0]);
      HexRange(ps[0]);
      if IsHighSurrogate(u) then
        if |ps| >= 2 && ps[1].Hex? && IsLowSurrogate(UnitOf(ps[1])) then Some((2, Encode(Pair(u, UnitOf(ps[1])))))
          else None
      else if IsLowSurrogate(u) || u == 0 then None
      else Some((1, Encode(u)))
  }

  lemma HexRange(p: Piece)
    requires p.Hex? && PieceOk(p)
    ensures 0 <= UnitOf(p) <= 0xFFFF
  {
  }

  /** The bytes a string stands for. */
  function Meaning(ps: seq<Piece>): Option<seq<byte>>
    requires PiecesOk(ps)
    decreases |ps|
  {
    if ps == [] then Some([])
    else
      var front := FrontMeaning(ps);
      if front.None? then None
      else
        var more := Meaning(ps[front.value.0..]);
        if more.None? then None else Some(front.value.1 + more.value)
  }

  function StringText(ps: seq<Piece>): seq<byte> {
    [QUOTE] + PiecesText(ps) + [QUOTE]
  }

  /** What the parser makes of a hexadecimal escape, by its code unit and by what follows it. */
  lemma HexUnit(p: Piece, tail: seq<byte>)
    requires p.Hex? && PieceOk(p)
    ensures 0 <= UnitOf(p) <= 0xFFFF
    ensures var u, next := UnitOf(p), NextUnit(PieceText(p) + tail);
      if IsHighSurrogate(u) then
        if At(tail, 0) == BACKSLASH && At(tail, 1) == LETTER_U && HasHex4(tail, 2) && IsLowSurrogate(Hex4At(tail, 2))
        then next == Item(12, Encode(Pair(u, Hex4At(tail, 2)))) else next == Bad
      else if IsLowSurrogate(u) || u == 0 then next == Bad
      else next == Item(6, Encode(u))
  {
    HexRange(p);
    var s := PieceText(p) + tail;
    assert HasHex4(s, 2) && Hex4At(s, 2) == UnitOf(p);
    assert At(s, 6) == At(tail, 0) && At(s, 7) == At(tail, 1);
    assert HasHex4(s, 8) == HasHex4(tail, 2) && Hex4At(s, 8) == Hex4At(tail, 2);
  }

  /** The parser meets at the front exactly what the grammar says stands there. */
  lemma UnitIsFront(ps: seq<Piece>, rest: seq<byte>)
    requires ps != [] && PiecesOk(ps)
    ensures var s, f := PiecesText(ps) + [QUOTE] + rest, FrontMeaning(ps);
      && (f.None? ==> NextUnit(s).Bad?)
      && (f.Some? ==> NextUnit(s).Item? && NextUnit(s).bytes == f.value.1)
      && (f.Some? ==> s[NextUnit(s).len..] == PiecesText(ps[f.value.0..]) + [QUOTE] + rest)
  {
    var s := PiecesText(ps) + [QUOTE] + rest;
    var tail := PiecesText(ps[1..]) + [QUOTE] + rest;
    assert s == PieceText(ps[0]) + tail;
    if ps[0].Hex? {
      hide NextUnit, Encode, HasHex4, Hex4At, IsHex;
      HexUnit(ps[0], tail);
      SecondUnit(ps[1..], rest);
      assert s[6..] == tail;
      if IsHighSurrogate(UnitOf(ps[0])) && FrontMeaning(ps).Some? {
        assert s[12..] == tail[6..];
        assert ps[1..][1..] == ps[2..];
      }
    } else if ps[0].Raw? {
      assert s[1..] == tail;
    } else {
      assert s[2..] == tail;
    }
  }

  /** Whether a `\\uXXXX` follows is decided by the next piece alone. */
  lemma SecondUnit(ps: seq<Piece>, rest: seq<byte>)
    requires PiecesOk(ps)
    ensures var t := PiecesText(ps) + [QUOTE] + rest;
      && ((At(t, 0) == BACKSLASH && At(t, 1) == LETTER_U) <==> ps != [] && ps[0].Hex?)
      && (ps != [] && ps[0].Hex? ==>
            HasHex4(t, 2) && Hex4At(t, 2) == UnitOf(ps[0]) && |t| >= 6
              && t[6..] == PiecesText(ps[1..]) + [QUOTE] + rest)
  {
    var t := PiecesText(ps) + [QUOTE] + rest;
    if ps != [] {
      assert t == PieceText(ps[0]) + (PiecesText(ps[1..]) + [QUOTE] + rest);
    } else {
      assert t[0] == QUOTE;
    }
  }

  /** Parsing a well-formed string yields its meaning exactly when it has one that fits. */
  lemma {:induction false} ParseIsMeaning(ps: seq<Piece>, rest: seq<byte>, out: seq<byte>, size: nat)
    requires PiecesOk(ps) && |out| < size
    ensures ParseBody(PiecesText(ps) + [QUOTE] + rest, out, size) ==
      (if Meaning(ps).Some? && |out| + |Meaning(ps).value| < size then Some(Parsed(rest, out + Meaning(ps).value))
       else None)
    decreases |ps|
  {
    hide NextUnit, FrontMeaning, PieceOk, PieceText;
    var s := PiecesText(ps) + [QUOTE] + rest;
    if ps == [] {
      assert s == [QUOTE] + rest;
      EndUnit(rest);
      assert s[1..] == rest && out + [] == out;
    } else {
      UnitIsFront(ps, rest);
      var f := FrontMeaning(ps);
      if f.Some? {
        var n, bytes := f.value.0, f.value.1;
        if |out| + |bytes| < size {
          ParseIsMeaning(ps[n..], rest, out + bytes, size);
          if Meaning(ps).Some? {
            Assoc(out, bytes, Meaning(ps[n..]).value);
          }
        }
      }
    }
  }

  lemma EndUnit(rest: seq<byte>)
    ensures NextUnit([QUOTE] + rest) == End
  {
  }

  lemma ParseStringIsMeaning(ps: seq<Piece>, rest: seq<byte>, size: nat)
    requires PiecesOk(ps) && size > 0
    ensures ParseString(StringText(ps) + rest, size) ==
      (if Meaning(ps).Some? && |Meaning(ps).value| < size then Some(Parsed(rest, Meaning(ps).value)) else None)
  {
    assert (StringText(ps) + rest)[1..] == PiecesText(ps) + [QUOTE] + rest;
    ParseIsMeaning(ps, rest, [], size);
    if Meaning(ps).Some? {
      assert [] + Meaning(ps).value == Meaning(ps).value;
    }
  }

  // ----- What a string says, by section 7 of RFC 8259

  /** The hexadecimal digits in order of their values, in either case. */
  const LOWER: seq<byte> := [
    0x30, 0x31, 0x32, 0x33, 0x34, 0x35, 0x36, 0x37, 0x38, 0x39, 0x61, 0x62, 0x63, 0x64, 0x65, 0x66]
  const UPPER: seq<byte> := [
    0x30, 0x31, 0x32, 0x33, 0x34, 0x35, 0x36, 0x37, 0x38, 0x39, 0x41, 0x42, 0x43, 0x44, 0x45, 0x46]

  /** The two-character escapes: the letter behind the backslash, and its character. */
  const SHORT: seq<(byte, int)> := [
    (0x22, 0x22), (0x5C, 0x5C), (0x2F, 0x2F), (0x62, 0x08), (0x66, 0x0C), (0x6E, 0x0A), (0x72, 0x0D), (0x74, 0x09)]

  predicate SpellsDigit(c: byte, v: int) {
    0 <= v < 16 && (c == LOWER[v] || c == UPPER[v])
  }

  /** Four digits that spell a 16-bit number, each in its place. */
  predicate SpellsUnit(p: Piece, u: int) {
    && p.Hex? && 0 <= u <= 0xFFFF
    && SpellsDigit(p.h1, u / 4096) && SpellsDigit(p.h2, u / 256 % 16)
    && SpellsDigit(p.h3, u / 16 % 16) && SpellsDigit(p.h4, u % 16)
  }

  /** The UTF-16 code units of a character: itself, or its surrogate pair. */
  function CodeUnits(cp: int): seq<int> {
    if cp < 0x10000 then [cp] else [0xD800 + (cp - 0x10000) / 1024, 0xDC00 + (cp - 0x10000) % 1024]
  }

  /** Pieces that stand for one character: escapes of its code units, its own
      two-character escape, or its bytes as they are. */
  predicate SpellsChar(ps: seq<Piece>, cp: int)
    requires Scalar(cp)
  {
    || (|ps| == |CodeUnits(cp)| && forall i :: 0 <= i < |ps| ==> SpellsUnit(ps[i], CodeUnits(cp)[i]))
    || (|ps| == 1 && ps[0].Short? && (ps[0].code, cp) in SHORT)
    || (cp >= 0x20 && cp != 0x22 && cp != 0x5C && ps == Raws(Encode(cp)))
  }

  function Raws(bytes: seq<byte>): seq<Piece> {
    seq(|bytes|, i requires 0 <= i < |bytes| => Raw(bytes[i]))
  }

  /** Pieces that spell a text, each character in any way. */
  ghost predicate Spells(ps: seq<Piece>, cps: seq<int>)
    requires Scalars(cps)
    decreases |cps|
  {
    if cps == [] then ps == []
    else exists n :: 0 <= n <= |ps| && SpellsChar(ps[..n], cps[0]) && Spells(ps[n..], cps[1..])
  }

  lemma DigitMeans(c: byte, v: int)
    requires SpellsDigit(c, v)
    ensures HexValue(c) == v && IsHex(c)
  {
  }

  lemma PlacesAddUp(u: nat)
    requires u <= 0xFFFF
    ensures ((u / 4096 * 16 + u / 256 % 16) * 16 + u / 16 % 16) * 16 + u % 16 == u
  {
    var a, b := u / 16, u / 256;
    assert a / 16 == b && b / 16 == u / 4096;
  }

  lemma UnitMeans(p: Piece, u: int)
    requires SpellsUnit(p, u)
    ensures p.Hex? && PieceOk(p) && UnitOf(p) == u
  {
    hide HexValue, SpellsDigit, IsHex;
    DigitMeans(p.h1, u / 4096);
    DigitMeans(p.h2, u / 256 % 16);
    DigitMeans(p.h3, u / 16 % 16);
    DigitMeans(p.h4, u % 16);
    PlacesAddUp(u);
  }

  lemma PairOfUnits(cp: int)
    requires 0x10000 <= cp <= 0x10FFFF
    ensures var us := CodeUnits(cp);
      IsHighSurrogate(us[0]) && IsLowSurrogate(us[1]) && Pair(us[0], us[1]) == cp
  {
  }

  /** Behind the first character, the rest means what it means. */
  lemma MeaningBehind(ps: seq<Piece>, n: nat, bytes: seq<byte>)
    requires PiecesOk(ps) && 0 < n <= |ps| && FrontMeaning(ps) == Some((n, bytes))
    ensures Meaning(ps) == (if Meaning(ps[n..]).None? then None else Some(bytes + Meaning(ps[n..]).value))
  {
  }

  lemma {:induction false} RawsMean(bytes: seq<byte>, more: seq<Piece>)
    requires PiecesOk(more) && forall i :: 0 <= i < |bytes| ==> PieceOk(Raw(bytes[i]))
    ensures PiecesOk(Raws(bytes) + more)
    ensures Meaning(Raws(bytes) + more)
      == (if Meaning(more).None? then None else Some(bytes + Meaning(more).value))
    decreases |bytes|
  {
    hide PieceOk, Meaning;
    var ps := Raws(bytes) + more;
    assert PiecesOk(ps);
    if bytes == [] {
      assert ps == more;
      if Meaning(more).Some? {
        assert [] + Meaning(more).value == Meaning(more).value;
      }
    } else {
      var rest := bytes[1..];
      RawsMean(rest, more);
      assert ps[0] == Raw(bytes[0]) && ps[1..] == Raws(rest) + more;
      MeaningBehind(ps, 1, [bytes[0]]);
      if Meaning(more).Some? {
        assert bytes == [bytes[0]] + rest;
        Assoc([bytes[0]], rest, Meaning(more).value);
      }
    }
  }

  lemma RawBytesOk(cp: int)
    requires Scalar(cp) && cp >= 0x20 && cp != 0x22 && cp != 0x5C
    ensures forall i :: 0 <= i < |Encode(cp)| ==> PieceOk(Raw(Encode(cp)[i]))
  {
  }

  lemma ShortMeans(code: byte, cp: int)
    requires (code, cp) in SHORT
    ensures ShortEscape(code) == cp && Encode(cp) == [cp]
  {
  }

  /** However a character is spelled, it means its UTF-8 encoding. */
  lemma CharMeans(ps: seq<Piece>, cp: int, more: seq<Piece>)
    requires Scalar(cp) && SpellsChar(ps, cp) && PiecesOk(more)
    ensures PiecesOk(ps + more)
    ensures Meaning(ps + more) == (if Meaning(more).None? then None else Some(Encode(cp) + Meaning(more).value))
  {
    hide Meaning, Encode, PieceOk, UnitOf, Pair, SpellsUnit, ShortEscape, SHORT;
    var all := ps + more;
    if |ps| == 1 && ps[0].Short? && (ps[0].code, cp) in SHORT {
      ShortIsOk(ps[0].code, cp);
      ShortMeans(ps[0].code, cp);
      assert all[1..] == more;
      MeaningBehind(all, 1, [cp]);
    } else if cp >= 0x20 && cp != 0x22 && cp != 0x5C && ps == Raws(Encode(cp)) {
      RawBytesOk(cp);
      RawsMean(Encode(cp), more);
    } else {
      UnitsMean(ps, cp, more);
    }
  }

  lemma ShortIsOk(code: byte, cp: int)
    requires (code, cp) in SHORT
    ensures PieceOk(Short(code))
  {
  }

  lemma UnitsMean(ps: seq<Piece>, cp: int, more: seq<Piece>)
    requires Scalar(cp) && PiecesOk(more)
    requires |ps| == |CodeUnits(cp)| && forall i :: 0 <= i < |ps| ==> SpellsUnit(ps[i], CodeUnits(cp)[i])
    ensures PiecesOk(ps + more)
    ensures Meaning(ps + more) == (if Meaning(more).None? then None else Some(Encode(cp) + Meaning(more).value))
  {
    hide Meaning, Encode, PieceOk, UnitOf, Pair, SpellsUnit;
    var all := ps + more;
    UnitMeans(ps[0], CodeUnits(cp)[0]);
    if cp < 0x10000 {
      assert all[1..] == more;
      MeaningBehind(all, 1, Encode(cp));
    } else {
      UnitMeans(ps[1], CodeUnits(cp)[1]);
      PairOfUnits(cp);
      assert all[2..] == more;
      MeaningBehind(all, 2, Encode(cp));
    }
  }

  lemma {:induction false} SpelledMeans(ps: seq<Piece>, cps: seq<int>, more: seq<Piece>)
    requires Scalars(cps) && Spells(ps, cps) && PiecesOk(more)
    ensures PiecesOk(ps + more)
    ensures Meaning(ps + more)
      == (if Meaning(more).None? then None else Some(EncodeAll(cps) + Meaning(more).value))
    decreases |cps|
  {
    hide SpellsChar, Meaning, Encode;
    if cps == [] {
      assert ps + more == more;
      if Meaning(more).Some? {
        assert [] + Meaning(more).value == Meaning(more).value;
      }
    } else {
      var n :| 0 <= n <= |ps| && SpellsChar(ps[..n], cps[0]) && Spells(ps[n..], cps[1..]);
      SpelledMeans(ps[n..], cps[1..], more);
      CharMeans(ps[..n], cps[0], ps[n..] + more);
      assert ps + more == ps[..n] + (ps[n..] + more);
      if Meaning(more).Some? {
        Assoc(Encode(cps[0]), EncodeAll(cps[1..]), Meaning(more).value);
      }
    }
  }

  /** A string that spells a text of non-zero characters, each raw or escaped in any
      way, parses to the UTF-8 of that text, if it fits. */
  lemma SpelledTextParses(ps: seq<Piece>, cps: seq<int>, rest: seq<byte>, size: nat)
    requires Scalars(cps) && Spells(ps, cps) && size > 0
    ensures ParseString(StringText(ps) + rest, size)
      == if |EncodeAll(cps)| < size then Some(Parsed(rest, EncodeAll(cps))) else None
  {
    hide ParseString, Spells;
    SpelledMeans(ps, cps, []);
    assert ps + [] == ps;
    assert EncodeAll(cps) + [] == EncodeAll(cps);
    ParseStringIsMeaning(ps, rest, size);
  }

  /** An escape that is no character by itself: U+0000 or a surrogate, unless it is the
      first half of a pair. */
  ghost predicate SpellsNothing(p: Piece, more: seq<Piece>) {
    || SpellsUnit(p, 0)
    || (exists u :: 0xDC00 <= u <= 0xDFFF && SpellsUnit(p, u))
    || (&& (exists u :: 0xD800 <= u <= 0xDBFF && SpellsUnit(p, u))
        && !(more != [] && exists u :: 0xDC00 <= u <= 0xDFFF && SpellsUnit(more[0], u)))
  }

  lemma DigitOf(c: byte)
    requires IsHex(c)
    ensures SpellsDigit(c, HexValue(c)) && 0 <= HexValue(c) < 16
  {
  }

  lemma PlacesOf(a: nat, b: nat, c: nat, d: nat)
    requires a < 16 && b < 16 && c < 16 && d < 16
    ensures var u := ((a * 16 + b) * 16 + c) * 16 + d;
      u <= 0xFFFF && u / 4096 == a && u / 256 % 16 == b && u / 16 % 16 == c && u % 16 == d
  {
    var u := ((a * 16 + b) * 16 + c) * 16 + d;
    assert u / 16 == (a * 16 + b) * 16 + c;
    assert u / 256 == a * 16 + b;
  }

  lemma DigitsSpell(p: Piece, u: int, a: int, b: int, c: int, d: int)
    requires p.Hex? && SpellsDigit(p.h1, a) && SpellsDigit(p.h2, b) && SpellsDigit(p.h3, c) && SpellsDigit(p.h4, d)
    requires 0 <= u <= 0xFFFF && u / 4096 == a && u / 256 % 16 == b && u / 16 % 16 == c && u % 16 == d
    ensures SpellsUnit(p, u)
  {
    hide SpellsDigit;
  }

  /** Every hexadecimal escape spells its unit. */
  lemma UnitSpelled(p: Piece)
    requires p.Hex? && PieceOk(p)
    ensures SpellsUnit(p, UnitOf(p))
  {
    DigitOf(p.h1);
    DigitOf(p.h2);
    DigitOf(p.h3);
    DigitOf(p.h4);
    var a, b, c, d := HexValue(p.h1), HexValue(p.h2), HexValue(p.h3), HexValue(p.h4);
    assert UnitOf(p) == ((a * 16 + b) * 16 + c) * 16 + d;
    hide *;
    PlacesOf(a, b, c, d);
    DigitsSpell(p, UnitOf(p), a, b, c, d);
  }

  lemma NothingMeansNothing(p: Piece, more: seq<Piece>)
    requires PieceOk(p) && PiecesOk(more) && SpellsNothing(p, more)
    ensures PiecesOk([p] + more) && Meaning([p] + more) == None
  {
    hide PieceOk, UnitOf, SpellsUnit;
    var u :| (u == 0 || 0xD800 <= u <= 0xDFFF) && SpellsUnit(p, u);
    UnitMeans(p, u);
    if more != [] && more[0].Hex? {
      UnitSpelled(more[0]);
    }
    if SpellsUnit(p, 0) {
      UnitMeans(p, 0);
    } else if v :| 0xDC00 <= v <= 0xDFFF && SpellsUnit(p, v) {
      UnitMeans(p, v);
    }
  }

  /** Behind any text such an escape makes the whole string unreadable. */
  lemma LoneSurrogateFails(ps: seq<Piece>, cps: seq<int>, p: Piece, more: seq<Piece>, rest: seq<byte>, size: nat)
    requires Scalars(cps) && Spells(ps, cps) && PieceOk(p) && PiecesOk(more) && SpellsNothing(p, more) && size > 0
    ensures ParseString(StringText(ps + ([p] + more)) + rest, size) == None
  {
    hide ParseString, Spells, PieceOk, SpellsNothing;
    NothingMeansNothing(p, more);
    SpelledMeans(ps, cps, [p] + more);
    ParseStringIsMeaning(ps + ([p] + more), rest, size);
  }

  // ----- Printing and parsing back

  /** The piece the printer emits for a byte. */
  function PrintPiece(b: byte): Piece {
    if b == BACKSLASH || b == QUOTE then Short(b)
    else if b == 0x08 then Short(0x62)
    else if b == 0x0C then Short(0x66)
    else if b == 0x0A then Short(0x6E)
    else if b == 0x0D then Short(0x72)
    else if b == 0x09 then Short(0x74)
    else if b < 0x20 then Hex(0x30, 0x30, HexDigit(b / 16), HexDigit(b % 16))
    else Raw(b)
  }

  function PrintPieces(text: seq<byte>): seq<Piece> {
    if text == [] then [] else [PrintPiece(text[0])] + PrintPieces(text[1..])
  }

  lemma PrintedByte(b: byte)
    requires b != 0
    ensures PieceOk(PrintPiece(b)) && PieceText(PrintPiece(b)) == EscapeByte(b)
    ensures FrontMeaning([PrintPiece(b)]) == Some((1, [b]))
  {
  }

  lemma {:induction false} PrintedMeaning(text: seq<byte>)
    requires NoNul(text)
    ensures PiecesOk(PrintPieces(text)) && PiecesText(PrintPieces(text)) == EscapeAll(text)
    ensures Meaning(PrintPieces(text)) == Some(text)
  {
    hide PieceText, EscapeByte, PrintPiece, PieceOk;
    if text != [] {
      var ps := PrintPieces(text);
      PrintedByte(text[0]);
      PrintedMeaning(text[1..]);
      assert ps[1..] == PrintPieces(text[1..]);
      assert PiecesOk(ps);
      FrontOfPrinted(ps);
      assert text == [text[0]] + text[1..];
    }
  }

  /** A printed byte is never a surrogate, so what follows it does not matter. */
  lemma FrontOfPrinted(ps: seq<Piece>)
    requires ps != [] && PiecesOk(ps) && FrontMeaning(ps[..1]).Some?
    ensures FrontMeaning(ps) == FrontMeaning(ps[..1])
  {
  }

  /** Printing any NUL-free text and parsing it back restores it byte for byte,
      with the cursor just past the closing quote. */
  lemma RoundTrip(text: seq<byte>, rest: seq<byte>, size: nat)
    requires NoNul(text) && |text| < size
    ensures ParseString(JsonString(text) + rest, size) == Some(Parsed(rest, text))
  {
    PrintedMeaning(text);
    ParseStringIsMeaning(PrintPieces(text), rest, size);
  }

  // ----- Parsing keeps UTF-8 valid

  lemma {:induction false} DropAscii(s: seq<byte>, n: nat)
    requires n <= |s| && Valid(s) && forall i :: 0 <= i < n ==> 0 < s[i] < 0x80
    ensures Valid(s[n..])
    decreases n
  {
    if n == 0 {
      assert s[0..] == s;
    } else {
      assert s == [] + [s[0]] + s[1..];
      AsciiSplits([], s[0], s[1..]);
      DropAscii(s[1..], n - 1);
      assert s[1..][n - 1..] == s[n..];
    }
  }

  lemma EncodedIsValid(cp: int)
    requires Scalar(cp)
    ensures Valid(Encode(cp))
  {
    EncodeThenAssemble(cp);
    PrependSequence(Encode(cp), []);
    assert Encode(cp) + [] == Encode(cp);
  }

  lemma HexDigitsAreAscii(s: seq<byte>, i: nat)
    requires HasHex4(s, i)
    ensures i + 4 <= |s| && 0 <= Hex4At(s, i) <= 0xFFFF
    ensures forall k :: i <= k < i + 4 ==> 0 < s[k] < 0x80
  {
  }

  lemma EscapesAreAscii(s: seq<byte>)
    requires NextUnit(s).Item? && s[0] == BACKSLASH
    ensures Valid(NextUnit(s).bytes)
    ensures forall i :: 0 <= i < NextUnit(s).len ==> 0 < s[i] < 0x80
  {
    hide Valid, HasHex4, Hex4At, Encode;
    var u := NextUnit(s);
    if u.len == 2 {
      EncodedIsValid(u.bytes[0]);
      SingleByte(u.bytes[0]);
    } else {
      HexDigitsAreAscii(s, 2);
      if u.len == 12 {
        HexDigitsAreAscii(s, 8);
        EncodedIsValid(Pair(Hex4At(s, 2), Hex4At(s, 8)));
      } else {
        EncodedIsValid(Hex4At(s, 2));
      }
    }
  }

  /** Strings parsed out of valid UTF-8 are valid UTF-8, surrogate pairs included. */
  lemma {:induction false} ParsedIsValid(s: seq<byte>, out: seq<byte>, size: nat)
    requires Valid(out + s) && ParseBody(s, out, size).Some?
    ensures Valid(ParseBody(s, out, size).value.out) && Valid(ParseBody(s, out, size).value.rest)
    decreases |s|
  {
    hide Valid, NextUnit;
    var u := NextUnit(s);
    if u.End? {
      assert out + s == out + [QUOTE] + s[1..];
      AsciiSplits(out, QUOTE, s[1..]);
    } else {
      if s[0] != BACKSLASH {
        RawUnit(s);
        assert out + s == out + u.bytes + s[u.len..];
      } else {
        EscapesAreAscii(s);
        assert out + s == out + [BACKSLASH] + s[1..];
        AsciiSplits(out, BACKSLASH, s[1..]);
        DropAscii(s[1..], u.len - 1);
        assert s[1..][u.len - 1..] == s[u.len..];
        ValidConcat(out, u.bytes);
        ValidConcat(out + u.bytes, s[u.len..]);
      }
      ParsedIsValid(s[u.len..], out + u.bytes, size);
    }
  }

  lemma RawUnit(s: seq<byte>)
    requires NextUnit(s).Item? && s[0] != BACKSLASH
    ensures NextUnit(s) == Item(1, [s[0]])
  {
  }

  lemma ParsedStringIsValid(s: seq<byte>, size: nat)
    requires Valid(s) && ParseString(s, size).Some?
    ensures Valid(ParseString(s, size).value.out) && Valid(ParseString(s, size).value.rest)
  {
    assert s == [] + [QUOTE] + s[1..];
    AsciiSplits([], QUOTE, s[1..]);
    assert [] + s[1..] == s[1..];
    ParsedIsValid(s[1..], [], size);
  }

  // ----- Values (sections 2 to 6)

  /** A value with the white space its text contains.  `Atom` covers every
      number and literal. */
  datatype Value =
    | Atom(text: seq<byte>)
    | Str(pieces: seq<Piece>)
    | EmptyArray(pad: seq<byte>)
    | Array(elements: Elements)
    | EmptyObject(pad: seq<byte>)
    | Object(members: Members)
  datatype Elements = LastElement(before: seq<byte>, value: Value, after: seq<byte>)
                    | MoreElements(before: seq<byte>, value: Value, after: seq<byte>, rest: Elements)
  datatype Members = LastMember(member: Member) | MoreMembers(member: Member, more: Members)
  datatype Member = Member(before: seq<byte>, name: seq<Piece>, colon1: seq<byte>, colon2: seq<byte>, value: Value,
                           after: seq<byte>)

  predicate Blank(ws: seq<byte>) {
    forall i :: 0 <= i < |ws| ==> ws[i] == 0x20 || ws[i] == 0x09 || ws[i] == 0x0A || ws[i] == 0x0D
  }

  /** Letters, digits, signs and the decimal point. */
  predicate AtomByte(b: byte) {
    0x30 <= b <= 0x39 || 0x41 <= b <= 0x5A || 0x61 <= b <= 0x7A || b == 0x2B || b == 0x2D || b == 0x2E
  }

  predicate ValueOk(v: Value) {
    match v
    case Atom(text) => text != [] && forall i :: 0 <= i < |text| ==> AtomByte(text[i])
    case Str(ps) => PiecesOk(ps)
    case EmptyArray(pad) => Blank(pad)
    case Array(es) => ElementsOk(es)
    case EmptyObject(pad) => Blank(pad)
    case Object(ms) => MembersOk(ms)
  }

  predicate ElementsOk(es: Elements) {
    Blank(es.before) && ValueOk(es.value) && Blank(es.after) && (es.MoreElements? ==> ElementsOk(es.rest))
  }

  predicate MemberOk(m: Member) {
    Blank(m.before) && PiecesOk(m.name) && Blank(m.colon1) && Blank(m.colon2) && ValueOk(m.value) && Blank(m.after)
  }

  predicate MembersOk(ms: Members) {
    MemberOk(ms.member) && (ms.MoreMembers? ==> MembersOk(ms.more))
  }

  function ValueText(v: Value): seq<byte> {
    match v
    case Atom(text) => text
    case Str(ps) => StringText(ps)
    case EmptyArray(pad) => [OPEN_BRACKET] + pad + [CLOSE_BRACKET]
    case Array(es) => [OPEN_BRACKET] + ElementsText(es) + [CLOSE_BRACKET]
    case EmptyObject(pad) => [OPEN_BRACE] + pad + [CLOSE_BRACE]
    case Object(ms) => [OPEN_BRACE] + MembersText(ms) + [CLOSE_BRACE]
  }

  function ElementsText(es: Elements): seq<byte> {
    match es
    case LastElement(before, v, after) => before + ValueText(v) + after
    case MoreElements(before, v, after, rest) => before + ValueText(v) + after + [COMMA] + ElementsText(rest)
  }

  function MemberText(m: Member): seq<byte> {
    m.before + StringText(m.name) + m.colon1 + [COLON] + m.colon2 + ValueText(m.value) + m.after
  }

  function MembersText(ms: Members): seq<byte> {
    match ms
    case LastMember(m) => MemberText(m)
    case MoreMembers(m, more) => MemberText(m) + [COMMA] + MembersText(more)
  }

  // ----- The skipper stops at the end of a value

  /** A byte the depth-counting loop passes over without effect. */
  predicate Plain(b: byte) {
    b != QUOTE && !IsOpen(b) && !IsClose(b)
  }

  lemma {:induction false} ScanPlain(bytes: seq<byte>, rest: seq<byte>, depth: nat)
    requires depth > 0 && forall i :: 0 <= i < |bytes| ==> Plain(bytes[i])
    ensures Scan(bytes + rest, depth) == Scan(rest, depth)
    decreases |bytes|
  {
    if bytes == [] {
      assert bytes + rest == rest;
    } else {
      assert (bytes + rest)[1..] == bytes[1..] + rest;
      ScanPlain(bytes[1..], rest, depth);
    }
  }

  lemma {:induction false} SkipBodyOfPieces(ps: seq<Piece>, rest: seq<byte>)
    requires PiecesOk(ps)
    ensures SkipBody(PiecesText(ps) + [QUOTE] + rest) == Some(rest)
    decreases |ps|
  {
    var s := PiecesText(ps) + [QUOTE] + rest;
    if ps == [] {
      assert s == [QUOTE] + rest;
    } else {
      var tail := PiecesText(ps[1..]) + [QUOTE] + rest;
      assert s == PieceText(ps[0]) + tail;
      SkipBodyOfPieces(ps[1..], rest);
      match ps[0]
      case Raw(b) => assert s[1..] == tail;
      case Short(code) => assert s[2..] == tail;
      case Hex(a, b, c, d) => assert s[6..] == tail;
    }
  }

  lemma SkipStringOfPieces(ps: seq<Piece>, rest: seq<byte>)
    requires PiecesOk(ps)
    ensures SkipString(StringText(ps) + rest) == Some(rest)
  {
    assert (StringText(ps) + rest)[1..] == PiecesText(ps) + [QUOTE] + rest;
    SkipBodyOfPieces(ps, rest);
  }

  lemma ScanOpen(c: byte, rest: seq<byte>, depth: nat)
    requires IsOpen(c)
    ensures Scan([c] + rest, depth) == Scan(rest, depth + 1)
  {
    assert ([c] + rest)[1..] == rest;
  }

  lemma ScanClose(c: byte, rest: seq<byte>, depth: nat)
    requires IsClose(c) && depth > 0
    ensures Scan([c] + rest, depth) == if depth == 1 then Some(rest) else Scan(rest, depth - 1)
  {
    assert ([c] + rest)[1..] == rest;
  }

  lemma ScanString(ps: seq<Piece>, rest: seq<byte>, depth: nat)
    requires PiecesOk(ps) && depth > 0 && At(rest, 0) != QUOTE
    ensures Scan(StringText(ps) + rest, depth) == Scan(rest, depth)
  {
    hide SkipString;
    SkipStringOfPieces(ps, rest);
    assert (StringText(ps) + rest)[0] == QUOTE;
  }

  /** Inside a container, the loop passes a whole value at the depth it entered it. */
  lemma {:induction false} ScanValue(v: Value, rest: seq<byte>, depth: nat)
    requires ValueOk(v) && depth > 0 && At(rest, 0) != QUOTE
    ensures Scan(ValueText(v) + rest, depth) == Scan(rest, depth)
    decreases v, 1
  {
    match v
    case Atom(text) => ScanPlain(text, rest, depth);
    case Str(ps) => ScanString(ps, rest, depth);
    case _ =>
      ScanContainer(v, rest, depth);
  }

  /** A container raises the depth by one and lowers it again at its last byte. */
  lemma {:induction false} ScanContainer(v: Value, rest: seq<byte>, depth: nat)
    requires ValueOk(v) && !v.Atom? && !v.Str?
    ensures Scan(ValueText(v) + rest, depth) == if depth == 0 then Some(rest) else Scan(rest, depth)
    decreases v, 0
  {
    hide Scan, SkipString, ElementsText, MembersText;
    match v
    case EmptyArray(pad) =>
      ScanPlain(pad, [CLOSE_BRACKET] + rest, depth + 1);
      ScanAround(OPEN_BRACKET, pad, CLOSE_BRACKET, rest, depth);
    case Array(es) =>
      ScanElements(es, [CLOSE_BRACKET] + rest, depth + 1);
      ScanAround(OPEN_BRACKET, ElementsText(es), CLOSE_BRACKET, rest, depth);
    case EmptyObject(pad) =>
      ScanPlain(pad, [CLOSE_BRACE] + rest, depth + 1);
      ScanAround(OPEN_BRACE, pad, CLOSE_BRACE, rest, depth);
    case Object(ms) =>
      ScanMembers(ms, [CLOSE_BRACE] + rest, depth + 1);
      ScanAround(OPEN_BRACE, MembersText(ms), CLOSE_BRACE, rest, depth);
  }

  /** Brackets around a text that the scan passes over. */
  lemma ScanAround(open: byte, inner: seq<byte>, close: byte, rest: seq<byte>, depth: nat)
    requires IsOpen(open) && IsClose(close)
    requires Scan(inner + ([close] + rest), depth + 1) == Scan([close] + rest, depth + 1)
    ensures Scan([open] + inner + [close] + rest, depth) == if depth == 0 then Some(rest) else Scan(rest, depth)
  {
    hide Scan;
    assert [open] + inner + [close] + rest == [open] + (inner + ([close] + rest));
    ScanOpen(open, inner + ([close] + rest), depth);
    ScanClose(close, rest, depth + 1);
  }

  lemma {:induction false} ScanElements(es: Elements, rest: seq<byte>, depth: nat)
    requires ElementsOk(es) && depth > 0 && At(rest, 0) != QUOTE
    ensures Scan(ElementsText(es) + rest, depth) == Scan(rest, depth)
    decreases es
  {
    hide Scan, ValueText;
    var tail := if es.LastElement? then rest else [COMMA] + (ElementsText(es.rest) + rest);
    assert ElementsText(es) + rest == es.before + (ValueText(es.value) + (es.after + tail));
    ScanPlain(es.before, ValueText(es.value) + (es.after + tail), depth);
    ScanValue(es.value, es.after + tail, depth);
    ScanPlain(es.after, tail, depth);
    if es.MoreElements? {
      ScanPlain([COMMA], ElementsText(es.rest) + rest, depth);
      ScanElements(es.rest, rest, depth);
    }
  }

  lemma {:induction false} ScanMembers(ms: Members, rest: seq<byte>, depth: nat)
    requires MembersOk(ms) && depth > 0 && At(rest, 0) != QUOTE
    ensures Scan(MembersText(ms) + rest, depth) == Scan(rest, depth)
    decreases ms
  {
    hide Scan, MemberText;
    if ms.LastMember? {
      ScanMember(ms.member, rest, depth);
    } else {
      var tail := [COMMA] + (MembersText(ms.more) + rest);
      assert MembersText(ms) + rest == MemberText(ms.member) + tail;
      ScanMember(ms.member, tail, depth);
      ScanPlain([COMMA], MembersText(ms.more) + rest, depth);
      ScanMembers(ms.more, rest, depth);
    }
  }

  lemma {:induction false} ScanMember(m: Member, rest: seq<byte>, depth: nat)
    requires MemberOk(m) && depth > 0 && At(rest, 0) != QUOTE
    ensures Scan(MemberText(m) + rest, depth) == Scan(rest, depth)
    decreases m
  {
    hide Scan, ValueText, StringText;
    var v := ValueText(m.value) + (m.after + rest);
    var c := m.colon1 + ([COLON] + (m.colon2 + v));
    assert MemberText(m) + rest == m.before + (StringText(m.name) + c);
    ScanPlain(m.before, StringText(m.name) + c, depth);
    ScanString(m.name, c, depth);
    ScanPlain(m.colon1, [COLON] + (m.colon2 + v), depth);
    ScanPlain([COLON], m.colon2 + v, depth);
    ScanPlain(m.colon2, v, depth);
    ScanValue(m.value, m.after + rest, depth);
    ScanPlain(m.after, rest, depth);
  }

  lemma {:induction false} SkipWsBlank(ws: seq<byte>, rest: seq<byte>)
    requires Blank(ws)
    ensures SkipWs(ws + rest) == SkipWs(rest)
    decreases |ws|
  {
    if ws == [] {
      assert ws + rest == rest;
    } else {
      assert (ws + rest)[1..] == ws[1..] + rest;
      SkipWsBlank(ws[1..], rest);
    }
  }

  lemma {:induction false} SkipAtomText(text: seq<byte>, rest: seq<byte>)
    requires forall i :: 0 <= i < |text| ==> !IsDelimiter(text[i])
    ensures SkipAtom(text + rest) == SkipAtom(rest)
    decreases |text|
  {
    if text == [] {
      assert text + rest == rest;
    } else {
      assert (text + rest)[1..] == text[1..] + rest;
      SkipAtomText(text[1..], rest);
    }
  }

  /** The first byte of a value decides how it is skipped. */
  lemma ValueFirstByte(v: Value, rest: seq<byte>)
    requires ValueOk(v)
    ensures var c := At(ValueText(v) + rest, 0);
      !IsSpace(c) && (c == QUOTE <==> v.Str?) && (IsOpen(c) <==> !v.Atom? && !v.Str?)
  {
  }

  /** Skipping a value behind white space stops exactly at its end; behind a
      number or literal it also passes the white space before the delimiter. */
  lemma SkipValueStops(before: seq<byte>, v: Value, after: seq<byte>, delimiter: byte, rest: seq<byte>)
    requires Blank(before) && ValueOk(v) && Blank(after) && IsDelimiter(delimiter)
    ensures SkipValue(before + ValueText(v) + after + [delimiter] + rest) ==
      Some((if v.Atom? then [] else after) + [delimiter] + rest)
  {
    hide SkipWs, Scan, SkipString, ValueText;
    var tail := after + [delimiter] + rest;
    var t := ValueText(v) + tail;
    assert before + ValueText(v) + after + [delimiter] + rest == before + t;
    SkipWsBlank(before, t);
    ValueFirstByte(v, tail);
    NoWsToSkip(t);
    if v.Str? {
      StringValueText(v);
      SkipStringOfPieces(v.pieces, tail);
    } else if v.Atom? {
      AtomValueText(v);
      SkipAtomText(v.text + after, [delimiter] + rest);
      assert t == v.text + after + ([delimiter] + rest);
      assert [] + [delimiter] + rest == [delimiter] + rest;
    } else {
      ScanContainer(v, tail, 0);
    }
  }

  lemma NoWsToSkip(s: seq<byte>)
    requires !IsSpace(At(s, 0))
    ensures SkipWs(s) == s
  {
  }

  lemma StringValueText(v: Value)
    requires v.Str?
    ensures ValueText(v) == StringText(v.pieces)
  {
  }

  lemma AtomValueText(v: Value)
    requires v.Atom?
    ensures ValueText(v) == v.text
  {
  }

  // ----- Field lookup

  /** Whether every key decodes and fits the key buffer. */
  predicate KeysReadable(ms: Members)
    requires MembersOk(ms)
  {
    assert MemberOk(ms.member);
    Meaning(ms.member.name).Some? && |Meaning(ms.member.name).value| < KEY_SIZE
    && (ms.MoreMembers? ==> KeysReadable(ms.more))
  }

  /** The values of the members of that name, in order. */
  function Named(ms: Members, key: seq<byte>): seq<Value>
    requires MembersOk(ms)
  {
    assert MemberOk(ms.member);
    (if Meaning(ms.member.name) == Some(key) then [ms.member.value] else [])
    + (if ms.MoreMembers? then Named(ms.more, key) else [])
  }

  /** A value that is a decodable string fitting the output. */
  function StringOf(v: Value, size: nat): Option<seq<byte>>
    requires ValueOk(v)
  {
    if v.Str? && Meaning(v.pieces).Some? && |Meaning(v.pieces).value| < size then Meaning(v.pieces) else None
  }

  /** The last of several string values, if there is one and all are readable. */
  function LastString(vs: seq<Value>, size: nat, found: Option<seq<byte>>): Option<seq<byte>>
    requires forall i :: 0 <= i < |vs| ==> ValueOk(vs[i])
  {
    if vs == [] then found
    else if StringOf(vs[0], size).None? then None
    else LastString(vs[1..], size, StringOf(vs[0], size))
  }

  lemma {:induction false} NamedOk(ms: Members, key: seq<byte>)
    requires MembersOk(ms)
    ensures forall i :: 0 <= i < |Named(ms, key)| ==> ValueOk(Named(ms, key)[i])
  {
    if ms.MoreMembers? {
      NamedOk(ms.more, key);
    }
  }

  /** That this is what `LastString` says: the last one when all are readable, nothing otherwise. */
  lemma {:induction false} LastStringMeans(vs: seq<Value>, size: nat, found: Option<seq<byte>>)
    requires vs != [] && forall i :: 0 <= i < |vs| ==> ValueOk(vs[i])
    ensures LastString(vs, size, found) ==
      if forall i :: 0 <= i < |vs| ==> StringOf(vs[i], size).Some? then StringOf(vs[|vs| - 1], size) else None
  {
    hide StringOf, ValueOk;
    if StringOf(vs[0], size).Some? {
      if |vs| == 1 {
        assert vs[1..] == [];
      } else {
        LastStringMeans(vs[1..], size, StringOf(vs[0], size));
        assert forall i :: 1 <= i < |vs| ==> vs[i] == vs[1..][i - 1];
      }
    }
  }

  lemma KeyOfMember(m: Member, tail: seq<byte>)
    requires MemberOk(m) && Meaning(m.name).Some? && |Meaning(m.name).value| < KEY_SIZE
    ensures ReadKey(MemberText(m) + tail) == Some(Parsed(ValueText(m.value) + (m.after + tail), Meaning(m.name).value))
  {
    hide SkipWs, ParseString, ValueText, StringText, Meaning, Blank, PiecesOk, ValueOk;
    var v := ValueText(m.value) + (m.after + tail);
    var c := m.colon1 + ([COLON] + (m.colon2 + v));
    var name := StringText(m.name) + c;
    assert MemberText(m) + tail == m.before + name;
    SkipWsBlank(m.before, name);
    QuoteFirst(m.name, c);
    NoWsToSkip(name);
    ParseStringIsMeaning(m.name, c, KEY_SIZE);
    SkipWsBlank(m.colon1, [COLON] + (m.colon2 + v));
    NoWsToSkip([COLON] + (m.colon2 + v));
    assert ([COLON] + (m.colon2 + v))[1..] == m.colon2 + v;
    SkipWsBlank(m.colon2, v);
    ValueFirstByte(m.value, m.after + tail);
    NoWsToSkip(v);
  }

  /** One turn of the lookup loop reads one member. */
  lemma FieldsStep(m: Member, delimiter: byte, rest: seq<byte>, key: seq<byte>, size: nat, found: Option<seq<byte>>)
    requires MemberOk(m) && size > 0 && (delimiter == COMMA || delimiter == CLOSE_BRACE)
    requires Meaning(m.name).Some? && |Meaning(m.name).value| < KEY_SIZE
    ensures var now := if Meaning(m.name) == Some(key) then StringOf(m.value, size) else found;
      Fields(MemberText(m) + ([delimiter] + rest), key, size, found) ==
      (if Meaning(m.name) == Some(key) && now.None? then None
       else if delimiter == COMMA then Fields(rest, key, size, now) else now)
  {
    hide SkipWs, ReadKey, FieldValue, MemberText, Meaning, StringOf, Blank, PiecesOk, ValueOk;
    KeyOfMember(m, [delimiter] + rest);
    MemberValue(m, delimiter, rest, Meaning(m.name) == Some(key), size);
    NoWsToSkip([delimiter] + rest);
    assert ([delimiter] + rest)[1..] == rest;
  }

  lemma QuoteFirst(ps: seq<Piece>, rest: seq<byte>)
    ensures At(StringText(ps) + rest, 0) == QUOTE
  {
  }

  lemma MemberValue(m: Member, delimiter: byte, rest: seq<byte>, wanted: bool, size: nat)
    requires MemberOk(m) && size > 0 && IsDelimiter(delimiter)
    ensures var r := FieldValue(ValueText(m.value) + (m.after + ([delimiter] + rest)), wanted, size);
      && (r.None? <==> wanted && StringOf(m.value, size).None?)
      && (r.Some? ==> SkipWs(r.value.rest) == SkipWs([delimiter] + rest))
      && (r.Some? && wanted ==> StringOf(m.value, size) == Some(r.value.out))
  {
    hide ValueText, SkipValue, StringText;
    var tail := m.after + ([delimiter] + rest);
    ValueFirstByte(m.value, tail);
    SkipWsBlank(m.after, [delimiter] + rest);
    if !wanted {
      SkipValueStops([], m.value, m.after, delimiter, rest);
      assert [] + ValueText(m.value) + m.after + [delimiter] + rest == ValueText(m.value) + tail;
      assert m.after + [delimiter] + rest == tail && [] + [delimiter] + rest == [delimiter] + rest;
    } else if m.value.Str? {
      StringValueText(m.value);
      ParseStringIsMeaning(m.value.pieces, tail, size);
    }
  }

  /** Over all members: the last readable string of that name, if every member
      of that name is one. */
  lemma {:induction false} FieldsOfMembers(ms: Members, rest: seq<byte>, key: seq<byte>, size: nat,
                                           found: Option<seq<byte>>)
    requires MembersOk(ms) && KeysReadable(ms) && size > 0
    requires forall i :: 0 <= i < |Named(ms, key)| ==> ValueOk(Named(ms, key)[i])
    ensures Fields(MembersText(ms) + [CLOSE_BRACE] + rest, key, size, found) == LastString(Named(ms, key), size, found)
    decreases ms
  {
    hide Fields, MemberText, Meaning, StringOf;
    var m := ms.member;
    var now := if Meaning(m.name) == Some(key) then StringOf(m.value, size) else found;
    if ms.LastMember? {
      FieldsStep(m, CLOSE_BRACE, rest, key, size, found);
      assert MembersText(ms) + [CLOSE_BRACE] + rest == MemberText(m) + ([CLOSE_BRACE] + rest);
      assert [m.value][1..] == [];
    } else {
      var tail := MembersText(ms.more) + [CLOSE_BRACE] + rest;
      assert MembersText(ms) + [CLOSE_BRACE] + rest == MemberText(m) + ([COMMA] + tail);
      FieldsStep(m, COMMA, tail, key, size, found);
      NamedOk(ms.more, key);
      var vs := Named(ms.more, key);
      assert ([m.value] + vs)[1..] == vs && [] + vs == vs;
      if !(Meaning(m.name) == Some(key) && now.None?) {
        FieldsOfMembers(ms.more, rest, key, size, now);
      }
    }
  }

  /** Field lookup on a well-formed object with readable keys. */
  lemma LookupIsLastMember(before: seq<byte>, ms: Members, rest: seq<byte>, key: seq<byte>, size: nat)
    requires Blank(before) && MembersOk(ms) && KeysReadable(ms) && key != [] && size > 0
    ensures var vs := Named(ms, key);
      && (forall i :: 0 <= i < |vs| ==> ValueOk(vs[i]))
      && GetField(before + ValueText(Object(ms)) + rest, key, size) ==
         (if vs != [] && forall i :: 0 <= i < |vs| ==> StringOf(vs[i], size).Some?
          then StringOf(vs[|vs| - 1], size) else None)
  {
    hide Fields, MembersText, StringOf, Named, KeysReadable, MembersOk, SkipWs, ValueOk;
    var t := ValueText(Object(ms)) + rest;
    var vs := Named(ms, key);
    NamedOk(ms, key);
    assert before + ValueText(Object(ms)) + rest == before + t;
    SkipWsBlank(before, t);
    NoWsToSkip(t);
    assert t[1..] == MembersText(ms) + [CLOSE_BRACE] + rest;
    FieldsOfMembers(ms, rest, key, size, None);
    if vs != [] {
      LastStringMeans(vs, size, None);
    }
  }

  /** A key that does not decode, or is too long, is not read. */
  lemma BadKeyOfMember(m: Member, tail: seq<byte>)
    requires MemberOk(m) && (Meaning(m.name).None? || |Meaning(m.name).value| >= KEY_SIZE)
    ensures ReadKey(MemberText(m) + tail) == None
  {
    hide SkipWs, ParseString, ValueText, StringText, Meaning, Blank, PiecesOk, ValueOk;
    var c := m.colon1 + ([COLON] + (m.colon2 + (ValueText(m.value) + (m.after + tail))));
    var name := StringText(m.name) + c;
    assert MemberText(m) + tail == m.before + name;
    SkipWsBlank(m.before, name);
    QuoteFirst(m.name, c);
    NoWsToSkip(name);
    ParseStringIsMeaning(m.name, c, KEY_SIZE);
  }

  lemma {:induction false} FieldsOfUnreadable(ms: Members, rest: seq<byte>, key: seq<byte>, size: nat,
                                              found: Option<seq<byte>>)
    requires MembersOk(ms) && !KeysReadable(ms) && size > 0
    ensures Fields(MembersText(ms) + [CLOSE_BRACE] + rest, key, size, found) == None
    decreases ms
  {
    hide MemberText, Meaning, StringOf;
    var m := ms.member;
    var tail := if ms.LastMember? then [CLOSE_BRACE] + rest
      else [COMMA] + (MembersText(ms.more) + [CLOSE_BRACE] + rest);
    assert MembersText(ms) + [CLOSE_BRACE] + rest == MemberText(m) + tail;
    if Meaning(m.name).None? || |Meaning(m.name).value| >= KEY_SIZE {
      BadKeyOfMember(m, tail);
    } else {
      hide Fields;
      var now := if Meaning(m.name) == Some(key) then StringOf(m.value, size) else found;
      FieldsStep(m, COMMA, MembersText(ms.more) + [CLOSE_BRACE] + rest, key, size, found);
      FieldsOfUnreadable(ms.more, rest, key, size, now);
    }
  }

  /** With a key that cannot be read anywhere in the object, lookup finds nothing at all. */
  lemma LookupNeedsReadableKeys(before: seq<byte>, ms: Members, rest: seq<byte>, key: seq<byte>, size: nat)
    requires Blank(before) && MembersOk(ms) && !KeysReadable(ms)
    ensures GetField(before + ValueText(Object(ms)) + rest, key, size) == None
  {
    hide Fields, MembersText, KeysReadable, MembersOk, SkipWs;
    if key != [] && size > 0 {
      var t := ValueText(Object(ms)) + rest;
      assert before + ValueText(Object(ms)) + rest == before + t;
      SkipWsBlank(before, t);
      NoWsToSkip(t);
      assert t[1..] == MembersText(ms) + [CLOSE_BRACE] + rest;
      FieldsOfUnreadable(ms, rest, key, size, None);
    }
  }

  /** An empty object has no field. */
  lemma LookupInEmptyObject(before: seq<byte>, pad: seq<byte>, rest: seq<byte>, key: seq<byte>, size: nat)
    requires Blank(before) && Blank(pad)
    ensures GetField(before + ValueText(EmptyObject(pad)) + rest, key, size) == None
  {
    hide Fields, SkipWs;
    var t := ValueText(EmptyObject(pad)) + rest;
    assert before + ValueText(EmptyObject(pad)) + rest == before + t;
    SkipWsBlank(before, t);
    NoWsToSkip(t);
    assert t[1..] == pad + ([CLOSE_BRACE] + rest);
    SkipWsBlank(pad, [CLOSE_BRACE] + rest);
    NoWsToSkip([CLOSE_BRACE] + rest);
    NoKeyNoFields(t[1..], key, size);
  }

  lemma NoKeyNoFields(s: seq<byte>, key: seq<byte>, size: nat)
    requires At(SkipWs(s), 0) != QUOTE
    ensures Fields(s, key, size, None) == None
  {
    hide SkipWs;
  }

  /** A value that is no object has no field. */
  lemma LookupNeedsObject(before: seq<byte>, v: Value, rest: seq<byte>, key: seq<byte>, size: nat)
    requires Blank(before) && ValueOk(v) && !v.Object? && !v.EmptyObject?
    ensures GetField(before + ValueText(v) + rest, key, size) == None
  {
    hide Fields, SkipWs, ElementsText;
    var t := ValueText(v) + rest;
    assert before + ValueText(v) + rest == before + t;
    SkipWsBlank(before, t);
    ValueFirstByte(v, rest);
    NoWsToSkip(t);
    assert v.Array? || v.EmptyArray? ==> t[0] == OPEN_BRACKET;
  }
}
