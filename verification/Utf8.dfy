/**
  UTF-8 encoding, decoding and validation (RFC 3629, sections 3 and 4), as in
  src/utf8.c and the encoder of src/json_text.c.
 */
module Utf8 {
  import opened Bytes

  // ----- One sequence

  /** Length announced by a first byte; an impossible first byte counts as one. */
  function ByteLength(b: byte): (n: int)
    ensures 1 <= n <= 4
  {
    if b < 0x80 then 1
    else if 0xC0 <= b < 0xE0 then 2
    else if 0xE0 <= b < 0xF0 then 3
    else if 0xF0 <= b < 0xF8 then 4
    else 1
  }

  predicate IsContinuation(b: byte) {
    0x80 <= b < 0xC0
  }

  predicate AllContinuation(s: seq<byte>) {
    forall i :: 0 <= i < |s| ==> IsContinuation(s[i])
  }

  /** The value of a byte's low bits, for a mask of `m - 1`. */
  function Low(b: byte, m: int): int
    requires m > 0
  {
    b % m
  }

  /** The payload bits of a sequence of one to four bytes. */
  function Assemble(b: seq<byte>): int
    requires 1 <= |b| <= 4
  {
    if |b| == 1 then b[0]
    else if |b| == 2 then 64 * Low(b[0], 32) + Low(b[1], 64)
    else if |b| == 3 then 4096 * Low(b[0], 16) + 64 * Low(b[1], 64) + Low(b[2], 64)
    else 262144 * Low(b[0], 8) + 4096 * Low(b[1], 64) + 64 * Low(b[2], 64) + Low(b[3], 64)
  }

  predicate InRangeForLength(cp: int, n: int) {
    if n == 1 then 0 < cp <= 0x7F
    else if n == 2 then 0x80 <= cp <= 0x7FF
    else if n == 3 then 0x800 <= cp <= 0xFFFF && !(0xD800 <= cp <= 0xDFFF)
    else 0x10000 <= cp <= 0x10FFFF
  }

  /** `utf8_is_valid_sequence` */
  predicate ValidSequence(b: seq<byte>) {
    && 1 <= |b| <= 4
    && ByteLength(b[0]) == |b|
    && AllContinuation(b[1..])
    && InRangeForLength(Assemble(b), |b|)
  }

  /** A Unicode scalar value other than zero. */
  predicate Scalar(cp: int) {
    0 < cp <= 0x10FFFF && !(0xD800 <= cp <= 0xDFFF)
  }

  /** The encoder inside `append_decoded_codepoint`. */
  function Encode(cp: int): (e: seq<byte>)
    requires Scalar(cp)
    ensures 1 <= |e| <= 4
  {
    if cp <= 0x7F then [cp]
    else if cp <= 0x7FF then [0xC0 + cp / 64, 0x80 + cp % 64]
    else if cp <= 0xFFFF then [0xE0 + cp / 4096, 0x80 + cp / 64 % 64, 0x80 + cp % 64]
    else [0xF0 + cp / 262144, 0x80 + cp / 4096 % 64, 0x80 + cp / 64 % 64, 0x80 + cp % 64]
  }

  lemma SplitBits(cp: nat)
    ensures cp == cp / 64 * 64 + cp % 64
    ensures cp / 64 == cp / 4096 * 64 + cp / 64 % 64
    ensures cp / 4096 == cp / 262144 * 64 + cp / 4096 % 64
  {
  }

  lemma JoinBits(z: nat, y: nat, x: nat, w: nat)
    requires y < 64 && x < 64 && w < 64
    ensures var cp := 262144 * z + 4096 * y + 64 * x + w;
      cp / 262144 == z && cp / 4096 == 64 * z + y && cp / 4096 % 64 == y
      && cp / 64 == 4096 * z + 64 * y + x && cp / 64 % 64 == x && cp % 64 == w
  {
    var cp := 262144 * z + 4096 * y + 64 * x + w;
    assert cp / 64 == 4096 * z + 64 * y + x;
    assert cp / 4096 == 64 * z + y;
  }

  /** A first byte and continuation bytes carry the bits put into them. */
  lemma CarryBits(z: nat, y: nat, x: nat)
    requires z < 8 && y < 16 && x < 64
    ensures Low(0xF0 + z, 8) == z && Low(0xE0 + y, 16) == y && Low(0x80 + x, 64) == x
  {
  }

  lemma ThreeBytes(cp: int)
    requires Scalar(cp) && 0x7FF < cp <= 0xFFFF
    ensures ValidSequence(Encode(cp)) && Assemble(Encode(cp)) == cp
  {
    SplitBits(cp);
    var z, y, x := cp / 4096, cp / 64 % 64, cp % 64;
    CarryBits(0, z, y);
    CarryBits(0, z, x);
    var e := Encode(cp);
    assert e[1..] == [e[1], e[2]];
  }

  lemma FourBytes(cp: int)
    requires Scalar(cp) && 0xFFFF < cp
    ensures ValidSequence(Encode(cp)) && Assemble(Encode(cp)) == cp
  {
    SplitBits(cp);
    var w, z, y, x := cp / 262144, cp / 4096 % 64, cp / 64 % 64, cp % 64;
    CarryBits(w, 0, z);
    CarryBits(w, 0, y);
    CarryBits(w, 0, x);
    var e := Encode(cp);
    assert e[1..] == [e[1], e[2], e[3]];
    FourBytesAssemble(w, z, y, x);
  }

  lemma FourBytesAssemble(w: nat, z: nat, y: nat, x: nat)
    requires w < 8 && z < 64 && y < 64 && x < 64
    ensures Assemble([0xF0 + w, 0x80 + z, 0x80 + y, 0x80 + x]) == 262144 * w + 4096 * z + 64 * y + x
  {
    CarryBits(w, 0, z);
    CarryBits(w, 0, y);
    CarryBits(w, 0, x);
  }

  /** Encoding one scalar and assembling it again are inverse ... */
  lemma EncodeThenAssemble(cp: int)
    requires Scalar(cp)
    ensures ValidSequence(Encode(cp)) && Assemble(Encode(cp)) == cp
  {
    SplitBits(cp);
    if cp <= 0x7FF {
    } else if cp <= 0xFFFF {
      ThreeBytes(cp);
    } else {
      FourBytes(cp);
    }
  }

  lemma StripBits(x: byte)
    ensures ByteLength(x) == 4 ==> Low(x, 8) == x - 0xF0
    ensures ByteLength(x) == 3 ==> Low(x, 16) == x - 0xE0
    ensures ByteLength(x) == 2 ==> Low(x, 32) == x - 0xC0
    ensures IsContinuation(x) ==> Low(x, 64) == x - 0x80
  {
  }

  lemma ThreeBytesBack(x: byte, y: byte, z: byte)
    requires ByteLength(x) == 3 && IsContinuation(y) && IsContinuation(z)
    ensures var cp := 4096 * Low(x, 16) + 64 * Low(y, 64) + Low(z, 64);
      x == 0xE0 + cp / 4096 && y == 0x80 + cp / 64 % 64 && z == 0x80 + cp % 64
  {
    hide Low;
    StripBits(x);
    StripBits(y);
    StripBits(z);
    JoinBits(0, x - 0xE0, y - 0x80, z - 0x80);
  }

  lemma FourBytesBack(x: byte, y: byte, z: byte, w: byte)
    requires ByteLength(x) == 4 && IsContinuation(y) && IsContinuation(z) && IsContinuation(w)
    ensures var cp := 262144 * Low(x, 8) + 4096 * Low(y, 64) + 64 * Low(z, 64) + Low(w, 64);
      x == 0xF0 + cp / 262144 && y == 0x80 + cp / 4096 % 64 && z == 0x80 + cp / 64 % 64 && w == 0x80 + cp % 64
  {
    hide Low;
    StripBits(x);
    StripBits(y);
    StripBits(z);
    StripBits(w);
    JoinBits(x - 0xF0, y - 0x80, z - 0x80, w - 0x80);
  }

  /** ... in both orders. */
  lemma AssembleThenEncode(b: seq<byte>)
    requires ValidSequence(b)
    ensures Scalar(Assemble(b)) && Encode(Assemble(b)) == b
  {
    hide Low;
    var cp := Assemble(b);
    if |b| == 1 {
      assert b == [b[0]];
    } else if |b| == 2 {
      assert b[1] == b[1..][0];
      StripBits(b[0]);
      StripBits(b[1]);
      assert b == [b[0], b[1]];
    } else if |b| == 3 {
      assert b[1] == b[1..][0] && b[2] == b[1..][1];
      ThreeBytesBack(b[0], b[1], b[2]);
      assert b == [b[0], b[1], b[2]];
    } else {
      assert b[1] == b[1..][0] && b[2] == b[1..][1] && b[3] == b[1..][2];
      FourBytesBack(b[0], b[1], b[2], b[3]);
      assert b == [b[0], b[1], b[2], b[3]];
    }
  }

  // ----- By the table of section 4 of RFC 3629

  predicate Tail(b: byte) {
    0x80 <= b <= 0xBF
  }

  /** The well-formed byte sequences as the table lists them, without U+0000. */
  predicate InTable(b: seq<byte>) {
    || (|b| == 1 && 0x01 <= b[0] <= 0x7F)
    || (|b| == 2 && 0xC2 <= b[0] <= 0xDF && Tail(b[1]))
    || (|b| == 3 && b[0] == 0xE0 && 0xA0 <= b[1] <= 0xBF && Tail(b[2]))
    || (|b| == 3 && 0xE1 <= b[0] <= 0xEC && Tail(b[1]) && Tail(b[2]))
    || (|b| == 3 && b[0] == 0xED && 0x80 <= b[1] <= 0x9F && Tail(b[2]))
    || (|b| == 3 && 0xEE <= b[0] <= 0xEF && Tail(b[1]) && Tail(b[2]))
    || (|b| == 4 && b[0] == 0xF0 && 0x90 <= b[1] <= 0xBF && Tail(b[2]) && Tail(b[3]))
    || (|b| == 4 && 0xF1 <= b[0] <= 0xF3 && Tail(b[1]) && Tail(b[2]) && Tail(b[3]))
    || (|b| == 4 && b[0] == 0xF4 && 0x80 <= b[1] <= 0x8F && Tail(b[2]) && Tail(b[3]))
  }

  /** The bytes behind the first, one by one. */
  lemma TailsOf(b: seq<byte>)
    requires 1 <= |b| <= 4
    ensures AllContinuation(b[1..]) <==>
      (|b| > 1 ==> Tail(b[1])) && (|b| > 2 ==> Tail(b[2])) && (|b| > 3 ==> Tail(b[3]))
  {
    assert forall i :: 0 <= i < |b| - 1 ==> b[1..][i] == b[i + 1];
    if AllContinuation(b[1..]) {
      assert |b| > 1 ==> IsContinuation(b[1..][0]);
      assert |b| > 2 ==> IsContinuation(b[1..][1]);
      assert |b| > 3 ==> IsContinuation(b[1..][2]);
    }
  }

  /** A sequence is valid exactly when the table has it. */
  lemma ValidIffInTable(b: seq<byte>)
    ensures ValidSequence(b) <==> InTable(b)
  {
    if 1 <= |b| <= 4 {
      TailsOf(b);
      hide Low;
      StripBits(b[0]);
      if |b| > 1 {
        StripBits(b[1]);
      }
      if |b| > 2 {
        StripBits(b[2]);
      }
      if |b| > 3 {
        StripBits(b[3]);
      }
    }
  }

  /** The first difference of two byte strings decides their order. */
  ghost predicate Below(a: seq<byte>, b: seq<byte>) {
    exists i :: 0 <= i < |a| && i < |b| && a[i] < b[i] && a[..i] == b[..i]
  }

  lemma BelowAt(a: seq<byte>, b: seq<byte>, i: nat)
    requires i < |a| && i < |b| && a[i] < b[i] && forall k :: 0 <= k < i ==> a[k] == b[k]
    ensures Below(a, b)
  {
    assert a[..i] == b[..i];
  }

  lemma ThreeAscend(c: int, d: int)
    requires Scalar(c) && Scalar(d) && 0x7FF < c < d <= 0xFFFF
    ensures Below(Encode(c), Encode(d))
  {
    SplitBits(c);
    SplitBits(d);
    var e, f := Encode(c), Encode(d);
    hide Encode, Below;
    BelowAt(e, f, if e[0] != f[0] then 0 else if e[1] != f[1] then 1 else 2);
  }

  lemma FourAscend(c: int, d: int)
    requires Scalar(c) && Scalar(d) && 0xFFFF < c < d
    ensures Below(Encode(c), Encode(d))
  {
    SplitBits(c);
    SplitBits(d);
    var e, f := Encode(c), Encode(d);
    hide Encode, Below;
    BelowAt(e, f, if e[0] != f[0] then 0 else if e[1] != f[1] then 1 else if e[2] != f[2] then 2 else 3);
  }

  lemma TwoAscend(c: int, d: int)
    requires 0x7F < c < d <= 0x7FF
    ensures Below(Encode(c), Encode(d))
  {
    var e, f := Encode(c), Encode(d);
    BelowAt(e, f, if e[0] != f[0] then 0 else 1);
  }

  lemma LongerAscends(c: int, d: int)
    requires Scalar(c) && Scalar(d) && c < d && (|Encode(c)| < |Encode(d)| || |Encode(c)| == 1)
    ensures Below(Encode(c), Encode(d))
  {
    hide Below;
    BelowAt(Encode(c), Encode(d), 0);
  }

  /** Encoding keeps the order of the code points, as section 1 of RFC 3629 says. */
  lemma EncodingAscends(c: int, d: int)
    requires Scalar(c) && Scalar(d) && c < d
    ensures Below(Encode(c), Encode(d))
  {
    hide Below;
    if |Encode(c)| < |Encode(d)| || |Encode(c)| == 1 {
      LongerAscends(c, d);
    } else if c <= 0x7FF {
      TwoAscend(c, d);
    } else if c <= 0xFFFF {
      ThreeAscend(c, d);
    } else {
      FourAscend(c, d);
    }
  }

  /** Decoding at the front of an encoded character gives it back, whatever follows. */
  lemma DecodeEncoded(cp: int, rest: seq<byte>)
    requires Scalar(cp)
    ensures DecodeValue(Encode(cp) + rest) == cp && DecodeLength(Encode(cp) + rest) == |Encode(cp)|
  {
    EncodeThenAssemble(cp);
    var e := Encode(cp);
    assert (e + rest)[..|e|] == e && (e + rest)[1..|e|] == e[1..];
  }

  /** A single byte is a character exactly when it is ASCII and not NUL. */
  lemma SingleByte(b: byte)
    ensures ValidSequence([b]) <==> 0 < b < 0x80
    ensures Assemble([b]) == b
    ensures 0 < b < 0x80 ==> Encode(b) == [b]
  {
  }

  // ----- Whole strings

  predicate Scalars(cps: seq<int>) {
    forall i :: 0 <= i < |cps| ==> Scalar(cps[i])
  }

  function EncodeAll(cps: seq<int>): seq<byte>
    requires Scalars(cps)
  {
    if cps == [] then [] else Encode(cps[0]) + EncodeAll(cps[1..])
  }

  /** What `utf8_is_valid_string` decides, as a walk over whole sequences. */
  predicate Valid(s: seq<byte>) {
    s == [] ||
    var n := ByteLength(s[0]);
    n <= |s| && ValidSequence(s[..n]) && Valid(s[n..])
  }

  /** The code points of a valid string. */
  function Codepoints(s: seq<byte>): (cps: seq<int>)
    requires Valid(s)
  {
    if s == [] then []
    else
      var n := ByteLength(s[0]);
      [Assemble(s[..n])] + Codepoints(s[n..])
  }

  lemma {:induction false} ValidIsEncoding(s: seq<byte>)
    requires Valid(s)
    ensures Scalars(Codepoints(s)) && EncodeAll(Codepoints(s)) == s
  {
    if s != [] {
      var n := ByteLength(s[0]);
      AssembleThenEncode(s[..n]);
      ValidIsEncoding(s[n..]);
      var cps := Codepoints(s);
      assert cps[1..] == Codepoints(s[n..]);
      assert s == s[..n] + s[n..];
    }
  }

  lemma {:induction false} EncodingIsValid(cps: seq<int>)
    requires Scalars(cps)
    ensures Valid(EncodeAll(cps)) && Codepoints(EncodeAll(cps)) == cps
  {
    if cps != [] {
      EncodeThenAssemble(cps[0]);
      EncodingIsValid(cps[1..]);
      PrependSequence(Encode(cps[0]), EncodeAll(cps[1..]));
    }
  }

  lemma SequenceHasNoNul(b: seq<byte>)
    requires ValidSequence(b)
    ensures NoNul(b)
  {
    forall i | 0 <= i < |b|
      ensures b[i] != 0
    {
      if i > 0 {
        assert IsContinuation(b[1..][i - 1]);
      }
    }
  }

  lemma {:induction false} ValidHasNoNul(s: seq<byte>)
    requires Valid(s)
    ensures NoNul(s)
  {
    if s != [] {
      var n := ByteLength(s[0]);
      SequenceHasNoNul(s[..n]);
      ValidHasNoNul(s[n..]);
      assert s == s[..n] + s[n..];
    }
  }

  /** A valid sequence in front of any bytes changes neither their validity nor their code points. */
  lemma PrependSequence(b: seq<byte>, rest: seq<byte>)
    requires ValidSequence(b)
    ensures Valid(b + rest) <==> Valid(rest)
    ensures Valid(rest) ==> Codepoints(b + rest) == [Assemble(b)] + Codepoints(rest)
  {
    assert (b + rest)[..|b|] == b && (b + rest)[|b|..] == rest;
  }

  /** A string is valid exactly when it encodes some sequence of non-zero scalar values. */
  lemma ValidIffEncodes(s: seq<byte>)
    ensures Valid(s) <==> exists cps :: Scalars(cps) && EncodeAll(cps) == s
  {
    if Valid(s) {
      ValidIsEncoding(s);
    }
    if cps :| Scalars(cps) && EncodeAll(cps) == s {
      EncodingIsValid(cps);
    }
  }

  /** ... and that sequence is unique. */
  lemma EncodeAllInjective(a: seq<int>, b: seq<int>)
    requires Scalars(a) && Scalars(b) && EncodeAll(a) == EncodeAll(b)
    ensures a == b
  {
    EncodingIsValid(a);
    EncodingIsValid(b);
  }

  lemma {:induction false} EncodeAllConcat(a: seq<int>, b: seq<int>)
    requires Scalars(a) && Scalars(b)
    ensures Scalars(a + b) && EncodeAll(a + b) == EncodeAll(a) + EncodeAll(b)
  {
    hide Encode;
    if a == [] {
      assert a + b == b;
    } else {
      assert (a + b)[1..] == a[1..] + b;
      EncodeAllConcat(a[1..], b);
      Assoc(Encode(a[0]), EncodeAll(a[1..]), EncodeAll(b));
    }
  }

  lemma {:induction false} ValidConcat(a: seq<byte>, b: seq<byte>)
    requires Valid(a)
    ensures Valid(a + b) <==> Valid(b)
    ensures Valid(b) ==> Codepoints(a + b) == Codepoints(a) + Codepoints(b)
  {
    hide ValidSequence, Assemble, ByteLength;
    if a == [] {
      assert a + b == b;
    } else {
      var n := ByteLength(a[0]);
      ValidConcat(a[n..], b);
      assert a + b == a[..n] + (a[n..] + b);
      PrependSequence(a[..n], a[n..] + b);
      if Valid(b) {
        Assoc([Assemble(a[..n])], Codepoints(a[n..]), Codepoints(b));
      }
    }
  }

  /** A byte below 0x80 never lies inside a sequence, so it splits a valid string in two valid ones. */
  lemma {:induction false} AsciiSplits(a: seq<byte>, x: byte, b: seq<byte>)
    requires 0 < x < 0x80
    ensures Valid(a + [x] + b) <==> Valid(a) && Valid(b)
    decreases |a|
  {
    var s := a + [x] + b;
    if a == [] {
      assert s == [x] + b;
      PrependSequence([x], b);
    } else {
      var n := ByteLength(a[0]);
      assert s[0] == a[0];
      if n <= |a| {
        assert s[..n] == a[..n];
        assert s[n..] == a[n..] + [x] + b;
        AsciiSplits(a[n..], x, b);
      } else if n <= |s| {
        assert s[..n][1..][|a| - 1] == x;
      }
    }
  }

  /** `utf8_is_valid_string` */
  method IsValidString(s: seq<byte>) returns (ok: bool)
    requires NoNul(s)
    ensures ok <==> exists cps :: Scalars(cps) && EncodeAll(cps) == s
    ensures ok == Valid(s)
  {
    hide ValidSequence, ByteLength, EncodeAll;
    ValidIffEncodes(s);
    var p := 0;
    while p < |s|
      invariant 0 <= p <= |s|
      invariant Valid(s) == Valid(s[p..])
      decreases |s| - p
    {
      var n := ByteLength(s[p]);
      var i := 1;
      while i < n
        invariant 1 <= i <= n && p + i <= |s|
      {
        if At(s, p + i) == 0 {
          return false;
        }
        i := i + 1;
      }
      assert s[p..][..n] == s[p..p + n] && s[p..][n..] == s[p + n..];
      if !ValidSequence(s[p..p + n]) {
        return false;
      }
      p := p + n;
    }
    return true;
  }

  // ----- The decoding walk, defined on every byte string

  /** Whether the bytes after the first complete the sequence the first announces. */
  predicate Complete(s: seq<byte>)
    requires s != []
  {
    ByteLength(s[0]) <= |s| && AllContinuation(s[1..ByteLength(s[0])])
  }

  function DecodeLength(s: seq<byte>): (n: nat)
    requires s != []
    ensures 1 <= n <= |s|
  {
    if Complete(s) then ByteLength(s[0]) else 1
  }

  function DecodeValue(s: seq<byte>): int
    requires s != []
  {
    if Complete(s) then Assemble(s[..ByteLength(s[0])]) else s[0]
  }

  /** `utf8_decode` at index `p` of a NUL-terminated string. */
  method Decode(s: seq<byte>, p: nat) returns (cp: int, n: nat)
    requires p < |s| && NoNul(s)
    ensures cp == DecodeValue(s[p..]) && n == DecodeLength(s[p..])
    ensures 1 <= n <= |s| - p
  {
    ghost var t := s[p..];
    var len := ByteLength(s[p]);
    var i := 1;
    while i < len
      invariant 1 <= i <= len && i <= |t|
      invariant AllContinuation(t[1..i])
    {
      if !IsContinuation(At(s, p + i)) {
        assert i < |t| ==> len <= |t| ==> t[1..len][i - 1] == s[p + i];
        return s[p], 1;
      }
      assert t[1..i + 1] == t[1..i] + [t[i]];
      i := i + 1;
    }
    assert s[p..p + len] == t[..len];
    return Assemble(s[p..p + len]), len;
  }

  /** A first byte that lacks one of its continuation bytes stands for itself, alone;
      any other takes all of them. */
  lemma BrokenDecodesAsByte(s: seq<byte>)
    requires s != []
    ensures var broken := exists k :: 1 <= k < ByteLength(s[0]) && !IsContinuation(At(s, k));
      && DecodeLength(s) == (if broken then 1 else ByteLength(s[0]))
      && (broken ==> DecodeValue(s) == s[0])
  {
    var n := ByteLength(s[0]);
    if Complete(s) {
      assert forall k :: 1 <= k < n ==> At(s, k) == s[1..n][k - 1];
    } else if n <= |s| {
      var i :| 0 <= i < n - 1 && !IsContinuation(s[1..n][i]);
      assert !IsContinuation(At(s, i + 1));
    } else {
      assert !IsContinuation(At(s, |s|));
    }
  }

  /** The code points a decoding loop meets. */
  function Walk(s: seq<byte>): seq<int> {
    if s == [] then [] else [DecodeValue(s)] + Walk(s[DecodeLength(s)..])
  }

  /** On a valid string the walk recovers exactly the encoded scalars. */
  lemma {:induction false} WalkOfValid(s: seq<byte>)
    requires Valid(s)
    ensures Walk(s) == Codepoints(s)
  {
    if s != [] {
      var n := ByteLength(s[0]);
      assert s[..n][1..] == s[1..n];
      WalkOfValid(s[n..]);
    }
  }

  lemma WalkOfEncoding(cps: seq<int>)
    requires Scalars(cps)
    ensures Walk(EncodeAll(cps)) == cps
  {
    EncodingIsValid(cps);
    WalkOfValid(EncodeAll(cps));
  }

  /** `utf8_strlen` */
  method Length(s: seq<byte>) returns (count: nat)
    requires NoNul(s)
    ensures count == |Walk(s)|
    ensures forall cps :: Scalars(cps) && EncodeAll(cps) == s ==> count == |cps|
  {
    hide DecodeLength, DecodeValue;
    var p := 0;
    count := 0;
    while p < |s|
      invariant 0 <= p <= |s| && count + |Walk(s[p..])| == |Walk(s)|
      decreases |s| - p
    {
      var cp, n := Decode(s, p);
      assert s[p..][n..] == s[p + n..];
      count := count + 1;
      p := p + n;
    }
    forall cps | Scalars(cps) && EncodeAll(cps) == s
      ensures count == |cps|
    {
      WalkOfEncoding(cps);
    }
  }
}
