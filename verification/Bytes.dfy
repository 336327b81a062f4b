/**
  Bytes and C strings.  A NUL-terminated string is modelled by its content, a
  byte sequence without zeroes; a string that the program edits in place is an
  array whose content is what stands before its first zero byte.
 */
module Bytes {

  type byte = b: int | 0 <= b < 256

  datatype Option<+T> = None | Some(value: T)

  ghost predicate NoNul(s: seq<byte>) {
    forall i :: 0 <= i < |s| ==> s[i] != 0
  }

  /** What `s[i]` reads: the terminating NUL stands at index `|s|`. */
  function At(s: seq<byte>, i: nat): byte {
    if i < |s| then s[i] else 0
  }

  lemma Assoc<T>(a: seq<T>, b: seq<T>, c: seq<T>)
    ensures a + b + c == a + (b + c)
  {
  }

  lemma DropDrop<T>(s: seq<T>, p: nat, n: nat)
    requires p + n <= |s|
    ensures s[p..][n..] == s[p + n..]
  {
  }

  lemma DropTake<T>(s: seq<T>, p: nat, n: nat)
    requires p + n <= |s|
    ensures s[p..][..n] == s[p..p + n]
  {
  }

  /** The content of a NUL-terminated buffer. */
  ghost function Text(a: seq<byte>): seq<byte> {
    if a == [] || a[0] == 0 then [] else [a[0]] + Text(a[1..])
  }

  lemma TextIsPrefix(a: seq<byte>)
    ensures Text(a) <= a && NoNul(Text(a))
    ensures |Text(a)| < |a| ==> a[|Text(a)|] == 0
    ensures 0 in a ==> |Text(a)| < |a|
  {
    if a != [] && a[0] != 0 {
      TextIsPrefix(a[1..]);
    }
  }

  /** A buffer whose first zero stands at `n` holds its first `n` bytes. */
  lemma {:induction false} TextUpTo(a: seq<byte>, n: nat)
    requires n < |a| && a[n] == 0 && NoNul(a[..n])
    ensures Text(a) == a[..n]
  {
    if n > 0 {
      assert a[0] == a[..n][0];
      assert a[1..][..n - 1] == a[..n][1..];
      TextUpTo(a[1..], n - 1);
    }
  }

  lemma TextOfAll(a: seq<byte>)
    requires NoNul(a)
    ensures Text(a) == a
  {
    TextIsPrefix(a);
  }

  /** What stands behind a NUL does not matter. */
  lemma TextBeforeNul(a: seq<byte>, n: nat)
    requires n < |a| && a[n] == 0
    ensures Text(a) == Text(a[..n])
  {
    TextIsPrefix(a[..n]);
    var t := Text(a[..n]);
    assert a[..|t|] == t;
    TextUpTo(a, |t|);
  }

  /** A buffer that holds exactly this text, terminated. */
  ghost predicate Holds(a: seq<byte>, text: seq<byte>) {
    |text| < |a| && a[..|text|] == text && a[|text|] == 0 && NoNul(text)
  }

  lemma TextIs(a: seq<byte>, text: seq<byte>)
    requires Holds(a, text)
    ensures Text(a) == text && 0 in a
  {
    TextUpTo(a, |text|);
  }

  /** `strlen` over an array. */
  method StrLen(a: array<byte>) returns (n: nat)
    requires 0 in a[..]
    ensures n < a.Length && Text(a[..]) == a[..n] && a[n] == 0 && NoNul(a[..n])
  {
    n := 0;
    while a[n] != 0
      invariant n < a.Length && NoNul(a[..n])
      invariant 0 in a[n..]
      decreases a.Length - n
    {
      assert a[n..] == [a[n]] + a[n + 1..];
      n := n + 1;
    }
    assert a[..][..n] == a[..n];
    TextUpTo(a[..], n);
  }

  /** `a` is `b` with some elements left out. */
  ghost predicate IsSubsequence<T>(a: seq<T>, b: seq<T>) {
    a == [] ||
    (b != [] && ((a[0] == b[0] && IsSubsequence(a[1..], b[1..])) || IsSubsequence(a, b[1..])))
  }

  lemma {:induction false} SubsequenceBefore<T>(a: seq<T>, b: seq<T>, x: T)
    requires IsSubsequence(a, b)
    ensures IsSubsequence(a, b + [x]) && IsSubsequence(a + [x], b + [x])
    decreases |b|
  {
    if b == [] {
      assert a == [];
    } else {
      assert (b + [x])[0] == b[0] && (b + [x])[1..] == b[1..] + [x];
      if a == [] {
        SubsequenceBefore(a, b[1..], x);
      } else if a[0] == b[0] && IsSubsequence(a[1..], b[1..]) {
        SubsequenceBefore(a[1..], b[1..], x);
        assert (a + [x])[1..] == a[1..] + [x];
      } else {
        SubsequenceBefore(a, b[1..], x);
      }
    }
  }

  lemma {:induction false} SubsequenceShorter<T>(a: seq<T>, x: T, b: seq<T>)
    requires IsSubsequence(a + [x], b)
    ensures IsSubsequence(a, b)
    decreases |b|
  {
    if a != [] {
      assert (a + [x])[1..] == a[1..] + [x];
      if a[0] == b[0] && IsSubsequence(a[1..] + [x], b[1..]) {
        SubsequenceShorter(a[1..], x, b[1..]);
      } else {
        SubsequenceShorter(a, x, b[1..]);
      }
    }
  }

  lemma AtMostOne<T>(ts: set<T>, s: T, t: T)
    requires |ts| <= 1 && s in ts && t in ts
    ensures s == t
  {
    var rest := ts - {s};
    assert |rest| == |ts| - 1;
    assert rest == {};
    assert t !in rest;
  }

  lemma TwoOf<T>(ts: set<T>) returns (s: T, t: T)
    requires |ts| > 1
    ensures s in ts && t in ts && s != t
  {
    s :| s in ts;
    assert |ts - {s}| == |ts| - 1;
    t :| t in ts - {s};
  }

  function Min(a: int, b: int): int {
    if a <= b then a else b
  }

  /** The first `n` bytes, or all of them. */
  function Clip(s: seq<byte>, n: nat): seq<byte> {
    s[..Min(|s|, n)]
  }

  /** `snprintf(dst, size, "%s", src)`: as much of `src` as fits, terminated. */
  method CopyString(dst: array<byte>, src: seq<byte>)
    requires NoNul(src) && dst.Length > 0
    modifies dst
    ensures Text(dst[..]) == Clip(src, dst.Length - 1)
    ensures 0 in dst[..]
  {
    var n := Min(|src|, dst.Length - 1);
    for i := 0 to n
      invariant dst[..i] == src[..i]
    {
      dst[i] := src[i];
    }
    dst[n] := 0;
    assert dst[..][..n] == src[..n] && dst[..][n] == 0;
    TextUpTo(dst[..], n);
  }

  /** `memcpy(dst + pos, data, len)` */
  method CopyAt(dst: array<byte>, pos: nat, data: seq<byte>)
    requires pos + |data| <= dst.Length
    modifies dst
    ensures dst[..pos + |data|] == old(dst[..pos]) + data
    ensures dst[pos + |data|..] == old(dst[pos + |data|..])
  {
    for i := 0 to |data|
      invariant dst[..pos + i] == old(dst[..pos]) + data[..i]
      invariant dst[pos + |data|..] == old(dst[pos + |data|..])
    {
      dst[pos + i] := data[i];
    }
  }

  /** `memmove(a, a + from, n)` to the front of the same array. */
  method MoveToFront(a: array<byte>, from: nat, n: nat)
    requires from + n <= a.Length
    modifies a
    ensures a[..n] == old(a[from..from + n])
  {
    ghost var all := a[..];
    for i := 0 to n
      invariant a[..i] == all[from..from + i]
      invariant a[i..] == all[i..]
    {
      assert a[from + i] == a[i..][from] == all[i..][from];
      a[i] := a[from + i];
      assert all[from..from + (i + 1)] == all[from..from + i] + [all[from + i]];
      assert a[i + 1..] == all[i..][1..];
    }
  }
}
