/** Suggestions for mistyped commands (src/command_catalog.c). */
module CommandCatalog {
  import opened Bytes

  const ROW := 32
  const FAR := 99
  const NEAR := 2

  // ----- What the distance means

  /** One edit of a string. */
  datatype Edit = Insert(at: nat, x: byte) | Delete(at: nat) | Substitute(at: nat, x: byte)

  predicate Applies(s: seq<byte>, e: Edit) {
    if e.Insert? then e.at <= |s| else e.at < |s|
  }

  function Apply(s: seq<byte>, e: Edit): seq<byte>
    requires Applies(s, e)
  {
    match e
    case Insert(i, x) => s[..i] + [x] + s[i..]
    case Delete(i) => s[..i] + s[i + 1..]
    case Substitute(i, x) => s[i := x]
  }

  /** The edits of a script, one after the other, turn `s` into `t`. */
  predicate Turns(s: seq<byte>, script: seq<Edit>, t: seq<byte>)
    decreases |script|
  {
    if script == [] then s == t
    else Applies(s, script[0]) && Turns(Apply(s, script[0]), script[1..], t)
  }

  // ----- The recurrence

  function Min3(a: int, b: int, c: int): int {
    var m := if a < b then a else b;
    if m < c then m else c
  }

  function Cost(x: byte, y: byte): nat {
    if x == y then 0 else 1
  }

  function Init(s: seq<byte>): seq<byte>
    requires s != []
  {
    s[..|s| - 1]
  }

  function Last(s: seq<byte>): byte
    requires s != []
  {
    s[|s| - 1]
  }

  function Lev(a: seq<byte>, b: seq<byte>): (d: nat)
    decreases |a| + |b|
  {
    if a == [] then |b|
    else if b == [] then |a|
    else Min3(Lev(Init(a), b) + 1, Lev(a, Init(b)) + 1, Lev(Init(a), Init(b)) + Cost(Last(a), Last(b)))
  }

  // ----- Some script is that short

  lemma {:induction false} TurnsThen(s: seq<byte>, script: seq<Edit>, t: seq<byte>, e: Edit)
    requires Turns(s, script, t) && Applies(t, e)
    ensures Turns(s, script + [e], Apply(t, e))
    decreases |script|
  {
    hide Apply;
    if script == [] {
      assert ([] + [e])[1..] == [];
    } else {
      TurnsThen(Apply(s, script[0]), script[1..], t, e);
      assert (script + [e])[1..] == script[1..] + [e];
    }
  }

  /** Behind the place of an edit, nothing changes. */
  lemma ApplyBefore(s: seq<byte>, e: Edit, z: byte)
    requires Applies(s, e)
    ensures Applies(s + [z], e) && Apply(s + [z], e) == Apply(s, e) + [z]
  {
  }

  lemma {:induction false} TurnsBefore(s: seq<byte>, script: seq<Edit>, t: seq<byte>, z: byte)
    requires Turns(s, script, t)
    ensures Turns(s + [z], script, t + [z])
    decreases |script|
  {
    hide Apply;
    if script != [] {
      ApplyBefore(s, script[0], z);
      TurnsBefore(Apply(s, script[0]), script[1..], t, z);
    }
  }

  lemma EndEdits(s: seq<byte>, x: byte)
    ensures Apply(s, Insert(|s|, x)) == s + [x]
    ensures s != [] ==> Apply(s, Delete(|s| - 1)) == Init(s)
    ensures s != [] ==> Apply(s, Substitute(|s| - 1, x)) == Init(s) + [x]
    ensures s != [] ==> s == Init(s) + [Last(s)]
  {
  }

  lemma TurnsFirst(s: seq<byte>, e: Edit, script: seq<Edit>, t: seq<byte>)
    requires Applies(s, e) && Turns(Apply(s, e), script, t)
    ensures Turns(s, [e] + script, t)
  {
    assert ([e] + script)[1..] == script;
  }

  /** A script of exactly that length. */
  lemma {:induction false} ShortestScript(a: seq<byte>, b: seq<byte>) returns (script: seq<Edit>)
    ensures |script| == Lev(a, b) && Turns(a, script, b)
    decreases |a| + |b|
  {
    hide Apply, Turns;
    var x: byte := if b == [] then 0 else Last(b);
    EndEdits(a, x);
    if b != [] {
      EndEdits(Init(b), x);
      EndEdits(b, x);
    }
    if a == [] && b == [] {
      script := [];
      assert Turns(a, script, b) by { NothingToDo(a); }
    } else if a == [] || (b != [] && Lev(a, b) == Lev(a, Init(b)) + 1) {
      var first := ShortestScript(a, Init(b));
      TurnsThen(a, first, Init(b), Insert(|Init(b)|, x));
      script := first + [Insert(|Init(b)|, x)];
    } else if b == [] || Lev(a, b) == Lev(Init(a), b) + 1 {
      var rest := ShortestScript(Init(a), b);
      TurnsFirst(a, Delete(|a| - 1), rest, b);
      script := [Delete(|a| - 1)] + rest;
    } else {
      var rest := ShortestScript(Init(a), Init(b));
      TurnsBefore(Init(a), rest, Init(b), x);
      if Last(a) == x {
        script := rest;
      } else {
        TurnsFirst(a, Substitute(|a| - 1, x), rest, b);
        script := [Substitute(|a| - 1, x)] + rest;
      }
    }
  }

  lemma NothingToDo(a: seq<byte>)
    ensures Turns(a, [], a)
  {
  }

  // ----- No script is shorter

  lemma LevUp(a: seq<byte>, b: seq<byte>)
    requires b != []
    ensures Lev(a, b) <= Lev(a, Init(b)) + 1
  {
  }

  lemma LevUpLeft(a: seq<byte>, b: seq<byte>)
    requires a != []
    ensures Lev(a, b) <= Lev(Init(a), b) + 1
  {
  }

  lemma {:induction false} LevDownLeft(a: seq<byte>, b: seq<byte>)
    requires a != []
    ensures Lev(Init(a), b) <= Lev(a, b) + 1
    decreases |b|
  {
    if b != [] {
      LevDownLeft(a, Init(b));
      LevUp(Init(a), b);
    }
  }

  /** Strings that differ only in their last byte. */
  lemma {:induction false} LevLastByte(s: seq<byte>, t: seq<byte>, b: seq<byte>)
    requires s != [] && t != [] && Init(s) == Init(t)
    ensures Lev(s, b) <= Lev(t, b) + 1
    decreases |b|
  {
    if b != [] {
      LevLastByte(s, t, Init(b));
    }
  }

  lemma EditInside(s: seq<byte>, e: Edit)
    requires Applies(s, e) && s != [] && Applies(Init(s), e)
    ensures Apply(s, e) != [] && Init(Apply(s, e)) == Apply(Init(s), e) && Last(Apply(s, e)) == Last(s)
  {
    assert s == Init(s) + [Last(s)];
    ApplyBefore(Init(s), e, Last(s));
  }

  lemma EditAtEnd(s: seq<byte>, e: Edit)
    requires Applies(s, e) && (s == [] || !Applies(Init(s), e))
    ensures e.Insert? ==> Apply(s, e) != [] && Init(Apply(s, e)) == s
    ensures e.Delete? ==> s != [] && Apply(s, e) == Init(s)
    ensures e.Substitute? ==> s != [] && Apply(s, e) != [] && Init(Apply(s, e)) == Init(s)
  {
  }

  /** One edit changes the distance by at most one. */
  lemma {:induction false} EditCostsOne(s: seq<byte>, e: Edit, b: seq<byte>)
    requires Applies(s, e)
    ensures Lev(s, b) <= Lev(Apply(s, e), b) + 1
    decreases |s| + |b|
  {
    var t := Apply(s, e);
    if s == [] || !Applies(Init(s), e) {
      EditAtEnd(s, e);
      hide Apply;
      match e
      case Insert(_, _) => LevDownLeft(t, b);
      case Delete(_) => LevUpLeft(s, b);
      case Substitute(_, _) => LevLastByte(s, t, b);
    } else {
      EditInside(s, e);
      assert b == [] ==> |s| <= |t| + 1;
      hide Apply;
      if b != [] {
        EditCostsOne(Init(s), e, b);
        EditCostsOne(s, e, Init(b));
        EditCostsOne(Init(s), e, Init(b));
      }
    }
  }

  lemma {:induction false} LevSelf(a: seq<byte>)
    ensures Lev(a, a) == 0
  {
    if a != [] {
      LevSelf(Init(a));
    }
  }

  /** Every script between two strings has at least that many edits. */
  lemma {:induction false} NoShorterScript(a: seq<byte>, script: seq<Edit>, b: seq<byte>)
    requires Turns(a, script, b)
    ensures Lev(a, b) <= |script|
    decreases |script|
  {
    hide Apply, Lev;
    if script == [] {
      LevSelf(a);
    } else {
      NoShorterScript(Apply(a, script[0]), script[1..], b);
      EditCostsOne(a, script[0], b);
    }
  }

  /** The recurrence is the least number of edits. */
  lemma LevIsLeast(a: seq<byte>, b: seq<byte>, n: nat)
    ensures Lev(a, b) <= n <==> exists script :: Turns(a, script, b) && |script| <= n
  {
    hide Lev, Turns;
    var script := ShortestScript(a, b);
    if other :| Turns(a, other, b) && |other| <= n {
      NoShorterScript(a, other, b);
    }
    if Lev(a, b) <= n {
      assert Turns(a, script, b) && |script| <= n;
    }
  }

  // ----- The two-row table

  lemma LevCell(a: seq<byte>, b: seq<byte>, i: nat, j: nat)
    requires i <= |a| && j <= |b|
    ensures i == 0 ==> Lev(a[..i], b[..j]) == j
    ensures j == 0 ==> Lev(a[..i], b[..j]) == i
    ensures i > 0 && j > 0 ==>
      (Lev(a[..i], b[..j])
       == Min3(Lev(a[..i - 1], b[..j]) + 1, Lev(a[..i], b[..j - 1]) + 1,
               Lev(a[..i - 1], b[..j - 1]) + Cost(a[i - 1], b[j - 1])))
  {
    if i > 0 {
      assert a[..i][..i - 1] == a[..i - 1];
    }
    if j > 0 {
      assert b[..j][..j - 1] == b[..j - 1];
    }
  }

  /** The row of the table for the first `i` bytes of `a`. */
  ghost predicate IsRow(row: seq<int>, a: seq<byte>, b: seq<byte>, i: nat, upTo: nat) {
    i <= |a| && upTo <= |b| + 1 <= |row| && forall j :: 0 <= j < upTo ==> row[j] == Lev(a[..i], b[..j])
  }

  /** Fills the row below `prev`. */
  method FillRow(a: seq<byte>, b: seq<byte>, i: nat, prev: array<int>, curr: array<int>)
    requires 1 <= i <= |a| && prev != curr && prev.Length == curr.Length == ROW && IsRow(prev[..], a, b, i - 1, |b| + 1)
    modifies curr
    ensures IsRow(curr[..], a, b, i, |b| + 1)
  {
    hide Lev;
    curr[0] := i;
    LevCell(a, b, i, 0);
    for j := 1 to |b| + 1
      invariant IsRow(curr[..], a, b, i, j)
    {
      LevCell(a, b, i, j);
      assert curr[j - 1] == curr[..][j - 1] && prev[j] == prev[..][j] && prev[j - 1] == prev[..][j - 1];
      var cost := if a[i - 1] == b[j - 1] then 0 else 1;
      curr[j] := Min3(prev[j] + 1, curr[j - 1] + 1, prev[j - 1] + cost);
    }
  }

  /** `edit_distance` */
  function Distance(a: seq<byte>, b: seq<byte>): nat {
    if |a| >= ROW || |b| >= ROW then FAR else Lev(a, b)
  }

  method EditDistance(a: seq<byte>, b: seq<byte>) returns (d: int)
    ensures d == Distance(a, b)
  {
    hide Lev;
    var la, lb := |a|, |b|;
    var prev, curr := new int[ROW], new int[ROW];
    if la >= ROW || lb >= ROW {
      return FAR;
    }
    for j := 0 to lb + 1
      invariant IsRow(prev[..], a, b, 0, j)
    {
      LevCell(a, b, 0, j);
      prev[j] := j;
    }
    for i := 1 to la + 1
      invariant IsRow(prev[..], a, b, i - 1, lb + 1)
    {
      FillRow(a, b, i, prev, curr);
      ghost var row := curr[..];
      for j := 0 to lb + 1
        invariant curr[..] == row && IsRow(prev[..], a, b, i, j)
      {
        assert row[j] == curr[j];
        prev[j] := curr[j];
      }
    }
    assert prev[..][lb] == Lev(a[..la], b[..lb]);
    assert a[..la] == a && b[..lb] == b;
    return prev[lb];
  }

  // ----- The suggestion

  /** A command: its canonical name, and the names it goes by. */
  datatype Command = Command(canonical: seq<byte>, names: seq<seq<byte>>)

  datatype Name = Name(text: seq<byte>, canonical: seq<byte>)

  function NamesOf(c: Command): seq<Name> {
    seq(|c.names|, i requires 0 <= i < |c.names| => Name(c.names[i], c.canonical))
  }

  /** All names of the catalog, in its order. */
  function AllNames(catalog: seq<Command>): seq<Name> {
    if catalog == [] then [] else AllNames(catalog[..|catalog| - 1]) + NamesOf(catalog[|catalog| - 1])
  }

  /** The first of the nearest names. */
  ghost predicate FirstNearest(names: seq<Name>, word: seq<byte>, k: int) {
    && 0 <= k < |names|
    && (forall j :: 0 <= j < |names| ==> Distance(word, names[k].text) <= Distance(word, names[j].text))
    && (forall j :: 0 <= j < k ==> Distance(word, names[k].text) < Distance(word, names[j].text))
  }

  predicate IsBest(n: Name, word: seq<byte>, best: seq<byte>, distance: int) {
    best == n.canonical && distance == Distance(word, n.text)
  }

  /** What the running best says about the names seen. */
  ghost predicate Best(names: seq<Name>, word: seq<byte>, best: Option<seq<byte>>, distance: int) {
    if best.None? then distance == FAR && forall j :: 0 <= j < |names| ==> Distance(word, names[j].text) >= FAR
    else
      && distance < FAR
      && exists k :: FirstNearest(names, word, k) && IsBest(names[k], word, best.value, distance)
  }

  lemma BestNext(names: seq<Name>, n: Name, word: seq<byte>, best: Option<seq<byte>>, distance: int)
    requires Best(names, word, best, distance)
    ensures var d := Distance(word, n.text);
      if d < distance then Best(names + [n], word, Some(n.canonical), d) else Best(names + [n], word, best, distance)
  {
    hide Distance;
    var d, all := Distance(word, n.text), names + [n];
    if d < distance {
      assert all[|names|] == n;
      assert FirstNearest(all, word, |names|) && d < FAR;
    } else if best.Some? {
      var k :| FirstNearest(names, word, k) && IsBest(names[k], word, best.value, distance);
      assert all[k] == names[k];
      assert FirstNearest(all, word, k);
    }
  }

  /** The inner loop: one command's names. */
  method SuggestAmong(word: seq<byte>, c: Command, best: Option<seq<byte>>, distance: int, ghost seen: seq<Name>)
    returns (nextBest: Option<seq<byte>>, nextDistance: int)
    requires Best(seen, word, best, distance)
    ensures Best(seen + NamesOf(c), word, nextBest, nextDistance)
  {
    hide Best, Distance;
    nextBest, nextDistance := best, distance;
    assert seen + NamesOf(c)[..0] == seen;
    for n := 0 to |c.names|
      invariant Best(seen + NamesOf(c)[..n], word, nextBest, nextDistance)
    {
      BestNext(seen + NamesOf(c)[..n], NamesOf(c)[n], word, nextBest, nextDistance);
      assert seen + NamesOf(c)[..n + 1] == seen + NamesOf(c)[..n] + [NamesOf(c)[n]];
      var d := EditDistance(word, c.names[n]);
      if d < nextDistance {
        nextDistance := d;
        nextBest := Some(c.canonical);
      }
    }
    assert NamesOf(c)[..|c.names|] == NamesOf(c);
  }

  /** `command_catalog_suggest`: the command of the first nearest name, exactly
      when that name is at most two edits away. */
  method Suggest(catalog: seq<Command>, word: seq<byte>) returns (r: Option<seq<byte>>)
    ensures r.None? <==>
      || word == []
      || forall j :: 0 <= j < |AllNames(catalog)| ==> Distance(word, AllNames(catalog)[j].text) > NEAR
    ensures r.Some? ==>
      (exists k :: FirstNearest(AllNames(catalog), word, k) && r.value == AllNames(catalog)[k].canonical
         && Distance(word, AllNames(catalog)[k].text) <= NEAR)
  {
    hide Distance;
    var best, distance := None, FAR;
    if word == [] {
      return None;
    }
    for i := 0 to |catalog|
      invariant Best(AllNames(catalog[..i]), word, best, distance)
    {
      assert catalog[..i + 1][..i] == catalog[..i];
      best, distance := SuggestAmong(word, catalog[i], best, distance, AllNames(catalog[..i]));
    }
    assert catalog[..|catalog|] == catalog;
    r := if distance <= NEAR then best else None;
  }

  // ----- Two edits away

  lemma {:induction false} LevAtLeastDifference(a: seq<byte>, b: seq<byte>)
    ensures Lev(a, b) >= |a| - |b| && Lev(a, b) >= |b| - |a|
    decreases |a| + |b|
  {
    if a != [] && b != [] {
      LevAtLeastDifference(Init(a), b);
      LevAtLeastDifference(a, Init(b));
      LevAtLeastDifference(Init(a), Init(b));
    }
  }

  /** For names of under 30 bytes the length limit of the table loses nothing:
      a word of any length is near exactly when at most two edits make it the name. */
  lemma NearIffTwoEdits(word: seq<byte>, name: seq<byte>)
    requires |name| < ROW - NEAR
    ensures Distance(word, name) <= NEAR <==> exists script :: Turns(word, script, name) && |script| <= NEAR
  {
    hide Turns, Lev;
    LevAtLeastDifference(word, name);
    LevIsLeast(word, name, NEAR);
  }
}
