/**
  The latest part of the history that fits the screen (src/history_view.c), and
  the loop that prints it with a divider before each new day (src/tui.c).
 */
module HistoryView {
  import opened Bytes

  /** A day as text, and no day before the first message. */
  type Day = string

  datatype Row = Divider(day: Day) | Line(message: nat)

  // ----- The screen rows of messages

  /** The rows of the messages with these days, the first of them numbered
      `first`, printed after a message of day `last`. */
  function RowsAfter(days: seq<Day>, first: nat, last: Day): seq<Row> {
    if days == [] then [] else RowsOf(days[0], first, last) + RowsAfter(days[1..], first + 1, days[0])
  }

  /** The rows of one message. */
  function RowsOf(day: Day, number: nat, last: Day): seq<Row> {
    if day != last then [Divider(day), Line(number)] else [Line(number)]
  }

  function Rows(days: seq<Day>): seq<Row> {
    RowsAfter(days, 0, "")
  }

  ghost predicate Dated(days: seq<Day>) {
    forall i :: 0 <= i < |days| ==> days[i] != ""
  }

  lemma RowsOne(d: Day, first: nat, last: Day)
    ensures RowsAfter([d], first, last) == RowsOf(d, first, last)
  {
    assert [d][1..] == [];
  }

  /** Only the number of rows matters to the height; the numbering does not. */
  lemma {:induction false} RowsShift(days: seq<Day>, a: nat, b: nat, last: Day)
    ensures |RowsAfter(days, a, last)| == |RowsAfter(days, b, last)|
    decreases |days|
  {
    if days != [] {
      RowsShift(days[1..], a + 1, b + 1, days[0]);
    }
  }

  /** A divider more or less in front. */
  lemma RowsHead(days: seq<Day>, first: nat, last: Day, other: Day)
    ensures |RowsAfter(days, first, last)| <= |RowsAfter(days, first, other)| + 1
  {
  }

  /** An earlier message takes at least one more row. */
  lemma MoreRows(days: seq<Day>)
    requires days != [] && Dated(days)
    ensures |Rows(days)| > |Rows(days[1..])|
    ensures |Rows(days)| >= 2
  {
    RowsShift(days[1..], 0, 1, "");
    RowsHead(days[1..], 1, "", days[0]);
  }

  lemma {:induction false} RowsMonotone(days: seq<Day>, j: nat, k: nat)
    requires j < k <= |days| && Dated(days)
    ensures |Rows(days[j..])| > |Rows(days[k..])|
    decreases k - j
  {
    assert days[j..][1..] == days[j + 1..];
    MoreRows(days[j..]);
    if j + 1 < k {
      RowsMonotone(days, j + 1, k);
    }
  }

  lemma RowsUnfold(days: seq<Day>, first: nat, last: Day)
    requires days != []
    ensures RowsAfter(days, first, last) == RowsOf(days[0], first, last) + RowsAfter(days[1..], first + 1, days[0])
  {
  }

  lemma {:induction false} RowsConcat(a: seq<Day>, b: seq<Day>, first: nat, last: Day)
    ensures RowsAfter(a + b, first, last)
      == RowsAfter(a, first, last) + RowsAfter(b, first + |a|, if a == [] then last else a[|a| - 1])
    decreases |a|
  {
    if a == [] {
      assert a + b == b;
    } else {
      RowsUnfold(a, first, last);
      RowsUnfold(a + b, first, last);
      RowsConcat(a[1..], b, first + 1, a[0]);
      hide *;
      assert (a + b)[1..] == a[1..] + b && (a + b)[0] == a[0];
      Assoc(RowsOf(a[0], first, last), RowsAfter(a[1..], first + 1, a[0]),
            RowsAfter(b, first + |a|, a[|a| - 1]));
    }
  }

  /** Every message has its row. */
  lemma {:induction false} EveryLine(days: seq<Day>, first: nat, last: Day, k: nat)
    requires k < |days|
    ensures Line(first + k) in RowsAfter(days, first, last)
    decreases |days|
  {
    if k > 0 {
      EveryLine(days[1..], first + 1, days[0], k - 1);
    }
  }

  /** The first message of all, or of another day than the one before. */
  predicate NewDay(days: seq<Day>, k: nat)
    requires k < |days|
  {
    k == 0 || days[k] != days[k - 1]
  }

  /** How many of the first `n` messages begin a day. */
  function DayChanges(days: seq<Day>, n: nat): nat
    requires n <= |days|
  {
    if n == 0 then 0 else DayChanges(days, n - 1) + (if NewDay(days, n - 1) then 1 else 0)
  }

  lemma {:induction false} ChangesOfPrefix(days: seq<Day>, m: nat, n: nat)
    requires n <= m <= |days|
    ensures DayChanges(days[..m], n) == DayChanges(days, n)
    decreases n
  {
    if n > 0 {
      ChangesOfPrefix(days, m, n - 1);
    }
  }

  /** Where the row of a message stands, and what stands before it. */
  ghost predicate RowAt(days: seq<Day>, i: nat)
    requires i < |days|
  {
    var p := i + DayChanges(days, i + 1);
    && p < |Rows(days)| && Rows(days)[p] == Line(i)
    && (NewDay(days, i) ==> p > 0 && Rows(days)[p - 1] == Divider(days[i]))
  }

  /** One message more. */
  lemma RowsSnoc(days: seq<Day>, n: nat)
    requires |days| == n + 1
    ensures Rows(days) == Rows(days[..n]) + RowsOf(days[n], n, if n == 0 then "" else days[n - 1])
  {
    hide RowsAfter, RowsOf;
    var a := days[..n];
    assert days == a + [days[n]];
    RowsConcat(a, [days[n]], 0, "");
    RowsOne(days[n], n, if n == 0 then "" else a[n - 1]);
  }

  lemma RowStays(days: seq<Day>, n: nat, i: nat)
    requires i < n <= |days| && Rows(days[..n]) <= Rows(days) && RowAt(days[..n], i)
    ensures RowAt(days, i)
  {
    hide Rows, DayChanges;
    ChangesOfPrefix(days, n, i + 1);
  }

  /** The rows are the messages in order, one each, and in front of each message that
      begins a day, and nowhere else, the divider of that day. */
  lemma {:induction false} RowsAre(days: seq<Day>)
    requires Dated(days)
    ensures |Rows(days)| == |days| + DayChanges(days, |days|)
    ensures forall i :: 0 <= i < |days| ==> RowAt(days, i)
    decreases |days|
  {
    if days != [] {
      var n := |days| - 1;
      RowsAre(days[..n]);
      RowsSnoc(days, n);
      ChangesOfPrefix(days, n, n);
      hide Rows, RowAt;
      forall i | 0 <= i < |days|
        ensures RowAt(days, i)
      {
        if i < n {
          RowStays(days, n, i);
        } else {
          LastRow(days, n);
        }
      }
    }
  }

  lemma LastRow(days: seq<Day>, n: nat)
    requires Dated(days) && |days| == n + 1 && |Rows(days[..n])| == n + DayChanges(days, n)
    ensures RowAt(days, n)
  {
    RowsSnoc(days, n);
    hide Rows;
  }

  // ----- Choosing the first message

  /** With one start too early, all earlier ones are. */
  lemma EarlierOverflows(days: seq<Day>, start: nat, height: int)
    requires Dated(days) && start <= |days| && (start > 0 ==> |Rows(days[start - 1..])| > height)
    ensures forall k :: 0 <= k < start ==> |Rows(days[k..])| > height
  {
    forall k | 0 <= k < start
      ensures |Rows(days[k..])| > height
    {
      if k < start - 1 {
        RowsMonotone(days, k, start - 1);
      }
    }
  }

  lemma RowsNext(days: seq<Day>, start: nat, i: nat)
    requires start <= i < |days|
    ensures |Rows(days[start..i + 1])|
      == |Rows(days[start..i])| + |RowsOf(days[i], i - start, if i == start then "" else days[i - 1])|
  {
    hide RowsAfter, RowsOf;
    var a := days[start..i];
    assert days[start..i + 1] == a + [days[i]];
    RowsConcat(a, [days[i]], 0, "");
    RowsOne(days[i], |a|, if a == [] then "" else a[|a| - 1]);
  }

  /** `rendered_rows_for_slice` */
  method RowsForSlice(days: seq<Day>, start: nat, end: nat) returns (rows: nat)
    requires start <= end <= |days|
    ensures rows == |Rows(days[start..end])|
  {
    rows := 0;
    var last := "";
    for i := start to end
      invariant rows == |Rows(days[start..i])| && last == (if i == start then "" else days[i - 1])
    {
      hide Rows;
      RowsNext(days, start, i);
      if days[i] != last {
        rows := rows + 1;
        last := days[i];
      }
      rows := rows + 1;
    }
  }

  /** `history_view_latest_start_for_height`: the smallest start from which
      everything fits, or the last message when not even that one fits. */
  method LatestStart(days: seq<Day>, height: int) returns (start: nat)
    requires Dated(days)
    ensures start <= |days| && (days != [] ==> start < |days|)
    ensures forall k :: 0 <= k < start ==> |Rows(days[k..])| > height
    ensures |Rows(days[start..])| <= height <==> height >= 2 || (days == [] && height >= 0)
    ensures |Rows(days[start..])| > height ==> days == [] || start == |days| - 1
  {
    var count := |days|;
    start := count;
    var candidate := count - 1;
    assert days[count..] == [];
    while candidate >= 0
      invariant -1 <= candidate == start - 1 < count
      invariant start < count ==> |Rows(days[start..])| <= height
      decreases candidate
    {
      var rows := RowsForSlice(days, candidate, count);
      assert days[candidate..count] == days[candidate..];
      if rows > height {
        break;
      }
      start := candidate;
      candidate := candidate - 1;
    }
    EarlierOverflows(days, start, height);
    if start == count && count > 0 {
      start := count - 1;
    }
    if count > 0 {
      LastAlone(days);
      MoreRows(days[start..]);
    }
  }

  lemma LastAlone(days: seq<Day>)
    requires days != [] && Dated(days)
    ensures Rows(days[|days| - 1..]) == [Divider(days[|days| - 1]), Line(0)]
  {
    assert days[|days| - 1..] == [days[|days| - 1]];
    RowsOne(days[|days| - 1], 0, "");
  }

  // ----- Printing

  /** One turn of the row loop: a divider if the day is new, then the message, as far as the height allows. */
  method PrintOne(rows: seq<Row>, day: Day, number: nat, last: Day, height: nat) returns (after: seq<Row>, full: bool)
    requires |rows| < height
    ensures full <==> |rows + RowsOf(day, number, last)| > height
    ensures after == (rows + RowsOf(day, number, last))[..Min(height, |rows + RowsOf(day, number, last)|)]
  {
    after, full := rows, false;
    if day != last {
      after := after + [Divider(day)];
      if |after| >= height {
        full := true;
        return;
      }
    }
    after := after + [Line(number)];
  }

  /** What one turn leaves to print. */
  lemma PrintedTurn(days: seq<Day>, rows: seq<Row>, i: nat, last: Day)
    requires i < |days|
    ensures rows + RowsAfter(days[i..], i, last)
      == rows + RowsOf(days[i], i, last) + RowsAfter(days[i + 1..], i + 1, days[i])
  {
    RowsFrom(days, i, last);
    hide *;
    Assoc(rows, RowsOf(days[i], i, last), RowsAfter(days[i + 1..], i + 1, days[i]));
  }

  /** The row loop: prints the rows in order until the height is used up. */
  method PrintRows(days: seq<Day>, height: nat) returns (rows: seq<Row>)
    ensures rows == Rows(days)[..Min(height, |Rows(days)|)]
  {
    rows := [];
    var last, i, full := "", 0, false;
    assert days[0..] == days && [] + Rows(days) == Rows(days);
    hide RowsAfter, RowsOf, Rows;
    while i < |days| && |rows| < height
      invariant i <= |days| && |rows| <= height
      invariant rows + RowsAfter(days[i..], i, last) == Rows(days)
      decreases |days| - i
    {
      PrintedTurn(days, rows, i, last);
      ghost var whole, rest := rows + RowsOf(days[i], i, last), RowsAfter(days[i + 1..], i + 1, days[i]);
      rows, full := PrintOne(rows, days[i], i, last, height);
      if full {
        TakeOf(whole, rest, height);
        return;
      }
      WholeTurn(whole, height);
      last := days[i];
      i := i + 1;
    }
    NoRows(days, i, last);
    TakeAll(rows, RowsAfter(days[i..], i, last), height);
  }

  lemma WholeTurn<T>(a: seq<T>, n: nat)
    requires |a| <= n
    ensures a[..Min(n, |a|)] == a
  {
  }

  lemma TakeOf<T>(a: seq<T>, b: seq<T>, n: nat)
    requires n < |a|
    ensures (a + b)[..Min(n, |a + b|)] == a[..Min(n, |a|)]
  {
  }

  lemma TakeAll<T>(a: seq<T>, b: seq<T>, n: nat)
    requires |a| <= n && (b == [] || |a| == n)
    ensures (a + b)[..Min(n, |a + b|)] == a
  {
  }

  lemma NoRows(days: seq<Day>, i: nat, last: Day)
    ensures i == |days| ==> RowsAfter(days[i..], i, last) == []
  {
  }

  lemma RowsFrom(days: seq<Day>, i: nat, last: Day)
    requires i < |days|
    ensures RowsAfter(days[i..], i, last) == RowsOf(days[i], i, last) + RowsAfter(days[i + 1..], i + 1, days[i])
  {
    assert days[i..][1..] == days[i + 1..];
  }

  /** The latest view: from two rows on, everything from the chosen start on is
      shown, down to the newest message; one row holds only its divider. */
  method ShowLatest(days: seq<Day>, height: nat) returns (start: nat, rows: seq<Row>)
    requires Dated(days)
    ensures start <= |days| && |rows| <= height
    ensures forall k :: 0 <= k < start ==> |Rows(days[k..])| > height
    ensures height >= 2 ==> rows == Rows(days[start..]) && forall k :: 0 <= k < |days| - start ==> Line(k) in rows
    ensures days != [] ==> start < |days| && (Line(|days| - 1 - start) in rows <==> height >= 2)
    ensures height == 1 && days != [] ==> rows == [Divider(days[|days| - 1])]
  {
    start := LatestStart(days, height);
    rows := PrintRows(days[start..], height);
    if height >= 2 {
      forall k | 0 <= k < |days| - start
        ensures Line(k) in rows
      {
        EveryLine(days[start..], 0, "", k);
      }
    } else if days != [] {
      LastAlone(days);
    }
  }
}
