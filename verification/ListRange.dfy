/** The scalar function for ranges: a first pass counts the values of every list, a second one writes them. */
module ListRange {
  import opened Timestamps
  import opened RangeSpec
  import opened RangeRuns

  datatype Length = TooLong | Counted(n: nat)

  /** Counts the values of a row; the cap makes it end, whatever the calendar does. */
  method ListLength(step: Step, row: Row, inclusive: bool) returns (length: Length)
    requires row.Row?
    ensures match ListOf(step, row, inclusive)
      case Fails => length == TooLong
      case Values(vals) => length == Counted(|vals|)
  {
    var isPositive, isNegative := row.inc.Positive(), row.inc.Negative();
    if !isNegative && !isPositive {
      return Counted(0);
    }
    if !IsFinite(row.start) || !IsFinite(row.end) {
      return TooLong;
    }
    if isNegative && isPositive {
      return TooLong;
    }
    if row.start > row.end && isPositive {
      return Counted(0);
    }
    if row.start < row.end && isNegative {
      return Counted(0);
    }
    var total, cur := 0, row.start;
    ghost var seen: seq<int> := [];
    while if isNegative then if inclusive then cur >= row.end else cur > row.end
          else if inclusive then cur <= row.end else cur < row.end
      invariant total == |seen| <= MAX_LIST
      invariant ListOf(step, row, inclusive)
        == Behind(seen, Limited(step, cur, row.end, row.inc, isPositive, inclusive, MAX_LIST - total))
      decreases MAX_LIST - total
    {
      LimitedStep(step, cur, row.end, row.inc, isPositive, inclusive, MAX_LIST - total);
      match step(cur, row.inc) {
        case OutOfRange => return TooLong;
        case Ok(next) =>
          if total + 1 > MAX_LIST {
            return TooLong;
          }
          BehindBehind(seen, [cur], Limited(step, next, row.end, row.inc, isPositive, inclusive, MAX_LIST - total - 1));
          seen := seen + [cur];
          cur := next;
          total := total + 1;
      }
    }
    length := Counted(total);
  }

  lemma LimitedStep(step: Step, cur: int, end: int, inc: Increment, up: bool, inclusive: bool, n: nat)
    requires !Finished(cur, end, up, inclusive)
    ensures Limited(step, cur, end, inc, up, inclusive, n) ==
      match step(cur, inc)
      case OutOfRange => Fails
      case Ok(next) => if n == 0 then Fails else Behind([cur], Limited(step, next, end, inc, up, inclusive, n - 1))
  {
  }

  /** The values follow each other by steps of the calendar, all of which succeed. */
  lemma {:induction false} ListFollowsSteps(step: Step, cur: int, end: int, inc: Increment, up: bool, inclusive: bool,
                                            n: nat, k: nat)
    requires Limited(step, cur, end, inc, up, inclusive, n).Values?
    requires k < |Limited(step, cur, end, inc, up, inclusive, n).vals|
    ensures
      var vals := Limited(step, cur, end, inc, up, inclusive, n).vals;
      if k == 0 then vals[0] == cur else step(vals[k - 1], inc) == Ok(vals[k])
    decreases k
  {
    if k != 0 {
      var next := step(cur, inc).ts;
      var later := Limited(step, next, end, inc, up, inclusive, n - 1);
      ListFollowsSteps(step, next, end, inc, up, inclusive, n - 1, k - 1);
      if k == 1 {
        ListFollowsSteps(step, next, end, inc, up, inclusive, n - 1, 0);
      }
    }
  }

  datatype Entry = Entry(offset: nat, length: nat, valid: bool)

  /** The list of a row has an entry of the length of its values, behind the entry before it. */
  ghost predicate EntryLaid(step: Step, rows: seq<Row>, inclusive: bool, entries: seq<Entry>, i: nat)
    requires i < |rows| && i < |entries|
  {
    && ListOf(step, rows[i], inclusive).Values?
    && entries[i].length == |ListOf(step, rows[i], inclusive).vals| && entries[i].valid == rows[i].Row?
    && entries[i].offset == if i == 0 then 0 else entries[i - 1].offset + entries[i - 1].length
  }

  /** Every list has its entry, one behind the other. */
  ghost predicate Laid(step: Step, rows: seq<Row>, inclusive: bool, entries: seq<Entry>, n: nat, total: nat)
    requires n <= |rows| && n <= |entries|
  {
    && (forall i | 0 <= i < n :: EntryLaid(step, rows, inclusive, entries, i))
    && total == if n == 0 then 0 else entries[n - 1].offset + entries[n - 1].length
  }

  /** The list of a row is in the child. */
  ghost predicate Written(step: Step, rows: seq<Row>, inclusive: bool, entries: seq<Entry>, child: seq<int>, i: nat)
    requires i < |rows| && i < |entries|
  {
    && ListOf(step, rows[i], inclusive).Values? && entries[i].offset + entries[i].length <= |child|
    && child[entries[i].offset..entries[i].offset + entries[i].length] == ListOf(step, rows[i], inclusive).vals
  }

  /** A list that ends where a write starts is still in the child after it. */
  lemma WrittenStays(step: Step, rows: seq<Row>, inclusive: bool, entries: seq<Entry>, before: seq<int>,
                     after: seq<int>, at: nat, k: nat)
    requires k < |rows| && k < |entries| && Written(step, rows, inclusive, entries, before, k)
    requires entries[k].offset + entries[k].length <= at <= |before| == |after| && after[..at] == before[..at]
    ensures Written(step, rows, inclusive, entries, after, k)
  {
    hide ListOf;
    SliceOfPrefix(before, at, entries[k].offset, entries[k].offset + entries[k].length);
    SliceOfPrefix(after, at, entries[k].offset, entries[k].offset + entries[k].length);
  }

  lemma SliceOfPrefix(s: seq<int>, at: nat, from: nat, to: nat)
    requires from <= to <= at <= |s|
    ensures s[..at][from..to] == s[from..to]
  {
  }

  lemma {:induction false} EntriesFit(step: Step, rows: seq<Row>, inclusive: bool, entries: seq<Entry>, n: nat,
                                      total: nat, i: nat)
    requires n <= |rows| && n <= |entries| && Laid(step, rows, inclusive, entries, n, total) && i < n
    ensures entries[i].offset + entries[i].length <= total
    decreases n - i
  {
    if i + 1 < n {
      assert EntryLaid(step, rows, inclusive, entries, i + 1);
      EntriesFit(step, rows, inclusive, entries, n, total, i + 1);
    }
  }

  lemma LaidMore(step: Step, rows: seq<Row>, inclusive: bool, entries: seq<Entry>, n: nat, total: nat, more: seq<Entry>)
    requires n < |rows| && n < |entries| && |more| == |entries| && Laid(step, rows, inclusive, entries, n, total)
    requires ListOf(step, rows[n], inclusive).Values? && more[..n] == entries[..n]
    requires more[n] == Entry(total, |ListOf(step, rows[n], inclusive).vals|, rows[n].Row?)
    ensures Laid(step, rows, inclusive, more, n + 1, total + more[n].length)
  {
    hide ListOf;
    forall i | 0 <= i < n ensures EntryLaid(step, rows, inclusive, more, i) {
      assert EntryLaid(step, rows, inclusive, entries, i);
      assert more[i] == more[..n][i] == entries[..n][i] == entries[i];
      assert i != 0 ==> more[i - 1] == more[..n][i - 1] == entries[..n][i - 1] == entries[i - 1];
    }
    assert n != 0 ==> more[n - 1] == more[..n][n - 1] == entries[..n][n - 1] == entries[n - 1];
  }

  /** The first pass: an entry for every row. */
  method CountLists(step: Step, rows: seq<Row>, inclusive: bool, entries: array<Entry>)
    returns (failed: bool, total: nat)
    requires entries.Length == |rows|
    modifies entries
    ensures failed <==> exists i :: 0 <= i < |rows| && ListOf(step, rows[i], inclusive).Fails?
    ensures !failed ==> Laid(step, rows, inclusive, entries[..], |rows|, total)
  {
    hide ListOf, Laid;
    total := 0;
    LaidNone(step, rows, inclusive, entries[..]);
    for i := 0 to |rows|
      invariant Laid(step, rows, inclusive, entries[..], i, total)
      invariant forall k | 0 <= k < i :: ListOf(step, rows[k], inclusive).Values?
    {
      ghost var before := entries[..];
      var length := 0;
      if rows[i].NullRow? {
        NullIsEmpty(step, rows[i], inclusive);
        entries[i] := Entry(total, 0, false);
      } else {
        var counted := ListLength(step, rows[i], inclusive);
        if counted.TooLong? {
          return true, total;
        }
        length := counted.n;
        entries[i] := Entry(total, length, true);
      }
      LaidMore(step, rows, inclusive, before, i, total, entries[..]);
      total := total + length;
    }
    failed := false;
  }

  lemma LaidNone(step: Step, rows: seq<Row>, inclusive: bool, entries: seq<Entry>)
    ensures Laid(step, rows, inclusive, entries, 0, 0)
  {
  }

  lemma NullIsEmpty(step: Step, row: Row, inclusive: bool)
    requires row.NullRow?
    ensures ListOf(step, row, inclusive) == Values([])
  {
  }

  /** Builds the lists of all rows, or fails. */
  method ICUListRangeFunction(step: Step, rows: seq<Row>, inclusive: bool)
    returns (failed: bool, entries: array<Entry>, child: array<int>)
    ensures failed <==> exists i :: 0 <= i < |rows| && ListOf(step, rows[i], inclusive).Fails?
    ensures !failed ==>
      && entries.Length == |rows| && Laid(step, rows, inclusive, entries[..], |rows|, child.Length)
      && forall i | 0 <= i < |rows| :: Written(step, rows, inclusive, entries[..], child[..], i)
  {
    hide ListOf, Laid, EntryLaid;
    entries := new Entry[|rows|](_ => Entry(0, 0, false));
    var total;
    failed, total := CountLists(step, rows, inclusive, entries);
    if failed {
      child := new int[0];
      return;
    }

    // the second pass: all lists are accepted, and their places known
    child := new int[total];
    ghost var laid := entries[..];
    var totalIdx := 0;
    for i := 0 to |rows|
      invariant entries[..] == laid && child.Length == total && totalIdx == StartOf(laid, i)
      invariant forall k | 0 <= k < i :: Written(step, rows, inclusive, laid, child[..], k)
    {
      EntriesFit(step, rows, inclusive, laid, |rows|, total, i);
      EntryStarts(step, rows, inclusive, laid, |rows|, total, i);
      ghost var before := child[..];
      WriteList(step, rows[i], inclusive, entries[i].length, child, totalIdx);
      forall k | 0 <= k < i ensures Written(step, rows, inclusive, laid, child[..], k) {
        EntriesApart(step, rows, inclusive, laid, |rows|, total, k, i);
        WrittenStays(step, rows, inclusive, laid, before, child[..], totalIdx, k);
      }
      totalIdx := totalIdx + entries[i].length;
    }
  }

  /** Where the list behind the first `i` starts. */
  ghost function StartOf(entries: seq<Entry>, i: nat): nat
    requires i <= |entries|
  {
    if i == 0 then 0 else entries[i - 1].offset + entries[i - 1].length
  }

  lemma EntryStarts(step: Step, rows: seq<Row>, inclusive: bool, entries: seq<Entry>, n: nat, total: nat, i: nat)
    requires n <= |rows| && n <= |entries| && Laid(step, rows, inclusive, entries, n, total) && i < n
    ensures entries[i].offset == StartOf(entries, i) && ListOf(step, rows[i], inclusive).Values?
    ensures entries[i].length == |ListOf(step, rows[i], inclusive).vals|
  {
    hide ListOf;
    assert EntryLaid(step, rows, inclusive, entries, i);
  }

  lemma {:induction false} EntriesApart(step: Step, rows: seq<Row>, inclusive: bool, entries: seq<Entry>, n: nat,
                                        total: nat, k: nat, i: nat)
    requires n <= |rows| && n <= |entries| && Laid(step, rows, inclusive, entries, n, total) && k < i < n
    ensures entries[k].offset + entries[k].length <= entries[i].offset
    decreases i - k
  {
    hide ListOf;
    assert EntryLaid(step, rows, inclusive, entries, k + 1);
    if k + 1 < i {
      EntriesApart(step, rows, inclusive, entries, n, total, k + 1, i);
    }
  }

  lemma ListSteps(step: Step, row: Row, inclusive: bool, k: nat)
    requires ListOf(step, row, inclusive).Values? && k < |ListOf(step, row, inclusive).vals|
    ensures row.Row?
    ensures
      var vals := ListOf(step, row, inclusive).vals;
      if k == 0 then vals[0] == row.start else step(vals[k - 1], row.inc) == Ok(vals[k])
  {
    ListFollowsSteps(step, row.start, row.end, row.inc, row.Up(), inclusive, MAX_LIST, k);
  }

  /** Writes the list of one row, making the steps of the first pass again. */
  method WriteList(step: Step, row: Row, inclusive: bool, length: nat, child: array<int>, at: nat)
    requires ListOf(step, row, inclusive).Values? && |ListOf(step, row, inclusive).vals| == length
    requires at + length <= child.Length
    modifies child
    ensures child[at..at + length] == ListOf(step, row, inclusive).vals
    ensures child[..at] == old(child[..at]) && child[at + length..] == old(child[at + length..])
  {
    hide ListOf;
    ghost var vals := ListOf(step, row, inclusive).vals;
    var value, idx := if row.Row? then row.start else 0, at;
    for k := 0 to length
      invariant idx == at + k && value == if k != 0 then vals[k - 1] else if row.Row? then row.start else 0
      invariant child[at..at + k] == vals[..k]
      invariant forall j | 0 <= j < child.Length && !(at <= j < at + length) :: child[j] == old(child[j])
    {
      ListSteps(step, row, inclusive, k);
      if k > 0 {
        value := step(value, row.inc).ts;
      }
      child[idx] := value;
      idx := idx + 1;
      assert child[at..at + k + 1] == child[at..at + k] + [value];
    }
    assert vals[..length] == vals;
    assert child[..at] == old(child[..at]);
    assert child[at + length..] == old(child[at + length..]);
  }
}
