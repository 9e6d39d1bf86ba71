/**
 What a table means to its clients: one sequence of rows, with no pages, no cache and
 no file.  The paged store is measured against these functions.
 */
module FlatTable {
  import opened Common

  /** The three answers of a row filter: 1, 0 and -1. */
  datatype Verdict = Pass | Reject | Stop

  /** What a fetch gives its client: a row, or word that there is none. */
  datatype Reply<+R> = Row(row: R) | LastRow

  /** The next row at or after `rec` that passes, and where the cursor is left. */
  function Fetch<R>(rows: seq<R>, rec: nat, filter: R -> Verdict): (res: (Reply<R>, nat))
    decreases |rows| - rec
  {
    if |rows| <= rec then (LastRow, rec)
    else match filter(rows[rec])
      case Pass => (Row(rows[rec]), rec + 1)
      case Stop => (LastRow, rec)
      case Reject => Fetch(rows, rec + 1, filter)
  }

  /** Every row from `i` on that passes is mapped, up to the first row that stops the pass. */
  function Sweep<R>(rows: seq<R>, i: nat, filter: R -> Verdict, f: R -> R): (rows': seq<R>)
    ensures |rows'| == |rows|
    decreases |rows| - i
  {
    if |rows| <= i then rows
    else match filter(rows[i])
      case Pass => Sweep(rows[i := f(rows[i])], i + 1, filter, f)
      case Stop => rows
      case Reject => Sweep(rows, i + 1, filter, f)
  }

  /** One row only, if it is there and passes. */
  function UpdateOne<R>(rows: seq<R>, rec: nat, filter: R -> Verdict, f: R -> R): (rows': seq<R>) {
    if rec < |rows| && filter(rows[rec]).Pass? then rows[rec := f(rows[rec])] else rows
  }

  // ----------------------------------------------------------- what sweeps do

  /** How many rows, from `i` on, a pass looks at before one stops it. */
  function StopAt<R>(rows: seq<R>, i: nat, filter: R -> Verdict): (n: nat)
    requires i <= |rows|
    ensures i <= n <= |rows|
    ensures n < |rows| ==> filter(rows[n]).Stop?
    ensures forall j | i <= j < n :: !filter(rows[j]).Stop?
    decreases |rows| - i
  {
    if i == |rows| || filter(rows[i]).Stop? then i else StopAt(rows, i + 1, filter)
  }

  /** A sweep is one pass of a per-row map over the rows before the first that stops it. */
  lemma {:induction false} SweepIsMap<R>(rows: seq<R>, i: nat, filter: R -> Verdict, f: R -> R)
    requires i <= |rows|
    ensures forall j | 0 <= j < |rows| ::
      Sweep(rows, i, filter, f)[j] ==
        (if i <= j < StopAt(rows, i, filter) && filter(rows[j]).Pass? then f(rows[j]) else rows[j])
    decreases |rows| - i
  {
    if i < |rows| && !filter(rows[i]).Stop? {
      var rows' := if filter(rows[i]).Pass? then rows[i := f(rows[i])] else rows;
      SweepIsMap(rows', i + 1, filter, f);
      SameStop(rows, rows', i + 1, filter);
    }
  }

  lemma {:induction false} SameStop<R>(rows: seq<R>, rows': seq<R>, i: nat, filter: R -> Verdict)
    requires i <= |rows| == |rows'| && rows[i..] == rows'[i..]
    ensures StopAt(rows, i, filter) == StopAt(rows', i, filter)
    decreases |rows| - i
  {
    if i < |rows| {
      assert rows[i] == rows[i..][0] == rows'[i];
      assert rows[i + 1..] == rows[i..][1..] == rows'[i + 1..];
      SameStop(rows, rows', i + 1, filter);
    }
  }

  // ---------------------------------------------------------- what fetches do

  /** The rows a client is to be shown: those that pass, up to the first that stops. */
  function Selected<R>(rows: seq<R>, i: nat, filter: R -> Verdict): seq<R>
    decreases |rows| - i
  {
    if |rows| <= i || filter(rows[i]).Stop? then []
    else (if filter(rows[i]).Pass? then [rows[i]] else []) + Selected(rows, i + 1, filter)
  }

  /** `n` fetches in a row from a cursor. */
  function FetchMany<R>(rows: seq<R>, rec: nat, filter: R -> Verdict, n: nat): (seq<Reply<R>>, nat)
    decreases n
  {
    if n == 0 then ([], rec)
    else
      var (reply, rec') := Fetch(rows, rec, filter);
      var (replies, rec'') := FetchMany(rows, rec', filter, n - 1);
      ([reply] + replies, rec'')
  }

  /** What the `n` replies have to be: the selected rows in order, then nothing more. */
  function Expected<R>(selected: seq<R>, n: nat): (replies: seq<Reply<R>>)
    ensures |replies| == n
  {
    seq(n, k requires 0 <= k < n => if k < |selected| then Row(selected[k]) else LastRow)
  }

  lemma {:induction false} FetchIsSelected<R>(rows: seq<R>, rec: nat, filter: R -> Verdict)
    ensures var (reply, rec') := Fetch(rows, rec, filter);
      if Selected(rows, rec, filter) == [] then
        reply == LastRow && Selected(rows, rec', filter) == []
      else
        reply == Row(Selected(rows, rec, filter)[0])
        && Selected(rows, rec', filter) == Selected(rows, rec, filter)[1..]
    decreases |rows| - rec
  {
    if rec < |rows| && filter(rows[rec]).Reject? {
      FetchIsSelected(rows, rec + 1, filter);
    }
  }

  /** Successive fetches give exactly the selected rows, in order and once each, then LASTROW for ever. */
  lemma {:induction false} FetchIsComplete<R>(rows: seq<R>, rec: nat, filter: R -> Verdict, n: nat)
    ensures FetchMany(rows, rec, filter, n).0 == Expected(Selected(rows, rec, filter), n)
    decreases n
  {
    if n != 0 {
      var (reply, rec') := Fetch(rows, rec, filter);
      FetchIsSelected(rows, rec, filter);
      FetchIsComplete(rows, rec', filter, n - 1);
      var sel, sel' := Selected(rows, rec, filter), Selected(rows, rec', filter);
      forall k | 0 <= k < n ensures ([reply] + Expected(sel', n - 1))[k] == Expected(sel, n)[k] {
      }
    }
  }
}
