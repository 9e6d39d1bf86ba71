/**
 What clients get from the requests, in terms of the rules, rows and values they send.
 */
module ClientView {
  import opened Common
  import opened FlatTable
  import opened Layout
  import opened Arithmetic
  import opened Pager
  import opened Requests

  // --------------------------------------------------------------------- rules

  predicate Live(row: Row) {
    Key(row) != 0
  }

  ghost predicate MeetsAll(rules: seq<Rule>, row: Row) {
    forall k | 0 <= k < |rules| :: rules[k].matches(row)
  }

  /** Rule `k` is the first, from the newest on, that the row fails. */
  ghost predicate FailsFirst(rules: seq<Rule>, row: Row, k: nat) {
    k < |rules| && !rules[k].matches(row) && forall j | 0 <= j < k :: rules[j].matches(row)
  }

  /** The row is there and meets all rules. */
  ghost predicate Shown(rules: seq<Rule>, row: Row) {
    Live(row) && MeetsAll(rules, row)
  }

  /** The row is there and the first rule it fails is strict. */
  ghost predicate Bars(rules: seq<Rule>, row: Row) {
    Live(row) && exists k: nat :: FailsFirst(rules, row, k) && rules[k].strict
  }

  /** A row passes if it is there and meets every rule; the first rule it fails says what happens otherwise. */
  lemma FilterDecides(rules: seq<Rule>, row: Row)
    ensures Filter(rules)(row).Pass? <==> Live(row) && forall k | 0 <= k < |rules| :: rules[k].matches(row)
    ensures !Live(row) ==> Filter(rules)(row).Reject?
    ensures forall k: nat | Live(row) && FailsFirst(rules, row, k) ::
      Filter(rules)(row) == if rules[k].strict then Stop else Reject
  {
    hide Key;
    RulingDecides(rules, row);
  }

  lemma {:induction false} RulingDecides(rules: seq<Rule>, row: Row)
    ensures Ruling(rules, row).Pass? <==> MeetsAll(rules, row)
    ensures forall k: nat | FailsFirst(rules, row, k) :: Ruling(rules, row) == if rules[k].strict then Stop else Reject
    ensures !MeetsAll(rules, row) ==> exists k: nat :: FailsFirst(rules, row, k)
  {
    if rules != [] {
      if rules[0].matches(row) {
        RulingDecides(rules[1..], row);
        OneRuleMore(rules[0], rules[1..], row);
        assert [rules[0]] + rules[1..] == rules;
      } else {
        assert FailsFirst(rules, row, 0);
      }
    }
  }

  /** A newest rule that the row meets decides nothing. */
  lemma OneRuleMore(rule: Rule, rules: seq<Rule>, row: Row)
    requires rule.matches(row)
    ensures MeetsAll([rule] + rules, row) <==> MeetsAll(rules, row)
    ensures forall k: nat :: FailsFirst(rules, row, k) <==> FailsFirst([rule] + rules, row, k + 1)
    ensures !FailsFirst([rule] + rules, row, 0)
  {
    var all := [rule] + rules;
    assert all[0] == rule && forall j | 0 <= j < |rules| :: all[j + 1] == rules[j];
    assert forall j | 0 < j < |all| :: all[j] == rules[j - 1];
  }

  lemma FilterIs(rules: seq<Rule>, row: Row)
    ensures Filter(rules)(row) == if Shown(rules, row) then Pass else if Bars(rules, row) then Stop else Reject
    ensures !(Shown(rules, row) && Bars(rules, row))
  {
    hide Live, Filter, Ruling;
    FilterDecides(rules, row);
    RulingDecides(rules, row);
    NotBoth(rules, row);
  }

  lemma NotBoth(rules: seq<Rule>, row: Row)
    ensures !(Shown(rules, row) && Bars(rules, row))
  {
    hide Live;
    if Bars(rules, row) {
      var k: nat :| FailsFirst(rules, row, k);
      assert !rules[k].matches(row);
    }
  }

  // ------------------------------------------------------------------- reading

  /** The rows to be shown, up to the first that bars those behind it. */
  ghost function ShownRows(rules: seq<Rule>, rows: seq<Row>): (shown: seq<Row>) {
    if rows == [] || Bars(rules, rows[0]) then []
    else (if Shown(rules, rows[0]) then [rows[0]] else []) + ShownRows(rules, rows[1..])
  }

  lemma {:induction false} SelectedIsShown(rules: seq<Rule>, rows: seq<Row>, i: nat)
    requires i <= |rows|
    ensures Selected(rows, i, Filter(rules)) == ShownRows(rules, rows[i..])
    decreases |rows| - i
  {
    hide Filter, Shown, Bars;
    if i < |rows| {
      FilterIs(rules, rows[i]);
      assert rows[i..][0] == rows[i] && rows[i..][1..] == rows[i + 1..];
      SelectedIsShown(rules, rows, i + 1);
    } else {
      assert rows[i..] == [];
    }
  }

  function Fetches(c: nat, n: nat): (events: seq<Event>)
    ensures |events| == n && forall i | 0 <= i < n :: events[i].conn == c
  {
    if n == 0 then [] else [Event(c, Fetch)] + Fetches(c, n - 1)
  }

  /** These rows in order, and then word that there are no more. */
  function RowsThenLast(rows: seq<Row>, n: nat): (answers: seq<Answer>)
    ensures |answers| == n
  {
    seq(n, k requires 0 <= k < n => if k < |rows| then Data(rows[k]) else Done(E_LASTROW))
  }

  lemma {:induction false} FetchesGiveRows(schema: Schema, fs: FlatServer, c: nat, n: nat)
    requires c < |fs.conns|
    ensures FlatRun(schema, fs, Fetches(c, n)).1
      == RowsThenLast(Selected(fs.rows, fs.conns[c].record, Filter(fs.conns[c].rules)), n)
    decreases n
  {
    hide FlatTable.Fetch, Selected, Filter;
    if n != 0 {
      var filter := Filter(fs.conns[c].rules);
      var fs' := FlatStep(schema, fs, Event(c, Fetch)).0;
      FetchIsSelected(fs.rows, fs.conns[c].record, filter);
      FetchesGiveRows(schema, fs', c, n - 1);
      assert Fetches(c, n)[1..] == Fetches(c, n - 1);
    }
  }

  /** The rules of a connection after a request that leaves its cursor on the first row. */
  predicate Rewinds(req: Request) {
    req.FetchReset? || req.FilterPush? || req.FilterClear?
  }

  function RulesAfter(rules: seq<Rule>, req: Request): seq<Rule> {
    match req
    case FilterPush(rule) => [rule] + rules
    case FilterClear => []
    case _ => rules
  }

  /**
   A connection resets its cursor, adds a rule or drops all of them, and then fetches `n`
   times: it gets the rows that are there and meet all its rules, in order, up to the first
   there is whose first failing rule is strict, and then LASTROW.
   */
  lemma ReadThrough(schema: Schema, sv: Server, c: nat, req: Request, n: nat)
    requires Valid(sv.store) && c < |sv.conns| && Rewinds(req)
    requires CalmRun(schema, sv, [Event(c, req)] + Fetches(c, n))
    ensures Run(schema, sv, [Event(c, req)] + Fetches(c, n)).1
      == [Done(E_OK)] + RowsThenLast(ShownRows(RulesAfter(sv.conns[c].rules, req), Contents(sv.store)), n)
  {
    hide Valid, Contents, CalmRun, Run, Selected, Filter, ShownRows;
    var events := [Event(c, req)] + Fetches(c, n);
    RunRefines(schema, sv, events);
    var fs := FlatStep(schema, Flat(sv), events[0]).0;
    assert events[1..] == Fetches(c, n);
    FetchesGiveRows(schema, fs, c, n);
    SelectedIsShown(fs.conns[c].rules, fs.rows, 0);
    assert fs.rows[0..] == fs.rows;
  }

  /** Without rules all rows that are there are shown; more rules show fewer of them. */
  lemma MoreRulesShowLess(rules: seq<Rule>, rule: Rule, row: Row)
    ensures Shown([], row) <==> Live(row)
    ensures !Bars([], row)
    ensures Shown([rule] + rules, row) <==> rule.matches(row) && Shown(rules, row)
    ensures Bars([rule] + rules, row) <==>
      Live(row) && if rule.matches(row) then Bars(rules, row) else rule.strict
  {
    hide Live;
    var all := [rule] + rules;
    assert forall k: nat :: !FailsFirst([], row, k);
    if rule.matches(row) {
      OneRuleMore(rule, rules, row);
      if Bars(all, row) {
        var k: nat :| FailsFirst(all, row, k) && all[k].strict;
        assert FailsFirst(rules, row, k - 1) && rules[k - 1] == all[k];
      }
      if Bars(rules, row) {
        var k: nat :| FailsFirst(rules, row, k) && rules[k].strict;
        assert FailsFirst(all, row, k + 1) && all[k + 1] == rules[k];
      }
    } else {
      assert FailsFirst(all, row, 0) && all[0] == rule;
      assert !MeetsAll(all, row) by { assert !all[0].matches(row); }
    }
  }

  /** Adding a rule and taking the newest away again gives the rules back, the cursor on the first row. */
  lemma PopUndoesPush(schema: Schema, rows: seq<Row>, conn: Conn, rule: Rule)
    ensures var (rows1, conn1, answer1) := RowsStep(schema, rows, conn, FilterPush(rule));
      var (rows2, conn2, answer2) := RowsStep(schema, rows1, conn1, FilterPop);
      rows2 == rows1 == rows && conn2.rules == conn.rules && conn2.record == 0 && answer1 == answer2 == Done(E_OK)
  {
    assert ([rule] + conn.rules)[1..] == conn.rules;
  }

  // ------------------------------------------------------------------- changing

  /** The row is to be shown, and none before it bars it. */
  ghost predicate Reached(rules: seq<Rule>, rows: seq<Row>, i: nat)
    requires i < |rows|
  {
    Shown(rules, rows[i]) && forall j | 0 <= j < i :: !Bars(rules, rows[j])
  }

  /** No row from `i` to `j` bars those behind it. */
  ghost predicate Unbarred(rules: seq<Rule>, rows: seq<Row>, i: nat, j: int) {
    forall m | i <= m <= j && m < |rows| :: !Bars(rules, rows[m])
  }

  lemma {:induction false} StopIsBar(rules: seq<Rule>, rows: seq<Row>, i: nat)
    requires i <= |rows|
    ensures forall j | i <= j < |rows| ::
      Unbarred(rules, rows, i, j) <==> j < StopAt(rows, i, Filter(rules))
    decreases |rows| - i
  {
    hide Filter, Shown, Bars;
    if i < |rows| {
      FilterIs(rules, rows[i]);
      StopIsBar(rules, rows, i + 1);
      forall j | i <= j < |rows| ensures Unbarred(rules, rows, i, j) <==> j < StopAt(rows, i, Filter(rules)) {
        assert Unbarred(rules, rows, i, j) <==> !Bars(rules, rows[i]) && Unbarred(rules, rows, i + 1, j);
        if j == i { assert Unbarred(rules, rows, i + 1, j); }
      }
    }
  }

  /** UPDATE and DELETE change the rows they reach and no other. */
  lemma SweepChangesReached(rules: seq<Rule>, rows: seq<Row>, f: Row -> Row)
    ensures var rows' := Sweep(rows, 0, Filter(rules), f);
      forall i | 0 <= i < |rows| :: rows'[i] == if Reached(rules, rows, i) then f(rows[i]) else rows[i]
  {
    hide Filter, Shown, Bars, Sweep, StopAt;
    SweepIsMap(rows, 0, Filter(rules), f);
    StopIsBar(rules, rows, 0);
    forall i | 0 <= i < |rows|
      ensures Sweep(rows, 0, Filter(rules), f)[i] == if Reached(rules, rows, i) then f(rows[i]) else rows[i]
    {
      FilterIs(rules, rows[i]);
      assert Reached(rules, rows, i) <==> Shown(rules, rows[i]) && Unbarred(rules, rows, 0, i);
    }
  }

  /** DELETE: the rows it reaches have key 0 and are otherwise as they were; all others are as they were. */
  lemma DeleteClearsKeys(schema: Schema, rows: seq<Row>, conn: Conn)
    ensures var (rows', conn', answer) := RowsStep(schema, rows, conn, DeleteRows);
      && answer == Done(E_OK) && |rows'| == |rows| && conn' == conn.(errno := E_OK)
      && forall i | 0 <= i < |rows| ::
           if Reached(conn.rules, rows, i) then
             |rows'[i]| == |rows[i]| && !Live(rows'[i]) && rows'[i][4..] == rows[i][4..]
           else rows'[i] == rows[i]
  {
    hide Key, Filter, Reached, Sweep;
    SweepChangesReached(conn.rules, rows, Deleter());
    forall i | 0 <= i < |rows| && Reached(conn.rules, rows, i)
      ensures 4 <= |rows[i]| && Key(WithKey(rows[i], 0)) == 0 && WithKey(rows[i], 0)[4..] == rows[i][4..]
    {
      ReachedIsLive(conn.rules, rows, i);
      KeyWritten(rows[i], 0);
      BehindKey(rows[i], 0);
    }
  }

  lemma ReachedIsLive(rules: seq<Rule>, rows: seq<Row>, i: nat)
    requires i < |rows| && Reached(rules, rows, i)
    ensures Live(rows[i]) && 4 <= |rows[i]|
  {
  }

  lemma BehindKey(row: Row, key: nat)
    requires 4 <= |row|
    ensures WithKey(row, key)[4..] == row[4..]
  {
    hide Bytes;
  }

  /** UPDATE: every field of a row it reaches is what its own action makes of it; all other rows are as they were. */
  lemma UpdateComputes(schema: Schema, rows: seq<Row>, conn: Conn, update: Update)
    requires schema.Ok() && UpdateFits(schema.fields, update)
    requires forall i | 0 <= i < |rows| :: |rows[i]| == schema.RowLen()
    ensures var (rows', conn', answer) := RowsStep(schema, rows, conn, UpdateRows(update));
      && answer == Done(E_OK) && |rows'| == |rows| && conn' == conn.(errno := E_OK)
      && forall i | 0 <= i < |rows| ::
           |rows'[i]| == |rows[i]|
           && if Reached(conn.rules, rows, i) then Updated(schema, update, rows[i], rows'[i])
              else rows'[i] == rows[i]
  {
    hide Key, Filter, Reached, Sweep, Updater, Updated;
    SweepChangesReached(conn.rules, rows, Updater(schema, update));
    forall i | 0 <= i < |rows| && Reached(conn.rules, rows, i)
      ensures |Updater(schema, update)(rows[i])| == |rows[i]|
      ensures Updated(schema, update, rows[i], Updater(schema, update)(rows[i]))
    {
      UpdaterPerforms(schema, update, rows[i]);
    }
  }

  /** Each field is what its own action makes of it. */
  ghost predicate Updated(schema: Schema, update: Update, row: Row, row': Row) {
    && Fits(schema.fields, row) && Fits(schema.fields, row') && UpdateFits(schema.fields, update)
    && forall i | 0 <= i < |schema.fields| ::
      Performed(schema.fields[i], update.actions[i], FieldOf(schema.fields, row, i),
                FieldOf(schema.fields, update.values, i), FieldOf(schema.fields, row', i), schema.dbl)
  }

  lemma UpdaterPerforms(schema: Schema, update: Update, row: Row)
    requires schema.Ok() && UpdateFits(schema.fields, update) && |row| == schema.RowLen()
    ensures var row' := Updater(schema, update)(row);
      |row'| == |row| && Updated(schema, update, row, row')
  {
    hide Apply, Performed, FieldOf, Offset;
    SizedInRow(schema.fields);
    forall i: nat | i < |schema.fields| {
      UpdatePerforms(schema.fields, update, row, schema.dbl, i);
    }
  }

  /** An UPDATE or UPDCUR with too few or too many actions or values is refused. */
  lemma MalformedIsRefused(schema: Schema, rows: seq<Row>, conn: Conn, req: Request)
    requires Tiled(schema.fields) && (req.UpdateRows? || req.UpdateCurrent?)
    requires |req.update.actions| != |schema.fields| || |req.update.values| != schema.RowLen()
    ensures RowsStep(schema, rows, conn, req) == (rows, conn.(errno := E_BUF), Done(E_BUF))
  {
  }

  /** The code last answered is remembered: a row counts as success, a row stored leaves the code before it. */
  lemma RemembersAnswer(schema: Schema, rows: seq<Row>, conn: Conn, req: Request)
    ensures var (rows', conn', answer) := RowsStep(schema, rows, conn, req);
      match answer
      case Data(_) => req.Fetch? && conn'.errno == E_OK
      case Done(code) => if req.Insert? && code == E_OK then conn'.errno == conn.errno else conn'.errno == code
  {
    hide FlatTable.Fetch, Filter, Sweep;
  }

  /** SEEK to a key and then UPDCUR, on the row of that key. */
  lemma SeekThenCompute(schema: Schema, rows: seq<Row>, conn: Conn, key: nat, update: Update)
    requires schema.Ok() && Keyed(schema, rows) && 0 < key <= |rows| && UpdateFits(schema.fields, update)
    ensures var (rows1, conn1, answer1) := RowsStep(schema, rows, conn, Seek(key));
      var (rows2, conn2, answer2) := RowsStep(schema, rows1, conn1, UpdateCurrent(update));
      && |rows2| == |rows| && (forall i | 0 <= i < |rows| && i != key - 1 :: rows2[i] == rows[i])
      && |rows2[key - 1]| == |rows[key - 1]|
      && if Shown(conn.rules, rows[key - 1]) then Updated(schema, update, rows[key - 1], rows2[key - 1])
         else rows2[key - 1] == rows[key - 1]
  {
    hide Key, Filter, Updater, Updated, Shown, Bars;
    FilterIs(conn.rules, rows[key - 1]);
    UpdaterPerforms(schema, update, rows[key - 1]);
  }

  /** A row sent is appended under the next key, its other octets as sent; one too short is refused. */
  lemma InsertAppends(schema: Schema, rows: seq<Row>, conn: Conn, row: Row)
    requires 4 <= schema.RowLen() && |rows| < 0xFFFF_FFFF
    ensures var (rows', conn', answer) := RowsStep(schema, rows, conn, Insert(row));
      if |row| < schema.RowLen() then
        rows' == rows && answer == Done(E_BUF) && conn' == conn.(errno := E_BUF)
      else
        && |rows'| == |rows| + 1 && rows'[..|rows|] == rows && |rows'[|rows|]| == schema.RowLen()
        && Key(rows'[|rows|]) == |rows| + 1 && rows'[|rows|][4..] == row[4..schema.RowLen()]
        && answer == Done(E_OK) && conn' == conn.(record := |rows|)
  {
    hide Key;
    if schema.RowLen() <= |row| {
      KeyWritten(row[..schema.RowLen()], |rows| + 1);
      BehindKey(row[..schema.RowLen()], |rows| + 1);
      assert row[..schema.RowLen()][4..] == row[4..schema.RowLen()];
    }
  }

  /** SEEK takes the keys of the table and one more, and otherwise leaves the cursor on the first row. */
  lemma SeekAnswers(schema: Schema, rows: seq<Row>, conn: Conn, key: nat)
    requires |rows| < 0xFFFF_FFFF
    ensures var (rows', conn', answer) := RowsStep(schema, rows, conn, Seek(key));
      && rows' == rows && conn'.rules == conn.rules
      && if 1 <= key <= |rows| + 1 then answer == Done(E_OK) && conn'.record + 1 == key
         else answer == Done(E_PKEY) && conn'.record == 0
  {
  }
}
