/**
 A run of requests, from a table just created, in which the code loses an update.

 The table has one row to a page and three pages in memory.  Five rows are inserted and
 flushed, the first is fetched, the third updated, and fetching the second overwrites the
 page of the third.
 */
module LostUpdate {
  import opened Common
  import opened FlatTable
  import opened Layout
  import opened Pager
  import opened Requests

  // ------------------------------------------------------------------- the requests

  function Inserts(row: Row, n: nat): (events: seq<Event>)
    ensures Addressed(events, 1)
  {
    if n == 0 then [] else [Event(0, Insert(row))] + Inserts(row, n - 1)
  }

  function FetchSecond(): (events: seq<Event>)
    ensures Addressed(events, 1)
  {
    [Event(0, Fetch)]
  }

  function SeekSecond(): seq<Event> {
    [Event(0, Seek(2))]
  }

  function UpdateThird(update: Update): seq<Event> {
    [Event(0, UpdateCurrent(update))] + SeekSecond()
  }

  function SeekThird(update: Update): seq<Event> {
    [Event(0, Seek(3))] + UpdateThird(update)
  }

  function FetchFirst(update: Update): seq<Event> {
    [Event(0, Fetch)] + SeekThird(update)
  }

  function Rewind(update: Update): seq<Event> {
    [Event(0, FetchReset)] + FetchFirst(update)
  }

  function FlushAll(update: Update): seq<Event> {
    [Event(0, Flush)] + Rewind(update)
  }

  function LosingRun(row: Row, update: Update): (events: seq<Event>)
    ensures Addressed(events, 1)
  {
    Inserts(row, 5) + FlushAll(update) + FetchSecond()
  }

  // -------------------------------------------------------------------- runs in parts

  lemma {:induction false} RunAppend(schema: Schema, sv: Server, a: seq<Event>, b: seq<Event>)
    requires Valid(sv.store) && Addressed(a, |sv.conns|) && Addressed(b, |sv.conns|)
    ensures Addressed(a + b, |sv.conns|) && |Run(schema, sv, a).0.conns| == |sv.conns|
    ensures Run(schema, sv, a + b).0 == Run(schema, Run(schema, sv, a).0, b).0
    ensures CalmRun(schema, sv, a + b) <==> CalmRun(schema, sv, a) && CalmRun(schema, Run(schema, sv, a).0, b)
    decreases |a|
  {
    hide Valid, Step, Calm;
    if a == [] {
      assert a + b == b;
    } else {
      assert (a + b)[0] == a[0] && (a + b)[1..] == a[1..] + b;
      RunAppend(schema, Step(schema, sv, a[0]).0, a[1..], b);
    }
  }

  lemma {:induction false} FlatRunAppend(schema: Schema, fs: FlatServer, a: seq<Event>, b: seq<Event>)
    requires Addressed(a, |fs.conns|) && Addressed(b, |fs.conns|)
    ensures Addressed(a + b, |fs.conns|) && |FlatRun(schema, fs, a).0.conns| == |fs.conns|
    ensures FlatRun(schema, fs, a + b).0 == FlatRun(schema, FlatRun(schema, fs, a).0, b).0
    decreases |a|
  {
    hide FlatStep;
    if a == [] {
      assert a + b == b;
    } else {
      assert (a + b)[0] == a[0] && (a + b)[1..] == a[1..] + b;
      FlatRunAppend(schema, FlatStep(schema, fs, a[0]).0, a[1..], b);
    }
  }

  lemma RunFirst(schema: Schema, sv: Server, e: Event, rest: seq<Event>)
    requires Valid(sv.store) && e.conn < |sv.conns| && Addressed(rest, |sv.conns|)
    ensures Addressed([e] + rest, |sv.conns|)
    ensures Run(schema, sv, [e] + rest).0 == Run(schema, Step(schema, sv, e).0, rest).0
    ensures CalmRun(schema, sv, [e] + rest) <==>
      Calm(sv.store, sv.conns[e.conn], e.req) && CalmRun(schema, Step(schema, sv, e).0, rest)
  {
    hide Valid, Step, Calm;
    assert ([e] + rest)[0] == e && ([e] + rest)[1..] == rest;
  }

  // --------------------------------------------------------------- the store on the way

  /** The row inserted as number `i`. */
  function Kth(row: Row, i: nat): Row {
    WithKey(row, i + 1)
  }

  function PageOf(row: Row, i: nat): Page<Row> {
    Page(i, 1, false, [Kth(row, i)])
  }

  predicate InFile(file: map<nat, seq<Row>>, row: Row, n: nat) {
    forall i: nat | i < n :: i in file && file[i] == [Kth(row, i)]
  }

  /** The table with `n` rows, the first `saved` of them in the file, and these pages in memory. */
  predicate Shape(st: Store<Row>, row: Row, pages: seq<Page<Row>>, n: nat, saved: nat) {
    && st.pages == pages && st.index == n && InFile(st.file, row, saved)
    && st.pageRows == 1 && st.lockPages == 3 && !st.syncReplaced
  }

  predicate Filled(st: Store<Row>, row: Row, n: nat) {
    0 < n && Shape(st, row, [PageOf(row, n - 1).(dirty := true)], n, n - 1)
  }

  lemma FirstInsert(st: Store<Row>, row: Row, garbage: seq<Row>)
    requires Valid(st) && st == Created(1, 3, false, garbage) && |garbage| == 1
    ensures Filled(Appended(st, Kth(row, 0)), row, 1)
  {
    hide Kth;
    SetOnly(garbage, Kth(row, 0));
    SetOnly(st.pages, PageOf(row, 0).(dirty := true));
  }

  lemma SetOnly<T>(s: seq<T>, x: T)
    requires |s| == 1
    ensures s[0 := x] == [x]
  {
  }

  lemma NextInsert(st: Store<Row>, row: Row, n: nat)
    requires Valid(st) && Filled(st, row, n)
    ensures Filled(Appended(st, Kth(row, n)), row, n + 1)
  {
    hide Kth;
    SetOnly([Kth(row, n - 1)], Kth(row, n));
    SetOnly(st.pages, Page(n, 0, false, [Kth(row, n - 1)]));
    SetOnly(Turned(st).pages, PageOf(row, n).(dirty := true));
    assert Turned(st).file == st.file[n - 1 := [Kth(row, n - 1)]];
  }

  lemma OneInsert(schema: Schema, sv: Server, row: Row)
    requires Valid(sv.store) && |sv.conns| == 1 && |row| == schema.RowLen()
    ensures var sv' := Step(schema, sv, Event(0, Insert(row))).0;
      && sv'.store == Appended(sv.store, Kth(row, sv.store.index))
      && |sv'.conns| == 1 && sv'.conns[0].rules == sv.conns[0].rules
      && Calm(sv.store, sv.conns[0], Insert(row))
  {
    hide Appended, Valid;
    assert row[..schema.RowLen()] == row;
  }

  lemma {:induction false} MoreInserts(schema: Schema, sv: Server, row: Row, n: nat, more: nat)
    requires Valid(sv.store) && |sv.conns| == 1 && |row| == schema.RowLen() && Filled(sv.store, row, n)
    ensures var sv' := Run(schema, sv, Inserts(row, more)).0;
      && Filled(sv'.store, row, n + more) && CalmRun(schema, sv, Inserts(row, more))
      && |sv'.conns| == 1 && sv'.conns[0].rules == sv.conns[0].rules
    decreases more
  {
    hide Valid, Step, Calm, Appended;
    if more != 0 {
      assert sv.store.index == n;
      RunFirst(schema, sv, Event(0, Insert(row)), Inserts(row, more - 1));
      OneInsert(schema, sv, row);
      NextInsert(sv.store, row, n);
      MoreInserts(schema, Step(schema, sv, Event(0, Insert(row))).0, row, n + 1, more - 1);
    }
  }

  lemma FiveInserts(schema: Schema, sv: Server, row: Row, garbage: seq<Row>)
    requires Valid(sv.store) && |sv.conns| == 1 && |row| == schema.RowLen()
    requires sv.store == Created(1, 3, false, garbage) && |garbage| == 1
    ensures var sv' := Run(schema, sv, Inserts(row, 5)).0;
      && Filled(sv'.store, row, 5) && CalmRun(schema, sv, Inserts(row, 5))
      && |sv'.conns| == 1 && sv'.conns[0].rules == sv.conns[0].rules
  {
    hide Valid, Step, Calm, Appended, Run, CalmRun;
    RunFirst(schema, sv, Event(0, Insert(row)), Inserts(row, 4));
    OneInsert(schema, sv, row);
    FirstInsert(sv.store, row, garbage);
    MoreInserts(schema, Step(schema, sv, Event(0, Insert(row))).0, row, 1, 4);
  }

  /** With no filter every row passes but the deleted ones. */
  lemma KthPasses(row: Row, i: nat)
    requires 4 <= |row| && i < 5
    ensures Filter([])(Kth(row, i)).Pass?
  {
    KeyWritten(row, i + 1);
  }

  lemma FlushShape(st: Store<Row>, row: Row)
    requires Filled(st, row, 5)
    ensures Shape(TableSynced(st), row, [PageOf(row, 4)], 5, 5)
  {
    hide Kth;
    assert Cleaned(st.pages) == [PageOf(row, 4)];
    assert PagesSynced(st.pages, st.file, 0) == st.file[4 := [Kth(row, 4)]];
  }

  lemma FetchFirstShape(st: Store<Row>, row: Row)
    requires Valid(st) && 4 <= |row| && Shape(st, row, [PageOf(row, 4)], 5, 5)
    ensures var res := FetchPages(st, 0, 0, 0, Filter([]));
      Shape(res.0, row, [PageOf(row, 0), PageOf(row, 4)], 5, 5) && res.2 == 1 && res.1 == Some(Row(Kth(row, 0)))
    ensures Quiet(st, 0)
  {
    KthPasses(row, 0);
    hide Kth, Filter;
    assert Locate(st.pages, 0, 0) == 0;
    assert LockPage(st, 0).0 == Grown(st, 0, 0);
    assert Grown(st, 0, 0).pages == [PageOf(row, 0), PageOf(row, 4)];
  }

  lemma ThirdComesIn(st: Store<Row>, row: Row)
    requires Valid(st) && Shape(st, row, [PageOf(row, 0), PageOf(row, 4)], 5, 5)
    ensures var (st', slot) := LockPage(st, 2);
      slot == Some(1) && Shape(st', row, [PageOf(row, 0), PageOf(row, 2), PageOf(row, 4)], 5, 5)
  {
    hide Kth;
    assert Locate(st.pages, 2, 0) == 1;
    assert LockPage(st, 2).0 == Grown(st, 2, 1);
    assert Grown(st, 2, 1).pages == [PageOf(row, 0), PageOf(row, 2), PageOf(row, 4)];
  }

  lemma UpdateThirdShape(st: Store<Row>, row: Row, f: Row -> Row)
    requires Valid(st) && 4 <= |row| && Shape(st, row, [PageOf(row, 0), PageOf(row, 4)], 5, 5)
    ensures var changed := Page(2, 1, true, [f(Kth(row, 2))]);
      Shape(SweepPages(st, 2, 0, 5, true, Filter([]), f).0, row, [PageOf(row, 0), changed, PageOf(row, 4)], 5, 5)
    ensures Quiet(st, 2)
  {
    KthPasses(row, 2);
    ThirdComesIn(st, row);
    hide Kth, Filter, LockPage, Valid, InFile;
    var st' := LockPage(st, 2).0;
    SetOnly([Kth(row, 2)], f(Kth(row, 2)));
    var changed := Page(2, 1, true, [f(Kth(row, 2))]);
    assert [PageOf(row, 0), PageOf(row, 2), PageOf(row, 4)][1 := changed]
      == [PageOf(row, 0), changed, PageOf(row, 4)];
    assert SweptRow(st', 1, 0, Filter([]), f) == SetRow(st', 1, 0, f(Kth(row, 2)));
  }

  lemma FetchSecondLoses(st: Store<Row>, row: Row, third: Row)
    requires Valid(st) && 4 <= |row| && third != Kth(row, 2)
    requires Shape(st, row, [PageOf(row, 0), Page(2, 1, true, [third]), PageOf(row, 4)], 5, 5)
    ensures Contents(FetchPages(st, 1, 0, 1, Filter([])).0) != Contents(st)
  {
    KthPasses(row, 1);
    hide Kth, Filter, Contents;
    assert Locate(st.pages, 1, 0) == 1;
    LockPageKeepsTable(st, 1);
    assert LockPage(st, 1).0 == Replaced(st, 1, 1);
    assert Replaced(st, 1, 1).pages[1] == PageOf(row, 1);
  }

  // ------------------------------------------------------------- the requests in turn

  function Changed(row: Row, third: Row): seq<Page<Row>> {
    [PageOf(row, 0), Page(2, 1, true, [third]), PageOf(row, 4)]
  }

  /** One connection without filters, and the cursor of it. */
  ghost predicate At(sv: Server, row: Row, pages: seq<Page<Row>>, record: nat) {
    && Valid(sv.store) && |sv.conns| == 1 && sv.conns[0].rules == [] && sv.conns[0].record == record
    && Shape(sv.store, row, pages, 5, 5)
  }

  lemma SeekStep(schema: Schema, sv: Server, row: Row, pages: seq<Page<Row>>, record: nat, key: nat)
    requires At(sv, row, pages, record) && 0 < key <= 5
    ensures At(Step(schema, sv, Event(0, Seek(key))).0, row, pages, key - 1)
    ensures Calm(sv.store, sv.conns[0], Seek(key))
  {
    hide Valid, Shape;
    assert sv.store.index == 5 by { IndexOf(sv.store, row, pages); }
  }

  lemma IndexOf(st: Store<Row>, row: Row, pages: seq<Page<Row>>)
    requires Shape(st, row, pages, 5, 5)
    ensures st.index == 5 && st.pageRows == 1
  {
  }

  lemma ResetStep(schema: Schema, sv: Server, row: Row, pages: seq<Page<Row>>, record: nat)
    requires At(sv, row, pages, record)
    ensures At(Step(schema, sv, Event(0, FetchReset)).0, row, pages, 0)
    ensures Calm(sv.store, sv.conns[0], FetchReset)
  {
    hide Valid, Shape;
  }

  lemma FlushStep(schema: Schema, sv: Server, row: Row)
    requires Valid(sv.store) && |sv.conns| == 1 && sv.conns[0].rules == [] && Filled(sv.store, row, 5)
    ensures At(Step(schema, sv, Event(0, Flush)).0, row, [PageOf(row, 4)], sv.conns[0].record)
    ensures Calm(sv.store, sv.conns[0], Flush)
  {
    hide Valid, Shape, TableSynced, Filled, PageOf;
    FlushShape(sv.store, row);
  }

  lemma FetchFirstStep(schema: Schema, sv: Server, row: Row)
    requires 4 <= |row| && At(sv, row, [PageOf(row, 4)], 0)
    ensures At(Step(schema, sv, Event(0, Fetch)).0, row, [PageOf(row, 0), PageOf(row, 4)], 1)
    ensures Calm(sv.store, sv.conns[0], Fetch)
  {
    hide Valid, Shape, FetchPages, PageOf, Filter, Quiet;
    IndexOf(sv.store, row, [PageOf(row, 4)]);
    FetchFirstShape(sv.store, row);
  }

  lemma UpdateStep(schema: Schema, sv: Server, row: Row, update: Update)
    requires 4 <= |row| && UpdateFits(schema.fields, update)
    requires At(sv, row, [PageOf(row, 0), PageOf(row, 4)], 2)
    ensures At(Step(schema, sv, Event(0, UpdateCurrent(update))).0, row,
               Changed(row, Updater(schema, update)(Kth(row, 2))), 2)
    ensures Calm(sv.store, sv.conns[0], UpdateCurrent(update))
  {
    hide Valid, Shape, SweepPages, PageOf, Filter, Quiet, UpdateFits, Updater, Kth;
    IndexOf(sv.store, row, [PageOf(row, 0), PageOf(row, 4)]);
    UpdateThirdShape(sv.store, row, Updater(schema, update));
  }

  /** Up to the last request the run is that of a flat table. */
  lemma UpToTheLast(schema: Schema, sv: Server, row: Row, update: Update)
    requires 4 <= |row| && UpdateFits(schema.fields, update)
    requires Valid(sv.store) && |sv.conns| == 1 && sv.conns[0].rules == [] && Filled(sv.store, row, 5)
    ensures Addressed(FlushAll(update), 1) && CalmRun(schema, sv, FlushAll(update))
    ensures At(Run(schema, sv, FlushAll(update)).0, row, Changed(row, Updater(schema, update)(Kth(row, 2))), 1)
  {
    hide At, Step, Calm, Valid, Run, CalmRun, Filled, PageOf, UpdateFits, Updater, Kth, Changed, Shape;
    FlushStep(schema, sv, row);
    var third := Changed(row, Updater(schema, update)(Kth(row, 2)));
    var two := [PageOf(row, 0), PageOf(row, 4)];
    var s1 := Step(schema, sv, Event(0, Flush)).0;
    AtValid(s1, row, [PageOf(row, 4)], sv.conns[0].record);
    ResetStep(schema, s1, row, [PageOf(row, 4)], sv.conns[0].record);
    var s2 := Step(schema, s1, Event(0, FetchReset)).0;
    FetchFirstStep(schema, s2, row);
    var s3 := Step(schema, s2, Event(0, Fetch)).0;
    SeekStep(schema, s3, row, two, 1, 3);
    var s4 := Step(schema, s3, Event(0, Seek(3))).0;
    UpdateStep(schema, s4, row, update);
    var s5 := Step(schema, s4, Event(0, UpdateCurrent(update))).0;
    SeekStep(schema, s5, row, third, 2, 2);
    NoMore(schema, Step(schema, s5, Event(0, Seek(2))).0);
    RunFirst(schema, s5, Event(0, Seek(2)), []);
    assert [Event(0, Seek(2))] + [] == SeekSecond();
    RunFirst(schema, s4, Event(0, UpdateCurrent(update)), SeekSecond());
    RunFirst(schema, s3, Event(0, Seek(3)), UpdateThird(update));
    RunFirst(schema, s2, Event(0, Fetch), SeekThird(update));
    RunFirst(schema, s1, Event(0, FetchReset), FetchFirst(update));
    RunFirst(schema, sv, Event(0, Flush), Rewind(update));
  }

  lemma AtValid(sv: Server, row: Row, pages: seq<Page<Row>>, record: nat)
    requires At(sv, row, pages, record)
    ensures Valid(sv.store) && |sv.conns| == 1
  {
  }

  lemma NoMore(schema: Schema, sv: Server)
    requires Valid(sv.store)
    ensures Run(schema, sv, []).0 == sv && CalmRun(schema, sv, [])
  {
  }

  lemma LastFetch(schema: Schema, sv: Server, row: Row, third: Row)
    requires 4 <= |row| && third != Kth(row, 2) && At(sv, row, Changed(row, third), 1)
    ensures Contents(Run(schema, sv, FetchSecond()).0.store) != Contents(sv.store)
  {
    hide Valid, Shape, FetchPages, PageOf, Filter, Quiet, Contents, Kth;
    IndexOf(sv.store, row, Changed(row, third));
    FetchSecondLoses(sv.store, row, third);
    NoMore(schema, Step(schema, sv, Event(0, Fetch)).0);
    RunFirst(schema, sv, Event(0, Fetch), []);
    assert [Event(0, Fetch)] + [] == FetchSecond();
  }

  lemma FlatFetch(schema: Schema, fs: FlatServer)
    requires |fs.conns| == 1
    ensures FlatRun(schema, fs, FetchSecond()).0.rows == fs.rows
  {
    hide FlatTable.Fetch, Filter;
    assert FetchSecond()[1..] == [];
  }

  /**
   Whatever the table's fields: if the update changes the third row at all, the code ends
   this run with other rows than a flat table would.
   */
  lemma RunLosesAnUpdate(schema: Schema, row: Row, update: Update, garbage: seq<Row>)
    requires 4 <= |row| == schema.RowLen() && |garbage| == 1 && UpdateFits(schema.fields, update)
    requires Updater(schema, update)(Kth(row, 2)) != Kth(row, 2)
    ensures var sv := Server(Created(1, 3, false, garbage), [Conn(0, E_OK, [])]);
      && Valid(sv.store)
      && Contents(Run(schema, sv, LosingRun(row, update)).0.store)
         != FlatRun(schema, FlatServer([], sv.conns), LosingRun(row, update)).0.rows
  {
    hide At, Step, Valid, Run, CalmRun, FlatRun, Filled, UpdateFits, Updater, Kth, Contents, Addressed;
    var sv := Server(Created(1, 3, false, garbage), [Conn(0, E_OK, [])]);
    CreatedValid(1, 3, false, garbage);
    FiveInserts(schema, sv, row, garbage);
    var sv1 := Run(schema, sv, Inserts(row, 5)).0;
    UpToTheLast(schema, sv1, row, update);
    var sv2, third := Run(schema, sv1, FlushAll(update)).0, Updater(schema, update)(Kth(row, 2));
    AtValid(sv2, row, Changed(row, third), 1);
    LastFetch(schema, sv2, row, third);
    RunAppend(schema, sv, Inserts(row, 5), FlushAll(update));
    var calm := Inserts(row, 5) + FlushAll(update);
    RunAppend(schema, sv, calm, FetchSecond());
    RunRefines(schema, sv, calm);
    var fs := FlatServer([], sv.conns);
    FlatRunAppend(schema, fs, calm, FetchSecond());
    FlatFetch(schema, FlatRun(schema, fs, calm).0);
  }

  /** A table of two numbers, and an update of the second. */
  lemma SuchATable(dbl: DoubleArith)
    ensures var schema := Schema([Field(UInt, 4, 0), Field(UInt, 4, 4)], dbl);
      var row, update := [0, 0, 0, 0, 0, 0, 0, 0], Update([U_NONE, U_SET], [0, 0, 0, 0, 9, 0, 0, 0]);
      && schema.Ok() && |row| == schema.RowLen() && UpdateFits(schema.fields, update)
      && Updater(schema, update)(Kth(row, 2)) != Kth(row, 2)
  {
    var schema := Schema([Field(UInt, 4, 0), Field(UInt, 4, 4)], dbl);
    var row, update := [0, 0, 0, 0, 0, 0, 0, 0], Update([U_NONE, U_SET], [0, 0, 0, 0, 9, 0, 0, 0]);
    assert Offset(schema.fields, 1) == 4 && Offset(schema.fields, 2) == 8;
    SizedInRow(schema.fields);
    ApplyOne(schema.fields, update, Kth(row, 2), 0, 1, dbl);
    assert Updater(schema, update)(Kth(row, 2))[4] == 9;
  }
}
