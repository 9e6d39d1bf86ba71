/**
 The requests clients send to the table server, and what becomes of whole runs of them.

 `Step` is the server over the paged store, `FlatStep` the same server over a flat
 sequence of rows.  Each request is one atomic step, from any of the connections.
 */
module Requests {
  import opened Common
  import opened FlatTable
  import opened Layout
  import opened Pager

  /** Result codes a client can see from the requests modelled here. */
  datatype Code = E_OK | E_BUF | E_LASTROW | E_PKEY

  /** One filter rule; `matches` is the comparison it makes. */
  datatype Rule = Rule(strict: bool, matches: Row -> bool)

  /** What the server keeps for a connection (`Record`, `Qerrno`, `Filters`), newest rule first. */
  datatype Conn = Conn(record: nat, errno: Code, rules: seq<Rule>)

  /** The fixed part of a table: its fields, and the arithmetic of doubles. */
  datatype Schema = Schema(fields: seq<Field>, dbl: DoubleArith) {
    /** The first field is the primary key, an unsigned 32-bit number. */
    ghost predicate Ok() {
      Tiled(fields) && Sized(fields) && fields != [] && fields[0].length == 4
    }

    function RowLen(): nat {
      Offset(fields, |fields|)
    }
  }

  datatype Request =
    | Fetch
    | FetchReset
    | Seek(key: nat)
    | Insert(row: Row)
    | UpdateRows(update: Update)
    | UpdateCurrent(update: Update)
    | DeleteRows
    | FilterPush(rule: Rule)
    | FilterPop
    | FilterClear
    | Flush

  datatype Answer = Data(row: Row) | Done(code: Code)

  // ---------------------------------------------------------------- row by row

  function Key(row: Row): nat {
    if |row| < 4 then 0 else Word(row[..4])
  }

  /** The row with its primary key overwritten. */
  function WithKey(row: Row, key: nat): (row': Row)
    ensures |row'| == |row|
  {
    if |row| < 4 then row else Patch(row, 0, Bytes(key, 4))
  }

  /** The first rule a row fails decides: a strict one stops the scan. */
  function Ruling(rules: seq<Rule>, row: Row): Verdict {
    if rules == [] then Pass
    else if rules[0].matches(row) then Ruling(rules[1..], row)
    else if rules[0].strict then Stop
    else Reject
  }

  /** Qbase_data_filter: a deleted row is passed over whatever the rules say. */
  function Filter(rules: seq<Rule>): Row -> Verdict {
    (row: Row) => if Key(row) == 0 then Reject else Ruling(rules, row)
  }

  function Updater(schema: Schema, update: Update): Row -> Row {
    (row: Row) =>
      if Fits(schema.fields, row) && UpdateFits(schema.fields, update) && InRow(schema.fields) then
        Apply(schema.fields, update, row, 0, schema.dbl)
      else row
  }

  function Deleter(): Row -> Row {
    (row: Row) => WithKey(row, 0)
  }

  // ------------------------------------------------------------- single requests

  function FetchAnswer(conn: Conn, reply: Option<Reply<Row>>, rec: nat): (Conn, Answer) {
    match reply
    case None => (conn.(record := rec), Done(conn.errno))
    case Some(Row(row)) => (conn.(record := rec, errno := E_OK), Data(row))
    case Some(LastRow) => (conn.(record := rec, errno := E_LASTROW), Done(E_LASTROW))
  }

  /** Finish a control request: the code is both answered and remembered. */
  function Coded(conn: Conn, code: Code): (Conn, Answer) {
    (conn.(errno := code), Done(code))
  }

  /** SEEK: a 32-bit decrement, then a bound that lets one past the last row through. */
  function Sought(conn: Conn, key: nat, index: nat): (Conn, Answer) {
    var rec := if key == 0 then 0xFFFF_FFFF else key - 1;
    if index < rec then Coded(conn.(record := 0), E_PKEY) else Coded(conn.(record := rec), E_OK)
  }

  /** The requests that only concern the connection. */
  function Private(conn: Conn, req: Request, index: nat): (Conn, Answer) {
    match req
    case FetchReset => Coded(conn.(record := 0), E_OK)
    case Seek(key) => Sought(conn, key, index)
    case FilterPush(rule) => Coded(conn.(rules := [rule] + conn.rules, record := 0), E_OK)
    case FilterPop => Coded(conn.(rules := if conn.rules == [] then [] else conn.rules[1..]), E_OK)
    case FilterClear => Coded(conn.(rules := [], record := 0), E_OK)
    case _ => (conn, Done(conn.errno))
  }

  predicate IsPrivate(req: Request) {
    req.FetchReset? || req.Seek? || req.FilterPush? || req.FilterPop? || req.FilterClear?
  }

  /** UPDATE and UPDCUR refuse a request too short for the table's rows. */
  predicate Malformed(schema: Schema, req: Request) {
    (req.UpdateRows? || req.UpdateCurrent?) && !UpdateFits(schema.fields, req.update)
  }

  function RowMap(schema: Schema, req: Request): Row -> Row {
    if req.DeleteRows? || !(req.UpdateRows? || req.UpdateCurrent?) then Deleter()
    else Updater(schema, req.update)
  }

  /** What a request does to the paged store and to its connection. */
  function StoreStep(schema: Schema, store: Store<Row>, conn: Conn, req: Request):
      (res: (Store<Row>, Conn, Answer))
    requires Valid(store)
    ensures Valid(res.0)
  {
    if IsPrivate(req) then
      var (conn', answer) := Private(conn, req, store.index);
      (store, conn', answer)
    else if Malformed(schema, req) then (store, conn.(errno := E_BUF), Done(E_BUF))
    else if req.Fetch? then StoreFetch(store, conn)
    else if req.Insert? then StoreInsert(store, conn, req.row, schema.RowLen())
    else if req.Flush? then StoreFlush(store, conn)
    else StoreSweep(store, conn, req.UpdateCurrent?, RowMap(schema, req))
  }

  function StoreFetch(store: Store<Row>, conn: Conn): (res: (Store<Row>, Conn, Answer))
    requires Valid(store)
    ensures Valid(res.0)
  {
    var m := store.pageRows;
    var (store', reply, rec) :=
      FetchPages(store, conn.record / m, conn.record % m, conn.record, Filter(conn.rules));
    var (conn', answer) := FetchAnswer(conn, reply, rec);
    (store', conn', answer)
  }

  function StoreInsert(store: Store<Row>, conn: Conn, row: Row, rowLen: nat): (res: (Store<Row>, Conn, Answer))
    requires Valid(store)
    ensures Valid(res.0)
  {
    if |row| < rowLen then (store, conn.(errno := E_BUF), Done(E_BUF))
    else (Appended(store, WithKey(row[..rowLen], store.index + 1)), conn.(record := store.index), Done(E_OK))
  }

  function StoreFlush(store: Store<Row>, conn: Conn): (res: (Store<Row>, Conn, Answer))
    requires Valid(store)
    ensures Valid(res.0)
  {
    TableSyncedValid(store);
    (TableSynced(store), conn.(errno := E_OK), Done(E_OK))
  }

  /** UPDATE, UPDCUR and DELETE; a page that could not be had leaves the old result code. */
  function StoreSweep(store: Store<Row>, conn: Conn, one: bool, f: Row -> Row): (res: (Store<Row>, Conn, Answer))
    requires Valid(store)
    ensures Valid(res.0)
  {
    var m, rec := store.pageRows, if one then conn.record else 0;
    var (store', ok) := SweepPages(store, rec / m, rec % m, store.index, one, Filter(conn.rules), f);
    var (conn', answer) := Coded(conn, if ok then E_OK else conn.errno);
    (store', conn', answer)
  }

  /** The same requests on a flat sequence of rows. */
  function RowsStep(schema: Schema, rows: seq<Row>, conn: Conn, req: Request):
      (res: (seq<Row>, Conn, Answer))
  {
    if IsPrivate(req) then
      var (conn', answer) := Private(conn, req, |rows|);
      (rows, conn', answer)
    else if Malformed(schema, req) then (rows, conn.(errno := E_BUF), Done(E_BUF))
    else if req.Fetch? then
      var (reply, rec) := FlatTable.Fetch(rows, conn.record, Filter(conn.rules));
      var (conn', answer) := FetchAnswer(conn, Some(reply), rec);
      (rows, conn', answer)
    else if req.Insert? then RowsInsert(rows, conn, req.row, schema.RowLen())
    else if req.Flush? then (rows, conn.(errno := E_OK), Done(E_OK))
    else RowsSweep(rows, conn, req.UpdateCurrent?, RowMap(schema, req))
  }

  function RowsInsert(rows: seq<Row>, conn: Conn, row: Row, rowLen: nat): (res: (seq<Row>, Conn, Answer)) {
    if |row| < rowLen then (rows, conn.(errno := E_BUF), Done(E_BUF))
    else (rows + [WithKey(row[..rowLen], |rows| + 1)], conn.(record := |rows|), Done(E_OK))
  }

  function RowsSweep(rows: seq<Row>, conn: Conn, one: bool, f: Row -> Row): (res: (seq<Row>, Conn, Answer)) {
    var found := !one || conn.record < |rows| || rows == [];
    var (conn', answer) := Coded(conn, if found then E_OK else conn.errno);
    (if one then UpdateOne(rows, conn.record, Filter(conn.rules), f) else Sweep(rows, 0, Filter(conn.rules), f),
     conn', answer)
  }

  // -------------------------------------------------------- one request refines

  /** The first page a request looks up, if it looks up any. */
  function FirstPage(conn: Conn, req: Request, m: nat): Option<nat>
    requires 0 < m
  {
    match req
    case Fetch => Some(conn.record / m)
    case UpdateCurrent(_) => Some(conn.record / m)
    case UpdateRows(_) => Some(0)
    case DeleteRows => Some(0)
    case _ => None
  }

  /** The request cannot drop an unsaved page. */
  ghost predicate Calm(store: Store<Row>, conn: Conn, req: Request)
    requires Valid(store)
  {
    var p := FirstPage(conn, req, store.pageRows);
    p.Some? ==> Quiet(store, p.value)
  }

  /** A request has the same effect and the same answer on the paged store as on the flat table. */
  lemma StepRefines(schema: Schema, store: Store<Row>, conn: Conn, req: Request)
    requires Valid(store) && Calm(store, conn, req)
    ensures var (store', conn', answer) := StoreStep(schema, store, conn, req);
      (Contents(store'), conn', answer) == RowsStep(schema, Contents(store), conn, req)
  {
    hide Valid, Contents, Quiet, SweepPages, FetchPages, Appended, Sweep, FlatTable.Fetch, Filter, RowMap;
    match req
    case Fetch => FetchRefines(store, conn);
    case Insert(row) =>
      if schema.RowLen() <= |row| {
        AppendedIsAppend(store, WithKey(row[..schema.RowLen()], store.index + 1));
      }
    case Flush => TableSyncedContents(store);
    case UpdateCurrent(_) => CurrentRefines(store, conn, RowMap(schema, req));
    case UpdateRows(_) => SweepRefines(store, conn, RowMap(schema, req));
    case DeleteRows => SweepRefines(store, conn, RowMap(schema, req));
    case _ =>
  }

  lemma FetchRefines(store: Store<Row>, conn: Conn)
    requires Valid(store) && Quiet(store, conn.record / store.pageRows)
    ensures var (store', conn', answer) := StoreFetch(store, conn);
      var (reply, rec) := FlatTable.Fetch(Contents(store), conn.record, Filter(conn.rules));
      Contents(store') == Contents(store) && (conn', answer) == FetchAnswer(conn, Some(reply), rec)
  {
    var m := store.pageRows;
    Split(conn.record, m);
    hide Valid, Contents, Quiet, Filter;
    FetchPagesIsFetch(store, conn.record / m, conn.record % m, conn.record, Filter(conn.rules));
  }

  lemma CurrentRefines(store: Store<Row>, conn: Conn, f: Row -> Row)
    requires Valid(store) && Quiet(store, conn.record / store.pageRows)
    ensures var (store', conn', answer) := StoreSweep(store, conn, true, f);
      (Contents(store'), conn', answer) == RowsSweep(Contents(store), conn, true, f)
  {
    UpdateCurrentIsUpdateOne(store, conn.record, Filter(conn.rules), f);
  }

  lemma SweepRefines(store: Store<Row>, conn: Conn, f: Row -> Row)
    requires Valid(store) && Quiet(store, 0)
    ensures var (store', conn', answer) := StoreSweep(store, conn, false, f);
      (Contents(store'), conn', answer) == RowsSweep(Contents(store), conn, false, f)
  {
    hide Quiet, Filter;
    SweepPagesIsSweep(store, 0, 0, store.index, Filter(conn.rules), f);
  }

  // ---------------------------------------------------------------- whole runs

  /** The server: one table and its connections. */
  datatype Server = Server(store: Store<Row>, conns: seq<Conn>)

  datatype FlatServer = FlatServer(rows: seq<Row>, conns: seq<Conn>)

  /** A request together with the connection it comes from. */
  datatype Event = Event(conn: nat, req: Request)

  predicate Addressed(events: seq<Event>, conns: nat) {
    forall i | 0 <= i < |events| :: events[i].conn < conns
  }

  function Step(schema: Schema, sv: Server, e: Event): (res: (Server, Answer))
    requires Valid(sv.store) && e.conn < |sv.conns|
    ensures Valid(res.0.store) && |res.0.conns| == |sv.conns|
  {
    var (store, conn, answer) := StoreStep(schema, sv.store, sv.conns[e.conn], e.req);
    (Server(store, sv.conns[e.conn := conn]), answer)
  }

  function Run(schema: Schema, sv: Server, events: seq<Event>): (res: (Server, seq<Answer>))
    requires Valid(sv.store) && Addressed(events, |sv.conns|)
    ensures Valid(res.0.store)
    decreases |events|
  {
    if |events| == 0 then (sv, [])
    else
      var (sv', answer) := Step(schema, sv, events[0]);
      var (sv'', answers) := Run(schema, sv', events[1..]);
      (sv'', [answer] + answers)
  }

  function FlatStep(schema: Schema, fs: FlatServer, e: Event): (res: (FlatServer, Answer))
    requires e.conn < |fs.conns|
    ensures |res.0.conns| == |fs.conns|
  {
    var (rows, conn, answer) := RowsStep(schema, fs.rows, fs.conns[e.conn], e.req);
    (FlatServer(rows, fs.conns[e.conn := conn]), answer)
  }

  function FlatRun(schema: Schema, fs: FlatServer, events: seq<Event>): (res: (FlatServer, seq<Answer>))
    requires Addressed(events, |fs.conns|)
    decreases |events|
  {
    if |events| == 0 then (fs, [])
    else
      var (fs', answer) := FlatStep(schema, fs, events[0]);
      var (fs'', answers) := FlatRun(schema, fs', events[1..]);
      (fs'', [answer] + answers)
  }

  /** The flat server behind a paged one. */
  ghost function Flat(sv: Server): FlatServer
    requires Valid(sv.store)
  {
    FlatServer(Contents(sv.store), sv.conns)
  }

  /** Every request of the run is calm when its turn comes. */
  ghost predicate CalmRun(schema: Schema, sv: Server, events: seq<Event>)
    requires Valid(sv.store) && Addressed(events, |sv.conns|)
    decreases |events|
  {
    |events| == 0 ||
    (Calm(sv.store, sv.conns[events[0].conn], events[0].req)
     && CalmRun(schema, Step(schema, sv, events[0]).0, events[1..]))
  }

  /** A calm run is a run of the flat table: same answers, same rows in the end. */
  lemma {:induction false} RunRefines(schema: Schema, sv: Server, events: seq<Event>)
    requires Valid(sv.store) && Addressed(events, |sv.conns|) && CalmRun(schema, sv, events)
    ensures var (sv', answers) := Run(schema, sv, events);
      (Flat(sv'), answers) == FlatRun(schema, Flat(sv), events)
    decreases |events|
  {
    hide Valid, Contents, Calm, StoreStep, RowsStep;
    if events != [] {
      StepRefines(schema, sv.store, sv.conns[events[0].conn], events[0].req);
      RunRefines(schema, Step(schema, sv, events[0]).0, events[1..]);
    }
  }

  /** With replaced pages synced first, as the code's comment has it, every run is calm. */
  lemma {:induction false} IntendedRunsAreCalm(schema: Schema, sv: Server, events: seq<Event>)
    requires Valid(sv.store) && Addressed(events, |sv.conns|) && sv.store.syncReplaced
    ensures CalmRun(schema, sv, events)
    decreases |events|
  {
    if events != [] {
      StepKeepsShape(schema, sv.store, sv.conns[events[0].conn], events[0].req);
      IntendedRunsAreCalm(schema, Step(schema, sv, events[0]).0, events[1..]);
    }
  }

  lemma StepKeepsShape(schema: Schema, store: Store<Row>, conn: Conn, req: Request)
    requires Valid(store)
    ensures var store' := StoreStep(schema, store, conn, req).0;
      && store'.syncReplaced == store.syncReplaced
      && store'.pageRows == store.pageRows && store'.lockPages == store.lockPages
  {
    hide Valid, FetchPages, SweepPages;
  }

  // ------------------------------------------ runs the code as written keeps safe

  /**
   What a client can know about unsaved pages: `mark` is a page index at or after which
   no page but the last can be dirty.  A request is safe if it starts its lookups no
   earlier than the page before that, or if the rows there are all fit in memory.
   */
  predicate SafeRequest(conn: Conn, req: Request, rows: nat, m: nat, lockPages: nat, mark: nat)
    requires 0 < m
  {
    var p := FirstPage(conn, req, m);
    p.Some? ==> rows < lockPages * m || mark <= p.value + 1
  }

  /** The mark after a request: a flush clears it, and updates push it past what they touch. */
  function NextMark(conn: Conn, req: Request, rows: nat, m: nat, mark: nat): nat
    requires 0 < m
  {
    match req
    case Flush => 0
    case UpdateCurrent(_) => if mark <= conn.record / m then conn.record / m + 1 else mark
    case UpdateRows(_) => if mark < rows / m then rows / m else mark
    case DeleteRows => if mark < rows / m then rows / m else mark
    case _ => mark
  }

  predicate SafeRun(schema: Schema, fs: FlatServer, events: seq<Event>, m: nat, lockPages: nat, mark: nat)
    requires 0 < m && Addressed(events, |fs.conns|)
    decreases |events|
  {
    |events| == 0 ||
    (var conn, req := fs.conns[events[0].conn], events[0].req;
     SafeRequest(conn, req, |fs.rows|, m, lockPages, mark)
     && SafeRun(schema, FlatStep(schema, fs, events[0]).0, events[1..], m, lockPages,
                NextMark(conn, req, |fs.rows|, m, mark)))
  }

  lemma MarkKept(schema: Schema, store: Store<Row>, conn: Conn, req: Request, mark: nat)
    requires Valid(store) && CleanFrom(store, mark)
    ensures CleanFrom(StoreStep(schema, store, conn, req).0,
                      NextMark(conn, req, store.index, store.pageRows, mark))
  {
    hide Valid, CleanFrom, StoreFetch, StoreInsert, StoreFlush, StoreSweep;
    HasRows(store);
    CleanWeaker(store, mark, NextMark(conn, req, store.index, store.pageRows, mark));
    match req
    case Fetch => FetchMark(store, conn, mark);
    case Insert(row) => InsertMark(store, conn, row, schema.RowLen(), mark);
    case Flush => FlushMark(store, conn);
    case UpdateCurrent(_) =>
      CurrentMark(store, conn, RowMap(schema, req), NextMark(conn, req, store.index, store.pageRows, mark));
    case UpdateRows(_) =>
      SweepMark(store, conn, RowMap(schema, req), NextMark(conn, req, store.index, store.pageRows, mark));
    case DeleteRows =>
      SweepMark(store, conn, RowMap(schema, req), NextMark(conn, req, store.index, store.pageRows, mark));
    case _ =>
  }

  lemma HasRows(store: Store<Row>)
    requires Valid(store)
    ensures 0 < store.pageRows
  {
  }

  lemma FetchMark(store: Store<Row>, conn: Conn, mark: nat)
    requires Valid(store) && CleanFrom(store, mark)
    ensures CleanFrom(StoreFetch(store, conn).0, mark)
  {
    var m := store.pageRows;
    FetchPagesClean(store, conn.record / m, conn.record % m, conn.record, Filter(conn.rules), mark);
  }

  lemma InsertMark(store: Store<Row>, conn: Conn, row: Row, rowLen: nat, mark: nat)
    requires Valid(store) && CleanFrom(store, mark)
    ensures CleanFrom(StoreInsert(store, conn, row, rowLen).0, mark)
  {
    if rowLen <= |row| { AppendedIsAppend(store, WithKey(row[..rowLen], store.index + 1)); }
  }

  lemma FlushMark(store: Store<Row>, conn: Conn)
    requires Valid(store)
    ensures CleanFrom(StoreFlush(store, conn).0, 0)
  {
  }

  lemma CurrentMark(store: Store<Row>, conn: Conn, f: Row -> Row, mark: nat)
    requires Valid(store) && CleanFrom(store, mark) && conn.record / store.pageRows < mark
    ensures CleanFrom(StoreSweep(store, conn, true, f).0, mark)
  {
    UpdateCurrentClean(store, conn.record, Filter(conn.rules), f, mark);
  }

  lemma CleanWeaker(store: Store<Row>, mark: nat, mark': nat)
    requires CleanFrom(store, mark)
    ensures mark <= mark' ==> CleanFrom(store, mark')
  {
  }

  lemma SweepMark(store: Store<Row>, conn: Conn, f: Row -> Row, mark: nat)
    requires Valid(store) && 0 < store.pageRows && store.index / store.pageRows <= mark
    ensures CleanFrom(StoreSweep(store, conn, false, f).0, mark)
  {
    hide Valid, CleanFrom, SweepPages, Filter, Contents;
    var store' := StoreSweep(store, conn, false, f).0;
    CleanFromLast(store');
    CleanWeaker(store', store.index / store.pageRows, mark);
  }

  /** Safe runs are calm, so even the code as written serves them like a flat table. */
  lemma {:induction false} SafeRunsAreCalm(schema: Schema, sv: Server, events: seq<Event>, mark: nat)
    requires Valid(sv.store) && Addressed(events, |sv.conns|) && CleanFrom(sv.store, mark)
    requires SafeRun(schema, Flat(sv), events, sv.store.pageRows, sv.store.lockPages, mark)
    ensures CalmRun(schema, sv, events)
    decreases |events|
  {
    if |events| != 0 {
      var conn, req, m := sv.conns[events[0].conn], events[0].req, sv.store.pageRows;
      SafeIsCalm(sv.store, conn, req, mark);
      StepRefines(schema, sv.store, conn, req);
      StepKeepsShape(schema, sv.store, conn, req);
      MarkKept(schema, sv.store, conn, req, mark);
      hide Valid, Contents, CleanFrom, Calm, StoreStep, RowsStep;
      SafeRunsAreCalm(schema, Step(schema, sv, events[0]).0, events[1..],
                      NextMark(conn, req, |Flat(sv).rows|, m, mark));
    }
  }

  lemma SafeIsCalm(store: Store<Row>, conn: Conn, req: Request, mark: nat)
    requires Valid(store) && CleanFrom(store, mark)
    requires SafeRequest(conn, req, store.index, store.pageRows, store.lockPages, mark)
    ensures Calm(store, conn, req)
  {
    var p := FirstPage(conn, req, store.pageRows);
    if p.Some? {
      CleanWeaker(store, mark, p.value + 1);
      if store.index < store.lockPages * store.pageRows { FewRowsFit(store); }
    }
  }

  lemma FewRowsFit(store: Store<Row>)
    requires Valid(store) && store.index < store.lockPages * store.pageRows
    ensures AllFit(store)
  {
    var last, m := store.Last().index, store.pageRows;
    StartIsProduct(store.lockPages, m);
    if store.lockPages <= last {
      if store.lockPages < last { StartMonotone(store.lockPages, last, m); }
    }
  }

  // ------------------------------------------------- the table released and selected again

  /**
   The table from the first connection that selects it to the last that lets it go, which
   syncs it; `garbage` is what the buffer of the last page holds when it is selected again.
   */
  datatype Period = Period(conns: nat, events: seq<Event>, garbage: seq<Row>)

  predicate PeriodsOk(periods: seq<Period>, m: nat) {
    forall k | 0 <= k < |periods| :: Addressed(periods[k].events, periods[k].conns) && |periods[k].garbage| == m
  }

  function NewConns(n: nat): (conns: seq<Conn>)
    ensures |conns| == n
  {
    seq(n, _ => Conn(0, E_OK, []))
  }

  function Reopened(store: Store<Row>, garbage: seq<Row>): (store': Store<Row>)
    requires Valid(store) && |garbage| == store.pageRows
    ensures Valid(store') && CleanFrom(store', 0) && Contents(store') == Contents(store)
    ensures store'.pageRows == store.pageRows && store'.lockPages == store.lockPages
    ensures store'.syncReplaced == store.syncReplaced
  {
    FlushThenOpen(store, garbage);
    var flushed := TableSynced(store);
    Opened(flushed.file, flushed.header, store.pageRows, store.lockPages, store.syncReplaced, garbage)
  }

  lemma {:induction false} RunKeepsShape(schema: Schema, sv: Server, events: seq<Event>)
    requires Valid(sv.store) && Addressed(events, |sv.conns|)
    ensures var store' := Run(schema, sv, events).0.store;
      && store'.syncReplaced == sv.store.syncReplaced
      && store'.pageRows == sv.store.pageRows && store'.lockPages == sv.store.lockPages
    decreases |events|
  {
    hide Valid, StoreStep;
    if |events| != 0 {
      StepKeepsShape(schema, sv.store, sv.conns[events[0].conn], events[0].req);
      RunKeepsShape(schema, Step(schema, sv, events[0]).0, events[1..]);
    }
  }

  /** The store after one period and the selection that follows it. */
  function NextStore(schema: Schema, store: Store<Row>, p: Period): (store': Store<Row>)
    requires Valid(store) && Addressed(p.events, p.conns) && |p.garbage| == store.pageRows
    ensures Valid(store') && CleanFrom(store', 0)
    ensures store'.pageRows == store.pageRows && store'.lockPages == store.lockPages
  {
    var sv := Server(store, NewConns(p.conns));
    RunKeepsShape(schema, sv, p.events);
    Reopened(Run(schema, sv, p.events).0.store, p.garbage)
  }

  function RunPeriods(schema: Schema, store: Store<Row>, periods: seq<Period>): (res: (Store<Row>, seq<seq<Answer>>))
    requires Valid(store) && PeriodsOk(periods, store.pageRows)
    ensures Valid(res.0)
    decreases |periods|
  {
    if |periods| == 0 then (store, [])
    else
      var answers := Run(schema, Server(store, NewConns(periods[0].conns)), periods[0].events).1;
      var (store', rest) := RunPeriods(schema, NextStore(schema, store, periods[0]), periods[1..]);
      (store', [answers] + rest)
  }

  function FlatPeriods(schema: Schema, rows: seq<Row>, periods: seq<Period>, m: nat): (seq<Row>, seq<seq<Answer>>)
    requires PeriodsOk(periods, m)
    decreases |periods|
  {
    if |periods| == 0 then (rows, [])
    else
      var (fs, answers) := FlatRun(schema, FlatServer(rows, NewConns(periods[0].conns)), periods[0].events);
      var (rows', rest) := FlatPeriods(schema, fs.rows, periods[1..], m);
      (rows', [answers] + rest)
  }

  /** Every period is safe, with nothing unsaved when it begins. */
  predicate SafePeriods(schema: Schema, rows: seq<Row>, periods: seq<Period>, m: nat, lockPages: nat)
    requires 0 < m && PeriodsOk(periods, m)
    decreases |periods|
  {
    |periods| == 0 ||
    (var fs, events := FlatServer(rows, NewConns(periods[0].conns)), periods[0].events;
     SafeRun(schema, fs, events, m, lockPages, 0)
     && SafePeriods(schema, FlatRun(schema, fs, events).0.rows, periods[1..], m, lockPages))
  }

  /**
   However often the table is let go and selected again, safe periods are those of one flat
   table: same answers, same rows in the end.
   */
  lemma {:induction false} PeriodsRefine(schema: Schema, store: Store<Row>, periods: seq<Period>)
    requires Valid(store) && CleanFrom(store, 0) && PeriodsOk(periods, store.pageRows)
    requires SafePeriods(schema, Contents(store), periods, store.pageRows, store.lockPages)
    ensures var (store', answers) := RunPeriods(schema, store, periods);
      (Contents(store'), answers) == FlatPeriods(schema, Contents(store), periods, store.pageRows)
    decreases |periods|
  {
    hide Valid, Contents, CleanFrom, Run, FlatRun, SafeRun, Reopened;
    if |periods| != 0 {
      var sv := Server(store, NewConns(periods[0].conns));
      SafeRunsAreCalm(schema, sv, periods[0].events, 0);
      RunRefines(schema, sv, periods[0].events);
      RunKeepsShape(schema, sv, periods[0].events);
      assert NextStore(schema, store, periods[0])
        == Reopened(Run(schema, sv, periods[0].events).0.store, periods[0].garbage);
      PeriodsRefine(schema, NextStore(schema, store, periods[0]), periods[1..]);
    }
  }

  /** From the table's creation on. */
  lemma PeriodsFromCreation(
    schema: Schema, m: nat, lockPages: nat, syncReplaced: bool, garbage: seq<Row>, periods: seq<Period>)
    requires 1 <= m == |garbage| && 3 <= lockPages && PeriodsOk(periods, m)
    requires SafePeriods(schema, [], periods, m, lockPages)
    ensures var st := Created(m, lockPages, syncReplaced, garbage);
      && Valid(st)
      && var (store', answers) := RunPeriods(schema, st, periods);
         (Contents(store'), answers) == FlatPeriods(schema, [], periods, m)
  {
    hide Contents, RunPeriods, FlatPeriods, SafePeriods;
    CreatedValid(m, lockPages, syncReplaced, garbage);
    PeriodsRefine(schema, Created(m, lockPages, syncReplaced, garbage), periods);
  }

  // ----------------------------------------------------------------- primary keys

  /** Row `i` carries key `i + 1`, or 0 once it has been deleted. */
  ghost predicate Keyed(schema: Schema, rows: seq<Row>) {
    forall i | 0 <= i < |rows| ::
      |rows[i]| == schema.RowLen() && (Key(rows[i]) == i + 1 || Key(rows[i]) == 0)
  }

  predicate LeavesKey(req: Request) {
    (req.UpdateRows? || req.UpdateCurrent?) && req.update.actions != [] ==> req.update.actions[0] == U_NONE
  }

  lemma KeyWritten(row: Row, key: nat)
    requires 4 <= |row| && key < 0x1_0000_0000
    ensures Key(WithKey(row, key)) == key
  {
    assert Range(4) == 0x1_0000_0000;
    WordOfBytes(key, 4);
    assert WithKey(row, key)[..4] == Bytes(key, 4);
  }

  lemma KeyUntouched(schema: Schema, update: Update, row: Row)
    requires schema.Ok() && |row| == schema.RowLen()
    requires update.actions != [] ==> update.actions[0] == U_NONE
    ensures |Updater(schema, update)(row)| == |row| && Key(Updater(schema, update)(row)) == Key(row)
  {
    SizedInRow(schema.fields);
    if UpdateFits(schema.fields, update) {
      ApplyIsFieldwise(schema.fields, update, row, 0, schema.dbl, 0);
      FieldInRow(schema.fields, 0);
      var row' := Updater(schema, update)(row);
      assert FieldOf(schema.fields, row, 0) == row[..4];
      assert FieldOf(schema.fields, row', 0) == row'[..4];
    }
  }

  /** The keys stay in place through every request that leaves the first field alone. */
  lemma KeysKept(schema: Schema, rows: seq<Row>, conn: Conn, req: Request)
    requires schema.Ok() && Keyed(schema, rows) && LeavesKey(req) && |rows| < 0xFFFF_FFFF
    ensures Keyed(schema, RowsStep(schema, rows, conn, req).0)
  {
    hide Filter, Deleter, Updater, Patch, Sweep;
    FieldInRow(schema.fields, 0);
    var f := RowMap(schema, req);
    MapKeepsKeys(schema, rows, req);
    if req.Insert? && schema.RowLen() <= |req.row| {
      KeyWritten(req.row[..schema.RowLen()], |rows| + 1);
    } else if req.UpdateRows? || req.DeleteRows? {
      SweepIsMap(rows, 0, Filter(conn.rules), f);
    }
  }

  lemma MapKeepsKeys(schema: Schema, rows: seq<Row>, req: Request)
    requires schema.Ok() && Keyed(schema, rows) && LeavesKey(req)
    ensures var f := RowMap(schema, req);
      forall i | 0 <= i < |rows| ::
        |f(rows[i])| == |rows[i]| && (Key(f(rows[i])) == Key(rows[i]) || Key(f(rows[i])) == 0)
  {
    hide Updater, Patch, Key;
    FieldInRow(schema.fields, 0);
    var f := RowMap(schema, req);
    forall i | 0 <= i < |rows|
      ensures |f(rows[i])| == |rows[i]| && (Key(f(rows[i])) == Key(rows[i]) || Key(f(rows[i])) == 0)
    {
      if req.UpdateRows? || req.UpdateCurrent? { KeyUntouched(schema, req.update, rows[i]); }
      else { KeyWritten(rows[i], 0); }
    }
  }

  lemma {:induction false} KeysKeptInRun(schema: Schema, fs: FlatServer, events: seq<Event>)
    requires schema.Ok() && Keyed(schema, fs.rows) && Addressed(events, |fs.conns|)
    requires forall i | 0 <= i < |events| :: LeavesKey(events[i].req)
    requires |fs.rows| + |events| < 0x1_0000_0000
    ensures Keyed(schema, FlatRun(schema, fs, events).0.rows)
    decreases |events|
  {
    if |events| != 0 {
      KeysKept(schema, fs.rows, fs.conns[events[0].conn], events[0].req);
      KeysKeptInRun(schema, FlatStep(schema, fs, events[0]).0, events[1..]);
    }
  }

  /** SEEK to a primary key, then UPDCUR: the row with that key is updated and no other. */
  lemma SeekThenUpdate(schema: Schema, rows: seq<Row>, conn: Conn, key: nat, update: Update)
    requires Keyed(schema, rows) && 0 < key <= |rows| && UpdateFits(schema.fields, update)
    ensures var (rows1, conn1, answer1) := RowsStep(schema, rows, conn, Seek(key));
      var (rows2, conn2, answer2) := RowsStep(schema, rows1, conn1, UpdateCurrent(update));
      && answer1 == answer2 == Done(E_OK)
      && |rows2| == |rows|
      && (forall i | 0 <= i < |rows| && Key(rows[i]) != key :: rows2[i] == rows[i])
      && (Key(rows[key - 1]) == key && Ruling(conn.rules, rows[key - 1]).Pass? ==>
            rows2[key - 1] == Updater(schema, update)(rows[key - 1]))
  {
    assert Key(rows[key - 1]) == key || Key(rows[key - 1]) == 0;
  }

  /**
   The bound in SEEK lets the key one past the last through; the update that follows finds
   no row and answers with the code that was there before it, the seek's own OK.
   */
  lemma SeekOnePast(schema: Schema, rows: seq<Row>, conn: Conn, update: Update)
    requires rows != [] && UpdateFits(schema.fields, update)
    ensures var (rows1, conn1, answer1) := RowsStep(schema, rows, conn, Seek(|rows| + 1));
      var (rows2, conn2, answer2) := RowsStep(schema, rows1, conn1, UpdateCurrent(update));
      answer1 == answer2 == Done(E_OK) && rows2 == rows
  {
  }
}
