/**
 The server loop: requests from all connections, one after another, against the table in
 memory and on disk.
 */
module QbaseServer {
  import opened Common
  import opened FlatTable
  import opened Layout
  import opened Pager
  import opened Requests
  import opened QbaseHeap

  /** One request, as the handlers carry it out. */
  method Handle(schema: Schema, table: Table<Row>, conn: Conn, req: Request, ghost st: Store<Row>)
    returns (conn': Conn, answer: Answer, ghost st': Store<Row>)
    requires table.Is(st) && Pager.Valid(st)
    modifies table, table.Footprint()
    ensures table.Is(st') && Pager.Valid(st')
    ensures (st', conn', answer) == StoreStep(schema, st, conn, req)
    ensures fresh(table.Footprint() - old(table.Footprint()))
  {
    hide Pager.Valid, SweepPages, FetchPages, Appended, TableSynced, Filter, RowMap, UpdateFits, Table.Is;
    table.SomePage(st);
    st' := StoreStep(schema, st, conn, req).0;
    if IsPrivate(req) {
      var result := Private(conn, req, table.Index);
      conn', answer := result.0, result.1;
    } else if Malformed(schema, req) {
      conn', answer := conn.(errno := E_BUF), Done(E_BUF);
    } else if req.Fetch? {
      conn', answer, st' := HandleFetch(table, conn, st);
    } else if req.Insert? {
      if |req.row| < schema.RowLen() {
        conn', answer := conn.(errno := E_BUF), Done(E_BUF);
      } else {
        conn', answer := conn.(record := table.Index), Done(E_OK);
        table.Write(WithKey(req.row[..schema.RowLen()], table.Index + 1), st);
      }
    } else if req.Flush? {
      table.TableSync(st);
      conn', answer := conn.(errno := E_OK), Done(E_OK);
    } else {
      conn', answer, st' := HandleSweep(table, conn, req.UpdateCurrent?, RowMap(schema, req), st);
    }
  }

  method HandleFetch(table: Table<Row>, conn: Conn, ghost st: Store<Row>)
    returns (conn': Conn, answer: Answer, ghost st': Store<Row>)
    requires table.Is(st) && Pager.Valid(st)
    modifies table, table.Footprint()
    ensures table.Is(st') && Pager.Valid(st')
    ensures (st', conn', answer) == StoreFetch(st, conn)
    ensures fresh(table.Footprint() - old(table.Footprint()))
  {
    hide FetchPages, Filter, Pager.Valid, Table.Is;
    table.SomePage(st);
    var reply, rec;
    reply, rec, st' := table.Read(conn.record, Filter(conn.rules), st);
    var result := FetchAnswer(conn, reply, rec);
    conn', answer := result.0, result.1;
  }

  method HandleSweep(table: Table<Row>, conn: Conn, one: bool, f: Row -> Row, ghost st: Store<Row>)
    returns (conn': Conn, answer: Answer, ghost st': Store<Row>)
    requires table.Is(st) && Pager.Valid(st)
    modifies table, table.Footprint()
    ensures table.Is(st') && Pager.Valid(st')
    ensures (st', conn', answer) == StoreSweep(st, conn, one, f)
    ensures fresh(table.Footprint() - old(table.Footprint()))
  {
    hide SweepPages, Filter, Pager.Valid, Table.Is;
    HasRows(st);
    table.SomePage(st);
    var p, r := FirstPosition(conn, one, table.PageRows);
    var ok;
    ok, st' := table.SweepTable(p, r, one, Filter(conn.rules), f, st);
    var result := Coded(conn, if ok then E_OK else conn.errno);
    conn', answer := result.0, result.1;
  }

  /** Where UPDCUR starts, and where UPDATE and DELETE do. */
  method FirstPosition(conn: Conn, one: bool, m: nat) returns (p: nat, r: nat)
    requires 0 < m
    ensures var rec := if one then conn.record else 0; p == rec / m && r == rec % m
  {
    p, r := 0, 0;
    if one { p, r := conn.record / m, conn.record % m; }
  }

  /**
   A whole run of the server.  Its answers are those of a flat table in every calm run, and
   the table it leaves holds the flat table's rows.
   */
  method Serve(schema: Schema, table: Table<Row>, start: seq<Conn>, events: seq<Event>, ghost st: Store<Row>)
    returns (conns: seq<Conn>, answers: seq<Answer>, ghost st': Store<Row>)
    requires table.Is(st) && Pager.Valid(st) && Addressed(events, |start|)
    modifies table, table.Footprint()
    ensures table.Is(st') && Pager.Valid(st')
    ensures (Server(st', conns), answers) == Run(schema, Server(st, start), events)
    ensures CalmRun(schema, Server(st, start), events) ==>
      (FlatServer(Contents(st'), conns), answers) == FlatRun(schema, FlatServer(Contents(st), start), events)
  {
    hide Pager.Valid, StoreStep, Contents, CalmRun, FlatRun, Run, Reached, Table.Is;
    conns, answers, st' := start, [], st;
    ghost var first := Server(st, start);
    ReachedStart(schema, first, events);
    for i := 0 to |events|
      invariant table.Is(st') && Pager.Valid(st')
      invariant fresh(table.Footprint() - old(table.Footprint()))
      invariant Reached(schema, first, events, i, Server(st', conns), answers)
    {
      ReachedNext(schema, first, events, i, Server(st', conns), answers);
      var conn, answer;
      conn, answer, st' := Handle(schema, table, conns[events[i].conn], events[i].req, st');
      conns := conns[events[i].conn := conn];
      answers := answers + [answer];
    }
    ReachedEnd(schema, first, events, Server(st', conns), answers);
    if CalmRun(schema, first, events) { RunRefines(schema, first, events); }
  }

  /** After the first `i` events the server is at `now`, having given `answers`. */
  ghost predicate Reached(
    schema: Schema, first: Server, events: seq<Event>, i: nat, now: Server, answers: seq<Answer>)
    requires Pager.Valid(first.store) && Pager.Valid(now.store) && Addressed(events, |first.conns|)
  {
    && i <= |events| && |now.conns| == |first.conns|
    && Addressed(events[i..], |now.conns|)
    && var rest := Run(schema, now, events[i..]);
       Run(schema, first, events) == (rest.0, answers + rest.1)
  }

  lemma ReachedStart(schema: Schema, first: Server, events: seq<Event>)
    requires Pager.Valid(first.store) && Addressed(events, |first.conns|)
    ensures Reached(schema, first, events, 0, first, [])
  {
    hide Pager.Valid;
    assert events[0..] == events;
    assert [] + Run(schema, first, events).1 == Run(schema, first, events).1;
  }

  lemma ReachedNext(
    schema: Schema, first: Server, events: seq<Event>, i: nat, now: Server, answers: seq<Answer>)
    requires Pager.Valid(first.store) && Pager.Valid(now.store) && Addressed(events, |first.conns|)
    requires i < |events| && Reached(schema, first, events, i, now, answers)
    ensures events[i].conn < |now.conns|
    ensures var (now', answer) := Step(schema, now, events[i]);
      Reached(schema, first, events, i + 1, now', answers + [answer])
  {
    hide Pager.Valid, StoreStep;
    var (now', answer) := Step(schema, now, events[i]);
    assert events[i..][0] == events[i];
    assert events[i..][1..] == events[i + 1..];
    assert answers + ([answer] + Run(schema, now', events[i + 1..]).1) ==
           (answers + [answer]) + Run(schema, now', events[i + 1..]).1;
  }

  lemma ReachedEnd(schema: Schema, first: Server, events: seq<Event>, now: Server, answers: seq<Answer>)
    requires Pager.Valid(first.store) && Pager.Valid(now.store) && Addressed(events, |first.conns|)
    requires Reached(schema, first, events, |events|, now, answers)
    ensures Run(schema, first, events) == (now, answers)
  {
    hide Pager.Valid, StoreStep;
    assert answers + [] == answers;
  }
}
