/**
 The consistency check of a log table: a row whose card does not match its own addresses is
 given to the card that does, and its charge is moved from one account to the other.
 */
module Consistency {
  import opened Common
  import opened FlatTable
  import opened Generations
  import opened Accounts

  /** A row of the card table as the check loads it. */
  datatype Nic = Nic(nid: nat, aid: nat, client: Client)

  function ByNumber(nics: seq<Nic>, nid: nat, i: nat): (k: nat)
    requires i <= |nics|
    ensures i <= k <= |nics|
    ensures k < |nics| ==> nics[k].nid == nid
    ensures forall j | i <= j < k :: nics[j].nid != nid
  {
    FirstPlace(nics, (nic: Nic) => nic.nid == nid, i)
  }

  function ByClient(nics: seq<Nic>, client: Client, i: nat): (k: nat)
    requires i <= |nics|
    ensures i <= k <= |nics|
    ensures k < |nics| ==> nics[k].client == client
    ensures forall j | i <= j < k :: nics[j].client != client
  {
    FirstPlace(nics, (nic: Nic) => nic.client == client, i)
  }

  /**
   What becomes of a log row: it is right, no card has its addresses, the run ends before
   anything is done, the run ends after the first account was debited, or it is moved.
   */
  datatype Fate = Right | Skipped | Ended | Torn(to: nat) | Moved(from: nat, to: nat)

  function FateOf(nics: seq<Nic>, size: nat, row: LogRow): (fate: Fate)
    ensures fate.Torn? ==> fate.to < |nics|
    ensures fate.Moved? ==> fate.to < |nics| && fate.from < |nics|
  {
    var from, to := ByNumber(nics, row.nic, 0), ByClient(nics, row.client, 0);
    if row.key == 0 then Right
    else if from == |nics| then Ended
    else if nics[from].client == row.client then Right
    else if to == |nics| then Skipped
    else if !Reaches(size, nics[to].aid) then Ended
    else if !Reaches(size, nics[from].aid) then Torn(to)
    else Moved(from, to)
  }

  /** The database after a run, how many rows it fixed, and whether it got to the end. */
  datatype Result = Result(book: Book, log: seq<LogRow>, fixed: nat, complete: bool)

  function Rebooked(row: LogRow, nic: Nic): LogRow {
    row.(nic := nic.nid, account := nic.aid)
  }

  function Transferred(book: Book, nics: seq<Nic>, from: nat, to: nat, sum: real): (book': Book)
    requires from < |nics| && to < |nics|
    ensures |book'| == |book|
  {
    Post(Post(book, nics[to].aid, -sum), nics[from].aid, sum)
  }

  /** The run from row `i` on. */
  function Repaired(book: Book, log: seq<LogRow>, nics: seq<Nic>, i: nat, fixed: nat): (res: Result)
    requires i <= |log|
    ensures |res.book| == |book| && |res.log| == |log| && fixed <= res.fixed
    decreases |log| - i
  {
    if i == |log| then Result(book, log, fixed, true)
    else match FateOf(nics, |book|, log[i])
      case Right => Repaired(book, log, nics, i + 1, fixed)
      case Skipped => Repaired(book, log, nics, i + 1, fixed)
      case Ended => Result(book, log, fixed, false)
      case Torn(to) => Result(Post(book, nics[to].aid, -Sum(log[i])), log, fixed, false)
      case Moved(from, to) =>
        Repaired(Transferred(book, nics, from, to, Sum(log[i])),
                 log[i := Rebooked(log[i], nics[to])], nics, i + 1, fixed + 1)
  }

  /** What one row does to the tables. */
  function Checked(book: Book, log: seq<LogRow>, nics: seq<Nic>, i: nat): (Book, seq<LogRow>)
    requires i < |log|
  {
    match FateOf(nics, |book|, log[i])
    case Torn(to) => (Post(book, nics[to].aid, -Sum(log[i])), log)
    case Moved(from, to) => (Transferred(book, nics, from, to, Sum(log[i])), log[i := Rebooked(log[i], nics[to])])
    case _ => (book, log)
  }

  predicate Stops(fate: Fate) {
    fate.Ended? || fate.Torn?
  }

  lemma OneRowMore(book: Book, log: seq<LogRow>, nics: seq<Nic>, i: nat, fixed: nat)
    requires i < |log|
    ensures var (fate, after) := (FateOf(nics, |book|, log[i]), Checked(book, log, nics, i));
      && |after.1| == |log|
      && Repaired(book, log, nics, i, fixed) ==
        if Stops(fate) then Result(after.0, after.1, fixed, false)
        else Repaired(after.0, after.1, nics, i + 1, if fate.Moved? then fixed + 1 else fixed)
  {
    hide FateOf, Post, Sum;
  }

  /** The loop over the log. */
  method Repair(books: Books, nics: array<Nic>, numNics: nat) returns (fixed: nat, complete: bool)
    requires numNics <= nics.Length
    modifies books`accounts, books`log
    ensures Result(books.accounts, books.log, fixed, complete)
      == Repaired(old(books.accounts), old(books.log), nics[..numNics], 0, 0)
  {
    hide Repaired, FateOf, Checked, Stops;
    fixed := 0;
    var i := 0;
    ghost var all := Repaired(books.accounts, books.log, nics[..numNics], 0, 0);
    while i < |books.log|
      invariant i <= |books.log|
      invariant Repaired(books.accounts, books.log, nics[..numNics], i, fixed) == all
      decreases |books.log| - i
    {
      OneRowMore(books.accounts, books.log, nics[..numNics], i, fixed);
      var moved, stop := CheckRow(books, nics, numNics, i);
      if stop {
        return fixed, false;
      }
      if moved {
        fixed := fixed + 1;
      }
      i := i + 1;
    }
    AtTheEnd(books.accounts, books.log, nics[..numNics], fixed);
    complete := true;
  }

  lemma AtTheEnd(book: Book, log: seq<LogRow>, nics: seq<Nic>, fixed: nat)
    ensures Repaired(book, log, nics, |log|, fixed) == Result(book, log, fixed, true)
  {
  }

  /** The body of that loop. */
  method CheckRow(books: Books, nics: array<Nic>, numNics: nat, i: nat) returns (moved: bool, stop: bool)
    requires numNics <= nics.Length && i < |books.log|
    modifies books`accounts, books`log
    ensures (books.accounts, books.log) == Checked(old(books.accounts), old(books.log), nics[..numNics], i)
    ensures var fate := FateOf(nics[..numNics], |old(books.accounts)|, old(books.log)[i]);
      moved == fate.Moved? && stop == Stops(fate)
  {
    hide Post, Reaches, Sum;
    var row := books.log[i];
    if row.key == 0 {
      return false, false;
    }
    var from := FindByNumber(nics, numNics, row.nic);
    if from == numNics {
      return false, true;
    }
    if nics[from].client == row.client {
      return false, false;
    }
    var to := FindByClient(nics, numNics, row.client);
    if to == numNics {
      return false, false;
    }
    var done := Transfer(books, i, nics[from], nics[to]);
    return done, !done;
  }

  /** The block that fixes one row: debit, credit, log row; it ends where a SEEK fails. */
  method Transfer(books: Books, i: nat, from: Nic, to: Nic) returns (done: bool)
    requires i < |books.log|
    modifies books`accounts, books`log
    ensures var (size, sum) := (|old(books.accounts)|, Sum(old(books.log)[i]));
      && done == (Reaches(size, to.aid) && Reaches(size, from.aid))
      && books.accounts ==
           (if !Reaches(size, to.aid) then old(books.accounts)
            else if !Reaches(size, from.aid) then Post(old(books.accounts), to.aid, -sum)
            else Post(Post(old(books.accounts), to.aid, -sum), from.aid, sum))
      && books.log == if done then old(books.log)[i := Rebooked(old(books.log)[i], to)] else old(books.log)
  {
    var row := books.log[i];
    var sum := row.toCli + row.toHost;
    var rec, found := books.Seek(to.aid);
    if !found {
      return false;
    }
    books.Update(rec, -sum);
    rec, found := books.Seek(from.aid);
    if !found {
      return false;
    }
    books.Update(rec, sum);
    books.log := books.log[i := row.(nic := to.nid, account := to.aid)];
    return true;
  }

  method FindByNumber(nics: array<Nic>, numNics: nat, nid: nat) returns (i: nat)
    requires numNics <= nics.Length
    ensures i == ByNumber(nics[..numNics], nid, 0)
  {
    i := 0;
    while i < numNics && nics[i].nid != nid
      invariant i <= numNics && ByNumber(nics[..numNics], nid, i) == ByNumber(nics[..numNics], nid, 0)
    {
      i := i + 1;
    }
  }

  method FindByClient(nics: array<Nic>, numNics: nat, client: Client) returns (i: nat)
    requires numNics <= nics.Length
    ensures i == ByClient(nics[..numNics], client, 0)
  {
    i := 0;
    while i < numNics && nics[i].client != client
      invariant i <= numNics && ByClient(nics[..numNics], client, i) == ByClient(nics[..numNics], client, 0)
    {
      i := i + 1;
    }
  }

  // ------------------------------------------------------------------ conservation

  function If(c: bool, amount: real): real {
    if c then amount else 0.0
  }

  /**
   What a run adds to the worth of account `id`, read off the log before it.  The money comes
   back to the present account of the row's card, while the row gave it to the account the
   row names: the two differ if the card has changed hands since.
   */
  function Drift(nics: seq<Nic>, size: nat, rows: seq<LogRow>, id: nat): real {
    if rows == [] then 0.0
    else match FateOf(nics, size, rows[0])
      case Right => Drift(nics, size, rows[1..], id)
      case Skipped => Drift(nics, size, rows[1..], id)
      case Ended => 0.0
      case Torn(to) => -If(id == nics[to].aid, Sum(rows[0]))
      case Moved(from, _) =>
        If(id == nics[from].aid, Sum(rows[0])) - If(id == rows[0].account, Sum(rows[0]))
        + Drift(nics, size, rows[1..], id)
  }

  lemma OneMove(book: Book, log: seq<LogRow>, nics: seq<Nic>, i: nat, from: nat, to: nat, id: nat)
    requires Keyed(book) && |book| < 0xFFFF_FFFF && Holds(book, id)
    requires i < |log| && FateOf(nics, |book|, log[i]) == Moved(from, to)
    ensures var book' := Transferred(book, nics, from, to, Sum(log[i]));
      var log' := log[i := Rebooked(log[i], nics[to])];
      && Keyed(book') && Holds(book', id)
      && Worth(book', log', id) == Worth(book, log, id)
           + If(id == nics[from].aid, Sum(log[i])) - If(id == log[i].account, Sum(log[i]))
  {
    var sum, mid := Sum(log[i]), Post(book, nics[to].aid, -Sum(log[i]));
    PostChanges(book, nics[to].aid, -sum);
    PostChanges(mid, nics[from].aid, sum);
    BookedUpdate(log, i, Rebooked(log[i], nics[to]), id);
  }

  /** The worth of an account after a run is its worth before it plus its drift, exactly. */
  lemma {:induction false} RepairDrifts(
    book: Book, log: seq<LogRow>, nics: seq<Nic>, i: nat, fixed: nat, id: nat)
    requires Keyed(book) && |book| < 0xFFFF_FFFF && Holds(book, id) && i <= |log|
    ensures var res := Repaired(book, log, nics, i, fixed);
      && Keyed(res.book) && Holds(res.book, id)
      && Worth(res.book, res.log, id) == Worth(book, log, id) + Drift(nics, |book|, log[i..], id)
    decreases |log| - i
  {
    hide Booked, Post, Reaches, Keyed, Sum, If;
    if i < |log| {
      assert log[i..][1..] == log[i + 1..];
      match FateOf(nics, |book|, log[i])
      case Right => RepairDrifts(book, log, nics, i + 1, fixed, id);
      case Skipped => RepairDrifts(book, log, nics, i + 1, fixed, id);
      case Ended =>
      case Torn(to) => OneTear(book, log, nics, i, to, id);
      case Moved(from, to) =>
        OneMove(book, log, nics, i, from, to, id);
        var log' := log[i := Rebooked(log[i], nics[to])];
        assert log'[i + 1..] == log[i + 1..];
        RepairDrifts(Transferred(book, nics, from, to, Sum(log[i])), log', nics, i + 1, fixed + 1, id);
    }
  }

  lemma OneTear(book: Book, log: seq<LogRow>, nics: seq<Nic>, i: nat, to: nat, id: nat)
    requires Keyed(book) && |book| < 0xFFFF_FFFF && Holds(book, id)
    requires i < |log| && FateOf(nics, |book|, log[i]) == Torn(to)
    ensures var book' := Post(book, nics[to].aid, -Sum(log[i]));
      && Keyed(book') && Holds(book', id)
      && Worth(book', log, id) == Worth(book, log, id) - If(id == nics[to].aid, Sum(log[i]))
  {
    PostChanges(book, nics[to].aid, -Sum(log[i]));
  }

  /** The condition under which a row can be moved without loss: its account is its card's. */
  predicate Current(nics: seq<Nic>, size: nat, row: LogRow) {
    match FateOf(nics, size, row)
    case Moved(from, _) => row.account == nics[from].aid
    case Torn(_) => false
    case _ => true
  }

  /** If every row's account is that of its card, a run keeps the worth of every account. */
  lemma {:induction false} CurrentRowsDoNotDrift(nics: seq<Nic>, size: nat, rows: seq<LogRow>, id: nat)
    requires forall i | 0 <= i < |rows| :: Current(nics, size, rows[i])
    ensures Drift(nics, size, rows, id) == 0.0
  {
    if rows != [] {
      assert Current(nics, size, rows[0]);
      if FateOf(nics, size, rows[0]) != Ended { CurrentRowsDoNotDrift(nics, size, rows[1..], id); }
    }
  }

  lemma RepairConserves(book: Book, log: seq<LogRow>, nics: seq<Nic>, id: nat)
    requires Keyed(book) && |book| < 0xFFFF_FFFF && Holds(book, id)
    requires forall i | 0 <= i < |log| :: Current(nics, |book|, log[i])
    ensures var res := Repaired(book, log, nics, 0, 0);
      Holds(res.book, id) && Worth(res.book, res.log, id) == Worth(book, log, id)
  {
    hide Repaired, FateOf, Drift, Worth;
    RepairDrifts(book, log, nics, 0, 0, id);
    assert log[0..] == log;
    CurrentRowsDoNotDrift(nics, |book|, log, id);
  }

  /**
   For a log of one row the condition is exact: the worth of all accounts is kept if and only
   if the row is current, or costs nothing, or neither account of the difference is there.
   */
  lemma OneRowConserves(book: Book, row: LogRow, nics: seq<Nic>)
    requires Keyed(book) && |book| < 0xFFFF_FFFF
    requires FateOf(nics, |book|, row).Moved?
    ensures var res := Repaired(book, [row], nics, 0, 0);
      var from := nics[FateOf(nics, |book|, row).from].aid;
      (forall id: nat | Holds(book, id) ::
        Holds(res.book, id) && Worth(res.book, res.log, id) == Worth(book, [row], id)) <==>
      (row.account == from || Sum(row) == 0.0 || (!Holds(book, row.account) && !Holds(book, from)))
  {
    hide Repaired, FateOf, Worth, Keyed;
    var res := Repaired(book, [row], nics, 0, 0);
    var from := nics[FateOf(nics, |book|, row).from].aid;
    forall id: nat | Holds(book, id)
      ensures Holds(res.book, id)
      ensures Worth(res.book, res.log, id)
        == Worth(book, [row], id) + If(id == from, Sum(row)) - If(id == row.account, Sum(row))
    {
      RepairDrifts(book, [row], nics, 0, 0, id);
      assert [row][0..] == [row] && [row][1..] == [];
    }
    if Holds(book, from) && row.account != from {
      assert Worth(res.book, res.log, from) == Worth(book, [row], from) + Sum(row);
    }
    if Holds(book, row.account) && row.account != from {
      assert Worth(res.book, res.log, row.account) == Worth(book, [row], row.account) - Sum(row);
    }
  }

  // ------------------------------------------------------------------ a second run

  ghost predicate DistinctNumbers(nics: seq<Nic>) {
    forall i, j | 0 <= i < j < |nics| :: nics[i].nid != nics[j].nid
  }

  /** A row that has been moved is right. */
  lemma MovedIsRight(nics: seq<Nic>, size: nat, row: LogRow)
    requires DistinctNumbers(nics) && FateOf(nics, size, row).Moved?
    ensures FateOf(nics, size, Rebooked(row, nics[FateOf(nics, size, row).to])) == Right
  {
    var to := FateOf(nics, size, row).to;
    assert ByNumber(nics, nics[to].nid, 0) == to;
  }

  lemma {:induction false} EarlierRowsKept(
    book: Book, log: seq<LogRow>, nics: seq<Nic>, i: nat, fixed: nat)
    requires i <= |log|
    ensures Repaired(book, log, nics, i, fixed).log[..i] == log[..i]
    decreases |log| - i
  {
    hide Post, FateOf, Reaches;
    if i < |log| {
      match FateOf(nics, |book|, log[i])
      case Right =>
        EarlierRowsKept(book, log, nics, i + 1, fixed);
        PrefixShrinks(Repaired(book, log, nics, i + 1, fixed).log, log, i);
      case Skipped =>
        EarlierRowsKept(book, log, nics, i + 1, fixed);
        PrefixShrinks(Repaired(book, log, nics, i + 1, fixed).log, log, i);
      case Moved(from, to) =>
        var log' := log[i := Rebooked(log[i], nics[to])];
        var book' := Transferred(book, nics, from, to, Sum(log[i]));
        EarlierRowsKept(book', log', nics, i + 1, fixed + 1);
        PrefixShrinks(Repaired(book', log', nics, i + 1, fixed + 1).log, log', i);
        assert log'[..i] == log[..i];
      case _ =>
    }
  }

  lemma PrefixShrinks(a: seq<LogRow>, b: seq<LogRow>, i: nat)
    requires i < |a| == |b| && a[..i + 1] == b[..i + 1]
    ensures a[..i] == b[..i] && a[i] == b[i]
  {
    assert a[..i] == a[..i + 1][..i] && b[..i] == b[..i + 1][..i];
    assert a[i] == a[..i + 1][i] && b[i] == b[..i + 1][i];
  }

  /** Whether the run stops halfway through a transfer. */
  predicate Tears(nics: seq<Nic>, size: nat, rows: seq<LogRow>) {
    rows != [] &&
    match FateOf(nics, size, rows[0])
    case Ended => false
    case Torn(_) => true
    case _ => Tears(nics, size, rows[1..])
  }

  /** The last row a run looks at, if it stops halfway: what it took, and from whom. */
  function Tear(nics: seq<Nic>, size: nat, rows: seq<LogRow>): (nat, real)
    requires Tears(nics, size, rows)
  {
    match FateOf(nics, size, rows[0])
    case Torn(to) => (nics[to].aid, Sum(rows[0]))
    case _ => Tear(nics, size, rows[1..])
  }

  /**
   A second run fixes nothing and leaves the log alone; nor does it touch an account, unless
   the first one stopped halfway, whose debit it makes once more.
   */
  lemma {:induction false} SecondRun(
    book: Book, log: seq<LogRow>, nics: seq<Nic>, i: nat, fixed: nat, book2: Book)
    requires DistinctNumbers(nics) && i <= |log| && |book2| == |book|
    ensures var res := Repaired(book, log, nics, i, fixed);
      Repaired(book2, res.log, nics, i, 0) == Result(
        if Tears(nics, |book|, log[i..]) then
          Post(book2, Tear(nics, |book|, log[i..]).0, -Tear(nics, |book|, log[i..]).1)
        else book2,
        res.log, 0, res.complete)
    decreases |log| - i
  {
    hide Post, FateOf, Reaches, Sum, DistinctNumbers, Transferred, Rebooked;
    if i < |log| {
      assert log[i..][1..] == log[i + 1..];
      var fate := FateOf(nics, |book|, log[i]);
      if !Stops(fate) {
        var (book', log') := Checked(book, log, nics, i);
        var fixed' := if fate.Moved? then fixed + 1 else fixed;
        assert log'[i + 1..] == log[i + 1..];
        SecondRun(book', log', nics, i + 1, fixed', book2);
        RowKept(book', log', nics, i + 1, fixed');
        if fate.Moved? { MovedIsRight(nics, |book|, log[i]); }
      }
    }
  }

  lemma RowKept(book: Book, log: seq<LogRow>, nics: seq<Nic>, i: nat, fixed: nat)
    requires 0 < i <= |log|
    ensures Repaired(book, log, nics, i, fixed).log[i - 1] == log[i - 1]
  {
    hide Repaired;
    EarlierRowsKept(book, log, nics, i, fixed);
    PrefixShrinks(Repaired(book, log, nics, i, fixed).log, log, i - 1);
  }

  /** The check run twice over the same tables. */
  lemma SecondRunFixesNothing(book: Book, log: seq<LogRow>, nics: seq<Nic>)
    requires DistinctNumbers(nics)
    ensures var first := Repaired(book, log, nics, 0, 0);
      var second := Repaired(first.book, first.log, nics, 0, 0);
      && second.fixed == 0 && second.log == first.log && second.complete == first.complete
      && (!Tears(nics, |book|, log) ==> second.book == first.book)
  {
    hide Repaired, Tears, Post;
    var first := Repaired(book, log, nics, 0, 0);
    SecondRun(book, log, nics, 0, 0, first.book);
    assert log[0..] == log;
  }

  // ------------------------------------------------------- a repaired log is consistent

  /** The card a number stands for is the first that has it. */
  ghost predicate Named(nics: seq<Nic>, nid: nat, c: nat) {
    c < |nics| && nics[c].nid == nid && forall j | 0 <= j < c :: nics[j].nid != nid
  }

  /** The first card with exactly these addresses. */
  ghost predicate Owner(nics: seq<Nic>, client: Client, c: nat) {
    && c < |nics| && nics[c].client.mac == client.mac && nics[c].client.ip == client.ip
    && forall j | 0 <= j < c :: nics[j].client.mac != client.mac || nics[j].client.ip != client.ip
  }

  ghost predicate Owned(nics: seq<Nic>, client: Client) {
    exists c :: 0 <= c < |nics| && nics[c].client.mac == client.mac && nics[c].client.ip == client.ip
  }

  /** The row names a card with exactly its own addresses. */
  ghost predicate Rightful(nics: seq<Nic>, row: LogRow) {
    exists c: nat ::
      Named(nics, row.nic, c) && nics[c].client.mac == row.client.mac && nics[c].client.ip == row.client.ip
  }

  /** The row is there and names another card than one that has its addresses. */
  ghost predicate Misplaced(nics: seq<Nic>, row: LogRow) {
    row.key != 0 && !Rightful(nics, row) && Owned(nics, row.client)
  }

  ghost predicate Known(nics: seq<Nic>, nid: nat) {
    exists c: nat :: Named(nics, nid, c)
  }

  /** The SEEKs for the account to be debited and the one to be credited succeed. */
  ghost predicate CanMove(nics: seq<Nic>, size: nat, row: LogRow) {
    && (forall c: nat | Named(nics, row.nic, c) :: Reaches(size, nics[c].aid))
    && (forall c: nat | Owner(nics, row.client, c) :: Reaches(size, nics[c].aid))
  }

  lemma ByNumberIs(nics: seq<Nic>, nid: nat)
    ensures var k := ByNumber(nics, nid, 0);
      (forall c: nat :: Named(nics, nid, c) <==> c == k < |nics|) && (k < |nics| ==> Named(nics, nid, k))
  {
    hide ByNumber;
  }

  lemma ByClientIs(nics: seq<Nic>, client: Client)
    ensures var k := ByClient(nics, client, 0);
      (k < |nics| <==> Owned(nics, client)) && (k < |nics| ==> Owner(nics, client, k))
  {
    hide ByClient;
    var k := ByClient(nics, client, 0);
    forall j | 0 <= j < |nics|
      ensures nics[j].client == client <==> nics[j].client.mac == client.mac && nics[j].client.ip == client.ip
    {
    }
  }

  /** What becomes of a row, by the cards and the accounts there are. */
  lemma FateIs(nics: seq<Nic>, size: nat, row: LogRow)
    ensures match FateOf(nics, size, row)
      case Right => !Misplaced(nics, row) && (row.key != 0 ==> Known(nics, row.nic))
      case Skipped => !Misplaced(nics, row) && Known(nics, row.nic)
      case Ended => row.key != 0 && (!Known(nics, row.nic) || (Misplaced(nics, row) && !CanMove(nics, size, row)))
      case Torn(to) => Misplaced(nics, row) && Owner(nics, row.client, to) && !CanMove(nics, size, row)
      case Moved(from, to) =>
        && Misplaced(nics, row) && Named(nics, row.nic, from) && Owner(nics, row.client, to)
        && CanMove(nics, size, row) && Known(nics, row.nic)
  {
    hide Reaches, Named, Owner, Owned, Rightful;
    ByNumberIs(nics, row.nic);
    ByClientIs(nics, row.client);
    var from, to := ByNumber(nics, row.nic, 0), ByClient(nics, row.client, 0);
    forall c: nat | Owner(nics, row.client, c) ensures c == to { OneOwner(nics, row.client, c, to); }
    if from < |nics| { RightfulIs(nics, row, from); }
  }

  lemma OneOwner(nics: seq<Nic>, client: Client, c: nat, d: nat)
    requires Owner(nics, client, c) && (d < |nics| ==> Owner(nics, client, d))
    requires d < |nics| <==> Owned(nics, client)
    ensures c == d
  {
    assert nics[c].client.mac == client.mac;
  }

  lemma RightfulIs(nics: seq<Nic>, row: LogRow, from: nat)
    requires Named(nics, row.nic, from) && forall c: nat :: Named(nics, row.nic, c) <==> c == from
    ensures Rightful(nics, row) <==> nics[from].client == row.client
  {
    if nics[from].client == row.client { assert Named(nics, row.nic, from); }
  }

  /** What a run that gets to the end makes of a row. */
  ghost predicate Settled(nics: seq<Nic>, row: LogRow, row': LogRow) {
    if Misplaced(nics, row) then exists c: nat :: Owner(nics, row.client, c) && row' == Rebooked(row, nics[c])
    else row' == row
  }

  /** How many rows name another card than before. */
  function Changed(rows: seq<LogRow>, rows': seq<LogRow>): nat
    requires |rows| == |rows'|
  {
    if rows == [] then 0 else (if rows[0].nic != rows'[0].nic then 1 else 0) + Changed(rows[1..], rows'[1..])
  }

  lemma MovedChanges(nics: seq<Nic>, size: nat, row: LogRow)
    requires DistinctNumbers(nics) && FateOf(nics, size, row).Moved?
    ensures nics[FateOf(nics, size, row).to].nid != row.nic
  {
  }

  lemma {:induction false} RunSettles(book: Book, log: seq<LogRow>, nics: seq<Nic>, i: nat, fixed: nat)
    requires DistinctNumbers(nics) && i <= |log|
    ensures var res := Repaired(book, log, nics, i, fixed);
      && res.fixed == fixed + Changed(log[i..], res.log[i..])
      && (forall j | i <= j < |log| :: res.log[j] == log[j] || Settled(nics, log[j], res.log[j]))
      && (res.complete ==> forall j | i <= j < |log| :: Settled(nics, log[j], res.log[j]))
      && (res.complete <==> forall j | i <= j < |log| && log[j].key != 0 ::
            Known(nics, log[j].nic) && (Misplaced(nics, log[j]) ==> CanMove(nics, |book|, log[j])))
    decreases |log| - i
  {
    hide Post, FateOf, Sum, DistinctNumbers, Misplaced, Owner, Named, Known, CanMove;
    if i < |log| {
      FateIs(nics, |book|, log[i]);
      MisplacedIsPresent(nics, log[i]);
      var fate := FateOf(nics, |book|, log[i]);
      var book', log' := book, log;
      if fate.Moved? {
        book' := Transferred(book, nics, fate.from, fate.to, Sum(log[i]));
        log' := log[i := Rebooked(log[i], nics[fate.to])];
        MovedChanges(nics, |book|, log[i]);
      }
      if fate.Right? || fate.Skipped? || fate.Moved? {
        var fixed' := if fate.Moved? then fixed + 1 else fixed;
        RunSettles(book', log', nics, i + 1, fixed');
        RowKept(book', log', nics, i + 1, fixed');
        ChangedStep(log, Repaired(book', log', nics, i + 1, fixed').log, i);
        assert log'[i + 1..] == log[i + 1..];
      } else {
        NoneChanged(log[i..]);
      }
    }
  }

  lemma MisplacedIsPresent(nics: seq<Nic>, row: LogRow)
    ensures Misplaced(nics, row) ==> row.key != 0
  {
  }

  lemma ChangedStep(rows: seq<LogRow>, rows': seq<LogRow>, i: nat)
    requires i < |rows| == |rows'|
    ensures Changed(rows[i..], rows'[i..])
      == (if rows[i].nic != rows'[i].nic then 1 else 0) + Changed(rows[i + 1..], rows'[i + 1..])
  {
    assert rows[i..][1..] == rows[i + 1..] && rows'[i..][1..] == rows'[i + 1..];
  }

  lemma {:induction false} NoneChanged(rows: seq<LogRow>)
    ensures Changed(rows, rows) == 0
  {
    if rows != [] { NoneChanged(rows[1..]); }
  }

  /** A moved row names the owner of its addresses. */
  lemma SettledIsRightful(nics: seq<Nic>, row: LogRow, row': LogRow)
    requires DistinctNumbers(nics) && Settled(nics, row, row') && row'.key != 0 && Owned(nics, row'.client)
    ensures Rightful(nics, row')
  {
    if Misplaced(nics, row) {
      var c: nat :| Owner(nics, row.client, c) && row' == Rebooked(row, nics[c]);
      assert Named(nics, row'.nic, c);
    }
  }

  /**
   A run over the log: rows that are not misplaced stay as they were, and as many rows name
   another card as it reports.  If it gets to the end, each row whose addresses some card has
   names a card with exactly those, and is booked to that card's account if it was moved.  It
   gets there if and only if every row names a card there is and both accounts of every
   misplaced row can be reached.
   */
  lemma RepairedIsConsistent(book: Book, log: seq<LogRow>, nics: seq<Nic>)
    requires DistinctNumbers(nics)
    ensures var res := Repaired(book, log, nics, 0, 0);
      && res.fixed == Changed(log, res.log)
      && (forall i | 0 <= i < |log| :: !Misplaced(nics, log[i]) ==> res.log[i] == log[i])
      && (res.complete ==> forall i | 0 <= i < |log| && res.log[i].key != 0 && Owned(nics, res.log[i].client) ::
            Rightful(nics, res.log[i]))
      && (res.complete ==> forall i | 0 <= i < |log| && Misplaced(nics, log[i]) ::
            exists c: nat :: Owner(nics, log[i].client, c) && res.log[i] == Rebooked(log[i], nics[c]))
      && (res.complete <==> forall i | 0 <= i < |log| && log[i].key != 0 ::
            Known(nics, log[i].nic) && (Misplaced(nics, log[i]) ==> CanMove(nics, |book|, log[i])))
  {
    hide Repaired, Misplaced, Rightful, Owned, Known, CanMove, Owner, DistinctNumbers;
    RunSettles(book, log, nics, 0, 0);
    var res := Repaired(book, log, nics, 0, 0);
    assert log[0..] == log && res.log[0..] == res.log;
    if res.complete {
      forall i | 0 <= i < |log| && res.log[i].key != 0 && Owned(nics, res.log[i].client)
        ensures Rightful(nics, res.log[i])
      {
        SettledIsRightful(nics, log[i], res.log[i]);
      }
    }
  }
}
