/**
 The accounts table and the log table as the billing programs use them: a balance is changed
 by a SEEK to the account's primary key and an UPDCUR of the row the cursor is then on.
 */
module Accounts {
  import opened Common
  import opened FlatTable
  import opened Generations

  /** A row of the accounts table; the key is the row's number, or 0 once it is deleted. */
  datatype Row = Row(key: nat, tax: nat, balance: real)

  type Book = seq<Row>

  /** A row of the log table: who was charged what, and for which card. */
  datatype LogRow = LogRow(key: nat, nic: nat, account: nat, client: Client, toCli: real, toHost: real)

  ghost predicate Keyed(book: Book) {
    forall i | 0 <= i < |book| :: book[i].key == i + 1 || book[i].key == 0
  }

  predicate Holds(book: Book, id: nat) {
    0 < id <= |book| && book[id - 1].key == id
  }

  function Balance(book: Book, id: nat): real
    requires Holds(book, id)
  {
    book[id - 1].balance
  }

  /** SEEK to `id` in a table of `size` rows succeeds: one past the last is let through. */
  predicate Reaches(size: nat, id: nat) {
    (if id == 0 then 0xFFFF_FFFF else id - 1) <= size
  }

  /** Where the cursor is after it; a SEEK that fails leaves it on the first row. */
  function Cursor(size: nat, id: nat): nat {
    if !Reaches(size, id) then 0 else if id == 0 then 0xFFFF_FFFF else id - 1
  }

  /** The keys of the table's rows are accepted and the one after them, and no other. */
  lemma ReachesIs(size: nat, id: nat)
    requires size < 0xFFFF_FFFF
    ensures Reaches(size, id) <==> 1 <= id <= size + 1
    ensures Cursor(size, id) == if 1 <= id <= size + 1 then id - 1 else 0
  {
  }

  function Present(): Row -> Verdict {
    (row: Row) => if row.key == 0 then Reject else Pass
  }

  function Plus(amount: real): Row -> Row {
    (row: Row) => row.(balance := row.balance + amount)
  }

  /** The book after SEEK and UPDCUR, whatever the SEEK answered. */
  function Post(book: Book, id: nat, amount: real): (book': Book)
    ensures |book'| == |book|
  {
    UpdateOne(book, Cursor(|book|, id), Present(), Plus(amount))
  }

  /** The account an update meant for `id` goes to. */
  function Target(size: nat, id: nat): nat {
    if Reaches(size, id) then id else 1
  }

  /** An update changes one balance, that of its target if the target is there, and nothing else. */
  lemma PostChanges(book: Book, id: nat, amount: real)
    requires Keyed(book) && |book| < 0xFFFF_FFFF
    ensures Keyed(Post(book, id, amount))
    ensures forall a: nat :: Holds(Post(book, id, amount), a) <==> Holds(book, a)
    ensures forall a: nat | Holds(book, a) ::
      && Post(book, id, amount)[a - 1].tax == book[a - 1].tax
      && Balance(Post(book, id, amount), a)
           == Balance(book, a) + (if a == Target(|book|, id) then amount else 0.0)
    ensures forall i | 0 <= i < |book| && book[i].key == 0 :: Post(book, id, amount)[i] == book[i]
  {
    var rec := Cursor(|book|, id);
    if rec < |book| && book[rec].key != 0 {
      assert Post(book, id, amount) == book[rec := Plus(amount)(book[rec])];
    }
  }

  // ------------------------------------------------------------------- log sums

  function Sum(row: LogRow): real {
    row.toCli + row.toHost
  }

  /** All charges booked to an account by the rows that are there. */
  function Booked(log: seq<LogRow>, id: nat): real {
    if log == [] then 0.0
    else Booked(log[..|log| - 1], id) + Share(log[|log| - 1], id)
  }

  function Share(row: LogRow, id: nat): real {
    if row.key != 0 && row.account == id then row.toCli + row.toHost else 0.0
  }

  /** What billing keeps for an account: its balance and all it has been charged. */
  function Worth(book: Book, log: seq<LogRow>, id: nat): real
    requires Holds(book, id)
  {
    Balance(book, id) + Booked(log, id)
  }

  lemma {:induction false} BookedConcat(log: seq<LogRow>, more: seq<LogRow>, id: nat)
    ensures Booked(log + more, id) == Booked(log, id) + Booked(more, id)
  {
    if more == [] {
      assert log + more == log;
    } else {
      assert (log + more)[..|log + more| - 1] == log + more[..|more| - 1];
      BookedConcat(log, more[..|more| - 1], id);
    }
  }

  lemma {:induction false} BookedUpdate(log: seq<LogRow>, i: nat, row: LogRow, id: nat)
    requires i < |log|
    ensures Booked(log[i := row], id) == Booked(log, id) - Share(log[i], id) + Share(row, id)
  {
    if i < |log| - 1 {
      assert log[i := row][..|log| - 1] == log[..|log| - 1][i := row];
      BookedUpdate(log[..|log| - 1], i, row, id);
    } else {
      assert log[i := row][..|log| - 1] == log[..|log| - 1];
    }
  }

  // ------------------------------------------------------------------ the tables

  datatype Payment = Payment(account: nat, sum: real)

  /** The tables of one database, as long as no other program writes them. */
  class Books {
    var accounts: Book
    var log: seq<LogRow>
    var payments: seq<Payment>

    constructor (accounts: Book, log: seq<LogRow>, payments: seq<Payment>)
      ensures this.accounts == accounts && this.log == log && this.payments == payments
    {
      this.accounts, this.log, this.payments := accounts, log, payments;
    }

    /** The seek half: it answers whether the key was accepted. */
    method Seek(id: nat) returns (rec: nat, found: bool)
      ensures rec == Cursor(|accounts|, id) && found == Reaches(|accounts|, id)
    {
      rec, found := if id == 0 then 0xFFFF_FFFF else id - 1, true;
      if |accounts| < rec {
        rec, found := 0, false;
      }
    }

    /** The update half: one row, if there is one under the cursor. */
    method Update(rec: nat, amount: real)
      modifies `accounts
      ensures accounts == UpdateOne(old(accounts), rec, Present(), Plus(amount))
    {
      if rec < |accounts| && accounts[rec].key != 0 {
        accounts := accounts[rec := accounts[rec].(balance := accounts[rec].balance + amount)];
      }
    }

    /** The two as the billing loops call them: a SEEK that fails is only reported. */
    method Debit(id: nat, sum: real)
      modifies `accounts
      ensures accounts == Post(old(accounts), id, -sum)
    {
      var rec, found := Seek(id);
      Update(rec, -sum);
    }
  }
}
