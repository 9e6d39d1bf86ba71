/**
 The daily share of the monthly taxes: every account is charged for its tax, and a payment is
 recorded for it.
 */
module EndOfDay {
  import opened Common
  import opened FlatTable
  import opened Accounts

  /** A row of the taxes table; a deleted one has key 0 and is not fetched. */
  datatype TaxFee = TaxFee(key: nat, monthly: real)

  /** February always counts 28 days. */
  function DaysIn(month: nat): (days: nat)
    requires month < 12
    ensures 28 <= days <= 31
  {
    [31, 28, 31, 30, 31, 30, 31, 31, 30, 31, 30, 31][month]
  }

  function Daily(monthly: real, month: nat): real
    requires month < 12
  {
    monthly / DaysIn(month) as real
  }

  /** One pass over the accounts for one tax, from row `i` on. */
  function TaxCharged(book: Book, payments: seq<Payment>, tax: nat, pay: real, i: nat):
      (res: (Book, seq<Payment>))
    requires i <= |book|
    ensures |res.0| == |book|
    decreases |book| - i
  {
    if i == |book| then (book, payments)
    else if book[i].key != 0 && book[i].tax == tax then
      TaxCharged(Post(book, book[i].key, -pay), payments + [Payment(book[i].key, -pay)], tax, pay, i + 1)
    else TaxCharged(book, payments, tax, pay, i + 1)
  }

  /** All taxes, the last one last. */
  function DayCharged(book: Book, payments: seq<Payment>, taxes: seq<TaxFee>, month: nat): (res: (Book, seq<Payment>))
    requires month < 12
    ensures |res.0| == |book|
  {
    if taxes == [] then (book, payments) else
    var (book', payments') := DayCharged(book, payments, taxes[..|taxes| - 1], month);
    var t := taxes[|taxes| - 1];
    if t.key == 0 || t.monthly == 0.0 then (book', payments')
    else TaxCharged(book', payments', t.key, Daily(t.monthly, month), 0)
  }

  /** The two nested fetch loops. */
  method ChargeDay(books: Books, taxes: seq<TaxFee>, month: nat)
    requires month < 12
    modifies books`accounts, books`payments
    ensures (books.accounts, books.payments)
      == DayCharged(old(books.accounts), old(books.payments), taxes, month)
  {
    hide Post, TaxCharged;
    ghost var book, payments := books.accounts, books.payments;
    for t := 0 to |taxes|
      invariant (books.accounts, books.payments) == DayCharged(book, payments, taxes[..t], month)
    {
      assert taxes[..t + 1][..t] == taxes[..t];
      if taxes[t].key != 0 && taxes[t].monthly != 0.0 {
        ChargeTax(books, taxes[t].key, Daily(taxes[t].monthly, month));
      }
    }
    assert taxes[..|taxes|] == taxes;
  }

  method ChargeTax(books: Books, tax: nat, pay: real)
    modifies books`accounts, books`payments
    ensures (books.accounts, books.payments)
      == TaxCharged(old(books.accounts), old(books.payments), tax, pay, 0)
  {
    hide Post;
    var i := 0;
    while i < |books.accounts|
      invariant i <= |books.accounts|
      invariant TaxCharged(books.accounts, books.payments, tax, pay, i)
        == TaxCharged(old(books.accounts), old(books.payments), tax, pay, 0)
      decreases |books.accounts| - i
    {
      var row := books.accounts[i];
      if row.key != 0 && row.tax == tax {
        books.Debit(row.key, pay);
        books.payments := books.payments + [Payment(row.key, -pay)];
      }
      i := i + 1;
    }
  }

  /** A month of daily shares is the monthly tax, with 28 days for February in every year. */
  lemma MonthOfShares(monthly: real, month: nat)
    requires month < 12
    ensures DaysIn(month) == if month == 1 then 28 else if month in {3, 5, 8, 10} then 30 else 31
    ensures Daily(monthly, month) * DaysIn(month) as real == monthly
  {
  }

  // --------------------------------------------------------------- what it charges

  function Paid(payments: seq<Payment>, id: nat): real {
    if payments == [] then 0.0
    else Paid(payments[..|payments| - 1], id)
         + (if payments[|payments| - 1].account == id then payments[|payments| - 1].sum else 0.0)
  }

  function Times(payments: seq<Payment>, id: nat): nat {
    if payments == [] then 0
    else Times(payments[..|payments| - 1], id) + (if payments[|payments| - 1].account == id then 1 else 0)
  }

  lemma OneMore(payments: seq<Payment>, p: Payment, id: nat)
    ensures Paid(payments + [p], id) == Paid(payments, id) + (if p.account == id then p.sum else 0.0)
    ensures Times(payments + [p], id) == Times(payments, id) + (if p.account == id then 1 else 0)
  {
    assert (payments + [p])[..|payments|] == payments;
  }

  /** What is left unchanged of a book: which accounts there are, and their taxes. */
  ghost predicate SameAccounts(book: Book, book': Book) {
    && |book'| == |book| && Keyed(book')
    && forall i | 0 <= i < |book| :: book'[i].key == book[i].key && book'[i].tax == book[i].tax
  }

  /** The posting for row `i` changes that row only. */
  lemma PostOwn(book: Book, i: nat, pay: real)
    requires Keyed(book) && |book| < 0xFFFF_FFFF && i < |book| && book[i].key != 0
    ensures Post(book, book[i].key, -pay) == book[i := book[i].(balance := book[i].balance - pay)]
  {
  }

  /** Whether the account still has to be charged for the tax by the pass from row `i` on. */
  predicate Due(book: Book, id: nat, tax: nat, i: nat) {
    Holds(book, id) && i < id && book[id - 1].tax == tax
  }

  lemma {:induction false} TaxChargesOnce(
    book: Book, payments: seq<Payment>, tax: nat, pay: real, i: nat, id: nat)
    requires Keyed(book) && |book| < 0xFFFF_FFFF && i <= |book| && Holds(book, id)
    ensures var (book', payments') := TaxCharged(book, payments, tax, pay, i);
      && SameAccounts(book, book') && payments <= payments'
      && Times(payments', id) == Times(payments, id) + (if Due(book, id, tax, i) then 1 else 0)
      && Paid(payments', id) == Paid(payments, id) - (if Due(book, id, tax, i) then pay else 0.0)
      && Balance(book', id) == Balance(book, id) - (if Due(book, id, tax, i) then pay else 0.0)
    decreases |book| - i
  {
    hide Post, Times, Paid;
    if i < |book| {
      if book[i].key != 0 && book[i].tax == tax {
        PostOwn(book, i, pay);
        var next := Post(book, book[i].key, -pay);
        OneMore(payments, Payment(book[i].key, -pay), id);
        TaxChargesOnce(next, payments + [Payment(book[i].key, -pay)], tax, pay, i + 1, id);
      } else {
        TaxChargesOnce(book, payments, tax, pay, i + 1, id);
      }
    }
  }

  /** Taxes with this number and a fee, and what they come to for the day. */
  function Fees(taxes: seq<TaxFee>, tax: nat): nat {
    if taxes == [] then 0
    else Fees(taxes[..|taxes| - 1], tax) + (if Counts(taxes[|taxes| - 1], tax) then 1 else 0)
  }

  function Owed(taxes: seq<TaxFee>, tax: nat, month: nat): real
    requires month < 12
  {
    if taxes == [] then 0.0
    else Owed(taxes[..|taxes| - 1], tax, month)
         + (if Counts(taxes[|taxes| - 1], tax) then Daily(taxes[|taxes| - 1].monthly, month) else 0.0)
  }

  predicate Counts(t: TaxFee, tax: nat) {
    t.key != 0 && t.monthly != 0.0 && t.key == tax
  }

  /**
   The end of the day: every balance goes down by exactly the payments recorded for its
   account, which are the daily fees of the account's own tax; nothing else changes.
   */
  lemma {:induction false} DayBalances(
    book: Book, payments: seq<Payment>, taxes: seq<TaxFee>, month: nat, id: nat)
    requires Keyed(book) && |book| < 0xFFFF_FFFF && Holds(book, id) && month < 12
    ensures var (book', payments') := DayCharged(book, payments, taxes, month);
      && SameAccounts(book, book') && payments <= payments' && Holds(book', id)
      && Balance(book', id) - Balance(book, id) == Paid(payments', id) - Paid(payments, id)
      && Paid(payments', id) == Paid(payments, id) - Owed(taxes, book[id - 1].tax, month)
      && Times(payments', id) == Times(payments, id) + Fees(taxes, book[id - 1].tax)
  {
    hide Daily, TaxCharged, Times, Paid, Post;
    if taxes != [] {
      var rest, t := taxes[..|taxes| - 1], taxes[|taxes| - 1];
      DayBalances(book, payments, rest, month, id);
      var (mid, paid) := DayCharged(book, payments, rest, month);
      if t.key != 0 && t.monthly != 0.0 {
        TaxChargesOnce(mid, paid, t.key, Daily(t.monthly, month), 0, id);
      }
    }
  }

  ghost predicate DistinctTaxes(taxes: seq<TaxFee>) {
    forall i, j | 0 <= i < j < |taxes| && taxes[i].key != 0 :: taxes[i].key != taxes[j].key
  }

  lemma {:induction false} OneFee(taxes: seq<TaxFee>, t: nat, tax: nat, month: nat)
    requires DistinctTaxes(taxes) && t < |taxes| && Counts(taxes[t], tax) && month < 12
    ensures Fees(taxes, tax) == 1 && Owed(taxes, tax, month) == Daily(taxes[t].monthly, month)
  {
    hide Daily;
    var rest := taxes[..|taxes| - 1];
    if t < |rest| {
      OneFee(rest, t, tax, month);
    } else {
      NoFee(rest, tax, month);
    }
  }

  lemma {:induction false} NoFee(taxes: seq<TaxFee>, tax: nat, month: nat)
    requires forall t | 0 <= t < |taxes| :: !Counts(taxes[t], tax)
    requires month < 12
    ensures Fees(taxes, tax) == 0 && Owed(taxes, tax, month) == 0.0
  {
    if taxes != [] { NoFee(taxes[..|taxes| - 1], tax, month); }
  }

  /** An account is charged once, a day's share of its tax, if that tax has a fee, and else not at all. */
  lemma ChargedAtMostOnce(book: Book, payments: seq<Payment>, taxes: seq<TaxFee>, month: nat, id: nat)
    requires Keyed(book) && |book| < 0xFFFF_FFFF && Holds(book, id) && month < 12
    requires DistinctTaxes(taxes)
    ensures var (book', payments') := DayCharged(book, payments, taxes, month);
      var charged := Times(payments', id) - Times(payments, id);
      && Holds(book', id) && 0 <= charged <= 1
      && (charged == 1 <==> exists t :: 0 <= t < |taxes| && Counts(taxes[t], book[id - 1].tax))
      && forall t | 0 <= t < |taxes| && Counts(taxes[t], book[id - 1].tax) ::
           Balance(book', id) == Balance(book, id) - Daily(taxes[t].monthly, month)
  {
    hide Daily, DayCharged, Times, Paid, Fees, Owed, Counts;
    var tax := book[id - 1].tax;
    DayBalances(book, payments, taxes, month, id);
    forall t | 0 <= t < |taxes| && Counts(taxes[t], tax)
      ensures Fees(taxes, tax) == 1 && Owed(taxes, tax, month) == Daily(taxes[t].monthly, month)
    {
      OneFee(taxes, t, tax, month);
    }
    if forall t | 0 <= t < |taxes| :: !Counts(taxes[t], tax) { NoFee(taxes, tax, month); }
  }
}
