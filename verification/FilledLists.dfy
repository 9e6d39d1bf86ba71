/**
 What the logger's lists hold, row by row of the database they were filled from.
 */
module FilledLists {
  import opened Common
  import opened Generations

  /**
   The places of the rows that are taken into a list: those with a property, in order, as
   many as the list has room for.
   */
  ghost function Picked<T>(rows: seq<T>, p: T -> bool, max: nat): (places: seq<nat>)
    ensures |places| <= max
    ensures forall k | 0 <= k < |places| :: places[k] < |rows| && p(rows[places[k]])
    ensures forall k, l | 0 <= k < l < |places| :: places[k] < places[l]
    ensures forall j: nat | j < |rows| && p(rows[j]) && j !in places ::
      |places| == max && forall k | 0 <= k < max :: places[k] < j
  {
    if rows == [] then []
    else
      var places := Picked(Init(rows), p, max);
      if |places| == max || !p(Final(rows)) then places else places + [|rows| - 1]
  }

  lemma NonePicked<T>(p: T -> bool, max: nat)
    ensures Picked([], p, max) == []
  {
  }

  lemma PickedStep<T>(rows: seq<T>, p: T -> bool, max: nat)
    requires rows != []
    ensures var places := Picked(Init(rows), p, max);
      Picked(rows, p, max) == if |places| == max || !p(Final(rows)) then places else places + [|rows| - 1]
  {
  }

  /** The first of the taxes in the list with a number, if there is one. */
  ghost predicate FirstTax(taxes: seq<Tax>, uid: nat, i: nat) {
    i < |taxes| && taxes[i].uid == uid && forall j | 0 <= j < i :: taxes[j].uid != uid
  }

  ghost predicate FirstAccount(accounts: seq<Account>, uid: nat, i: nat) {
    i < |accounts| && accounts[i].uid == uid && forall j | 0 <= j < i :: accounts[j].uid != uid
  }

  predicate HasTax(taxes: seq<Tax>, uid: nat) {
    exists t | t in taxes :: t.uid == uid
  }

  predicate HasAccount(accounts: seq<Account>, uid: nat) {
    exists a | a in accounts :: a.uid == uid
  }

  lemma FindsTax(taxes: seq<Tax>, uid: nat)
    ensures var i := Find(taxes, (t: Tax) => t.uid, uid);
      (i < |taxes| <==> HasTax(taxes, uid)) && (i < |taxes| ==> FirstTax(taxes, uid, i))
  {
    var key := (t: Tax) => t.uid;
    var i := Find(taxes, key, uid);
    if i < |taxes| { assert key(taxes[i]) == uid; }
    assert forall j | 0 <= j < i :: key(taxes[j]) == taxes[j].uid;
  }

  lemma FindsAccount(accounts: seq<Account>, uid: nat)
    ensures var i := Find(accounts, (a: Account) => a.uid, uid);
      && (i < |accounts| <==> HasAccount(accounts, uid))
      && (i < |accounts| ==> FirstAccount(accounts, uid, i))
  {
    var key := (a: Account) => a.uid;
    var i := Find(accounts, key, uid);
    if i < |accounts| { assert key(accounts[i]) == uid; }
    assert forall j | 0 <= j < i :: key(accounts[j]) == accounts[j].uid;
  }

  /** It is the property that counts, not how it is written. */
  lemma {:induction false} PickedSame<T>(rows: seq<T>, p: T -> bool, q: T -> bool, max: nat)
    requires forall r | r in rows :: p(r) == q(r)
    ensures Picked(rows, p, max) == Picked(rows, q, max)
  {
    if rows != [] {
      PickedSame(Init(rows), p, q, max);
      assert Final(rows) in rows;
    }
  }

  // --------------------------------------------------------------------- taxes

  /** The first taxes of the table, as many as there is room for, with their own rates. */
  lemma {:induction false} TaxesAre(rows: seq<TaxRow>, max: nat)
    ensures |Taxes(rows, max)| == if |rows| < max then |rows| else max
    ensures forall i | 0 <= i < |Taxes(rows, max)| ::
      var t := Taxes(rows, max)[i];
      t.uid == rows[i].uid && t.toCli == rows[i].toCli && t.fromCli == rows[i].fromCli && t.td == Null
  {
    if rows != [] { TaxesAre(Init(rows), max); }
  }

  // ------------------------------------------------------------------- details

  /** The rates of a detail row at this hour: those of the first times row it names, or else its own. */
  ghost predicate HourRates(times: seq<TimesRow>, max: nat, r: DetailRow, toCli: real, fromCli: real) {
    if exists i :: 0 <= i < |times| && i < max && times[i].uid == r.times then
      exists i ::
        && 0 <= i < |times| && i < max && times[i].uid == r.times && toCli == times[i].toCli
        && fromCli == times[i].fromCli && forall j | 0 <= j < i :: times[j].uid != r.times
    else toCli == r.toCli && fromCli == r.fromCli
  }

  /** Details are taken for a tax of the list, or for none. */
  function ForTax(taxes: seq<Tax>): DetailRow -> bool {
    (r: DetailRow) => r.tax == 0 || HasTax(taxes, r.tax)
  }

  /** The detail of a row, with the rates of the hour. */
  ghost predicate DetailIs(times: seq<TimesRow>, max: nat, d: Detail, r: DetailRow) {
    && d.ipMask == r.ipMask && d.ipAddr == r.ipAddr && d.proto == r.proto && d.port == r.port
    && HourRates(times, max, r, d.toCli, d.fromCli)
  }

  lemma DetailOfRow(r: DetailRow, times: seq<TimesRow>, max: nat, next: Ptr)
    ensures DetailIs(times, max, DetailOf(r, Times(times, max), next), r)
  {
    var key, some := (t: TimesRow) => t.uid, Times(times, max);
    var i := Find(some, key, r.times);
    assert forall j | 0 <= j < |some| :: some[j] == times[j] && key(some[j]) == times[j].uid;
  }

  lemma {:induction false} SameTaxes(rows: seq<DetailRow>, taxes: seq<Tax>, times: seq<TimesRow>, max: nat, bank: nat)
    ensures var linked := Details(rows, taxes, times, max, bank).1;
      |linked| == |taxes| && forall i | 0 <= i < |taxes| :: linked[i] == taxes[i].(td := linked[i].td)
  {
    if rows != [] { SameTaxes(Init(rows), taxes, times, max, bank); }
  }

  lemma HasSameTax(taxes: seq<Tax>, taxes': seq<Tax>, uid: nat)
    requires |taxes| == |taxes'| && forall i | 0 <= i < |taxes| :: taxes[i].uid == taxes'[i].uid
    ensures HasTax(taxes, uid) <==> HasTax(taxes', uid)
    ensures forall i: nat :: FirstTax(taxes, uid, i) <==> FirstTax(taxes', uid, i)
  {
  }

  /** The details in the list: each from its row, with the rates of the hour. */
  lemma {:induction false} DetailsAre(
    rows: seq<DetailRow>, taxes: seq<Tax>, times: seq<TimesRow>, maxTimes: nat, max: nat, bank: nat)
    ensures var places, details := Picked(rows, ForTax(taxes), max),
                                   Details(rows, taxes, Times(times, maxTimes), max, bank).0;
      && |details| == |places|
      && forall m | 0 <= m < |places| ::
           DetailIs(times, maxTimes, details[m], rows[places[m]])
  {
    hide DetailIs, HasTax, FirstTax, DetailOf, Times, Picked;
    NonePicked(ForTax(taxes), max);
    if rows != [] {
      var r, some := Final(rows), Times(times, maxTimes);
      DetailsAre(Init(rows), taxes, times, maxTimes, max, bank);
      PickedStep(rows, ForTax(taxes), max);
      SameTaxes(Init(rows), taxes, some, max, bank);
      var (details, linked) := Details(Init(rows), taxes, some, max, bank);
      HasSameTax(taxes, linked, r.tax);
      FindsTax(linked, r.tax);
      DetailOfRow(r, times, maxTimes, Null);
      var i := Find(linked, (t: Tax) => t.uid, r.tax);
      if i < |linked| { DetailOfRow(r, times, maxTimes, linked[i].td); }
    }
  }

  // ------------------------------------------------------------------ accounts

  /** Accounts are taken if they are in credit or may be in debt, and are for a tax of the list or for none. */
  function Active(taxes: seq<Tax>): AccountRow -> bool {
    (r: AccountRow) => (0.0 <= r.sum || r.negativeAllowed) && (r.tax == 0 || HasTax(taxes, r.tax))
  }

  /** The account of a row, at the first tax with the number the row names. */
  ghost predicate AccountIs(taxes: seq<Tax>, bank: nat, a: Account, r: AccountRow) {
    && a.uid == r.uid
    && if HasTax(taxes, r.tax) then a.tax.At? && a.tax.bank == bank && FirstTax(taxes, r.tax, a.tax.index)
       else a.tax == Null
  }

  lemma {:induction false} AccountsAre(rows: seq<AccountRow>, taxes: seq<Tax>, max: nat, bank: nat)
    ensures var places, accounts := Picked(rows, Active(taxes), max), Accounts(rows, taxes, max, bank);
      && |accounts| == |places|
      && forall m | 0 <= m < |places| ::
           AccountIs(taxes, bank, accounts[m], rows[places[m]])
  {
    hide HasTax, FirstTax, AccountIs, Picked, Active, Accounts;
    NonePicked(Active(taxes), max);
    NoAccounts(taxes, max, bank);
    if rows != [] {
      AccountsAre(Init(rows), taxes, max, bank);
      PickedStep(rows, Active(taxes), max);
      AccountsStep(rows, taxes, max, bank);
    }
  }

  lemma NoAccounts(taxes: seq<Tax>, max: nat, bank: nat)
    ensures Accounts([], taxes, max, bank) == []
  {
  }

  lemma AccountsStep(rows: seq<AccountRow>, taxes: seq<Tax>, max: nat, bank: nat)
    requires rows != []
    ensures var was, now := Accounts(Init(rows), taxes, max, bank), Accounts(rows, taxes, max, bank);
      if |was| == max || !Active(taxes)(Final(rows)) then now == was
      else |now| == |was| + 1 && now[..|was|] == was && AccountIs(taxes, bank, now[|was|], Final(rows))
  {
    hide HasTax, FirstTax;
    FindsTax(taxes, Final(rows).tax);
  }

  // --------------------------------------------------------------------- cards

  /** Cards are taken for an account of the list, or for none. */
  function OfAccount(accounts: seq<Account>): CardRow -> bool {
    (r: CardRow) => r.account == 0 || HasAccount(accounts, r.account)
  }

  /** The card of a row, at the first account with the number the row names. */
  ghost predicate CardIs(accounts: seq<Account>, bank: nat, c: Card, r: CardRow) {
    && c.uid == r.uid && c.client == r.client
    && if HasAccount(accounts, r.account) then
         c.account.At? && c.account.bank == bank && FirstAccount(accounts, r.account, c.account.index)
       else c.account == Null
  }

  lemma {:induction false} CardsAre(rows: seq<CardRow>, accounts: seq<Account>, max: nat, bank: nat)
    ensures var places, cards := Picked(rows, OfAccount(accounts), max), Cards(rows, accounts, max, bank).0;
      && |cards| == |places|
      && forall m | 0 <= m < |places| ::
           CardIs(accounts, bank, cards[m], rows[places[m]])
  {
    hide HasAccount, CardIs, FirstAccount, Picked;
    NonePicked(OfAccount(accounts), max);
    if rows != [] {
      CardsAre(Init(rows), accounts, max, bank);
      PickedStep(rows, OfAccount(accounts), max);
      FindsAccount(accounts, Final(rows).account);
      CardOfRow(Final(rows), accounts, bank);
    }
  }

  lemma CardOfRow(r: CardRow, accounts: seq<Account>, bank: nat)
    ensures var i := Find(accounts, (a: Account) => a.uid, r.account);
      CardIs(accounts, bank, Card(r.uid, if i < |accounts| then At(bank, i) else Null, r.client), r)
  {
    FindsAccount(accounts, r.account);
  }

  /** The clients pushed to the filter are those of the cards that have an account. */
  lemma {:induction false} PushedAre(rows: seq<CardRow>, accounts: seq<Account>, max: nat, bank: nat)
    requires forall j | 0 <= j < |rows| :: rows[j].account != 0
    ensures var places, pushed := Picked(rows, OfAccount(accounts), max), Cards(rows, accounts, max, bank).1;
      |pushed| == |places| && forall m | 0 <= m < |places| :: pushed[m] == rows[places[m]].client
  {
    hide HasAccount, FirstAccount, Picked;
    NonePicked(OfAccount(accounts), max);
    if rows != [] {
      PushedAre(Init(rows), accounts, max, bank);
      CardsAre(Init(rows), accounts, max, bank);
      PickedStep(rows, OfAccount(accounts), max);
      FindsAccount(accounts, Final(rows).account);
      assert Final(rows).account != 0;
    }
  }
}
