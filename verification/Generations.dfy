/**
 The logger's lists of taxes, accounts and network cards.

 There are two banks of every list.  A cycle fills the shadow bank from the database, pushes
 the cards to the filter as rules, has the filter swap its log and its rules, and then swaps
 its own banks, so that the log it has been given is read against the lists that were in
 force while the log was written.  Packets keep coming all the time.
 */
module Generations {
  import opened Common

  /** A pointer into one of the two banks of a list. */
  datatype Ptr = Null | At(bank: nat, index: nat)

  datatype Tax = Tax(uid: nat, toCli: real, fromCli: real, td: Ptr)
  datatype Detail = Detail(ipMask: word, ipAddr: word, proto: nat, port: nat, toCli: real, fromCli: real, next: Ptr)
  datatype Account = Account(uid: nat, tax: Ptr)
  datatype Client = Client(mac: seq<byte>, ip: word)
  datatype Card = Card(uid: nat, account: Ptr, client: Client)

  /** Rows as the database gives them, foreign keys by name. */
  datatype TaxRow = TaxRow(uid: nat, toCli: real, fromCli: real)
  datatype TimesRow = TimesRow(uid: nat, toCli: real, fromCli: real)
  datatype DetailRow = DetailRow(tax: nat, times: nat, ipMask: word, ipAddr: word, proto: nat, port: nat,
                                 toCli: real, fromCli: real)
  datatype AccountRow = AccountRow(uid: nat, tax: nat, sum: real, negativeAllowed: bool)
  datatype CardRow = CardRow(uid: nat, account: nat, client: Client)

  datatype Database = Database(taxes: seq<TaxRow>, times: seq<TimesRow>, details: seq<DetailRow>,
                               accounts: seq<AccountRow>, cards: seq<CardRow>)

  /** How long each list may get. */
  datatype Limits = Limits(taxes: nat, times: nat, details: nat, accounts: nat, cards: nat)

  // ------------------------------------------------------------ filling a bank

  /** Position of the first element with this number, or the length. */
  function Find<T>(s: seq<T>, uid: T -> nat, n: nat): (i: nat)
    ensures i <= |s|
    ensures i < |s| ==> uid(s[i]) == n
    ensures forall j | 0 <= j < i :: uid(s[j]) != n
  {
    FirstPlace(s, (x: T) => uid(x) == n, 0)
  }

  function Init<T>(s: seq<T>): (s': seq<T>)
    requires s != []
    ensures |s'| == |s| - 1
  {
    s[..|s| - 1]
  }

  function Final<T>(s: seq<T>): T
    requires s != []
  {
    s[|s| - 1]
  }

  function Taxes(rows: seq<TaxRow>, max: nat): (taxes: seq<Tax>)
    ensures |taxes| <= max
    ensures forall t | t in taxes :: t.td == Null
  {
    if rows == [] then [] else
    var taxes, r := Taxes(Init(rows), max), Final(rows);
    if |taxes| == max then taxes else taxes + [Tax(r.uid, r.toCli, r.fromCli, Null)]
  }

  function Times(rows: seq<TimesRow>, max: nat): (times: seq<TimesRow>) {
    if |rows| <= max then rows else rows[..max]
  }

  /** A detail with the rates of the current hour, if it has any. */
  function DetailOf(r: DetailRow, times: seq<TimesRow>, next: Ptr): Detail {
    var i := Find(times, (t: TimesRow) => t.uid, r.times);
    if i < |times| then Detail(r.ipMask, r.ipAddr, r.proto, r.port, times[i].toCli, times[i].fromCli, next)
    else Detail(r.ipMask, r.ipAddr, r.proto, r.port, r.toCli, r.fromCli, next)
  }

  /** Details are chained to their taxes, newest first; one without a tax leaves its place to the next. */
  function Details(rows: seq<DetailRow>, taxes: seq<Tax>, times: seq<TimesRow>, max: nat, bank: nat):
      (res: (seq<Detail>, seq<Tax>))
    ensures |res.0| <= max && |res.1| == |taxes|
  {
    if rows == [] then ([], taxes) else
    var (details, linked) := Details(Init(rows), taxes, times, max, bank);
    var r := Final(rows);
    var i := Find(linked, (t: Tax) => t.uid, r.tax);
    if |details| == max then (details, linked)
    else if i < |linked| then
      (details + [DetailOf(r, times, linked[i].td)], linked[i := linked[i].(td := At(bank, |details|))])
    else if r.tax == 0 then (details + [DetailOf(r, times, Null)], linked)
    else (details, linked)
  }

  function Accounts(rows: seq<AccountRow>, taxes: seq<Tax>, max: nat, bank: nat): (accounts: seq<Account>)
    ensures |accounts| <= max
  {
    if rows == [] then [] else
    var accounts, r := Accounts(Init(rows), taxes, max, bank), Final(rows);
    var i := Find(taxes, (t: Tax) => t.uid, r.tax);
    if |accounts| == max || (r.sum < 0.0 && !r.negativeAllowed) then accounts
    else if i < |taxes| then accounts + [Account(r.uid, At(bank, i))]
    else if r.tax == 0 then accounts + [Account(r.uid, Null)]
    else accounts
  }

  /** The cards, and the clients pushed to the filter on the way. */
  function Cards(rows: seq<CardRow>, accounts: seq<Account>, max: nat, bank: nat): (res: (seq<Card>, seq<Client>))
    ensures |res.0| <= max
  {
    if rows == [] then ([], []) else
    var (cards, pushed) := Cards(Init(rows), accounts, max, bank);
    var r := Final(rows);
    var i := Find(accounts, (a: Account) => a.uid, r.account);
    if |cards| == max then (cards, pushed)
    else if i < |accounts| then (cards + [Card(r.uid, At(bank, i), r.client)], pushed + [r.client])
    else if r.account == 0 then (cards + [Card(r.uid, Null, r.client)], pushed)
    else (cards, pushed)
  }

  // ------------------------------------------------------- the loops that fill it

  method FillTaxes(rows: seq<TaxRow>, max: nat) returns (taxes: seq<Tax>)
    requires 0 < max
    ensures taxes == Taxes(rows, max)
  {
    taxes := [];
    for k := 0 to |rows|
      invariant taxes == Taxes(rows[..k], max) && |taxes| < max
    {
      RowsGrow(rows, k);
      taxes := taxes + [Tax(rows[k].uid, rows[k].toCli, rows[k].fromCli, Null)];
      if |taxes| == max {
        TaxesFull(rows, k + 1, max);
        return;
      }
    }
    assert rows[..|rows|] == rows;
  }

  method FillDetails(rows: seq<DetailRow>, start: seq<Tax>, times: seq<TimesRow>, max: nat, bank: nat)
    returns (details: seq<Detail>, taxes: seq<Tax>)
    requires 0 < max
    ensures (details, taxes) == Details(rows, start, times, max, bank)
  {
    details, taxes := [], start;
    for k := 0 to |rows|
      invariant (details, taxes) == Details(rows[..k], start, times, max, bank) && |details| < max
    {
      RowsGrow(rows, k);
      var r := rows[k];
      var i := FindIndex(taxes, (t: Tax) => t.uid, r.tax);
      if i < |taxes| {
        details, taxes := details + [DetailOf(r, times, taxes[i].td)],
                          taxes[i := taxes[i].(td := At(bank, |details|))];
      } else if r.tax == 0 {
        details := details + [DetailOf(r, times, Null)];
      }
      if |details| == max {
        DetailsFull(rows, start, times, k + 1, max, bank);
        return;
      }
    }
    assert rows[..|rows|] == rows;
  }

  method FillAccounts(rows: seq<AccountRow>, taxes: seq<Tax>, max: nat, bank: nat) returns (accounts: seq<Account>)
    requires 0 < max
    ensures accounts == Accounts(rows, taxes, max, bank)
  {
    accounts := [];
    for k := 0 to |rows|
      invariant accounts == Accounts(rows[..k], taxes, max, bank) && |accounts| < max
    {
      RowsGrow(rows, k);
      var r := rows[k];
      if !(r.sum < 0.0 && !r.negativeAllowed) {
        var i := FindIndex(taxes, (t: Tax) => t.uid, r.tax);
        if i < |taxes| {
          accounts := accounts + [Account(r.uid, At(bank, i))];
        } else if r.tax == 0 {
          accounts := accounts + [Account(r.uid, Null)];
        }
        if |accounts| == max {
          AccountsFull(rows, taxes, k + 1, max, bank);
          return;
        }
      }
    }
    assert rows[..|rows|] == rows;
  }

  method FillCards(rows: seq<CardRow>, accounts: seq<Account>, max: nat, bank: nat)
    returns (cards: seq<Card>, pushed: seq<Client>)
    requires 0 < max
    ensures (cards, pushed) == Cards(rows, accounts, max, bank)
  {
    cards, pushed := [], [];
    for k := 0 to |rows|
      invariant (cards, pushed) == Cards(rows[..k], accounts, max, bank) && |cards| < max
    {
      RowsGrow(rows, k);
      var r := rows[k];
      var i := FindIndex(accounts, (a: Account) => a.uid, r.account);
      if i < |accounts| {
        cards, pushed := cards + [Card(r.uid, At(bank, i), r.client)], pushed + [r.client];
      } else if r.account == 0 {
        cards := cards + [Card(r.uid, Null, r.client)];
      }
      if |cards| == max {
        CardsFull(rows, accounts, k + 1, max, bank);
        return;
      }
    }
    assert rows[..|rows|] == rows;
  }

  method FindIndex<T>(s: seq<T>, uid: T -> nat, n: nat) returns (i: nat)
    ensures i == Find(s, uid, n)
  {
    i := 0;
    while i < |s| && uid(s[i]) != n
      invariant i <= |s| && forall j | 0 <= j < i :: uid(s[j]) != n
    {
      i := i + 1;
    }
  }

  lemma RowsGrow<T>(rows: seq<T>, k: nat)
    requires k < |rows|
    ensures rows[..k + 1] != [] && Init(rows[..k + 1]) == rows[..k] && Final(rows[..k + 1]) == rows[k]
  {
  }

  /** A list that is full takes no more rows. */
  lemma {:induction false} TaxesFull(rows: seq<TaxRow>, k: nat, max: nat)
    requires k <= |rows| && |Taxes(rows[..k], max)| == max
    ensures Taxes(rows, max) == Taxes(rows[..k], max)
  {
    if k == |rows| { assert rows[..k] == rows; }
    else {
      assert Init(rows)[..k] == rows[..k];
      TaxesFull(Init(rows), k, max);
    }
  }

  lemma {:induction false} DetailsFull(
    rows: seq<DetailRow>, taxes: seq<Tax>, times: seq<TimesRow>, k: nat, max: nat, bank: nat)
    requires k <= |rows| && |Details(rows[..k], taxes, times, max, bank).0| == max
    ensures Details(rows, taxes, times, max, bank) == Details(rows[..k], taxes, times, max, bank)
  {
    if k == |rows| { assert rows[..k] == rows; }
    else {
      assert Init(rows)[..k] == rows[..k];
      DetailsFull(Init(rows), taxes, times, k, max, bank);
    }
  }

  lemma {:induction false} AccountsFull(rows: seq<AccountRow>, taxes: seq<Tax>, k: nat, max: nat, bank: nat)
    requires k <= |rows| && |Accounts(rows[..k], taxes, max, bank)| == max
    ensures Accounts(rows, taxes, max, bank) == Accounts(rows[..k], taxes, max, bank)
  {
    if k == |rows| { assert rows[..k] == rows; }
    else {
      assert Init(rows)[..k] == rows[..k];
      AccountsFull(Init(rows), taxes, k, max, bank);
    }
  }

  lemma {:induction false} CardsFull(rows: seq<CardRow>, accounts: seq<Account>, k: nat, max: nat, bank: nat)
    requires k <= |rows| && |Cards(rows[..k], accounts, max, bank).0| == max
    ensures Cards(rows, accounts, max, bank) == Cards(rows[..k], accounts, max, bank)
  {
    if k == |rows| { assert rows[..k] == rows; }
    else {
      assert Init(rows)[..k] == rows[..k];
      CardsFull(Init(rows), accounts, k, max, bank);
    }
  }

  // ------------------------------------------------------------------ the state

  datatype Bank = Bank(taxes: seq<Tax>, details: seq<Detail>, accounts: seq<Account>, cards: seq<Card>)

  /** Where a cycle is: the filter swaps its log first and its rules second. */
  datatype Phase = Ready | Loaded | LogSwapped | RulesSwapped

  /**
   `crnt*` name the bank each current-list pointer points to.  `active`, `pending` and `log`
   are the filter's; `early` counts the packets at the head of `log` that came in between the
   two swaps.  `batch` is the log handed over, `batchEarly` its early packets.
   */
  datatype State = State(
    banks: seq<Bank>, crntTaxes: nat, crntTd: nat, crntAccounts: nat, crntCards: nat,
    phase: Phase,
    active: seq<Client>, pending: seq<Client>, log: seq<Client>, early: nat,
    batch: seq<Client>, batchEarly: nat)

  datatype Action = Packet(client: Client) | Load(db: Database, accepted: nat) | SwapLog | SwapRules | SwapBanks

  predicate Enabled(s: State, a: Action) {
    match a
    case Packet(client) => client in s.active
    case Load(_, _) => s.phase.Ready?
    case SwapLog => s.phase.Loaded?
    case SwapRules => s.phase.LogSwapped?
    case SwapBanks => s.phase.RulesSwapped?
  }

  function Other(bank: nat): nat {
    if bank == 0 then 1 else 0
  }

  /** The shadow bank filled from the database, and what was pushed to the filter. */
  function Filling(db: Database, lim: Limits, taxBank: nat, tdBank: nat, accountBank: nat): (Bank, seq<Client>) {
    var taxes := Taxes(db.taxes, lim.taxes);
    var (details, linked) := Details(db.details, taxes, Times(db.times, lim.times), lim.details, tdBank);
    var accounts := Accounts(db.accounts, linked, lim.accounts, taxBank);
    var (cards, pushed) := Cards(db.cards, accounts, lim.cards, accountBank);
    (Bank(linked, details, accounts, cards), pushed)
  }

  /** Write each list of a filling into its own shadow bank. */
  function Stored(s: State, b: Bank): seq<Bank>
    requires |s.banks| == 2
  {
    seq(2, k requires 0 <= k < 2 =>
      Bank(if k == Other(s.crntTaxes) then b.taxes else s.banks[k].taxes,
           if k == Other(s.crntTd) then b.details else s.banks[k].details,
           if k == Other(s.crntAccounts) then b.accounts else s.banks[k].accounts,
           if k == Other(s.crntCards) then b.cards else s.banks[k].cards))
  }

  function Next(s: State, a: Action, lim: Limits): State
    requires |s.banks| == 2
  {
    match a
    case Packet(client) =>
      s.(log := s.log + [client], early := if s.phase.LogSwapped? then |s.log| + 1 else s.early)
    case Load(db, accepted) =>
      var (bank, pushed) := Filling(db, lim, Other(s.crntTaxes), Other(s.crntTd), Other(s.crntAccounts));
      s.(phase := Loaded, banks := Stored(s, bank),
         pending := if accepted < |pushed| then pushed[..accepted] else pushed)
    case SwapLog => s.(phase := LogSwapped, batch := s.log, batchEarly := s.early, log := [], early := 0)
    case SwapRules => s.(phase := RulesSwapped, active := s.pending, pending := [])
    case SwapBanks =>
      s.(phase := Ready, crntTaxes := Other(s.crntTaxes), crntTd := Other(s.crntTd),
         crntAccounts := Other(s.crntAccounts), crntCards := Other(s.crntCards))
  }

  // -------------------------------------------------------------- sound pointers

  ghost predicate Points(p: Ptr, bank: nat, size: nat) {
    p.At? && p.bank == bank && p.index < size
  }

  ghost predicate AccountsPoint(accounts: seq<Account>, bank: nat, size: nat) {
    forall i | 0 <= i < |accounts| :: Points(accounts[i].tax, bank, size)
  }

  /** Every pointer of the bank stays in it, and chains of details end. */
  ghost predicate Sound(b: Bank, k: nat) {
    && (forall i | 0 <= i < |b.taxes| :: b.taxes[i].td == Null || Points(b.taxes[i].td, k, |b.details|))
    && (forall i | 0 <= i < |b.details| :: b.details[i].next == Null || Points(b.details[i].next, k, i))
    && AccountsPoint(b.accounts, k, |b.taxes|)
    && (forall i | 0 <= i < |b.cards| :: Points(b.cards[i].account, k, |b.accounts|))
  }

  /** No row leaves its foreign key at zero. */
  predicate KeysSet(db: Database) {
    && (forall i | 0 <= i < |db.details| :: db.details[i].tax != 0)
    && (forall i | 0 <= i < |db.accounts| :: db.accounts[i].tax != 0)
    && (forall i | 0 <= i < |db.cards| :: db.cards[i].account != 0)
  }

  /** The card a session belongs to, by the loop that looks for it. */
  predicate HasCard(b: Bank, client: Client) {
    exists i :: 0 <= i < |b.cards| && b.cards[i].client == client
  }

  ghost predicate AllHaveCards(b: Bank, clients: seq<Client>) {
    forall i | 0 <= i < |clients| :: HasCard(b, clients[i])
  }

  lemma {:induction false} DetailsSound(
    rows: seq<DetailRow>, taxes: seq<Tax>, times: seq<TimesRow>, max: nat, bank: nat)
    requires forall t | t in taxes :: t.td == Null
    ensures var (details, linked) := Details(rows, taxes, times, max, bank);
      && (forall i | 0 <= i < |linked| :: linked[i].td == Null || Points(linked[i].td, bank, |details|))
      && (forall i | 0 <= i < |details| :: details[i].next == Null || Points(details[i].next, bank, i))
      && (forall i | 0 <= i < |linked| :: linked[i].uid == taxes[i].uid)
  {
    if rows != [] { DetailsSound(Init(rows), taxes, times, max, bank); }
  }

  lemma {:induction false} AccountsSound(rows: seq<AccountRow>, taxes: seq<Tax>, max: nat, bank: nat)
    requires forall i | 0 <= i < |rows| :: rows[i].tax != 0
    ensures AccountsPoint(Accounts(rows, taxes, max, bank), bank, |taxes|)
  {
    if rows != [] {
      AccountsSound(Init(rows), taxes, max, bank);
      assert Final(rows).tax != 0;
    }
  }

  lemma {:induction false} CardsSound(rows: seq<CardRow>, accounts: seq<Account>, max: nat, bank: nat)
    requires forall i | 0 <= i < |rows| :: rows[i].account != 0
    ensures var (cards, pushed) := Cards(rows, accounts, max, bank);
      && (forall i | 0 <= i < |cards| :: Points(cards[i].account, bank, |accounts|))
      && |pushed| == |cards| && forall i | 0 <= i < |pushed| :: cards[i].client == pushed[i]
  {
    if rows != [] { CardsSound(Init(rows), accounts, max, bank); }
  }

  lemma FillingSound(db: Database, lim: Limits, k: nat)
    requires KeysSet(db)
    ensures var (bank, pushed) := Filling(db, lim, k, k, k);
      Sound(bank, k) && AllHaveCards(bank, pushed)
  {
    var taxes := Taxes(db.taxes, lim.taxes);
    DetailsSound(db.details, taxes, Times(db.times, lim.times), lim.details, k);
    var (details, linked) := Details(db.details, taxes, Times(db.times, lim.times), lim.details, k);
    AccountsSound(db.accounts, linked, lim.accounts, k);
    var accounts := Accounts(db.accounts, linked, lim.accounts, k);
    CardsSound(db.cards, accounts, lim.cards, k);
    var (bank, pushed) := Filling(db, lim, k, k, k);
    forall i | 0 <= i < |pushed| ensures HasCard(bank, pushed[i]) {
      assert bank.cards[i].client == pushed[i];
    }
  }

  // ------------------------------------------------------------------ invariant

  /** All four current lists are in one bank. */
  predicate InStep(s: State) {
    |s.banks| == 2 && s.crntTaxes < 2 && s.crntTaxes == s.crntTd == s.crntAccounts == s.crntCards
  }

  /** The packets of a log, but for its early ones, belong to cards of this bank. */
  ghost predicate Covered(b: Bank, log: seq<Client>, early: nat) {
    early <= |log| && AllHaveCards(b, log[early..])
  }

  ghost predicate Inv(s: State) {
    InStep(s) &&
    var c, o := s.crntCards, Other(s.crntCards);
    && Sound(s.banks[c], c) && Sound(s.banks[o], o)
    && match s.phase
       case Ready => AllHaveCards(s.banks[c], s.active) && Covered(s.banks[c], s.log, s.early)
                     && Covered(s.banks[o], s.batch, s.batchEarly)
       case Loaded => AllHaveCards(s.banks[c], s.active) && Covered(s.banks[c], s.log, s.early)
                      && AllHaveCards(s.banks[o], s.pending)
       case LogSwapped => AllHaveCards(s.banks[c], s.active) && s.early == |s.log|
                          && Covered(s.banks[c], s.batch, s.batchEarly) && AllHaveCards(s.banks[o], s.pending)
       case RulesSwapped => AllHaveCards(s.banks[o], s.active) && Covered(s.banks[o], s.log, s.early)
                            && Covered(s.banks[c], s.batch, s.batchEarly)
  }

  const EMPTY_BANK := Bank([], [], [], [])

  predicate Initial(s: State) {
    && s.banks == [EMPTY_BANK, EMPTY_BANK] && InStep(s) && s.phase.Ready?
    && s.active == s.pending == s.log == s.batch == [] && s.early == s.batchEarly == 0
  }

  ghost predicate Allowed(a: Action) {
    a.Load? ==> KeysSet(a.db)
  }

  lemma CoveredMore(b: Bank, log: seq<Client>, early: nat, client: Client)
    requires Covered(b, log, early) && HasCard(b, client)
    ensures Covered(b, log + [client], early)
  {
    assert (log + [client])[early..] == log[early..] + [client];
  }

  lemma StoredInStep(s: State, b: Bank)
    requires InStep(s)
    ensures Stored(s, b) == s.banks[Other(s.crntCards) := b]
  {
    var banks := Stored(s, b);
    assert banks[Other(s.crntCards)] == b && banks[s.crntCards] == s.banks[s.crntCards];
  }

  lemma PacketKeeps(s: State, client: Client, lim: Limits)
    requires Inv(s) && Enabled(s, Packet(client))
    ensures Inv(Next(s, Packet(client), lim))
  {
    hide Sound;
    var c, o := s.crntCards, Other(s.crntCards);
    if s.phase.Ready? || s.phase.Loaded? { CoveredMore(s.banks[c], s.log, s.early, client); }
    if s.phase.RulesSwapped? { CoveredMore(s.banks[o], s.log, s.early, client); }
  }

  lemma LoadKeeps(s: State, db: Database, accepted: nat, lim: Limits)
    requires Inv(s) && Enabled(s, Load(db, accepted)) && KeysSet(db)
    ensures Inv(Next(s, Load(db, accepted), lim))
  {
    hide Sound, Filling, KeysSet, HasCard;
    FillingSound(db, lim, Other(s.crntCards));
    StoredInStep(s, Filling(db, lim, Other(s.crntTaxes), Other(s.crntTd), Other(s.crntAccounts)).0);
  }

  lemma SwapKeeps(s: State, a: Action, lim: Limits)
    requires Inv(s) && Enabled(s, a) && (a.SwapLog? || a.SwapRules? || a.SwapBanks?)
    ensures Inv(Next(s, a, lim))
  {
    hide Sound, HasCard;
  }

  lemma StepKeeps(s: State, a: Action, lim: Limits)
    requires Inv(s) && Enabled(s, a) && Allowed(a)
    ensures Inv(Next(s, a, lim))
  {
    hide Inv, Next, KeysSet;
    match a
    case Packet(client) => PacketKeeps(s, client, lim);
    case Load(db, accepted) => LoadKeeps(s, db, accepted, lim);
    case _ => SwapKeeps(s, a, lim);
  }

  // ---------------------------------------------------------------- whole runs

  ghost predicate IsRun(s: State, run: seq<Action>, lim: Limits)
    requires Inv(s)
    decreases |run|
  {
    |run| == 0 ||
    (Enabled(s, run[0]) && Allowed(run[0])
     && (StepKeeps(s, run[0], lim); IsRun(Next(s, run[0], lim), run[1..], lim)))
  }

  ghost function After(s: State, run: seq<Action>, lim: Limits): (s': State)
    requires Inv(s) && IsRun(s, run, lim)
    ensures Inv(s')
    decreases |run|
  {
    if |run| == 0 then s
    else
      StepKeeps(s, run[0], lim);
      After(Next(s, run[0], lim), run[1..], lim)
  }

  /** A packet let through by the old rules between the filter's two swaps is in the new period's log. */
  predicate Between(s: State, a: Action) {
    a.Packet? && s.phase.LogSwapped?
  }

  /** Its client has a card in the bank that is about to come into force. */
  predicate EarlyHasCard(s: State, a: Action)
    requires InStep(s)
  {
    Between(s, a) ==> HasCard(s.banks[Other(s.crntCards)], a.client)
  }

  ghost predicate EarlyHaveCards(s: State, run: seq<Action>, lim: Limits)
    requires Inv(s) && IsRun(s, run, lim)
    decreases |run|
  {
    |run| == 0 ||
    (EarlyHasCard(s, run[0]) && (StepKeeps(s, run[0], lim); EarlyHaveCards(Next(s, run[0], lim), run[1..], lim)))
  }

  ghost predicate NoneBetween(s: State, run: seq<Action>, lim: Limits)
    requires Inv(s) && IsRun(s, run, lim)
    decreases |run|
  {
    |run| == 0 ||
    (!Between(s, run[0]) && (StepKeeps(s, run[0], lim); NoneBetween(Next(s, run[0], lim), run[1..], lim)))
  }

  /** When the banks have been swapped, the sessions of the batch look for their cards in the bank swapped back. */
  ghost predicate BatchHasCards(s: State)
    requires InStep(s)
  {
    s.phase.Ready? ==> AllHaveCards(s.banks[Other(s.crntCards)], s.batch)
  }

  /** At every moment of the run: no session is without its card. */
  ghost predicate BatchesHaveCards(s: State, run: seq<Action>, lim: Limits)
    requires Inv(s) && IsRun(s, run, lim)
    decreases |run|
  {
    BatchHasCards(s)
    && (|run| == 0 || (StepKeeps(s, run[0], lim); BatchesHaveCards(Next(s, run[0], lim), run[1..], lim)))
  }

  /** The early packets of the logs not yet read have cards in the bank they will be looked up in. */
  ghost predicate OpenHaveCards(s: State)
    requires Inv(s)
  {
    var c, o := s.banks[s.crntCards], s.banks[Other(s.crntCards)];
    match s.phase
    case Ready => AllHaveCards(c, s.log[..s.early]) && AllHaveCards(o, s.batch[..s.batchEarly])
    case Loaded => AllHaveCards(c, s.log[..s.early])
    case LogSwapped => AllHaveCards(c, s.batch[..s.batchEarly]) && AllHaveCards(o, s.log)
    case RulesSwapped => AllHaveCards(c, s.batch[..s.batchEarly]) && AllHaveCards(o, s.log[..s.early])
  }

  lemma CoveredAll(b: Bank, log: seq<Client>, early: nat)
    requires Covered(b, log, early)
    ensures AllHaveCards(b, log) <==> AllHaveCards(b, log[..early])
  {
    hide HasCard;
    assert forall i | 0 <= i < early :: log[..early][i] == log[i];
    assert forall i | early <= i < |log| :: log[early..][i - early] == log[i];
  }

  lemma OneMoreCard(b: Bank, log: seq<Client>, client: Client)
    ensures AllHaveCards(b, log + [client]) <==> AllHaveCards(b, log) && HasCard(b, client)
  {
    hide HasCard;
    assert (log + [client])[|log|] == client;
    assert forall i | 0 <= i < |log| :: (log + [client])[i] == log[i];
  }

  lemma OpenStep(s: State, a: Action, lim: Limits)
    requires Inv(s) && Enabled(s, a) && Inv(Next(s, a, lim))
    ensures OpenHaveCards(s) && EarlyHasCard(s, a) <==> BatchHasCards(s) && OpenHaveCards(Next(s, a, lim))
  {
    hide Sound, HasCard, AllHaveCards, Filling;
    var c, o := s.banks[s.crntCards], s.banks[Other(s.crntCards)];
    match a {
      case Packet(client) => PacketOpen(s, client, lim);
      case Load(db, accepted) =>
        StoredInStep(s, Filling(db, lim, Other(s.crntTaxes), Other(s.crntTd), Other(s.crntAccounts)).0);
        CoveredAll(o, s.batch, s.batchEarly);
      case SwapLog =>
        assert AllHaveCards(o, []) by { NoneToCheck(o); }
      case SwapRules => assert s.log[..s.early] == s.log;
      case SwapBanks =>
    }
  }

  lemma NoneToCheck(b: Bank)
    ensures AllHaveCards(b, [])
  {
  }

  lemma PacketOpen(s: State, client: Client, lim: Limits)
    requires Inv(s) && Enabled(s, Packet(client)) && Inv(Next(s, Packet(client), lim))
    ensures OpenHaveCards(s) && EarlyHasCard(s, Packet(client))
      <==> BatchHasCards(s) && OpenHaveCards(Next(s, Packet(client), lim))
  {
    hide Sound, HasCard, AllHaveCards;
    var o := s.banks[Other(s.crntCards)];
    if s.phase.LogSwapped? {
      OneMoreCard(o, s.log, client);
    } else {
      assert s.early <= |s.log|;
      assert (s.log + [client])[..s.early] == s.log[..s.early];
      if s.phase.Ready? { CoveredAll(o, s.batch, s.batchEarly); }
    }
  }

  lemma {:induction false} OpenRun(s: State, run: seq<Action>, lim: Limits)
    requires Inv(s) && IsRun(s, run, lim)
    ensures OpenHaveCards(s) && EarlyHaveCards(s, run, lim)
      <==> BatchesHaveCards(s, run, lim) && OpenHaveCards(After(s, run, lim))
    decreases |run|
  {
    hide Inv, Next, OpenHaveCards, BatchHasCards, EarlyHasCard;
    if |run| == 0 {
      OpenHasBatch(s);
    } else {
      StepKeeps(s, run[0], lim);
      InvInStep(s);
      OpenStep(s, run[0], lim);
      OpenRun(Next(s, run[0], lim), run[1..], lim);
    }
  }

  lemma InvInStep(s: State)
    requires Inv(s)
    ensures InStep(s)
  {
  }

  lemma OpenHasBatch(s: State)
    requires Inv(s)
    ensures OpenHaveCards(s) ==> BatchHasCards(s)
  {
    hide Sound, HasCard, AllHaveCards;
    if s.phase.Ready? { CoveredAll(s.banks[Other(s.crntCards)], s.batch, s.batchEarly); }
  }

  /**
   Every session of every batch of a run finds its card, and so will those of the logs still
   open, if and only if each packet that came between the filter's two swaps had a card in
   the bank then about to come into force.
   */
  lemma SessionsHaveCards(s: State, run: seq<Action>, lim: Limits)
    requires Initial(s) && Inv(s) && IsRun(s, run, lim)
    ensures EarlyHaveCards(s, run, lim)
      <==> BatchesHaveCards(s, run, lim) && OpenHaveCards(After(s, run, lim))
    ensures var s' := After(s, run, lim);
      s'.phase.Ready? && s'.early == 0 ==> (EarlyHaveCards(s, run, lim) <==> BatchesHaveCards(s, run, lim))
  {
    hide Next, IsRun, Sound, HasCard, EarlyHaveCards, BatchesHaveCards, After;
    OpenRun(s, run, lim);
    var s' := After(s, run, lim);
    NoneToCheck(s.banks[s.crntCards]);
    NoneToCheck(s.banks[Other(s.crntCards)]);
    if s'.phase.Ready? && s'.early == 0 && BatchesHaveCards(s, run, lim) {
      LastBatch(s, run, lim);
      CoveredAll(s'.banks[Other(s'.crntCards)], s'.batch, s'.batchEarly);
    }
  }

  lemma {:induction false} LastBatch(s: State, run: seq<Action>, lim: Limits)
    requires Inv(s) && IsRun(s, run, lim) && BatchesHaveCards(s, run, lim)
    ensures BatchHasCards(After(s, run, lim))
    decreases |run|
  {
    hide Inv, Next, BatchHasCards;
    if |run| != 0 {
      StepKeeps(s, run[0], lim);
      InvInStep(s);
      LastBatch(Next(s, run[0], lim), run[1..], lim);
    }
  }

  /** Were the two swaps one, there would be no such packet, and no session without its card. */
  lemma AtomicSwapsSuffice(s: State, run: seq<Action>, lim: Limits)
    requires Initial(s) && Inv(s) && IsRun(s, run, lim) && NoneBetween(s, run, lim)
    ensures BatchesHaveCards(s, run, lim)
  {
    hide Next, IsRun, Inv, EarlyHaveCards, BatchesHaveCards, After, NoneBetween;
    NoneIsCovered(s, run, lim);
    SessionsHaveCards(s, run, lim);
  }

  lemma {:induction false} NoneIsCovered(s: State, run: seq<Action>, lim: Limits)
    requires Inv(s) && IsRun(s, run, lim) && NoneBetween(s, run, lim)
    ensures EarlyHaveCards(s, run, lim)
    decreases |run|
  {
    hide Next, Inv;
    if |run| != 0 {
      StepKeeps(s, run[0], lim);
      InvInStep(s);
      NoneIsCovered(Next(s, run[0], lim), run[1..], lim);
    }
  }

  /** A card's account, the account's tax and the tax's details are all in the card's own bank. */
  lemma OneGeneration(s: State, run: seq<Action>, lim: Limits, i: nat)
    requires Initial(s) && Inv(s) && IsRun(s, run, lim)
    requires var s' := After(s, run, lim); i < |s'.banks[Other(s'.crntCards)].cards|
    ensures var s' := After(s, run, lim);
      var o := Other(s'.crntCards);
      var b := s'.banks[o];
      && Points(b.cards[i].account, o, |b.accounts|)
      && Points(b.accounts[b.cards[i].account.index].tax, o, |b.taxes|)
      && var td := b.taxes[b.accounts[b.cards[i].account.index].tax.index].td;
         td == Null || Points(td, o, |b.details|)
  {
    hide Next, IsRun, AllHaveCards, Covered;
  }

  lemma InitialInv(s: State)
    requires Initial(s)
    ensures Inv(s)
  {
  }

  /**
   A cycle: the log kept so far is handed over, the rules in force are those pushed from the
   database and accepted, and the lists filled from it are current.
   */
  lemma CycleSwaps(s: State, db: Database, accepted: nat, lim: Limits)
    requires InStep(s)
    ensures var o := Other(s.crntCards);
      var (bank, pushed) := Filling(db, lim, o, o, o);
      var s' := Next(Next(Next(Next(s, Load(db, accepted), lim), SwapLog, lim), SwapRules, lim), SwapBanks, lim);
      && InStep(s') && s'.phase.Ready? && s'.crntCards == o && s'.banks == s.banks[o := bank]
      && s'.batch == s.log && s'.log == [] && s'.pending == []
      && s'.active <= pushed && |s'.active| == if accepted < |pushed| then accepted else |pushed|
  {
    hide Filling;
    var o := Other(s.crntCards);
    StoredInStep(s, Filling(db, lim, o, o, o).0);
  }

  // ------------------------------------------------ a packet between the two swaps

  /** A database with one client, and one from which the client is gone. */
  function WithClient(x: Client): Database {
    Database([TaxRow(1, 1.0, 1.0)], [], [], [AccountRow(1, 1, 0.0, false)], [CardRow(1, 1, x)])
  }

  const NO_ROWS := Database([], [], [], [], [])

  lemma FillingOne(x: Client, lim: Limits, k: nat)
    requires 0 < lim.taxes && 0 < lim.accounts && 0 < lim.cards
    ensures Filling(WithClient(x), lim, k, k, k).1 == [x]
  {
    var db := WithClient(x);
    assert Init(db.taxes) == [] && Init(db.accounts) == [] && Init(db.cards) == [];
    assert Taxes([], lim.taxes) == [];
    var taxes := Taxes(db.taxes, lim.taxes);
    assert taxes == [Tax(1, 1.0, 1.0, Null)];
    assert taxes[0].uid == 1;
    var uid := (t: Tax) => t.uid;
    assert uid(taxes[0]) == 1;
    assert Accounts([], taxes, lim.accounts, k) == [];
    var accounts := Accounts(db.accounts, taxes, lim.accounts, k);
    assert accounts == [Account(1, At(k, 0))];
    assert Cards([], accounts, lim.cards, k) == ([], []);
  }

  /** One cycle without packets but one that may come between the swaps. */
  function Cycle(s: State, db: Database, early: seq<Client>, lim: Limits): (s': State)
    requires |s.banks| == 2
  {
    var loaded := Next(s, Load(db, lim.cards), lim);
    var swapped := Next(loaded, SwapLog, lim);
    var met := if early == [] then swapped else Next(swapped, Packet(early[0]), lim);
    Next(Next(met, SwapRules, lim), SwapBanks, lim)
  }

  /**
   The filter swaps its log and its rules one after the other, and a packet let through by
   the old rules in between is logged into the new period: three cycles, the client removed
   before the second and one packet of his between its swaps, end with a session that has
   no card in the bank swapped back.
   */
  lemma EarlyPacketMisses(s: State, x: Client, lim: Limits)
    requires Initial(s) && 0 < lim.taxes && 0 < lim.accounts && 0 < lim.cards
    ensures var s1 := Cycle(s, WithClient(x), [], lim);
      && Enabled(Next(Next(s1, Load(NO_ROWS, lim.cards), lim), SwapLog, lim), Packet(x))
      && var s3 := Cycle(Cycle(s1, NO_ROWS, [x], lim), NO_ROWS, [], lim);
         s3.batch == [x] && s3.batchEarly == 1 && !HasCard(s3.banks[Other(s3.crntCards)], x)
  {
    var c := s.crntCards;
    FillingOne(x, lim, Other(c));
    EmptyFilling(lim, c);
    EmptyFilling(lim, Other(c));
    CycleIs(s, WithClient(x), [], lim);
    var s1 := Cycle(s, WithClient(x), [], lim);
    CycleIs(s1, NO_ROWS, [x], lim);
    var s2 := Cycle(s1, NO_ROWS, [x], lim);
    CycleIs(s2, NO_ROWS, [], lim);
    hide Filling, Cycle, WithClient;
    assert Cycle(s2, NO_ROWS, [], lim).banks[c] == EMPTY_BANK;
  }

  lemma CycleIs(s: State, db: Database, early: seq<Client>, lim: Limits)
    requires InStep(s) && |early| <= 1
    requires var o := Other(s.crntCards); |Filling(db, lim, o, o, o).1| <= lim.cards
    ensures var s', o := Cycle(s, db, early, lim), Other(s.crntCards);
      var (bank, pushed) := Filling(db, lim, o, o, o);
      && InStep(s') && s'.crntCards == o && s'.banks == s.banks[o := bank]
      && s'.active == pushed && s'.log == early && s'.early == |early|
      && s'.batch == s.log && s'.batchEarly == s.early
  {
    hide Filling;
    var o := Other(s.crntCards);
    StoredInStep(s, Filling(db, lim, o, o, o).0);
    assert early == [] || early == [early[0]];
  }

  lemma EmptyFilling(lim: Limits, k: nat)
    ensures Filling(NO_ROWS, lim, k, k, k) == (EMPTY_BANK, [])
  {
  }
}
