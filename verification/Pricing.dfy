/**
 Pricing a log's sessions: the rate of the matching tax detail, a log row, and the debit of
 the account.
 */
module Pricing {
  import opened Common
  import opened Sessions
  import opened Generations
  import opened Accounts

  /** A detail applies to the host, the protocol and the port; zero stands for any. */
  predicate Covers(d: Detail, s: Record) {
    d.ipAddr == And(s.ipHost, d.ipMask)
    && (d.proto == 0 || d.proto == s.ipProto)
    && (d.port == 0 || d.port == s.portHost)
  }

  /** Chains of details lead to lower places, so that they end. */
  ghost predicate Linked(details: seq<Detail>) {
    forall i | 0 <= i < |details| :: details[i].next == Null || details[i].next.index < i
  }

  ghost predicate Starts(details: seq<Detail>, p: Ptr) {
    p == Null || p.index < |details|
  }

  /** The first detail of a chain that covers the session. */
  function Matching(details: seq<Detail>, p: Ptr, s: Record): (d: Option<Detail>)
    requires Linked(details) && Starts(details, p)
    ensures d.Some? ==> Covers(d.value, s)
    decreases if p == Null then 0 else p.index + 1
  {
    if p == Null then None
    else if Covers(details[p.index], s) then Some(details[p.index])
    else Matching(details, details[p.index].next, s)
  }

  /** Position of the first card of a client, or the number of cards. */
  function CardOf(cards: seq<Card>, client: Client, i: nat): (k: nat)
    requires i <= |cards|
    ensures i <= k <= |cards|
    ensures k < |cards| ==> cards[k].client == client
    ensures forall j | i <= j < k :: cards[j].client != client
  {
    FirstPlace(cards, (card: Card) => card.client == client, i)
  }

  function ClientOf(s: Record): Client {
    Client(s.mac, s.ipClnt)
  }

  /** Money for traffic: rates are per `units` bytes. */
  function Cost(rate: real, bytes: nat, units: real): real
    requires units != 0.0
  {
    rate * bytes as real / units
  }

  /** A charge times the unit is the rate times the bytes. */
  lemma CostIs(rate: real, bytes: nat, units: real)
    requires units != 0.0
    ensures Cost(rate, bytes, units) * units == rate * bytes as real
  {
  }

  /** The log row of a session of a card; `key` is the row's number. */
  function RowOf(b: Bank, k: nat, card: nat, s: Record, units: real, key: nat): (row: LogRow)
    requires Sound(b, k) && card < |b.cards| && units != 0.0
    ensures row.key == key && row.client == ClientOf(s) && row.nic == b.cards[card].uid
    ensures row.account == b.accounts[b.cards[card].account.index].uid
  {
    var account := b.accounts[b.cards[card].account.index];
    var tax := b.taxes[account.tax.index];
    match Matching(b.details, tax.td, s)
    case Some(d) => LogRow(key, b.cards[card].uid, account.uid, ClientOf(s),
                           Cost(d.toCli, s.toCli, units), Cost(d.fromCli, s.toHost, units))
    case None => LogRow(key, b.cards[card].uid, account.uid, ClientOf(s),
                        Cost(tax.toCli, s.toCli, units), Cost(tax.fromCli, s.toHost, units))
  }

  /** The log rows of the sessions that have a card, in order. */
  function Rows(b: Bank, k: nat, sessions: seq<Record>, units: real, first: nat): (rows: seq<LogRow>)
    requires Sound(b, k) && units != 0.0
    ensures |rows| <= |sessions|
  {
    if sessions == [] then [] else
    var rows, s := Rows(b, k, Init(sessions), units, first), Final(sessions);
    var card := CardOf(b.cards, ClientOf(s), 0);
    if card == |b.cards| then rows else rows + [RowOf(b, k, card, s, units, first + |rows| + 1)]
  }

  /** Every log row is debited from its account. */
  function Debited(book: Book, rows: seq<LogRow>): (book': Book)
    ensures |book'| == |book|
  {
    if rows == [] then book
    else Post(Debited(book, Init(rows)), Final(rows).account, -Sum(Final(rows)))
  }

  /** The loop over the sessions of a batch. */
  method Bill(books: Books, b: Bank, ghost k: nat, sessions: array<Record>, count: nat, units: real)
    requires Sound(b, k) && count <= sessions.Length && units != 0.0
    modifies books`accounts, books`log
    ensures var rows := Rows(b, k, sessions[..count], units, |old(books.log)|);
      books.log == old(books.log) + rows && books.accounts == Debited(old(books.accounts), rows)
  {
    hide Sound, RowOf, CardOf, Rows, Debited, Post;
    ghost var log, book := books.log, books.accounts;
    ghost var rows: seq<LogRow> := [];
    NoSessions(b, k, units, |log|, book);
    for i := 0 to count
      invariant rows == Rows(b, k, sessions[..i], units, |log|)
      invariant books.log == log + rows && books.accounts == Debited(book, rows)
    {
      assert sessions[..i + 1] == sessions[..i] + [sessions[i]];
      OneMoreSession(b, k, sessions[..i], sessions[i], units, |log|);
      var s := sessions[i];
      var card := FindCard(b.cards, ClientOf(s));
      if card < |b.cards| {
        var row := LogSession(b, k, card, s, units, |books.log| + 1);
        books.log := books.log + [row];
        OneMoreRow(book, rows, row);
        rows := rows + [row];
        books.Debit(row.account, row.toCli + row.toHost);
      }
    }
  }

  lemma NoSessions(b: Bank, k: nat, units: real, first: nat, book: Book)
    requires Sound(b, k) && units != 0.0
    ensures Rows(b, k, [], units, first) == [] && Debited(book, []) == book
  {
  }

  lemma OneMoreSession(b: Bank, k: nat, sessions: seq<Record>, s: Record, units: real, first: nat)
    requires Sound(b, k) && units != 0.0
    ensures var rows, card := Rows(b, k, sessions, units, first), CardOf(b.cards, ClientOf(s), 0);
      Rows(b, k, sessions + [s], units, first)
        == if card == |b.cards| then rows else rows + [RowOf(b, k, card, s, units, first + |rows| + 1)]
  {
    hide CardOf, RowOf, Sound, ClientOf;
    assert Init(sessions + [s]) == sessions;
  }

  lemma OneMoreRow(book: Book, rows: seq<LogRow>, row: LogRow)
    ensures Debited(book, rows + [row]) == Post(Debited(book, rows), row.account, -(row.toCli + row.toHost))
  {
    assert Init(rows + [row]) == rows;
  }

  /** The log row of one session; INSERT numbers it. */
  method LogSession(b: Bank, ghost k: nat, card: nat, s: Record, units: real, key: nat) returns (row: LogRow)
    requires Sound(b, k) && card < |b.cards| && units != 0.0
    ensures row == RowOf(b, k, card, s, units, key)
    ensures var tax := b.taxes[b.accounts[b.cards[card].account.index].tax.index];
      match Matching(b.details, tax.td, s)
      case Some(d) =>
        row.toCli * units == d.toCli * s.toCli as real && row.toHost * units == d.fromCli * s.toHost as real
      case None =>
        row.toCli * units == tax.toCli * s.toCli as real && row.toHost * units == tax.fromCli * s.toHost as real
  {
    hide Cost;
    var account := b.accounts[b.cards[card].account.index];
    var tax := b.taxes[account.tax.index];
    var d := FindDetail(b.details, tax.td, s);
    var stocli, stohst;
    if d.Some? {
      stocli, stohst := Cost(d.value.toCli, s.toCli, units), Cost(d.value.fromCli, s.toHost, units);
      CostIs(d.value.toCli, s.toCli, units);
      CostIs(d.value.fromCli, s.toHost, units);
    } else {
      stocli, stohst := Cost(tax.toCli, s.toCli, units), Cost(tax.fromCli, s.toHost, units);
      CostIs(tax.toCli, s.toCli, units);
      CostIs(tax.fromCli, s.toHost, units);
    }
    row := LogRow(key, b.cards[card].uid, account.uid, ClientOf(s), stocli, stohst);
  }

  method FindCard(cards: seq<Card>, client: Client) returns (i: nat)
    ensures i == CardOf(cards, client, 0)
  {
    i := 0;
    while i < |cards| && cards[i].client != client
      invariant i <= |cards| && CardOf(cards, client, i) == CardOf(cards, client, 0)
    {
      i := i + 1;
    }
  }

  method FindDetail(details: seq<Detail>, start: Ptr, s: Record) returns (d: Option<Detail>)
    requires Linked(details) && Starts(details, start)
    ensures d == Matching(details, start, s)
  {
    var p := start;
    while p != Null && !Covers(details[p.index], s)
      invariant Starts(details, p) && Matching(details, p, s) == Matching(details, start, s)
      decreases if p == Null then 0 else p.index + 1
    {
      p := details[p.index].next;
    }
    d := if p == Null then None else Some(details[p.index]);
  }

  // ------------------------------------------------------------------ conservation

  /** Charges whose SEEK fails: the debit that follows hits the first row of the table. */
  function Astray(rows: seq<LogRow>, size: nat): real {
    if rows == [] then 0.0
    else Astray(Init(rows), size)
         + (if Reaches(size, Final(rows).account) then 0.0 else Sum(Final(rows)))
  }

  /**
   Pricing and debit keep, for every account there is, its balance plus the charges booked to
   it; only account 1 also loses the charges of accounts the table has no place for.
   */
  lemma {:induction false} BillingKeepsWorth(book: Book, log: seq<LogRow>, rows: seq<LogRow>, id: nat)
    requires Keyed(book) && |book| < 0xFFFF_FFFF && Holds(book, id)
    requires forall i | 0 <= i < |rows| :: rows[i].key != 0
    ensures Keyed(Debited(book, rows)) && Holds(Debited(book, rows), id)
    ensures Worth(Debited(book, rows), log + rows, id)
      == Worth(book, log, id) - (if id == 1 then Astray(rows, |book|) else 0.0)
  {
    if rows == [] {
      assert log + rows == log;
    } else {
      var rest, row := Init(rows), Final(rows);
      BillingKeepsWorth(book, log, rest, id);
      PostChanges(Debited(book, rest), row.account, -Sum(row));
      assert (log + rows)[..|log + rows| - 1] == log + rest;
    }
  }

  lemma {:induction false} NoneAstray(rows: seq<LogRow>, size: nat)
    requires forall i | 0 <= i < |rows| :: Reaches(size, rows[i].account)
    ensures Astray(rows, size) == 0.0
  {
    if rows != [] { NoneAstray(Init(rows), size); }
  }

  predicate InBank(b: Bank, account: nat) {
    exists a | 0 <= a < |b.accounts| :: b.accounts[a].uid == account
  }

  /** Rows are numbered on from the log's end and book each charge to an account of the bank. */
  lemma {:induction false} RowsAreOfBank(b: Bank, k: nat, sessions: seq<Record>, units: real, first: nat)
    requires Sound(b, k) && units != 0.0
    ensures forall i | 0 <= i < |Rows(b, k, sessions, units, first)| ::
      Rows(b, k, sessions, units, first)[i].key == first + i + 1
      && InBank(b, Rows(b, k, sessions, units, first)[i].account)
  {
    if sessions != [] {
      var rest, s := Rows(b, k, Init(sessions), units, first), Final(sessions);
      RowsAreOfBank(b, k, Init(sessions), units, first);
      var card := CardOf(b.cards, ClientOf(s), 0);
      if card < |b.cards| {
        var row := RowOf(b, k, card, s, units, first + |rest| + 1);
        assert Rows(b, k, sessions, units, first) == rest + [row];
        var a := b.cards[card].account.index;
        assert b.accounts[a].uid == row.account;
      }
    }
  }

  /** If the bank's accounts all have places in the table, a batch keeps the worth of every account. */
  lemma BatchKeepsWorth(
    book: Book, log: seq<LogRow>, b: Bank, k: nat, sessions: seq<Record>, units: real, id: nat)
    requires Keyed(book) && |book| < 0xFFFF_FFFF && Holds(book, id)
    requires Sound(b, k) && units != 0.0
    requires forall a | 0 <= a < |b.accounts| :: Reaches(|book|, b.accounts[a].uid)
    ensures var rows := Rows(b, k, sessions, units, |log|);
      Holds(Debited(book, rows), id)
      && Worth(Debited(book, rows), log + rows, id) == Worth(book, log, id)
  {
    hide Rows, Sound;
    var rows := Rows(b, k, sessions, units, |log|);
    RowsAreOfBank(b, k, sessions, units, |log|);
    BillingKeepsWorth(book, log, rows, id);
    NoneAstray(rows, |book|);
  }

  // ------------------------------------------------------------- whose detail it is

  /** A detail without its place in a chain. */
  function Terms(d: Detail): Detail {
    d.(next := Null)
  }

  /** The details a chain leads through. */
  function Chain(details: seq<Detail>, p: Ptr): (chain: seq<Detail>)
    requires Linked(details) && Starts(details, p)
    decreases if p == Null then 0 else p.index + 1
  {
    if p == Null then [] else [Terms(details[p.index])] + Chain(details, details[p.index].next)
  }

  /** The details of tax `i` among the rows read, newest first. */
  function Own(rows: seq<DetailRow>, taxes: seq<Tax>, times: seq<TimesRow>, max: nat, bank: nat, i: nat):
      (own: seq<Detail>)
  {
    if rows == [] then [] else
    var own := Own(Init(rows), taxes, times, max, bank, i);
    if |Details(Init(rows), taxes, times, max, bank).0| < max
       && Find(taxes, (t: Tax) => t.uid, Final(rows).tax) == i
    then [DetailOf(Final(rows), times, Null)] + own
    else own
  }

  function FirstCovering(ds: seq<Detail>, s: Record): (d: Option<Detail>) {
    if ds == [] then None else if Covers(ds[0], s) then Some(ds[0]) else FirstCovering(ds[1..], s)
  }

  lemma {:induction false} FindSame(taxes: seq<Tax>, taxes': seq<Tax>, n: nat)
    requires |taxes| == |taxes'| && forall i | 0 <= i < |taxes| :: taxes[i].uid == taxes'[i].uid
    ensures Find(taxes, (t: Tax) => t.uid, n) == Find(taxes', (t: Tax) => t.uid, n)
  {
    var i, i' := Find(taxes, (t: Tax) => t.uid, n), Find(taxes', (t: Tax) => t.uid, n);
    var uid := (t: Tax) => t.uid;
    assert forall j | 0 <= j < |taxes| :: uid(taxes[j]) == uid(taxes'[j]);
  }

  lemma {:induction false} ChainLonger(details: seq<Detail>, d: Detail, p: Ptr)
    requires Linked(details) && Starts(details, p) && (d.next == Null || d.next.index < |details|)
    ensures Linked(details + [d]) && Chain(details + [d], p) == Chain(details, p)
    decreases if p == Null then 0 else p.index + 1
  {
    if p != Null { ChainLonger(details, d, details[p.index].next); }
  }

  /** A tax's chain holds exactly the detail rows that name it, newest first. */
  lemma {:induction false} ChainIsOwn(
    rows: seq<DetailRow>, taxes: seq<Tax>, times: seq<TimesRow>, max: nat, bank: nat, i: nat)
    requires forall t | t in taxes :: t.td == Null
    requires i < |taxes|
    ensures var (details, linked) := Details(rows, taxes, times, max, bank);
      Linked(details) && Starts(details, linked[i].td)
      && Chain(details, linked[i].td) == Own(rows, taxes, times, max, bank, i)
  {
    DetailsSound(rows, taxes, times, max, bank);
    if rows != [] {
      var r := Final(rows);
      ChainIsOwn(Init(rows), taxes, times, max, bank, i);
      DetailsSound(Init(rows), taxes, times, max, bank);
      var (details, linked) := Details(Init(rows), taxes, times, max, bank);
      FindSame(taxes, linked, r.tax);
      var j := Find(linked, (t: Tax) => t.uid, r.tax);
      if |details| < max {
        if j < |linked| {
          ChainLonger(details, DetailOf(r, times, linked[j].td), linked[i].td);
        } else {
          ChainLonger(details, DetailOf(r, times, Null), linked[i].td);
        }
      }
    }
  }

  lemma CoversTerms(d: Detail, s: Record)
    ensures Covers(Terms(d), s) == Covers(d, s)
  {
    hide And;
  }

  lemma {:induction false} MatchingIsFirst(details: seq<Detail>, p: Ptr, s: Record)
    requires Linked(details) && Starts(details, p)
    ensures var m, f := Matching(details, p, s), FirstCovering(Chain(details, p), s);
      (m.Some? <==> f.Some?) && (m.Some? ==> Terms(m.value) == f.value)
    decreases if p == Null then 0 else p.index + 1
  {
    hide Covers;
    if p != Null {
      MatchingIsFirst(details, details[p.index].next, s);
      CoversTerms(details[p.index], s);
      assert Chain(details, p)[1..] == Chain(details, details[p.index].next);
    }
  }

  /** A session is priced by the newest of its tax's detail rows that covers it, if any does. */
  lemma NewestDetailPrices(
    rows: seq<DetailRow>, taxes: seq<Tax>, times: seq<TimesRow>, max: nat, bank: nat, i: nat, s: Record)
    requires forall t | t in taxes :: t.td == Null
    requires i < |taxes|
    ensures var (details, linked) := Details(rows, taxes, times, max, bank);
      && Linked(details) && Starts(details, linked[i].td)
      && var m, f := Matching(details, linked[i].td, s),
                     FirstCovering(Own(rows, taxes, times, max, bank, i), s);
         (m.Some? <==> f.Some?) && (m.Some? ==> Terms(m.value) == f.value)
  {
    ChainIsOwn(rows, taxes, times, max, bank, i);
    var (details, linked) := Details(rows, taxes, times, max, bank);
    MatchingIsFirst(details, linked[i].td, s);
  }
}
