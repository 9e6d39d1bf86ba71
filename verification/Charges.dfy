/**
 What a session is charged, in terms of the rows of the database: the card of its client, the
 account and the tax behind it, and the rates of the newest detail that covers it.
 */
module Charges {
  import opened Common
  import opened Sessions
  import opened Generations
  import opened FilledLists
  import opened Accounts
  import opened Pricing

  // ------------------------------------------------------------------- the rows

  /** The rows of each table that are in the logger's lists. */
  ghost function DetailPlaces(db: Database, lim: Limits): (places: seq<nat>)
    ensures forall k | 0 <= k < |places| :: places[k] < |db.details|
  {
    Picked(db.details, ForTax(Generations.Taxes(db.taxes, lim.taxes)), lim.details)
  }

  ghost function AccountPlaces(db: Database, lim: Limits): (places: seq<nat>)
    ensures forall k | 0 <= k < |places| :: places[k] < |db.accounts|
  {
    Picked(db.accounts, Active(Generations.Taxes(db.taxes, lim.taxes)), lim.accounts)
  }

  ghost predicate Serves(db: Database, lim: Limits, account: nat) {
    exists a :: a in AccountPlaces(db, lim) && db.accounts[a].uid == account
  }

  ghost function CardPlaces(db: Database, lim: Limits): (places: seq<nat>)
    ensures forall k | 0 <= k < |places| :: places[k] < |db.cards|
  {
    Picked(db.cards, (r: CardRow) => r.account == 0 || Serves(db, lim, r.account), lim.cards)
  }

  /** The first card in the list with the client's addresses. */
  ghost predicate CardFor(db: Database, lim: Limits, client: Client, c: nat) {
    && c in CardPlaces(db, lim) && db.cards[c].client == client
    && forall j | j in CardPlaces(db, lim) && j < c :: db.cards[j].client != client
  }

  ghost predicate AccountFor(db: Database, lim: Limits, uid: nat, a: nat) {
    && a in AccountPlaces(db, lim) && db.accounts[a].uid == uid
    && forall j | j in AccountPlaces(db, lim) && j < a :: db.accounts[j].uid != uid
  }

  ghost predicate TaxFor(db: Database, lim: Limits, uid: nat, t: nat) {
    && t < |db.taxes| && t < lim.taxes && db.taxes[t].uid == uid
    && forall j | 0 <= j < t :: db.taxes[j].uid != uid
  }

  /** The row is about the session's host, protocol and port; zero stands for any. */
  predicate About(r: DetailRow, s: Record) {
    && And(s.ipHost, r.ipMask) == r.ipAddr
    && (r.proto != 0 ==> s.ipProto == r.proto)
    && (r.port != 0 ==> s.portHost == r.port)
  }

  /** A detail row in the list that is of this tax and about the session. */
  ghost predicate Fits(db: Database, lim: Limits, tax: nat, s: Record, d: nat) {
    d in DetailPlaces(db, lim) && db.details[d].tax == tax && About(db.details[d], s)
  }

  /** The rates for a session: those of the newest detail row that fits, or else of the tax. */
  ghost predicate RatesFor(db: Database, lim: Limits, t: nat, s: Record, toCli: real, fromCli: real)
    requires t < |db.taxes|
  {
    var tax := db.taxes[t].uid;
    if exists d: nat :: Fits(db, lim, tax, s, d) then
      exists d: nat ::
        && Fits(db, lim, tax, s, d) && (forall l: nat | d < l :: !Fits(db, lim, tax, s, l))
        && HourRates(db.times, lim.times, db.details[d], toCli, fromCli)
    else toCli == db.taxes[t].toCli && fromCli == db.taxes[t].fromCli
  }

  /** What the log row of a session has to be; rates are per `units` bytes. */
  ghost predicate Priced(db: Database, lim: Limits, s: Record, units: real, row: LogRow) {
    exists c: nat, a: nat, t: nat, toCli: real, fromCli: real ::
      && CardFor(db, lim, Client(s.mac, s.ipClnt), c)
      && AccountFor(db, lim, db.cards[c].account, a)
      && TaxFor(db, lim, db.accounts[a].tax, t)
      && RatesFor(db, lim, t, s, toCli, fromCli)
      && row.nic == db.cards[c].uid && row.account == db.accounts[a].uid && row.client == Client(s.mac, s.ipClnt)
      && row.toCli * units == toCli * s.toCli as real
      && row.toHost * units == fromCli * s.toHost as real
  }

  // ------------------------------------------------------------ the newest detail

  ghost predicate OfTax(rows: seq<DetailRow>, taxes: seq<Tax>, t: nat, s: Record, j: nat) {
    j < |rows| && FirstTax(taxes, rows[j].tax, t) && About(rows[j], s)
  }

  lemma CoversIsAbout(d: Detail, r: DetailRow, s: Record)
    requires d.ipMask == r.ipMask && d.ipAddr == r.ipAddr && d.proto == r.proto && d.port == r.port
    ensures Covers(d, s) <==> About(r, s)
  {
    hide And;
  }

  /** The last of these places whose row is of the tax and about the session. */
  ghost function NewestOf(places: seq<nat>, rows: seq<DetailRow>, taxes: seq<Tax>, t: nat, s: Record):
      (j: Option<nat>)
    ensures j.Some? ==> j.value in places && OfTax(rows, taxes, t, s, j.value)
  {
    if places == [] then None
    else if OfTax(rows, taxes, t, s, Final(places)) then Some(Final(places))
    else NewestOf(Init(places), rows, taxes, t, s)
  }

  lemma {:induction false} NewestOfIs(places: seq<nat>, rows: seq<DetailRow>, taxes: seq<Tax>, t: nat, s: Record)
    requires forall k, l | 0 <= k < l < |places| :: places[k] < places[l]
    ensures var j := NewestOf(places, rows, taxes, t, s);
      if j.Some? then forall l | l in places && j.value < l :: !OfTax(rows, taxes, t, s, l)
      else forall l | l in places :: !OfTax(rows, taxes, t, s, l)
  {
    hide OfTax;
    if places != [] {
      NewestOfIs(Init(places), rows, taxes, t, s);
      assert places == Init(places) + [Final(places)];
    }
  }

  lemma {:induction false} NewestBefore(places: seq<nat>, rows: seq<DetailRow>, taxes: seq<Tax>, t: nat, s: Record)
    requires rows != [] && forall k | 0 <= k < |places| :: places[k] + 1 < |rows|
    ensures NewestOf(places, rows, taxes, t, s) == NewestOf(places, Init(rows), taxes, t, s)
  {
    hide OfTax;
    if places != [] {
      OfTaxBefore(rows, taxes, t, s, Final(places));
      NewestBefore(Init(places), rows, taxes, t, s);
    }
  }

  lemma NewestStep(places: seq<nat>, j: nat, rows: seq<DetailRow>, taxes: seq<Tax>, t: nat, s: Record)
    ensures NewestOf(places + [j], rows, taxes, t, s) ==
      if OfTax(rows, taxes, t, s, j) then Some(j) else NewestOf(places, rows, taxes, t, s)
  {
    hide OfTax;
    assert Init(places + [j]) == places;
  }

  /** The first detail of the tax's own that covers the session is that of the newest row. */
  lemma {:induction false} OwnNewest(
    rows: seq<DetailRow>, taxes: seq<Tax>, times: seq<TimesRow>, maxTimes: nat, max: nat, bank: nat,
    t: nat, s: Record)
    requires t < |taxes|
    ensures var j, f := NewestOf(Picked(rows, ForTax(taxes), max), rows, taxes, t, s),
                        FirstCovering(Own(rows, taxes, Times(times, maxTimes), max, bank, t), s);
      && (f.Some? <==> j.Some?)
      && (j.Some? ==> j.value < |rows| && HourRates(times, maxTimes, rows[j.value], f.value.toCli, f.value.fromCli))
  {
    hide HasTax, FirstTax, DetailOf, Times, Picked, About, Covers, HourRates, OfTax, Own, DetailIs, NewestOf, ForTax;
    NonePicked(ForTax(taxes), max);
    if rows != [] {
      var init, places := Init(rows), Picked(Init(rows), ForTax(taxes), max);
      OwnNewest(init, taxes, times, maxTimes, max, bank, t, s);
      PickedStep(rows, ForTax(taxes), max);
      OwnStep(rows, taxes, times, maxTimes, max, bank, t, s);
      NewestBefore(places, rows, taxes, t, s);
      NewestStep(places, |rows| - 1, rows, taxes, t, s);
    } else {
      NoOwn(taxes, times, maxTimes, max, bank, t, s);
      NoNewest(taxes, t, s);
    }
  }

  lemma NoNewest(taxes: seq<Tax>, t: nat, s: Record)
    ensures NewestOf([], [], taxes, t, s) == None
  {
  }

  lemma NoOwn(taxes: seq<Tax>, times: seq<TimesRow>, maxTimes: nat, max: nat, bank: nat, t: nat, s: Record)
    ensures FirstCovering(Own([], taxes, Times(times, maxTimes), max, bank, t), s) == None
  {
  }

  lemma OfTaxBefore(rows: seq<DetailRow>, taxes: seq<Tax>, t: nat, s: Record, j: nat)
    requires j + 1 < |rows|
    ensures OfTax(rows, taxes, t, s, j) <==> OfTax(Init(rows), taxes, t, s, j)
  {
    hide FirstTax, About;
  }

  /** The last row comes first, if it is taken, is of the tax and covers the session. */
  lemma OwnStep(
    rows: seq<DetailRow>, taxes: seq<Tax>, times: seq<TimesRow>, maxTimes: nat, max: nat, bank: nat,
    t: nat, s: Record)
    requires rows != [] && t < |taxes|
    ensures var places, some := Picked(Init(rows), ForTax(taxes), max), Times(times, maxTimes);
      var f, was := FirstCovering(Own(rows, taxes, some, max, bank, t), s),
                    FirstCovering(Own(Init(rows), taxes, some, max, bank, t), s);
      if |places| < max && OfTax(rows, taxes, t, s, |rows| - 1) then
        f.Some? && HourRates(times, maxTimes, Final(rows), f.value.toCli, f.value.fromCli)
        && ForTax(taxes)(Final(rows))
      else f == was
  {
    hide HasTax, FirstTax, Details, DetailOf, Times, Picked, About, Covers, HourRates;
    var r, some := Final(rows), Times(times, maxTimes);
    DetailsAre(Init(rows), taxes, times, maxTimes, max, bank);
    OnlyOne(taxes, r.tax, t);
    DetailOfRow(r, times, maxTimes, Null);
    CoversIsAbout(DetailOf(r, some, Null), r, s);
    var own := Own(Init(rows), taxes, some, max, bank, t);
    assert ([DetailOf(r, some, Null)] + own)[1..] == own;
  }

  lemma OnlyOne(taxes: seq<Tax>, uid: nat, t: nat)
    requires t < |taxes|
    ensures FirstTax(taxes, uid, t) <==> Find(taxes, (x: Tax) => x.uid, uid) == t
    ensures FirstTax(taxes, uid, t) ==> HasTax(taxes, uid)
  {
    FindsTax(taxes, uid);
    if FirstTax(taxes, uid, t) { assert taxes[t] in taxes; }
  }

  // ------------------------------------------------------------ a filled bank's rows

  ghost function Filled(db: Database, lim: Limits, k: nat): Bank {
    Filling(db, lim, k, k, k).0
  }

  lemma FilledIs(db: Database, lim: Limits, k: nat)
    ensures var b, taxes := Filled(db, lim, k), Generations.Taxes(db.taxes, lim.taxes);
      && (b.details, b.taxes) == Details(db.details, taxes, Times(db.times, lim.times), lim.details, k)
      && b.accounts == Generations.Accounts(db.accounts, b.taxes, lim.accounts, k)
      && b.cards == Cards(db.cards, b.accounts, lim.cards, k).0
  {
  }

  lemma TaxesOf(db: Database, lim: Limits, k: nat)
    ensures var taxes, linked := Generations.Taxes(db.taxes, lim.taxes), Filled(db, lim, k).taxes;
      && |linked| == |taxes| <= |db.taxes| && |linked| <= lim.taxes
      && (|linked| < lim.taxes ==> |linked| == |db.taxes|)
      && forall i | 0 <= i < |linked| ::
           linked[i].uid == taxes[i].uid == db.taxes[i].uid
           && linked[i].toCli == db.taxes[i].toCli && linked[i].fromCli == db.taxes[i].fromCli
  {
    var taxes := Generations.Taxes(db.taxes, lim.taxes);
    hide Details, Generations.Taxes, Filling, Generations.Accounts, Cards;
    FilledIs(db, lim, k);
    TaxesAre(db.taxes, lim.taxes);
    SameTaxes(db.details, taxes, Times(db.times, lim.times), lim.details, k);
  }

  lemma FirstTaxIs(db: Database, lim: Limits, k: nat, uid: nat)
    ensures var taxes, linked := Generations.Taxes(db.taxes, lim.taxes), Filled(db, lim, k).taxes;
      && (HasTax(taxes, uid) <==> HasTax(linked, uid))
      && forall t: nat ::
           (FirstTax(linked, uid, t) <==> FirstTax(taxes, uid, t))
           && (FirstTax(linked, uid, t) <==> TaxFor(db, lim, uid, t))
  {
    hide Generations.Taxes, Filled;
    TaxesOf(db, lim, k);
    HasSameTax(Generations.Taxes(db.taxes, lim.taxes), Filled(db, lim, k).taxes, uid);
  }

  lemma AccountsOf(db: Database, lim: Limits, k: nat)
    ensures var b, places := Filled(db, lim, k), AccountPlaces(db, lim);
      && |b.accounts| == |places|
      && forall l | 0 <= l < |places| ::
           AccountIs(b.taxes, k, b.accounts[l], db.accounts[places[l]])
  {
    hide Details, Generations.Taxes, Filling, Generations.Accounts, Cards, Filled, HasTax, FirstTax, Picked;
    var taxes, b := Generations.Taxes(db.taxes, lim.taxes), Filled(db, lim, k);
    FilledIs(db, lim, k);
    AccountsAre(db.accounts, b.taxes, lim.accounts, k);
    forall r | r in db.accounts ensures Active(taxes)(r) == Active(b.taxes)(r) { FirstTaxIs(db, lim, k, r.tax); }
    PickedSame(db.accounts, Active(taxes), Active(b.taxes), lim.accounts);
  }

  lemma ServedIs(db: Database, lim: Limits, k: nat, uid: nat)
    ensures Serves(db, lim, uid) <==> HasAccount(Filled(db, lim, k).accounts, uid)
    ensures var b, places := Filled(db, lim, k), AccountPlaces(db, lim);
      |b.accounts| == |places|
      && forall l: nat | FirstAccount(b.accounts, uid, l) :: AccountFor(db, lim, uid, places[l])
  {
    hide Filled, AccountPlaces, HasTax, FirstTax;
    AccountsOf(db, lim, k);
    PlacesGrow(db, lim);
    var b, places := Filled(db, lim, k), AccountPlaces(db, lim);
    if Serves(db, lim, uid) {
      var a :| a in places && db.accounts[a].uid == uid;
      var l :| 0 <= l < |places| && places[l] == a;
      assert b.accounts[l].uid == uid && b.accounts[l] in b.accounts;
    }
    if HasAccount(b.accounts, uid) {
      var x :| x in b.accounts && x.uid == uid;
      var l :| 0 <= l < |b.accounts| && b.accounts[l] == x;
      assert places[l] in places && db.accounts[places[l]].uid == uid;
    }
    forall l: nat | FirstAccount(b.accounts, uid, l) ensures AccountFor(db, lim, uid, places[l]) {
      forall j | j in places && j < places[l] ensures db.accounts[j].uid != uid {
        var i :| 0 <= i < |places| && places[i] == j;
        assert i < l && b.accounts[i].uid == db.accounts[j].uid;
      }
    }
  }

  lemma PlacesGrow(db: Database, lim: Limits)
    ensures forall k, l | 0 <= k < l < |AccountPlaces(db, lim)| :: AccountPlaces(db, lim)[k] < AccountPlaces(db, lim)[l]
    ensures forall k, l | 0 <= k < l < |CardPlaces(db, lim)| :: CardPlaces(db, lim)[k] < CardPlaces(db, lim)[l]
    ensures forall k, l | 0 <= k < l < |DetailPlaces(db, lim)| :: DetailPlaces(db, lim)[k] < DetailPlaces(db, lim)[l]
  {
  }

  lemma CardsOf(db: Database, lim: Limits, k: nat)
    ensures var b, places := Filled(db, lim, k), CardPlaces(db, lim);
      && |b.cards| == |places|
      && forall m | 0 <= m < |places| :: CardIs(b.accounts, k, b.cards[m], db.cards[places[m]])
  {
    hide Details, Filling, Generations.Accounts, Cards, Filled, HasAccount, Serves, CardIs, Picked;
    var b, p := Filled(db, lim, k), (r: CardRow) => r.account == 0 || Serves(db, lim, r.account);
    FilledIs(db, lim, k);
    CardsAre(db.cards, b.accounts, lim.cards, k);
    forall r | r in db.cards ensures p(r) == OfAccount(b.accounts)(r) { ServedIs(db, lim, k, r.account); }
    PickedSame(db.cards, p, OfAccount(b.accounts), lim.cards);
  }

  // -------------------------------------------------------------- what is charged

  /** The card found in the bank is that of the client's row, if one is in the list. */
  lemma CardFound(db: Database, lim: Limits, k: nat, client: Client)
    ensures var b, places := Filled(db, lim, k), CardPlaces(db, lim);
      var m := CardOf(b.cards, client, 0);
      && |b.cards| == |places|
      && (m < |b.cards| ==> CardFor(db, lim, client, places[m]))
      && (m < |b.cards| ==> CardIs(b.accounts, k, b.cards[m], db.cards[places[m]]))
      && (m == |b.cards| ==> forall c: nat :: !CardFor(db, lim, client, c))
  {
    hide Filled, CardPlaces, HasAccount, FirstAccount, CardOf;
    CardsOf(db, lim, k);
    PlacesGrow(db, lim);
    var b, places := Filled(db, lim, k), CardPlaces(db, lim);
    var m := CardOf(b.cards, client, 0);
    if m < |b.cards| {
      forall j | j in places && j < places[m] ensures db.cards[j].client != client {
        var i :| 0 <= i < |places| && places[i] == j;
        assert i < m && b.cards[i].client == db.cards[j].client;
      }
    } else {
      forall c: nat ensures !CardFor(db, lim, client, c) {
        if c in places {
          var i :| 0 <= i < |places| && places[i] == c;
          assert b.cards[i].client == db.cards[c].client;
        }
      }
    }
  }

  /** The card's account and its tax. */
  lemma BehindCard(db: Database, lim: Limits, k: nat, m: nat)
    requires KeysSet(db) && m < |CardPlaces(db, lim)|
    ensures var b, c := Filled(db, lim, k), CardPlaces(db, lim)[m];
      && |b.cards| == |CardPlaces(db, lim)| && |b.accounts| == |AccountPlaces(db, lim)|
      && b.cards[m].account.At?
      && var l := b.cards[m].account.index;
         l < |b.accounts|
         && var a := AccountPlaces(db, lim)[l];
            && AccountFor(db, lim, db.cards[c].account, a) && b.accounts[l].uid == db.accounts[a].uid
            && b.accounts[l].tax.At? && TaxFor(db, lim, db.accounts[a].tax, b.accounts[l].tax.index)
            && FirstTax(b.taxes, db.accounts[a].tax, b.accounts[l].tax.index)
  {
    hide Filled, AccountPlaces, AccountFor, TaxFor, HasTax, FirstTax, KeysSet;
    var b, c := Filled(db, lim, k), CardPlaces(db, lim)[m];
    CardsOf(db, lim, k);
    ServedIs(db, lim, k, db.cards[c].account);
    PickedCard(db, lim, m);
    AccountsOf(db, lim, k);
    var l := b.cards[m].account.index;
    PickedAccount(db, lim, l);
    FirstTaxIs(db, lim, k, db.accounts[AccountPlaces(db, lim)[l]].tax);
  }

  lemma PickedCard(db: Database, lim: Limits, m: nat)
    requires KeysSet(db) && m < |CardPlaces(db, lim)|
    ensures Serves(db, lim, db.cards[CardPlaces(db, lim)[m]].account)
  {
    hide Serves;
  }

  lemma PickedAccount(db: Database, lim: Limits, l: nat)
    requires KeysSet(db) && l < |AccountPlaces(db, lim)|
    ensures HasTax(Generations.Taxes(db.taxes, lim.taxes), db.accounts[AccountPlaces(db, lim)[l]].tax)
  {
    hide HasTax;
  }

  lemma TaxForHas(db: Database, lim: Limits, uid: nat, t: nat)
    requires TaxFor(db, lim, uid, t)
    ensures t < |db.taxes| && db.taxes[t].uid == uid
  {
  }

  lemma FirstTaxHas(taxes: seq<Tax>, uid: nat, t: nat)
    requires FirstTax(taxes, uid, t)
    ensures t < |taxes|
  {
  }

  lemma FitsIs(db: Database, lim: Limits, uid: nat, t: nat, s: Record, j: nat)
    requires var taxes := Generations.Taxes(db.taxes, lim.taxes); FirstTax(taxes, uid, t)
    ensures Fits(db, lim, uid, s, j) <==>
      j in DetailPlaces(db, lim) && OfTax(db.details, Generations.Taxes(db.taxes, lim.taxes), t, s, j)
  {
    hide About, Generations.Taxes;
  }

  /** The newest detail of the chain that covers the session is the newest row that fits. */
  lemma RatesAre(db: Database, lim: Limits, k: nat, uid: nat, t: nat, s: Record)
    requires var b := Filled(db, lim, k); FirstTax(b.taxes, uid, t) && Sound(b, k)
    requires TaxFor(db, lim, uid, t)
    ensures var b := Filled(db, lim, k); Linked(b.details) && Starts(b.details, b.taxes[t].td)
    ensures var b := Filled(db, lim, k);
      match Matching(b.details, b.taxes[t].td, s)
      case Some(d) => RatesFor(db, lim, t, s, d.toCli, d.fromCli)
      case None => RatesFor(db, lim, t, s, b.taxes[t].toCli, b.taxes[t].fromCli)
  {
    hide Filled, Generations.Taxes, HourRates, Fits, FirstTax, TaxFor, Sound, Matching;
    hide FirstCovering, Own, Picked, OfTax, NewestOf;
    var taxes, b := Generations.Taxes(db.taxes, lim.taxes), Filled(db, lim, k);
    FilledIs(db, lim, k);
    TaxesOf(db, lim, k);
    FirstTaxIs(db, lim, k, uid);
    TaxForHas(db, lim, uid, t);
    FirstTaxHas(taxes, uid, t);
    var times := Times(db.times, lim.times);
    NewestDetailPrices(db.details, taxes, times, lim.details, k, t, s);
    OwnNewest(db.details, taxes, db.times, lim.times, lim.details, k, t, s);
    var places := DetailPlaces(db, lim);
    forall j: nat ensures Fits(db, lim, uid, s, j) <==> j in places && OfTax(db.details, taxes, t, s, j) {
      FitsIs(db, lim, uid, t, s, j);
    }
    PlacesGrow(db, lim);
    NewestOfIs(places, db.details, taxes, t, s);
  }

  lemma FilledSound(db: Database, lim: Limits, k: nat)
    requires KeysSet(db)
    ensures Sound(Filled(db, lim, k), k)
  {
    FillingSound(db, lim, k);
  }

  /** The row the logger writes for a session of card `m` of the bank is priced by the database's rows. */
  lemma SessionPriced(db: Database, lim: Limits, k: nat, m: nat, s: Record, units: real, key: nat)
    requires KeysSet(db) && units != 0.0 && Sound(Filled(db, lim, k), k) && m < |Filled(db, lim, k).cards|
    requires m == CardOf(Filled(db, lim, k).cards, ClientOf(s), 0)
    ensures Priced(db, lim, s, units, RowOf(Filled(db, lim, k), k, m, s, units, key))
  {
    hide Filled, CardFor, AccountFor, TaxFor, RatesFor, Matching, Cost, KeysSet, CardPlaces, AccountPlaces;
    var b := Filled(db, lim, k);
    CardFound(db, lim, k, ClientOf(s));
    BehindCard(db, lim, k, m);
    var c, l := CardPlaces(db, lim)[m], b.cards[m].account.index;
    var a, t := AccountPlaces(db, lim)[l], b.accounts[l].tax.index;
    RatesAre(db, lim, k, db.accounts[a].tax, t, s);
    var (toCli, fromCli) := match Matching(b.details, b.taxes[t].td, s)
      case Some(d) => (d.toCli, d.fromCli)
      case None => (b.taxes[t].toCli, b.taxes[t].fromCli);
    CostIs(toCli, s.toCli, units);
    CostIs(fromCli, s.toHost, units);
  }

  /** The session's client has a card in the list. */
  ghost function HasCardRow(db: Database, lim: Limits): Record -> bool {
    (s: Record) => exists c: nat :: CardFor(db, lim, Client(s.mac, s.ipClnt), c)
  }

  /** The rows are those of the sessions at these places, numbered on, and priced. */
  ghost predicate AllPriced(
    db: Database, lim: Limits, sessions: seq<Record>, units: real, first: nat, places: seq<nat>, rows: seq<LogRow>)
  {
    && |rows| == |places|
    && forall m | 0 <= m < |places| ::
         && places[m] < |sessions| && rows[m].key == first + m + 1
         && Priced(db, lim, sessions[places[m]], units, rows[m])
  }

  lemma AllStillPriced(
    db: Database, lim: Limits, sessions: seq<Record>, s: Record, units: real, first: nat,
    places: seq<nat>, rows: seq<LogRow>)
    requires AllPriced(db, lim, sessions, units, first, places, rows)
    ensures AllPriced(db, lim, sessions + [s], units, first, places, rows)
  {
    hide Priced;
  }

  lemma OneMorePriced(
    db: Database, lim: Limits, sessions: seq<Record>, s: Record, units: real, first: nat,
    places: seq<nat>, rows: seq<LogRow>, row: LogRow)
    requires AllPriced(db, lim, sessions, units, first, places, rows)
    requires row.key == first + |rows| + 1 && Priced(db, lim, s, units, row)
    ensures AllPriced(db, lim, sessions + [s], units, first, places + [|sessions|], rows + [row])
  {
    hide Priced;
  }

  /**
   A batch billed against a bank filled from the database: one log row for each session whose
   client has a card, in order and numbered on, each priced by the rows of the database.
   */
  lemma {:induction false} BatchPriced(
    db: Database, lim: Limits, k: nat, sessions: seq<Record>, units: real, first: nat)
    requires KeysSet(db) && units != 0.0 && Sound(Filled(db, lim, k), k)
    ensures AllPriced(db, lim, sessions, units, first, Picked(sessions, HasCardRow(db, lim), |sessions|),
                      Rows(Filled(db, lim, k), k, sessions, units, first))
  {
    hide Filled, CardFor, CardIs, Priced, AllPriced, KeysSet, RowOf, Sound, CardOf, Picked, Rows;
    var b, has := Filled(db, lim, k), HasCardRow(db, lim);
    if sessions == [] {
      NoSessions(b, k, units, first, []);
      NonePicked(has, 0);
      NonePriced(db, lim, units, first);
    } else {
      var s, init := Final(sessions), Init(sessions);
      var places, rows := Picked(init, has, |init|), Rows(b, k, init, units, first);
      BatchPriced(db, lim, k, init, units, first);
      MoreRoom(init, has, |sessions|);
      PickedStep(sessions, has, |sessions|);
      OneMoreSession(b, k, init, s, units, first);
      CardFound(db, lim, k, ClientOf(s));
      assert init + [s] == sessions;
      var m := CardOf(b.cards, ClientOf(s), 0);
      if m < |b.cards| {
        var row := RowOf(b, k, m, s, units, first + |rows| + 1);
        SessionPriced(db, lim, k, m, s, units, first + |rows| + 1);
        OneMorePriced(db, lim, init, s, units, first, places, rows, row);
      } else {
        AllStillPriced(db, lim, init, s, units, first, places, rows);
      }
    }
  }

  lemma NonePriced(db: Database, lim: Limits, units: real, first: nat)
    ensures AllPriced(db, lim, [], units, first, [], [])
  {
  }

  /** Room for all is room enough. */
  lemma {:induction false} MoreRoom<T>(rows: seq<T>, p: T -> bool, max: nat)
    requires |rows| <= max
    ensures Picked(rows, p, max) == Picked(rows, p, |rows|) && |Picked(rows, p, max)| <= |rows|
  {
    if rows != [] {
      MoreRoom(Init(rows), p, max);
      MoreRoom(Init(rows), p, |rows|);
    }
  }
}
