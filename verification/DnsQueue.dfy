/**
 The forwarder's buffers and pending queries.

 Buffers are on the free list, on the ready list or in the queue, or in the hands of the
 receiving thread or of a thread of the pool.  Every stretch of code that holds a lock is one
 step; the steps of all threads interleave in any order.  The three lists are sequences here;
 DnsLists is about the pointers they are made of.
 */
module DnsQueue {
  import opened Common

  /** A buffer, by its address. */
  type Buf = nat

  /**
   A message as far as the program looks into it.  `answers` is the query, by its serial, that
   a server meant its response for: the program goes by `id` and keeps `answers` for the history.
   */
  datatype Packet =
    | Response(id: nat, rcode: nat, answers: nat)
    | Ask(id: nat, one: bool, known: bool)

  /** A buffer's fields.  `serial` numbers the forwarded queries, for the history only. */
  datatype Info = Info(from: nat, packet: Packet, time: int, serial: nat, srcId: nat, refId: nat, server: nat)

  /** A pool thread: `Got` from the ready list, about to free, about to put in the queue. */
  datatype Hand = Idle | Got(b: Buf) | Releasing(back: seq<Buf>, keep: Option<Buf>) | Saving(b: Buf)

  /** Who asked, a query sent to a server, and an answer given to a client. */
  datatype Asker = Asker(from: nat, id: nat)
  datatype Send = Send(serial: nat, server: nat)
  datatype Reply = Reply(serial: nat, to: Asker, answers: nat)

  /** The queries forwarded so far and what went out for them. */
  datatype History = History(asked: seq<Asker>, sends: seq<Send>, replies: seq<Reply>)

  datatype State = State(
    free: seq<Buf>, ready: seq<Buf>, queue: seq<Buf>, main: Option<Buf>, hands: seq<Hand>,
    info: map<Buf, Info>, nextId: nat, history: History)

  const WORD16 := 0x1_0000
  const CLEARED := Info(0, Ask(0, false, false), 0, 0, 0, 0, 0)

  datatype Action =
    | Grab(made: Buf)
    | Arrive(from: nat, packet: Packet, time: int, short: bool)
    | Take(t: nat)
    | Handle(t: nat)
    | Release(t: nat)
    | Save(t: nat)
    | Sweep(limit: int)

  /** Server failure, and every code above "no such name". */
  predicate Refused(rcode: nat) {
    rcode == 2 || rcode > 3
  }

  /** The first query of the queue with a reference number, or the queue's length. */
  function FindRef(queue: seq<Buf>, info: map<Buf, Info>, id: nat, i: nat): (k: nat)
    requires i <= |queue| && forall b | b in queue :: b in info
    ensures i <= k <= |queue|
    ensures k < |queue| ==> info[queue[k]].refId == id
    ensures forall j | i <= j < k :: info[queue[j]].refId != id
    decreases |queue| - i
  {
    if i == |queue| || info[queue[i]].refId == id then i else FindRef(queue, info, id, i + 1)
  }

  function Without(s: seq<Buf>, i: nat): (s': seq<Buf>)
    requires i < |s|
    ensures |s'| == |s| - 1
    ensures forall b :: In(s', b) == In(s, b) - (if b == s[i] then 1 else 0)
  {
    assert s == s[..i] + [s[i]] + s[i + 1..];
    s[..i] + s[i + 1..]
  }

  /** How often a buffer occurs in a list. */
  function In(s: seq<Buf>, b: Buf): nat {
    multiset(s)[b]
  }

  /** Buffers go back one by one, each on top of the free list. */
  function Freed(free: seq<Buf>, back: seq<Buf>): (free': seq<Buf>)
    ensures forall b :: In(free', b) == In(free, b) + In(back, b)
    decreases |back|
  {
    if back == [] then free
    else
      assert back == [back[0]] + back[1..];
      Freed([back[0]] + free, back[1..])
  }

  // --------------------------------------------------------------------- places

  function One(o: Option<Buf>, b: Buf): nat {
    if o == Some(b) then 1 else 0
  }

  /** How often a thread holds a buffer, and holds it as a pending query. */
  function HeldBy(h: Hand, b: Buf): nat {
    match h
    case Idle => 0
    case Got(c) => if c == b then 1 else 0
    case Releasing(back, keep) => In(back, b) + One(keep, b)
    case Saving(c) => if c == b then 1 else 0
  }

  function KeptBy(h: Hand, b: Buf): nat {
    match h
    case Releasing(_, keep) => One(keep, b)
    case Saving(c) => if c == b then 1 else 0
    case _ => 0
  }

  function Held(hands: seq<Hand>, b: Buf): nat {
    if hands == [] then 0 else HeldBy(hands[0], b) + Held(hands[1..], b)
  }

  function Kept(hands: seq<Hand>, b: Buf): nat {
    if hands == [] then 0 else KeptBy(hands[0], b) + Kept(hands[1..], b)
  }

  /** In how many places a buffer is. */
  function Places(st: State, b: Buf): nat {
    In(st.free, b) + In(st.ready, b) + In(st.queue, b) + One(st.main, b) + Held(st.hands, b)
  }

  /** A query that waits for an answer: it is in the queue, or on its way into it. */
  predicate Pending(st: State, b: Buf) {
    0 < In(st.queue, b) + Kept(st.hands, b)
  }

  /** Every buffer there is, is in exactly one place. */
  ghost predicate EachInOnePlace(st: State) {
    forall b :: Places(st, b) == if b in st.info then 1 else 0
  }

  // ---------------------------------------------------------------------- steps

  predicate Enabled(st: State, a: Action) {
    match a
    case Grab(made) => st.main == None && made !in st.info
    case Arrive(_, _, _, _) => st.main.Some?
    case Take(t) => t < |st.hands| && st.hands[t].Idle? && st.ready != []
    case Handle(t) => t < |st.hands| && st.hands[t].Got?
    case Release(t) => t < |st.hands| && st.hands[t].Releasing?
    case Save(t) => t < |st.hands| && st.hands[t].Saving?
    case Sweep(_) => true
  }

  /** The pass over the queue, from place `i` on: a query that is resent is looked at again. */
  function Swept(st: State, i: nat, limit: int, servers: nat): (st': State)
    requires i <= |st.queue| && forall b | b in st.queue :: b in st.info
    decreases |st.queue| - i, if i < |st.queue| then servers - st.info[st.queue[i]].server else 0
  {
    if i == |st.queue| then st
    else
      var b := st.queue[i];
      if limit <= st.info[b].time then Swept(st, i + 1, limit, servers)
      else if st.info[b].server + 1 < servers then Swept(Resent(st, b), i, limit, servers)
      else Swept(Dropped(st, i), i, limit, servers)
  }

  /** The query is sent to its next server. */
  function Resent(st: State, b: Buf): State
    requires b in st.info
  {
    var q := st.info[b].(server := st.info[b].server + 1);
    st.(info := st.info[b := q], history := st.history.(sends := st.history.sends + [Send(q.serial, q.server)]))
  }

  function Dropped(st: State, i: nat): State
    requires i < |st.queue|
  {
    st.(queue := Without(st.queue, i), free := [st.queue[i]] + st.free)
  }

  /** A response: to the next server, or to the client and out of the queue. */
  function Answered(st: State, t: nat, b: Buf, servers: nat): State
    requires t < |st.hands| && b in st.info && st.info[b].packet.Response?
    requires forall q | q in st.queue :: q in st.info
  {
    var p := st.info[b].packet;
    var i := FindRef(st.queue, st.info, p.id, 0);
    if i == |st.queue| then st.(hands := st.hands[t := Releasing([b], None)])
    else
      var q := st.queue[i];
      var st1 := st.(queue := Without(st.queue, i));
      if Refused(p.rcode) && st.info[q].server + 1 < servers then
        Resent(st1, q).(hands := st.hands[t := Releasing([b], Some(q))])
      else
        var reply := Reply(st.info[q].serial, Asker(st.info[q].from, st.info[q].srcId), p.answers);
        st1.(history := st.history.(replies := st.history.replies + [reply]),
             hands := st.hands[t := Releasing([q, b], None)])
  }

  /** A query: answered at once, or numbered and sent to the first server. */
  function Queried(st: State, t: nat, b: Buf, servers: nat): State
    requires t < |st.hands| && b in st.info && st.info[b].packet.Ask?
  {
    var p := st.info[b].packet;
    if !p.one || p.known || servers == 0 then st.(hands := st.hands[t := Releasing([b], None)])
    else
      var h := st.history;
      var q := st.info[b].(serial := |h.asked|, srcId := p.id, refId := st.nextId, server := 0);
      st.(info := st.info[b := q], nextId := (st.nextId + 1) % WORD16,
          history := h.(asked := h.asked + [Asker(q.from, p.id)], sends := h.sends + [Send(q.serial, 0)]),
          hands := st.hands[t := Releasing([], Some(b))])
  }

  function Next(st: State, a: Action, servers: nat): State
    requires Enabled(st, a) && EachInOnePlace(st)
  {
    InInfo(st);
    match a
    case Grab(made) =>
      var b := if st.free == [] then made else st.free[0];
      st.(free := if st.free == [] then [] else st.free[1..], main := Some(b), info := st.info[b := CLEARED])
    case Arrive(from, packet, time, short) =>
      var b := st.main.value;
      if short then st.(main := None, free := [b] + st.free)
      else st.(main := None, ready := [b] + st.ready,
               info := st.info[b := CLEARED.(from := from, packet := packet, time := time)])
    case Take(t) => st.(ready := st.ready[1..], hands := st.hands[t := Got(st.ready[0])])
    case Handle(t) =>
      var b := st.hands[t].b;
      if st.info[b].packet.Response? then Answered(st, t, b, servers) else Queried(st, t, b, servers)
    case Release(t) =>
      var h := st.hands[t];
      st.(free := Freed(st.free, h.back),
          hands := st.hands[t := if h.keep.Some? then Saving(h.keep.value) else Idle])
    case Save(t) => st.(queue := st.queue + [st.hands[t].b], hands := st.hands[t := Idle])
    case Sweep(limit) => Swept(st, 0, limit, servers)
  }

  lemma {:induction false} HeldByOne(hands: seq<Hand>, t: nat, b: Buf)
    requires t < |hands|
    ensures HeldBy(hands[t], b) <= Held(hands, b) && KeptBy(hands[t], b) <= Kept(hands, b)
  {
    if t != 0 { HeldByOne(hands[1..], t - 1, b); }
  }

  lemma InInfo(st: State)
    requires EachInOnePlace(st)
    ensures forall b | b in st.queue :: b in st.info
    ensures forall b | b in st.free :: b in st.info
    ensures forall b | b in st.ready :: b in st.info
    ensures st.main.Some? ==> st.main.value in st.info
    ensures forall t, b | 0 <= t < |st.hands| && 0 < HeldBy(st.hands[t], b) :: b in st.info
  {
    forall b | b in st.queue ensures b in st.info { assert 0 < Places(st, b); }
    forall b | b in st.free ensures b in st.info { assert 0 < Places(st, b); }
    forall b | b in st.ready ensures b in st.info { assert 0 < Places(st, b); }
    if st.main.Some? { assert 0 < Places(st, st.main.value); }
    forall t, b | 0 <= t < |st.hands| && 0 < HeldBy(st.hands[t], b) ensures b in st.info {
      HeldByOne(st.hands, t, b);
      assert 0 < Places(st, b);
    }
  }

  lemma {:induction false} HandChanges(hands: seq<Hand>, t: nat, h: Hand, b: Buf)
    requires t < |hands|
    ensures Held(hands[t := h], b) == Held(hands, b) - HeldBy(hands[t], b) + HeldBy(h, b)
    ensures Kept(hands[t := h], b) == Kept(hands, b) - KeptBy(hands[t], b) + KeptBy(h, b)
  {
    if t == 0 {
      assert hands[0 := h][1..] == hands[1..];
    } else {
      assert hands[t := h][1..] == hands[1..][t - 1 := h];
      HandChanges(hands[1..], t - 1, h, b);
    }
  }

  // --------------------------------------------------- buffers are neither lost nor shared

  lemma Popped(s: seq<Buf>, b: Buf)
    requires s != []
    ensures In(s[1..], b) == In(s, b) - (if b == s[0] then 1 else 0)
  {
    assert s == [s[0]] + s[1..];
  }

  lemma {:induction false} SweptPlaces(st: State, i: nat, limit: int, servers: nat)
    requires EachInOnePlace(st) && i <= |st.queue| && forall b | b in st.queue :: b in st.info
    ensures EachInOnePlace(Swept(st, i, limit, servers))
    ensures Swept(st, i, limit, servers).info.Keys == st.info.Keys
    decreases |st.queue| - i, if i < |st.queue| then servers - st.info[st.queue[i]].server else 0
  {
    hide EachInOnePlace, Without;
    if i < |st.queue| {
      var b := st.queue[i];
      if limit <= st.info[b].time {
        SweptPlaces(st, i + 1, limit, servers);
      } else if st.info[b].server + 1 < servers {
        ResentPlaces(st, b);
        SweptPlaces(Resent(st, b), i, limit, servers);
      } else {
        DroppedPlaces(st, i);
        SweptPlaces(Dropped(st, i), i, limit, servers);
      }
    }
  }

  lemma DroppedPlaces(st: State, i: nat)
    requires EachInOnePlace(st) && i < |st.queue|
    ensures EachInOnePlace(Dropped(st, i))
    ensures forall b | b in Dropped(st, i).queue :: b in st.info
  {
    SamePlaces(st, Dropped(st, i));
    InInfo(Dropped(st, i));
  }

  /** Moving buffers between places loses none. */
  lemma SamePlaces(st: State, st': State)
    requires EachInOnePlace(st) && st.info.Keys == st'.info.Keys
    requires forall b :: Places(st', b) == Places(st, b)
    ensures EachInOnePlace(st')
  {
  }

  lemma MissedPlaces(st: State, t: nat, b: Buf)
    requires EachInOnePlace(st) && t < |st.hands| && st.hands[t] == Got(b)
    ensures EachInOnePlace(st.(hands := st.hands[t := Releasing([b], None)]))
  {
    forall c { HandChanges(st.hands, t, Releasing([b], None), c); }
  }

  lemma ResentPlaces(st: State, b: Buf)
    requires EachInOnePlace(st) && b in st.info
    ensures EachInOnePlace(Resent(st, b))
  {
    SamePlaces(st, Resent(st, b));
  }

  /** The response goes to the free list and its query into the hands of the thread, or both do. */
  lemma MatchedPlaces(st: State, t: nat, b: Buf, i: nat, h: Hand)
    requires EachInOnePlace(st) && t < |st.hands| && st.hands[t] == Got(b) && i < |st.queue|
    requires h == Releasing([b], Some(st.queue[i])) || h == Releasing([st.queue[i], b], None)
    ensures EachInOnePlace(st.(queue := Without(st.queue, i), hands := st.hands[t := h]))
  {
    hide Without;
    var q := st.queue[i];
    forall c { HandChanges(st.hands, t, h, c); }
    assert forall c :: In([q, b], c) == In([q], c) + In([b], c) by { assert [q, b] == [q] + [b]; }
  }

  lemma AnsweredPlaces(st: State, t: nat, b: Buf, servers: nat)
    requires EachInOnePlace(st) && t < |st.hands| && st.hands[t] == Got(b)
    requires b in st.info && st.info[b].packet.Response? && forall q | q in st.queue :: q in st.info
    ensures EachInOnePlace(Answered(st, t, b, servers))
    ensures Answered(st, t, b, servers).info.Keys == st.info.Keys
  {
    hide EachInOnePlace, Without;
    var p := st.info[b].packet;
    var i := FindRef(st.queue, st.info, p.id, 0);
    if i == |st.queue| {
      MissedPlaces(st, t, b);
    } else {
      var q := st.queue[i];
      MatchedPlaces(st, t, b, i, Releasing([b], Some(q)));
      MatchedPlaces(st, t, b, i, Releasing([q, b], None));
      if Refused(p.rcode) && st.info[q].server + 1 < servers {
        var st1 := st.(queue := Without(st.queue, i), hands := st.hands[t := Releasing([b], Some(q))]);
        ResentPlaces(st1, q);
        assert Answered(st, t, b, servers) == Resent(st1, q);
      } else {
        var st1 := st.(queue := Without(st.queue, i), hands := st.hands[t := Releasing([q, b], None)]);
        NewHistory(st1, Answered(st, t, b, servers));
      }
    }
  }

  lemma NewHistory(st: State, st': State)
    requires EachInOnePlace(st) && st'.info.Keys == st.info.Keys
    requires st'.free == st.free && st'.ready == st.ready && st'.queue == st.queue
    requires st'.main == st.main && st'.hands == st.hands
    ensures EachInOnePlace(st')
  {
    assert forall b :: Places(st', b) == Places(st, b);
  }

  lemma QueriedPlaces(st: State, t: nat, b: Buf, servers: nat)
    requires EachInOnePlace(st) && t < |st.hands| && st.hands[t] == Got(b)
    requires b in st.info && st.info[b].packet.Ask?
    ensures EachInOnePlace(Queried(st, t, b, servers))
    ensures Queried(st, t, b, servers).info.Keys == st.info.Keys
  {
    var p, st' := st.info[b].packet, Queried(st, t, b, servers);
    if !p.one || p.known || servers == 0 {
      MissedPlaces(st, t, b);
    } else {
      forall c { HandChanges(st.hands, t, Releasing([], Some(b)), c); }
    }
  }

  lemma HandlePlaces(st: State, t: nat, servers: nat)
    requires EachInOnePlace(st) && Enabled(st, Handle(t))
    ensures EachInOnePlace(Next(st, Handle(t), servers))
    ensures Next(st, Handle(t), servers).info.Keys == st.info.Keys
  {
    hide EachInOnePlace, Answered, Queried;
    InInfo(st);
    var b := st.hands[t].b;
    assert 0 < HeldBy(st.hands[t], b);
    if st.info[b].packet.Response? { AnsweredPlaces(st, t, b, servers); } else { QueriedPlaces(st, t, b, servers); }
  }

  /** Every step leaves every buffer in one place; only Grab makes one, when the free list is empty. */
  lemma StepPlaces(st: State, a: Action, servers: nat)
    requires EachInOnePlace(st) && Enabled(st, a)
    ensures EachInOnePlace(Next(st, a, servers))
    ensures Next(st, a, servers).info.Keys
      == st.info.Keys + (if a.Grab? && st.free == [] then {a.made} else {})
  {
    InInfo(st);
    match a
    case Handle(t) => HandlePlaces(st, t, servers);
    case Sweep(limit) => SweptPlaces(st, 0, limit, servers);
    case Grab(_) => GrabPlaces(st, a, servers);
    case Arrive(_, _, _, _) => ArrivePlaces(st, a, servers);
    case Take(_) => TakePlaces(st, a, servers);
    case _ => SettledPlaces(st, a, servers);
  }

  lemma GrabPlaces(st: State, a: Action, servers: nat)
    requires EachInOnePlace(st) && Enabled(st, a) && a.Grab?
    ensures EachInOnePlace(Next(st, a, servers))
    ensures Next(st, a, servers).info.Keys == st.info.Keys + (if st.free == [] then {a.made} else {})
  {
    InInfo(st);
    if st.free != [] {
      forall b { Popped(st.free, b); }
    }
  }

  lemma ArrivePlaces(st: State, a: Action, servers: nat)
    requires EachInOnePlace(st) && Enabled(st, a) && a.Arrive?
    ensures EachInOnePlace(Next(st, a, servers)) && Next(st, a, servers).info.Keys == st.info.Keys
  {
    InInfo(st);
    var st' := Next(st, a, servers);
    assert forall b :: Places(st', b) == Places(st, b);
  }

  lemma TakePlaces(st: State, a: Action, servers: nat)
    requires EachInOnePlace(st) && Enabled(st, a) && a.Take?
    ensures EachInOnePlace(Next(st, a, servers)) && Next(st, a, servers).info.Keys == st.info.Keys
  {
    var st' := Next(st, a, servers);
    forall b ensures Places(st', b) == Places(st, b) {
      HandChanges(st.hands, a.t, Got(st.ready[0]), b);
      Popped(st.ready, b);
    }
  }

  lemma SettledPlaces(st: State, a: Action, servers: nat)
    requires EachInOnePlace(st) && Enabled(st, a) && (a.Release? || a.Save?)
    ensures EachInOnePlace(Next(st, a, servers)) && Next(st, a, servers).info.Keys == st.info.Keys
  {
    hide Freed;
    var st' := Next(st, a, servers);
    forall b ensures Places(st', b) == Places(st, b) {
      HandChanges(st.hands, a.t, st'.hands[a.t], b);
    }
  }

  // ----------------------------------------------------------- what becomes of queries

  /** The servers a query was sent to, in order. */
  function SentTo(sends: seq<Send>, serial: nat): seq<nat> {
    if sends == [] then []
    else SentTo(sends[..|sends| - 1], serial)
         + (if sends[|sends| - 1].serial == serial then [sends[|sends| - 1].server] else [])
  }

  /** 0, 1, ..., n - 1: the first n servers of the chain. */
  function Ladder(n: nat): (s: seq<nat>)
    ensures |s| == n && forall i | 0 <= i < n :: s[i] == i
  {
    seq(n, i => i)
  }

  /** Sent to the servers one after the other, without leaving one out or going back. */
  ghost predicate InOrder(h: History, serial: nat, servers: nat) {
    && SentTo(h.sends, serial) == Ladder(|SentTo(h.sends, serial)|)
    && |SentTo(h.sends, serial)| <= servers
    && (|h.asked| <= serial ==> SentTo(h.sends, serial) == [])
  }

  /** Nobody is answered twice, and every answer goes to who asked, with the number asked under. */
  ghost predicate AnswersRight(h: History) {
    && (forall i | 0 <= i < |h.replies| ::
          h.replies[i].serial < |h.asked| && h.replies[i].to == h.asked[h.replies[i].serial])
    && (forall i, j | 0 <= i < j < |h.replies| :: h.replies[i].serial != h.replies[j].serial)
  }

  predicate Replied(h: History, serial: nat) {
    exists i | 0 <= i < |h.replies| :: h.replies[i].serial == serial
  }

  /** A pending query remembers its asker and how far along the servers it is. */
  ghost predicate QueryOk(q: Info, h: History, servers: nat) {
    && q.serial < |h.asked| && h.asked[q.serial] == Asker(q.from, q.srcId)
    && q.refId == (q.serial + 1) % WORD16
    && q.server < servers && SentTo(h.sends, q.serial) == Ladder(q.server + 1)
    && !Replied(h, q.serial)
  }

  ghost predicate HistoryOk(h: History, nextId: nat, servers: nat) {
    && nextId == (|h.asked| + 1) % WORD16
    && AnswersRight(h)
    && forall serial: nat :: InOrder(h, serial, servers)
  }

  ghost predicate QueriesOk(st: State, servers: nat) {
    && (forall b | Pending(st, b) :: b in st.info && QueryOk(st.info[b], st.history, servers))
    && (forall b, c | Pending(st, b) && Pending(st, c) && b != c :: st.info[b].serial != st.info[c].serial)
  }

  ghost predicate Inv(st: State, servers: nat) {
    EachInOnePlace(st) && HistoryOk(st.history, st.nextId, servers) && QueriesOk(st, servers)
  }

  lemma SentMore(sends: seq<Send>, e: Send, serial: nat)
    ensures SentTo(sends + [e], serial)
      == SentTo(sends, serial) + (if e.serial == serial then [e.server] else [])
  {
    assert (sends + [e])[..|sends|] == sends;
  }

  lemma LadderGrows(n: nat)
    ensures Ladder(n) + [n] == Ladder(n + 1)
  {
  }

  lemma ResentHistory(h: History, nextId: nat, q: Info, servers: nat)
    requires HistoryOk(h, nextId, servers) && QueryOk(q, h, servers) && q.server + 1 < servers
    ensures HistoryOk(h.(sends := h.sends + [Send(q.serial, q.server + 1)]), nextId, servers)
  {
    var h' := h.(sends := h.sends + [Send(q.serial, q.server + 1)]);
    LadderGrows(q.server + 1);
    forall serial: nat ensures InOrder(h', serial, servers) {
      SentMore(h.sends, Send(q.serial, q.server + 1), serial);
      assert InOrder(h, serial, servers);
    }
  }

  lemma ResentQuery(h: History, q: Info, c: Info, servers: nat)
    requires QueryOk(q, h, servers) && QueryOk(c, h, servers) && q.server + 1 < servers
    ensures var h' := h.(sends := h.sends + [Send(q.serial, q.server + 1)]);
      && QueryOk(q.(server := q.server + 1), h', servers)
      && (c.serial != q.serial ==> QueryOk(c, h', servers))
  {
    LadderGrows(q.server + 1);
    SentMore(h.sends, Send(q.serial, q.server + 1), q.serial);
    SentMore(h.sends, Send(q.serial, q.server + 1), c.serial);
  }

  /** A pending query goes on to the next server. */
  lemma ResentKeeps(st: State, b: Buf, servers: nat)
    requires Inv(st, servers) && Pending(st, b) && st.info[b].server + 1 < servers
    ensures Inv(Resent(st, b), servers)
  {
    hide QueryOk, HistoryOk, EachInOnePlace;
    var st', q := Resent(st, b), st.info[b];
    ResentPlaces(st, b);
    ResentHistory(st.history, st.nextId, q, servers);
    forall c | Pending(st', c)
      ensures c in st'.info && QueryOk(st'.info[c], st'.history, servers)
    {
      assert Pending(st, c);
      ResentQuery(st.history, q, st.info[c], servers);
    }
  }

  /** Pending queries may stop being pending, if nothing else is changed about them. */
  lemma FewerPending(st: State, st': State, servers: nat)
    requires Inv(st, servers) && EachInOnePlace(st')
    requires st'.history == st.history && st'.nextId == st.nextId
    requires forall b | Pending(st', b) :: Pending(st, b) && b in st'.info && st'.info[b] == st.info[b]
    ensures Inv(st', servers)
  {
  }

  lemma {:induction false} SweptKeeps(st: State, i: nat, limit: int, servers: nat)
    requires Inv(st, servers) && i <= |st.queue| && forall b | b in st.queue :: b in st.info
    ensures Inv(Swept(st, i, limit, servers), servers)
    decreases |st.queue| - i, if i < |st.queue| then servers - st.info[st.queue[i]].server else 0
  {
    hide Inv, QueryOk, HistoryOk;
    if i < |st.queue| {
      var b := st.queue[i];
      assert Pending(st, b);
      if limit <= st.info[b].time {
        SweptKeeps(st, i + 1, limit, servers);
      } else if st.info[b].server + 1 < servers {
        ResentKeeps(st, b, servers);
        SweptKeeps(Resent(st, b), i, limit, servers);
      } else {
        DroppedKeeps(st, i, servers);
        SweptKeeps(Dropped(st, i), i, limit, servers);
      }
    }
  }

  lemma DroppedKeeps(st: State, i: nat, servers: nat)
    requires Inv(st, servers) && i < |st.queue|
    ensures Inv(Dropped(st, i), servers)
    ensures forall b | b in Dropped(st, i).queue :: b in Dropped(st, i).info
  {
    hide QueryOk, HistoryOk;
    DroppedPlaces(st, i);
    FewerPending(st, Dropped(st, i), servers);
  }

  lemma {:induction false} KeptIsHeld(hands: seq<Hand>, b: Buf)
    ensures Kept(hands, b) <= Held(hands, b)
  {
    if hands != [] { KeptIsHeld(hands[1..], b); }
  }

  /** A buffer in some other place is not a pending query. */
  lemma ElsewhereNotPending(st: State, b: Buf)
    requires EachInOnePlace(st)
    requires 0 < In(st.free, b) + In(st.ready, b) + One(st.main, b) + Held(st.hands, b) - Kept(st.hands, b)
    ensures !Pending(st, b)
  {
    KeptIsHeld(st.hands, b);
    assert Places(st, b) <= 1;
  }

  lemma ListKeeps(st: State, a: Action, servers: nat)
    requires Inv(st, servers) && Enabled(st, a) && (a.Grab? || a.Arrive?)
    ensures Inv(Next(st, a, servers), servers)
  {
    hide QueryOk, HistoryOk;
    StepPlaces(st, a, servers);
    InInfo(st);
    var st' := Next(st, a, servers);
    var own := if a.Arrive? then st.main.value else if st.free == [] then a.made else st.free[0];
    KeptIsHeld(st'.hands, own);
    ElsewhereNotPending(st', own);
    FewerPending(st, st', servers);
  }

  lemma HandKeeps(st: State, a: Action, servers: nat)
    requires Inv(st, servers) && Enabled(st, a) && (a.Take? || a.Release? || a.Save?)
    ensures Inv(Next(st, a, servers), servers)
  {
    hide QueryOk, HistoryOk, Freed;
    StepPlaces(st, a, servers);
    InInfo(st);
    var st' := Next(st, a, servers);
    forall b ensures Pending(st', b) ==> Pending(st, b) {
      HandChanges(st.hands, a.t, st'.hands[a.t], b);
    }
    PendingInInfo(st);
    FewerPending(st, st', servers);
  }

  lemma PendingInInfo(st: State)
    requires EachInOnePlace(st)
    ensures forall b | Pending(st, b) :: b in st.info
  {
    forall b | Pending(st, b) ensures b in st.info {
      KeptIsHeld(st.hands, b);
      assert 0 < Places(st, b);
    }
  }

  /** A response for a query nobody waits for. */
  lemma MissKeeps(st: State, t: nat, b: Buf, servers: nat)
    requires Inv(st, servers) && t < |st.hands| && st.hands[t] == Got(b)
    ensures Inv(st.(hands := st.hands[t := Releasing([b], None)]), servers)
  {
    hide QueryOk, HistoryOk;
    MissedPlaces(st, t, b);
    var st' := st.(hands := st.hands[t := Releasing([b], None)]);
    forall c ensures Pending(st', c) ==> Pending(st, c) { HandChanges(st.hands, t, Releasing([b], None), c); }
    FewerPending(st, st', servers);
  }

  lemma MatchKeeps(st: State, t: nat, b: Buf, i: nat, h: Hand, servers: nat)
    requires Inv(st, servers) && t < |st.hands| && st.hands[t] == Got(b) && i < |st.queue|
    requires h == Releasing([b], Some(st.queue[i])) || h == Releasing([st.queue[i], b], None)
    ensures var st' := st.(queue := Without(st.queue, i), hands := st.hands[t := h]);
      && Inv(st', servers)
      && (forall c | Pending(st', c) :: Pending(st, c))
      && (Pending(st', st.queue[i]) <==> h.keep.Some?)
  {
    hide QueryOk, HistoryOk, Without;
    var q := st.queue[i];
    var st' := st.(queue := Without(st.queue, i), hands := st.hands[t := h]);
    MatchedPlaces(st, t, b, i, h);
    forall c ensures Pending(st', c) ==> Pending(st, c) {
      HandChanges(st.hands, t, h, c);
    }
    HandChanges(st.hands, t, h, q);
    KeptIsHeld(st.hands, q);
    assert Places(st, q) == 1;
    FewerPending(st, st', servers);
  }

  /** The answer is recorded; its query is not pending any more. */
  lemma ReplyKeeps(st: State, r: Reply, servers: nat)
    requires Inv(st, servers)
    requires r.serial < |st.history.asked| && r.to == st.history.asked[r.serial] && !Replied(st.history, r.serial)
    requires forall b | Pending(st, b) :: b in st.info && st.info[b].serial != r.serial
    ensures Inv(st.(history := st.history.(replies := st.history.replies + [r])), servers)
  {
    var st' := st.(history := st.history.(replies := st.history.replies + [r]));
    NewHistory(st, st');
    assert forall serial: nat :: InOrder(st.history, serial, servers) ==> InOrder(st'.history, serial, servers);
    forall b | Pending(st', b) ensures b in st'.info && QueryOk(st'.info[b], st'.history, servers) {
      assert Pending(st, b);
    }
  }

  lemma AnsweredKeeps(st: State, t: nat, b: Buf, servers: nat)
    requires Inv(st, servers) && t < |st.hands| && st.hands[t] == Got(b)
    requires b in st.info && st.info[b].packet.Response? && forall q | q in st.queue :: q in st.info
    ensures Inv(Answered(st, t, b, servers), servers)
  {
    hide Inv, Without, Pending;
    var p := st.info[b].packet;
    var i := FindRef(st.queue, st.info, p.id, 0);
    if i == |st.queue| {
      MissKeeps(st, t, b, servers);
    } else {
      var q := st.queue[i];
      if Refused(p.rcode) && st.info[q].server + 1 < servers {
        MatchKeeps(st, t, b, i, Releasing([b], Some(q)), servers);
        var st1 := st.(queue := Without(st.queue, i), hands := st.hands[t := Releasing([b], Some(q))]);
        ResentKeeps(st1, q, servers);
        assert Answered(st, t, b, servers) == Resent(st1, q);
      } else {
        MatchKeeps(st, t, b, i, Releasing([q, b], None), servers);
        var st1 := st.(queue := Without(st.queue, i), hands := st.hands[t := Releasing([q, b], None)]);
        QueueFacts(st, i, servers);
        PendingFacts(st1, servers);
        ReplyKeeps(st1, Reply(st.info[q].serial, Asker(st.info[q].from, st.info[q].srcId), p.answers), servers);
      }
    }
  }

  lemma QueueFacts(st: State, i: nat, servers: nat)
    requires Inv(st, servers) && i < |st.queue| && st.queue[i] in st.info
    ensures var q := st.info[st.queue[i]];
      && q.serial < |st.history.asked| && st.history.asked[q.serial] == Asker(q.from, q.srcId)
      && !Replied(st.history, q.serial) && Pending(st, st.queue[i])
      && forall c | Pending(st, c) && c != st.queue[i] :: c in st.info && st.info[c].serial != q.serial
  {
    assert In(st.queue, st.queue[i]) > 0;
  }

  lemma PendingFacts(st: State, servers: nat)
    requires Inv(st, servers)
    ensures forall c | Pending(st, c) :: c in st.info
  {
  }

  /** A new query: its number is that of the next to be forwarded. */
  lemma QueriedKeeps(st: State, t: nat, b: Buf, servers: nat)
    requires Inv(st, servers) && t < |st.hands| && st.hands[t] == Got(b)
    requires b in st.info && st.info[b].packet.Ask?
    ensures Inv(Queried(st, t, b, servers), servers)
  {
    var p, st', h := st.info[b].packet, Queried(st, t, b, servers), st.history;
    if !p.one || p.known || servers == 0 {
      MissKeeps(st, t, b, servers);
    } else {
      QueriedPlaces(st, t, b, servers);
      forall c ensures Pending(st', c) ==> c == b || Pending(st, c) {
        HandChanges(st.hands, t, Releasing([], Some(b)), c);
      }
      NumberedHistory(h, st.nextId, st'.history.asked[|h.asked|], servers);
      hide HistoryOk, EachInOnePlace;
      forall c | Pending(st', c) ensures c in st'.info && QueryOk(st'.info[c], st'.history, servers) {
        if c != b {
          assert Pending(st, c);
          SentMore(h.sends, Send(|h.asked|, 0), st.info[c].serial);
        } else {
          NewQuery(h, st.nextId, st'.info[b], servers);
        }
      }
    }
  }

  lemma NumberedHistory(h: History, nextId: nat, asker: Asker, servers: nat)
    requires HistoryOk(h, nextId, servers) && 0 < servers
    ensures HistoryOk(History(h.asked + [asker], h.sends + [Send(|h.asked|, 0)], h.replies),
                      (nextId + 1) % WORD16, servers)
  {
    var h' := History(h.asked + [asker], h.sends + [Send(|h.asked|, 0)], h.replies);
    forall serial: nat ensures InOrder(h', serial, servers) {
      SentMore(h.sends, Send(|h.asked|, 0), serial);
      assert InOrder(h, serial, servers);
      assert serial == |h.asked| ==> SentTo(h'.sends, serial) == [0] == Ladder(1);
    }
  }

  lemma NewQuery(h: History, nextId: nat, q: Info, servers: nat)
    requires HistoryOk(h, nextId, servers) && 0 < servers
    requires q.serial == |h.asked| && q.refId == nextId && q.server == 0
    ensures QueryOk(q, History(h.asked + [Asker(q.from, q.srcId)], h.sends + [Send(|h.asked|, 0)], h.replies), servers)
  {
    SentMore(h.sends, Send(|h.asked|, 0), q.serial);
    assert InOrder(h, q.serial, servers);
    assert [0] == Ladder(1);
  }

  /** Every step of every thread keeps the invariant. */
  lemma StepKeeps(st: State, a: Action, servers: nat)
    requires Inv(st, servers) && Enabled(st, a)
    ensures Inv(Next(st, a, servers), servers)
  {
    hide QueryOk, HistoryOk, QueriesOk, EachInOnePlace;
    InInfo(st);
    match a
    case Handle(t) =>
      var b := st.hands[t].b;
      assert 0 < HeldBy(st.hands[t], b);
      if st.info[b].packet.Response? { AnsweredKeeps(st, t, b, servers); } else { QueriedKeeps(st, t, b, servers); }
    case Sweep(limit) => SweptKeeps(st, 0, limit, servers);
    case Grab(_) => ListKeeps(st, a, servers);
    case Arrive(_, _, _, _) => ListKeeps(st, a, servers);
    case _ => HandKeeps(st, a, servers);
  }

  // -------------------------------------------------------------------- whole runs

  predicate Initial(st: State) {
    && st.free == st.ready == st.queue == [] && st.main == None && st.info == map[]
    && (forall t | 0 <= t < |st.hands| :: st.hands[t].Idle?)
    && st.nextId == 1 && st.history == History([], [], [])
  }

  lemma {:induction false} IdleHoldsNothing(hands: seq<Hand>, b: Buf)
    requires forall t | 0 <= t < |hands| :: hands[t].Idle?
    ensures Held(hands, b) == Kept(hands, b) == 0
  {
    if hands != [] { IdleHoldsNothing(hands[1..], b); }
  }

  lemma InitialInv(st: State, servers: nat)
    requires Initial(st)
    ensures Inv(st, servers)
  {
    forall b { IdleHoldsNothing(st.hands, b); }
    assert forall serial: nat :: InOrder(st.history, serial, servers);
  }

  ghost predicate IsRun(st: State, run: seq<Action>, servers: nat)
    requires Inv(st, servers)
    decreases |run|
  {
    run == [] ||
    (Enabled(st, run[0]) && (StepKeeps(st, run[0], servers); IsRun(Next(st, run[0], servers), run[1..], servers)))
  }

  ghost function After(st: State, run: seq<Action>, servers: nat): (st': State)
    requires Inv(st, servers) && IsRun(st, run, servers)
    ensures Inv(st', servers)
    decreases |run|
  {
    if run == [] then st
    else
      StepKeeps(st, run[0], servers);
      After(Next(st, run[0], servers), run[1..], servers)
  }

  /**
   After every run from an empty server: each buffer is in exactly one place; every query has
   been sent to the first so many servers, once each and in order, and no further; no query
   is answered twice, and each answer went to its own client under the client's own number.
   */
  lemma EveryRun(st: State, run: seq<Action>, servers: nat)
    requires Initial(st) && Inv(st, servers) && IsRun(st, run, servers)
    ensures var st' := After(st, run, servers);
      && (forall b :: Places(st', b) == if b in st'.info then 1 else 0)
      && (forall serial: nat ::
            var sent := SentTo(st'.history.sends, serial); |sent| <= servers && sent == Ladder(|sent|))
      && (forall i | 0 <= i < |st'.history.replies| ::
            var r := st'.history.replies[i];
            r.serial < |st'.history.asked| && r.to == st'.history.asked[r.serial])
      && (forall i, j | 0 <= i < j < |st'.history.replies| ::
            st'.history.replies[i].serial != st'.history.replies[j].serial)
  {
    hide IsRun, Next, QueriesOk, Ladder;
    var st' := After(st, run, servers);
    forall serial: nat
      ensures var sent := SentTo(st'.history.sends, serial); |sent| <= servers && sent == Ladder(|sent|)
    {
      assert InOrder(st'.history, serial, servers);
    }
  }

  // ------------------------------------------------------------------ whose response

  /**
   A response to the query at place `k` finds that query, if and only if no query before it
   was forwarded a multiple of 65536 queries earlier or later.
   */
  lemma FindsOwn(st: State, k: nat, servers: nat)
    requires Inv(st, servers) && k < |st.queue| && forall b | b in st.queue :: b in st.info
    ensures var own := st.info[st.queue[k]];
      (FindRef(st.queue, st.info, own.refId, 0) == k) <==>
      (forall j | 0 <= j < k :: (st.info[st.queue[j]].serial - own.serial) % WORD16 != 0)
  {
    hide EachInOnePlace, HistoryOk;
    var own := st.info[st.queue[k]];
    forall j | 0 <= j <= k ensures st.info[st.queue[j]].refId == (st.info[st.queue[j]].serial + 1) % WORD16 {
      QueryAt(st, j, servers);
    }
    var i := FindRef(st.queue, st.info, own.refId, 0);
    if i < k { SameNumber(st.info[st.queue[i]].serial, own.serial); }
    forall j | 0 <= j < k && st.info[st.queue[j]].refId != own.refId
      ensures (st.info[st.queue[j]].serial - own.serial) % WORD16 != 0
    {
      SameNumber(st.info[st.queue[j]].serial, own.serial);
    }
  }

  lemma QueryAt(st: State, j: nat, servers: nat)
    requires QueriesOk(st, servers) && j < |st.queue|
    ensures st.queue[j] in st.info && QueryOk(st.info[st.queue[j]], st.history, servers)
  {
    assert In(st.queue, st.queue[j]) > 0;
  }

  lemma SameNumber(a: nat, b: nat)
    ensures (a + 1) % WORD16 == (b + 1) % WORD16 <==> (a - b) % WORD16 == 0
  {
  }

  /** A response carries the number of the query it is meant for. */
  predicate Truthful(a: Action) {
    a.Arrive? && a.packet.Response? ==> a.packet.id == (a.packet.answers + 1) % WORD16
  }

  ghost predicate AllTruthful(run: seq<Action>) {
    forall k | 0 <= k < |run| :: Truthful(run[k])
  }

  ghost predicate ResponsesTrue(info: map<Buf, Info>) {
    forall b | b in info && info[b].packet.Response? ::
      info[b].packet.id == (info[b].packet.answers + 1) % WORD16
  }

  /** The query is in the queue, and none before it was forwarded a multiple of 65536 queries earlier or later. */
  ghost predicate OwnFirst(st: State, serial: nat)
    requires forall b | b in st.queue :: b in st.info
  {
    exists k :: 0 <= k < |st.queue| && st.info[st.queue[k]].serial == serial
      && forall j | 0 <= j < k :: (st.info[st.queue[j]].serial - serial) % WORD16 != 0
  }

  /** What is handled is a response, and it is given to a client. */
  predicate Gives(st: State, a: Action, servers: nat)
    requires Enabled(st, a) && EachInOnePlace(st)
  {
    |Next(st, a, servers).history.replies| != |st.history.replies|
  }

  function Meant(st: State, a: Action): (serial: nat)
    requires Enabled(st, a) && EachInOnePlace(st)
  {
    if !a.Handle? then 0
    else
      HandInInfo(st, a.t);
      var p := st.info[st.hands[a.t].b].packet;
      if p.Response? then p.answers else 0
  }

  lemma HandInInfo(st: State, t: nat)
    requires EachInOnePlace(st) && t < |st.hands| && st.hands[t].Got?
    ensures st.hands[t].b in st.info
  {
    InInfo(st);
    assert 0 < HeldBy(st.hands[t], st.hands[t].b);
  }

  ghost predicate GivesOwn(st: State, a: Action, servers: nat)
    requires Enabled(st, a) && EachInOnePlace(st)
  {
    InInfo(st);
    Gives(st, a, servers) ==> OwnFirst(st, Meant(st, a))
  }

  /** Whenever a response is given to a client, the query it is meant for is the first of its number. */
  ghost predicate AlwaysGivesOwn(st: State, run: seq<Action>, servers: nat)
    requires Inv(st, servers) && IsRun(st, run, servers)
    decreases |run|
  {
    run == [] ||
    (GivesOwn(st, run[0], servers) && (StepKeeps(st, run[0], servers);
     AlwaysGivesOwn(Next(st, run[0], servers), run[1..], servers)))
  }

  ghost predicate OwnAnswers(h: History) {
    forall i | 0 <= i < |h.replies| :: h.replies[i].serial == h.replies[i].answers
  }

  ghost predicate Congruent(h: History) {
    forall i | 0 <= i < |h.replies| :: (h.replies[i].serial - h.replies[i].answers) % WORD16 == 0
  }

  lemma {:induction false} SweptKeepsReplies(st: State, i: nat, limit: int, servers: nat)
    requires i <= |st.queue| && forall b | b in st.queue :: b in st.info
    ensures var st' := Swept(st, i, limit, servers);
      st'.history.replies == st.history.replies && (ResponsesTrue(st.info) ==> ResponsesTrue(st'.info))
    decreases |st.queue| - i, if i < |st.queue| then servers - st.info[st.queue[i]].server else 0
  {
    if i < |st.queue| {
      var b := st.queue[i];
      if limit <= st.info[b].time {
        SweptKeepsReplies(st, i + 1, limit, servers);
      } else if st.info[b].server + 1 < servers {
        SweptKeepsReplies(Resent(st, b), i, limit, servers);
      } else {
        StillInInfo(st, i);
        SweptKeepsReplies(Dropped(st, i), i, limit, servers);
      }
    }
  }

  lemma StillInInfo(st: State, i: nat)
    requires i < |st.queue| && forall b | b in st.queue :: b in st.info
    ensures forall b | b in Dropped(st, i).queue :: b in Dropped(st, i).info
  {
    forall b | b in Without(st.queue, i) ensures b in st.queue { assert 0 < In(Without(st.queue, i), b); }
  }

  lemma StaysTrue(st: State, a: Action, servers: nat)
    requires Enabled(st, a) && EachInOnePlace(st) && ResponsesTrue(st.info) && Truthful(a)
    ensures ResponsesTrue(Next(st, a, servers).info)
  {
    hide EachInOnePlace, Freed, Without;
    InInfo(st);
    match a
    case Sweep(limit) => SweptKeepsReplies(st, 0, limit, servers);
    case Handle(t) => HandInInfo(st, t);
    case _ =>
  }

  /** A response is given to the first query of its number: its own, exactly if that is the first. */
  lemma ReplyStep(st: State, a: Action, servers: nat)
    requires Inv(st, servers) && Enabled(st, a) && ResponsesTrue(st.info)
    ensures !Gives(st, a, servers) ==> Next(st, a, servers).history.replies == st.history.replies
    ensures Gives(st, a, servers) ==>
      var n, given := |st.history.replies|, Next(st, a, servers).history.replies;
      && |given| == n + 1 && given[..n] == st.history.replies
      && given[n].answers == Meant(st, a) && (given[n].serial - given[n].answers) % WORD16 == 0
      && (given[n].serial == given[n].answers <==> GivesOwn(st, a, servers))
  {
    hide EachInOnePlace, HistoryOk, QueriesOk, Freed, Without;
    InInfo(st);
    match a
    case Sweep(limit) => SweptKeepsReplies(st, 0, limit, servers);
    case Handle(t) =>
      HandInInfo(st, t);
      var p := st.info[st.hands[t].b].packet;
      if p.Response? { FoundIsMeant(st, p, servers); }
    case _ =>
  }

  lemma FoundIsMeant(st: State, p: Packet, servers: nat)
    requires Inv(st, servers) && p.Response? && p.id == (p.answers + 1) % WORD16
    requires forall b | b in st.queue :: b in st.info
    ensures var i := FindRef(st.queue, st.info, p.id, 0);
      && (i < |st.queue| ==> (st.info[st.queue[i]].serial - p.answers) % WORD16 == 0)
      && (i < |st.queue| ==> (st.info[st.queue[i]].serial == p.answers <==> OwnFirst(st, p.answers)))
  {
    hide EachInOnePlace, HistoryOk, QueriesOk;
    var i := FindRef(st.queue, st.info, p.id, 0);
    forall j | 0 <= j < |st.queue|
      ensures st.info[st.queue[j]].refId == p.id <==> (st.info[st.queue[j]].serial - p.answers) % WORD16 == 0
    {
      QueryAt(st, j, servers);
      SameNumber(st.info[st.queue[j]].serial, p.answers);
    }
    if OwnFirst(st, p.answers) {
      var k :| 0 <= k < |st.queue| && st.info[st.queue[k]].serial == p.answers
        && forall j | 0 <= j < k :: (st.info[st.queue[j]].serial - p.answers) % WORD16 != 0;
      assert i == k;
    }
  }

  lemma {:induction false} OwnAnswersRun(st: State, run: seq<Action>, servers: nat)
    requires Inv(st, servers) && IsRun(st, run, servers) && AllTruthful(run) && ResponsesTrue(st.info)
    ensures var h, h' := st.history, After(st, run, servers).history;
      && (Congruent(h) ==> Congruent(h'))
      && (OwnAnswers(h) && AlwaysGivesOwn(st, run, servers) <==> OwnAnswers(h'))
    decreases |run|
  {
    hide Inv, Next, GivesOwn, Gives, Truthful, ResponsesTrue;
    if run != [] {
      InvPlaces(st, servers);
      StepKeeps(st, run[0], servers);
      var st1 := Next(st, run[0], servers);
      assert Truthful(run[0]);
      StaysTrue(st, run[0], servers);
      ReplyStep(st, run[0], servers);
      NoneGiven(st, run[0], servers);
      assert forall i | 0 <= i < |st.history.replies| :: st1.history.replies[i] == st.history.replies[i] by {
        assert st1.history.replies[..|st.history.replies|] == st.history.replies;
      }
      OwnAnswersRun(st1, run[1..], servers);
    }
  }

  lemma InvPlaces(st: State, servers: nat)
    requires Inv(st, servers)
    ensures EachInOnePlace(st)
  {
  }

  lemma NoneGiven(st: State, a: Action, servers: nat)
    requires Enabled(st, a) && EachInOnePlace(st)
    ensures !Gives(st, a, servers) ==> GivesOwn(st, a, servers)
  {
  }

  /**
   In every run whose responses carry the number of the query they are meant for: a client is
   given the answer to its own query up to a multiple of 65536 queries, which is its own if
   the two are less than that apart; and all answers given are to the clients' own queries if
   and only if the meant query, whenever a response is given, was the first of its number in
   the queue.
   */
  lemma WhoseAnswer(st: State, run: seq<Action>, servers: nat)
    requires Initial(st) && Inv(st, servers) && IsRun(st, run, servers) && AllTruthful(run)
    ensures var h := After(st, run, servers).history;
      && (forall i | 0 <= i < |h.replies| :: (h.replies[i].serial - h.replies[i].answers) % WORD16 == 0)
      && (forall i | 0 <= i < |h.replies| ::
            var apart := h.replies[i].serial - h.replies[i].answers; apart == 0 <==> -WORD16 < apart < WORD16)
      && (AlwaysGivesOwn(st, run, servers) <==> forall i | 0 <= i < |h.replies| ::
            h.replies[i].serial == h.replies[i].answers)
      && (AlwaysGivesOwn(st, run, servers) ==> forall i | 0 <= i < |h.replies| ::
            h.replies[i].answers < |h.asked| && h.replies[i].to == h.asked[h.replies[i].answers])
  {
    hide IsRun, Next, QueriesOk, AlwaysGivesOwn;
    OwnAnswersRun(st, run, servers);
    var h := After(st, run, servers).history;
    forall i | 0 <= i < |h.replies|
      ensures var apart := h.replies[i].serial - h.replies[i].answers; apart == 0 <==> -WORD16 < apart < WORD16
    {
      MultipleIsFar(h.replies[i].serial - h.replies[i].answers);
    }
  }

  lemma MultipleIsFar(apart: int)
    requires apart % WORD16 == 0
    ensures apart == 0 <==> -WORD16 < apart < WORD16
  {
  }

  /**
   While every query in the queue was forwarded less than 65536 queries before or after the
   one a response is meant for, that one is found if it is there, and no other is answered.
   */
  lemma WindowSuffices(st: State, a: Action, servers: nat)
    requires Inv(st, servers) && Enabled(st, a) && ResponsesTrue(st.info)
    requires forall b | b in st.queue :: b in st.info
    requires a.Handle? && (HandInInfo(st, a.t); st.info[st.hands[a.t].b].packet.Response?)
    requires forall j | 0 <= j < |st.queue| :: -WORD16 < st.info[st.queue[j]].serial - Meant(st, a) < WORD16
    ensures GivesOwn(st, a, servers)
    ensures OwnFirst(st, Meant(st, a)) <==>
      exists k :: 0 <= k < |st.queue| && st.info[st.queue[k]].serial == Meant(st, a)
  {
    hide EachInOnePlace, HistoryOk, QueriesOk, Without;
    HandInInfo(st, a.t);
    var p := st.info[st.hands[a.t].b].packet;
    var i := FindRef(st.queue, st.info, p.id, 0);
    FoundIsMeant(st, p, servers);
    if i < |st.queue| {
      MultipleIsFar(st.info[st.queue[i]].serial - p.answers);
    } else {
      forall k | 0 <= k < |st.queue| ensures st.info[st.queue[k]].serial != p.answers { QueryAt(st, k, servers); }
    }
  }

  // ----------------------------------------------------- what becomes of a message

  /** What arrives is the next to be taken, with its sender, its contents and its time; a short packet is dropped. */
  lemma ArrivalRecorded(st: State, a: Action, servers: nat)
    requires EachInOnePlace(st) && Enabled(st, a) && a.Arrive?
    ensures var st', b := Next(st, a, servers), st.main.value;
      if a.short then st'.ready == st.ready && st'.free == [b] + st.free
      else
        && st'.ready == [b] + st.ready && b in st'.info
        && st'.info[b].from == a.from && st'.info[b].packet == a.packet && st'.info[b].time == a.time
  {
    InInfo(st);
  }

  /** The first query of the queue with a number. */
  ghost predicate FirstOfNumber(st: State, id: nat, k: nat)
    requires forall b | b in st.queue :: b in st.info
  {
    k < |st.queue| && st.info[st.queue[k]].refId == id && forall j | 0 <= j < k :: st.info[st.queue[j]].refId != id
  }

  /** The answer to a response in the hands of thread `t`. */
  ghost predicate GivenTo(st: State, st': State, q: Info, answers: nat) {
    && st'.history.replies == st.history.replies + [Reply(q.serial, Asker(q.from, q.srcId), answers)]
    && st'.history.sends == st.history.sends
  }

  ghost predicate SentOn(st: State, st': State, b: Buf, q: Info)
    requires b in st'.info
  {
    && st'.history.replies == st.history.replies
    && st'.history.sends == st.history.sends + [Send(q.serial, q.server + 1)]
    && st'.info[b] == q.(server := q.server + 1) && Pending(st', b)
  }

  /**
   What becomes of a response.  Success (0), a format error (1) and no such name (3), and
   anything from the last server, is given to the asker of the first query of its number,
   which is then done.  After a server failure (2) or any other code that query goes on to
   the next server and stays pending.  A number that is not in the queue changes nothing.
   */
  lemma ResponseOutcome(st: State, t: nat, servers: nat)
    requires Inv(st, servers) && Enabled(st, Handle(t))
    requires forall b | b in st.queue :: b in st.info
    requires (HandInInfo(st, t); st.info[st.hands[t].b].packet.Response?)
    ensures var st', p := Next(st, Handle(t), servers), st.info[st.hands[t].b].packet;
      && st'.history.asked == st.history.asked && st'.info.Keys == st.info.Keys
      && ((forall j | 0 <= j < |st.queue| :: st.info[st.queue[j]].refId != p.id) ==>
            st'.history == st.history && st'.queue == st.queue && st'.info == st.info)
      && forall k: nat | FirstOfNumber(st, p.id, k) ::
           var b := st.queue[k];
           var q := st.info[b];
           b in st'.info &&
           if p.rcode == 0 || p.rcode == 1 || p.rcode == 3 || q.server + 1 == servers then
             GivenTo(st, st', q, p.answers) && !Pending(st', b)
           else SentOn(st, st', b, q)
  {
    hide EachInOnePlace, HistoryOk, QueriesOk, QueryOk, Without, Pending;
    InInfo(st);
    HandInInfo(st, t);
    HandlePlaces(st, t, servers);
    var b, p := st.hands[t].b, st.info[st.hands[t].b].packet;
    var i := FindRef(st.queue, st.info, p.id, 0);
    forall k: nat | FirstOfNumber(st, p.id, k) ensures k == i {
    }
    if i < |st.queue| {
      QueryAt(st, i, servers);
      PendingAfter(st, Next(st, Handle(t), servers), t, b, i);
      QueryServer(st.info[st.queue[i]], st.history, servers);
    }
  }

  lemma QueryServer(q: Info, h: History, servers: nat)
    requires QueryOk(q, h, servers)
    ensures q.server < servers
  {
  }

  /** The query that was found is pending afterwards if the thread keeps it. */
  lemma PendingAfter(st: State, st': State, t: nat, b: Buf, i: nat)
    requires EachInOnePlace(st) && t < |st.hands| && st.hands[t] == Got(b) && i < |st.queue|
    ensures st'.queue == Without(st.queue, i) && st'.hands == st.hands[t := Releasing([b], Some(st.queue[i]))] ==>
      Pending(st', st.queue[i])
    ensures st'.queue == Without(st.queue, i) && st'.hands == st.hands[t := Releasing([st.queue[i], b], None)] ==>
      !Pending(st', st.queue[i])
  {
    hide Without;
    var q := st.queue[i];
    HandChanges(st.hands, t, Releasing([b], Some(q)), q);
    HandChanges(st.hands, t, Releasing([q, b], None), q);
    KeptIsHeld(st.hands, q);
    assert In(st.queue, q) > 0 && Places(st, q) == 1;
  }

  /**
   What becomes of a client's message: one question that is not answered from what the
   program knows, when there are servers, is numbered, sent to the first of them and
   pending; anything else is neither sent to a server nor pending.
   */
  lemma QueryOutcome(st: State, t: nat, servers: nat)
    requires Inv(st, servers) && Enabled(st, Handle(t))
    requires (HandInInfo(st, t); st.info[st.hands[t].b].packet.Ask?)
    ensures var st', b := Next(st, Handle(t), servers), st.hands[t].b;
      var p, h, h' := st.info[b].packet, st.history, st'.history;
      && h'.replies == h.replies && st'.queue == st.queue && b in st'.info
      && if p.one && !p.known && 0 < servers then
           && h'.asked == h.asked + [Asker(st.info[b].from, p.id)] && h'.sends == h.sends + [Send(|h.asked|, 0)]
           && st'.info[b].serial == |h.asked| && st'.info[b].refId == (|h.asked| + 1) % WORD16
           && st'.info[b].server == 0 && Pending(st', b)
         else h' == h && st'.info == st.info && !Pending(st', b)
  {
    hide EachInOnePlace, HistoryOk, QueryOk, QueriesOk, Pending;
    InInfo(st);
    HandInInfo(st, t);
    HandlePlaces(st, t, servers);
    Numbered(st, servers);
    AskedPending(Next(st, Handle(t), servers), t, st.hands[t].b);
  }

  lemma Numbered(st: State, servers: nat)
    requires HistoryOk(st.history, st.nextId, servers)
    ensures st.nextId == (|st.history.asked| + 1) % WORD16
  {
  }

  /** A thread that is about to put a buffer in the queue keeps it pending; one that is about to free it does not. */
  lemma AskedPending(st: State, t: nat, b: Buf)
    requires EachInOnePlace(st) && t < |st.hands|
    ensures st.hands[t] == Releasing([], Some(b)) ==> Pending(st, b)
    ensures st.hands[t] == Releasing([b], None) ==> !Pending(st, b)
  {
    HeldByOne(st.hands, t, b);
    HeldNotKept(st.hands, t, b);
    assert Places(st, b) <= 1;
  }

  lemma {:induction false} HeldNotKept(hands: seq<Hand>, t: nat, b: Buf)
    requires t < |hands|
    ensures HeldBy(hands[t], b) - KeptBy(hands[t], b) <= Held(hands, b) - Kept(hands, b)
  {
    if t == 0 { KeptIsHeld(hands[1..], b); } else { HeldNotKept(hands[1..], t - 1, b); }
  }

  // -------------------------------------------------------------- what a sweep does

  function Unexpired(queue: seq<Buf>, info: map<Buf, Info>, limit: int): (kept: seq<Buf>)
    requires forall b | b in queue :: b in info
  {
    if queue == [] then []
    else (if limit <= info[queue[0]].time then [queue[0]] else []) + Unexpired(queue[1..], info, limit)
  }

  lemma {:induction false} SameTimes(queue: seq<Buf>, info: map<Buf, Info>, info': map<Buf, Info>, limit: int)
    requires forall b | b in queue :: b in info && b in info' && info[b].time == info'[b].time
    ensures Unexpired(queue, info, limit) == Unexpired(queue, info', limit)
  {
    if queue != [] { SameTimes(queue[1..], info, info', limit); }
  }

  lemma UnexpiredStep(queue: seq<Buf>, i: nat, info: map<Buf, Info>, limit: int)
    requires i < |queue| && forall b | b in queue :: b in info
    ensures Unexpired(queue[i..], info, limit)
      == (if limit <= info[queue[i]].time then [queue[i]] else []) + Unexpired(queue[i + 1..], info, limit)
    ensures queue[..i + 1] == queue[..i] + [queue[i]]
  {
    assert queue[i..][0] == queue[i] && queue[i..][1..] == queue[i + 1..];
  }

  lemma WithoutSplits(queue: seq<Buf>, i: nat)
    requires i < |queue|
    ensures Without(queue, i)[..i] == queue[..i] && Without(queue, i)[i..] == queue[i + 1..]
  {
  }

  /** A sweep leaves exactly the queries that have not expired, in their order. */
  lemma {:induction false} SweepKeepsUnexpired(st: State, i: nat, limit: int, servers: nat)
    requires Inv(st, servers) && i <= |st.queue| && forall b | b in st.queue :: b in st.info
    ensures Swept(st, i, limit, servers).queue == st.queue[..i] + Unexpired(st.queue[i..], st.info, limit)
    decreases |st.queue| - i, if i < |st.queue| then servers - st.info[st.queue[i]].server else 0
  {
    hide Inv, Unexpired, Without, Pending;
    if i == |st.queue| {
      NoneLeft(st.queue, st.info, limit);
    } else {
      var b := st.queue[i];
      UnexpiredStep(st.queue, i, st.info, limit);
      if limit <= st.info[b].time {
        SweepKeepsUnexpired(st, i + 1, limit, servers);
      } else if st.info[b].server + 1 < servers {
        InQueuePending(st, i);
        ResentKeeps(st, b, servers);
        SweepKeepsUnexpired(Resent(st, b), i, limit, servers);
        SameTimes(st.queue[i..], st.info, Resent(st, b).info, limit);
      } else {
        DroppedKeeps(st, i, servers);
        SweepKeepsUnexpired(Dropped(st, i), i, limit, servers);
        WithoutSplits(st.queue, i);
      }
    }
  }

  lemma NoneLeft(queue: seq<Buf>, info: map<Buf, Info>, limit: int)
    requires forall b | b in queue :: b in info
    ensures queue[..|queue|] + Unexpired(queue[|queue|..], info, limit) == queue
  {
  }

  lemma InQueuePending(st: State, i: nat)
    requires i < |st.queue|
    ensures Pending(st, st.queue[i])
  {
  }

  lemma {:induction false} SweepSendsOn(st: State, i: nat, limit: int, servers: nat, serial: nat)
    requires Inv(st, servers) && i <= |st.queue| && forall b | b in st.queue :: b in st.info
    ensures |SentTo(st.history.sends, serial)| <= |SentTo(Swept(st, i, limit, servers).history.sends, serial)|
    decreases |st.queue| - i, if i < |st.queue| then servers - st.info[st.queue[i]].server else 0
  {
    hide Inv;
    if i < |st.queue| {
      var b := st.queue[i];
      if limit <= st.info[b].time {
        SweepSendsOn(st, i + 1, limit, servers, serial);
      } else if st.info[b].server + 1 < servers {
        InQueuePending(st, i);
        ResentKeeps(st, b, servers);
        SweepSendsOn(Resent(st, b), i, limit, servers, serial);
        SentMore(st.history.sends, Send(st.info[b].serial, st.info[b].server + 1), serial);
      } else {
        DroppedKeeps(st, i, servers);
        SweepSendsOn(Dropped(st, i), i, limit, servers, serial);
      }
    }
  }

  /**
   An expired query is not given two seconds with its next server: the same sweep sends it to
   every server that is left and then drops it.
   */
  lemma {:induction false} SweepBurns(st: State, i: nat, limit: int, servers: nat, k: nat)
    requires Inv(st, servers) && i <= k < |st.queue| && forall b | b in st.queue :: b in st.info
    requires st.info[st.queue[k]].time < limit
    ensures var st' := Swept(st, i, limit, servers);
      SentTo(st'.history.sends, st.info[st.queue[k]].serial) == Ladder(servers)
    decreases |st.queue| - i, if i < |st.queue| then servers - st.info[st.queue[i]].server else 0
  {
    hide Inv, SentTo, Ladder, Pending;
    var b, serial := st.queue[i], st.info[st.queue[k]].serial;
    if limit <= st.info[b].time {
      SweepBurns(st, i + 1, limit, servers, k);
    } else if st.info[b].server + 1 < servers {
      InQueuePending(st, i);
      ResentKeeps(st, b, servers);
      SweepBurns(Resent(st, b), i, limit, servers, k);
    } else {
      DroppedKeeps(st, i, servers);
      if i < k {
        assert Dropped(st, i).queue[k - 1] == st.queue[k];
        SweepBurns(Dropped(st, i), i, limit, servers, k - 1);
      } else {
        SentAll(st, i, servers);
        SweepSendsOn(Dropped(st, i), i, limit, servers, serial);
        SweptKeeps(Dropped(st, i), i, limit, servers);
        SentBounded(Swept(st, i, limit, servers), servers, serial);
        SentGrown(Swept(st, i, limit, servers), servers, serial);
      }
    }
  }

  lemma SentAll(st: State, i: nat, servers: nat)
    requires Inv(st, servers) && i < |st.queue| && st.queue[i] in st.info
    requires servers <= st.info[st.queue[i]].server + 1
    ensures |SentTo(st.history.sends, st.info[st.queue[i]].serial)| == servers
  {
    QueryAt(st, i, servers);
  }

  lemma SentBounded(st: State, servers: nat, serial: nat)
    requires Inv(st, servers)
    ensures |SentTo(st.history.sends, serial)| <= servers
  {
    assert InOrder(st.history, serial, servers);
  }

  lemma SentGrown(st: State, servers: nat, serial: nat)
    requires Inv(st, servers) && |SentTo(st.history.sends, serial)| == servers
    ensures SentTo(st.history.sends, serial) == Ladder(servers)
  {
    assert InOrder(st.history, serial, servers);
  }
}
