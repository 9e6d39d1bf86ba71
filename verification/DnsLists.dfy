/**
 The linked lists the forwarder's buffers are on, pointer by pointer: the free list and the
 ready list are singly linked, the queue doubly, and all three share one `next` field.
 */
module DnsLists {
  import opened Common
  import opened DnsQueue

  class Buffer {
    const name: Buf
    var next: Buffer?
    var prev: Buffer?
    var refId: nat
    var server: nat
    var rcvtime: int

    constructor (name: Buf)
      ensures this.name == name && next == null && prev == null && refId == 0 && server == 0 && rcvtime == 0
    {
      this.name, next, prev, refId, server, rcvtime := name, null, null, 0, 0, 0;
    }
  }

  /** What the next pointer of place `i` has to be. */
  function Successor(s: seq<Buffer>, i: nat): Buffer?
    requires i < |s|
  {
    if i + 1 < |s| then s[i + 1] else null
  }

  function Predecessor(s: seq<Buffer>, i: nat): Buffer?
    requires i < |s|
  {
    if i == 0 then null else s[i - 1]
  }

  function First(s: seq<Buffer>): Buffer? {
    if s == [] then null else s[0]
  }

  function Last(s: seq<Buffer>): Buffer? {
    if s == [] then null else s[|s| - 1]
  }

  /** The list without its place `i`. */
  function Rest(q: seq<Buffer>, i: nat): (r: seq<Buffer>)
    requires i < |q|
    ensures |r| == |q| - 1
    ensures forall k | 0 <= k < |r| :: r[k] == if k < i then q[k] else q[k + 1]
  {
    q[..i] + q[i + 1..]
  }

  /** The list with a buffer put at its end. */
  function Longer(q: seq<Buffer>, b: Buffer): (r: seq<Buffer>)
    ensures |r| == |q| + 1 && r[|q|] == b
    ensures forall k | 0 <= k < |q| :: r[k] == q[k]
  {
    q + [b]
  }

  lemma RestDistinct(q: seq<Buffer>, i: nat)
    requires i < |q| && Distinct(q)
    ensures Distinct(Rest(q, i)) && q[i] !in Rest(q, i)
    ensures forall b :: b in q <==> b in Rest(q, i) || b == q[i]
    ensures |Rest(q, i)| == |q| - 1
    ensures forall k | 0 <= k < |q| - 1 :: Rest(q, i)[k] == if k < i then q[k] else q[k + 1]
  {
    forall b ensures b in q <==> b in Rest(q, i) || b == q[i] {
      if b in q {
        var k :| 0 <= k < |q| && q[k] == b;
        if k < i { assert Rest(q, i)[k] == b; }
        if i < k { assert Rest(q, i)[k - 1] == b; }
      }
    }
  }

  ghost predicate Distinct(s: seq<Buffer>) {
    forall i, j | 0 <= i < j < |s| :: s[i] != s[j]
  }

  /** `s` is what is found by following `next` from `p`. */
  ghost predicate Chain(p: Buffer?, s: seq<Buffer>)
    reads (set b | b in s)`next
  {
    Distinct(s) && p == First(s)
    && forall i {:trigger s[i].next} | 0 <= i < |s| :: s[i].next == Successor(s, i)
  }

  class Forwarder {
    var freeBuf: Buffer?
    var readyBuf: Buffer?
    var queueHead: Buffer?
    var queueTail: Buffer?
    var intReqNum: nat

    constructor ()
      ensures freeBuf == readyBuf == null && Queued([]) && intReqNum == 1
    {
      freeBuf, readyBuf, queueHead, queueTail, intReqNum := null, null, null, null, 1;
    }

    /** The queue is well formed and holds these. */
    ghost predicate Queued(q: seq<Buffer>)
      reads `queueHead, `queueTail, (set b | b in q)`next, (set b | b in q)`prev
    {
      && Chain(queueHead, q) && queueTail == Last(q)
      && forall i {:trigger q[i].prev} | 0 <= i < |q| :: q[i].prev == Predecessor(q, i)
    }

    // ------------------------------------------------------------ single links

    method PushFree(b: Buffer, ghost free: seq<Buffer>)
      requires Chain(freeBuf, free) && b !in free
      modifies `freeBuf, b`next
      ensures Chain(freeBuf, [b] + free)
    {
      b.next := freeBuf;
      freeBuf := b;
    }

    method PopFree(ghost free: seq<Buffer>) returns (b: Buffer?)
      requires Chain(freeBuf, free)
      modifies `freeBuf
      ensures b == First(free) && Chain(freeBuf, if free == [] then [] else free[1..])
    {
      b := freeBuf;
      if b != null {
        freeBuf := b.next;
      }
    }

    method PushReady(b: Buffer, ghost ready: seq<Buffer>)
      requires Chain(readyBuf, ready) && b !in ready
      modifies `readyBuf, b`next
      ensures Chain(readyBuf, [b] + ready)
    {
      b.next := readyBuf;
      readyBuf := b;
    }

    /** thread_block, once the list is not empty; the buffer keeps its link. */
    method PopReady(ghost ready: seq<Buffer>) returns (b: Buffer)
      requires Chain(readyBuf, ready) && ready != []
      modifies `readyBuf
      ensures b == ready[0] && Chain(readyBuf, ready[1..])
    {
      b := readyBuf;
      readyBuf := b.next;
    }

    /** The number of the next query, in 16 bits. */
    method Number() returns (id: nat)
      requires intReqNum < WORD16
      modifies `intReqNum
      ensures id == old(intReqNum) && intReqNum == (old(intReqNum) + 1) % WORD16
    {
      id := intReqNum;
      intReqNum := if intReqNum == 0xFFFF then 0 else intReqNum + 1;
    }

    // -------------------------------------------------------------- the queue

    /** Take a buffer out of the queue; its own links stay as they are. */
    method Unlink(b: Buffer, ghost q: seq<Buffer>, ghost i: nat)
      requires Queued(q) && i < |q| && q[i] == b
      modifies `queueHead, `queueTail, (set c | c in q)`next, (set c | c in q)`prev
      ensures Queued(Rest(q, i))
      ensures b.next == old(b.next) == Successor(q, i) && b.prev == old(b.prev)
    {
      hide Rest;
      assert b.next == Successor(q, i) && b.prev == Predecessor(q, i);
      if b.prev != null {
        b.prev.next := b.next;
      } else {
        queueHead := b.next;
      }
      if b.next != null {
        b.next.prev := b.prev;
      } else {
        queueTail := b.prev;
      }
      forall j {:trigger q[j].next} | 0 <= j < |q|
        ensures q[j].next == if j + 1 == i then Successor(q, i) else Successor(q, j)
      {
        assert old(q[j].next) == Successor(q, j);
      }
      forall j {:trigger q[j].prev} | 0 <= j < |q|
        ensures q[j].prev == if j == i + 1 then Predecessor(q, i) else Predecessor(q, j)
      {
        assert old(q[j].prev) == Predecessor(q, j);
      }
      Relinked(q, i);
    }

    /** With the links around place `i` joined, the queue is the one without it. */
    lemma Relinked(q: seq<Buffer>, i: nat)
      requires i < |q| && Distinct(q)
      requires queueHead == if i == 0 then Successor(q, 0) else q[0]
      requires queueTail == if i + 1 == |q| then Predecessor(q, i) else q[|q| - 1]
      requires forall j {:trigger q[j].next} | 0 <= j < |q| ::
        q[j].next == if j + 1 == i then Successor(q, i) else Successor(q, j)
      requires forall j {:trigger q[j].prev} | 0 <= j < |q| ::
        q[j].prev == if j == i + 1 then Predecessor(q, i) else Predecessor(q, j)
      ensures Queued(Rest(q, i))
    {
      RestDistinct(q, i);
      var r := Rest(q, i);
      forall k {:trigger r[k].next} | 0 <= k < |r| ensures r[k].next == Successor(r, k) {
        if k < i { assert r[k].next == q[k].next; } else { assert r[k].next == q[k + 1].next; }
      }
      forall k {:trigger r[k].prev} | 0 <= k < |r| ensures r[k].prev == Predecessor(r, k) {
        if k < i { assert r[k].prev == q[k].prev; } else { assert r[k].prev == q[k + 1].prev; }
      }
    }

    /**
     Put a query at the tail.  The program never writes its `next`, which is `clearNext`
     false; the queue is well formed afterwards if and only if that was NULL, or is cleared.
     */
    method Append(b: Buffer, clearNext: bool, ghost q: seq<Buffer>)
      requires Queued(q) && b !in q
      modifies `queueHead, `queueTail, b`next, b`prev, (set c | c in q)`next
      ensures b.next == if clearNext then null else old(b.next)
      ensures Queued(Longer(q, b)) <==> (clearNext || old(b.next) == null)
      ensures queueHead == First(Longer(q, b))
      ensures forall k {:trigger q[k].next} | 0 <= k < |q| :: q[k].next == Successor(Longer(q, b), k)
    {
      hide Longer;
      if clearNext {
        b.next := null;
      }
      b.prev := queueTail;
      if queueTail != null {
        queueTail.next := b;
      } else {
        queueHead := b;
      }
      queueTail := b;
      forall j {:trigger q[j].next} | 0 <= j < |q|
        ensures q[j].next == if j == |q| - 1 then b else Successor(q, j)
      {
        assert old(q[j].next) == Successor(q, j);
      }
      Appended(q, b);
    }

    /** With the tail led to `b`, everything is right but for the link of `b` itself. */
    lemma Appended(q: seq<Buffer>, b: Buffer)
      requires Distinct(q) && b !in q
      requires queueHead == First(q + [b]) && queueTail == b && b.prev == Last(q)
      requires forall j {:trigger q[j].next} | 0 <= j < |q| ::
        q[j].next == if j == |q| - 1 then b else Successor(q, j)
      requires forall j {:trigger q[j].prev} | 0 <= j < |q| :: q[j].prev == Predecessor(q, j)
      ensures Queued(Longer(q, b)) <==> b.next == null
      ensures queueHead == First(Longer(q, b))
      ensures forall k {:trigger q[k].next} | 0 <= k < |q| :: q[k].next == Successor(Longer(q, b), k)
    {
      var r := Longer(q, b);
      forall k {:trigger r[k].prev} | 0 <= k < |r| ensures r[k].prev == Predecessor(r, k) {
        if k < |q| { assert r[k].prev == q[k].prev; }
      }
      forall k {:trigger r[k].next} | 0 <= k < |q| ensures r[k].next == Successor(r, k) {
        assert r[k].next == q[k].next;
      }
      assert r[|q|].next == b.next;
    }

    lemma HeadIsFirst(q: seq<Buffer>)
      requires Queued(q)
      ensures queueHead == First(q)
    {
    }

    lemma NextIs(q: seq<Buffer>, i: nat)
      requires Queued(q) && i < |q|
      ensures q[i].next == Successor(q, i)
    {
    }

    lemma QueuedDistinct(q: seq<Buffer>)
      requires Queued(q)
      ensures Distinct(q)
    {
    }

    /** A retry: out of the queue, and to its tail again. */
    method Requeue(b: Buffer, clearNext: bool, ghost q: seq<Buffer>, ghost i: nat)
      requires Queued(q) && i < |q| && q[i] == b
      modifies `queueHead, `queueTail, (set c | c in q)`next, (set c | c in q)`prev
      ensures Queued(Longer(Rest(q, i), b)) <==> (clearNext || i == |q| - 1)
      ensures !clearNext && i < |q| - 1 ==> NeverEnds(queueHead, q)
    {
      hide Rest, Longer, Queued, NeverEnds;
      QueuedDistinct(q);
      RestDistinct(q, i);
      Unlink(b, q, i);
      Append(b, clearNext, Rest(q, i));
      if !clearNext && i < |q| - 1 {
        StaleLink(b, queueHead, q, i);
      }
    }

    // ---------------------------------------------------- lookup and expiry

    /** The query a response refers to, by following the queue. */
    method Find(id: nat, ghost q: seq<Buffer>, ghost st: State) returns (b: Buffer?, ghost i: nat)
      requires Queued(q) && Tied(q, st.queue, st.info)
      ensures (forall n | n in st.queue :: n in st.info) && i == FindRef(st.queue, st.info, id, 0)
      ensures b == if i < |q| then q[i] else null
      ensures b == var k := FindRef(st.queue, st.info, id, 0); if k < |q| then q[k] else null
    {
      TiedInInfo(q, st.queue, st.info);
      b, i := queueHead, 0;
      while b != null
        invariant i <= |q| && b == (if i < |q| then q[i] else null)
        invariant FindRef(st.queue, st.info, id, i) == FindRef(st.queue, st.info, id, 0)
        decreases |q| - i
      {
        assert q[i].name == st.queue[i] && Matches(q[i], st.info);
        if b.refId == id {
          break;
        }
        assert q[i].next == Successor(q, i);
        b, i := b.next, i + 1;
      }
    }

    /** A response's query leaves the queue, if there is one. */
    method TakeQuery(id: nat, ghost q: seq<Buffer>, ghost st: State) returns (b: Buffer?, ghost i: nat)
      requires Queued(q) && Tied(q, st.queue, st.info)
      modifies `queueHead, `queueTail, (set c | c in q)`next, (set c | c in q)`prev
      ensures (forall n | n in st.queue :: n in st.info) && i == FindRef(st.queue, st.info, id, 0)
      ensures i <= |q| && b == (if i < |q| then q[i] else null)
      ensures Queued(if i < |q| then Rest(q, i) else q)
    {
      hide Queued, Rest, FindRef;
      b, i := Find(id, q, st);
      if b != null {
        Unlink(b, q, i);
      }
    }

    /** The pass over the queue that every turn of the main loop ends with. */
    method Expire(limit: int, servers: nat, ghost q0: seq<Buffer>, ghost free0: seq<Buffer>, ghost st0: State)
      returns (ghost q: seq<Buffer>, ghost free: seq<Buffer>)
      requires EachInOnePlace(st0)
      requires Queued(q0) && Tied(q0, st0.queue, st0.info)
      requires Chain(freeBuf, free0) && Named(free0, st0.free)
      modifies `queueHead, `queueTail, `freeBuf
      modifies (set c | c in q0)`next, (set c | c in q0)`prev, (set c | c in q0)`server
      ensures forall n | n in st0.queue :: n in st0.info
      ensures var st := Swept(st0, 0, limit, servers);
        && Queued(q) && Tied(q, st.queue, st.info) && Chain(freeBuf, free) && Named(free, st.free)
    {
      hide Swept, EachInOnePlace, Queued, Chain, Rest, Resent, Dropped;
      TiedInInfo(q0, st0.queue, st0.info);
      Disjoint(q0, free0, st0);
      q, free := q0, free0;
      ghost var st, i: nat := st0, 0;
      var b := queueHead;
      HeadIsFirst(q);
      while b != null
        invariant EachInOnePlace(st) && Queued(q) && Tied(q, st.queue, st.info)
        invariant Chain(freeBuf, free) && Named(free, st.free)
        invariant (forall c | c in q :: c in q0) && forall c | c in free :: c !in q
        invariant i <= |q| && b == (if i < |q| then q[i] else null)
        invariant forall n | n in st.queue :: n in st.info
        invariant Swept(st, i, limit, servers) == Swept(st0, 0, limit, servers)
        decreases |q| - i, if b != null then servers - b.server else 0
      {
        assert q[i].name == st.queue[i] && Matches(q[i], st.info);
        SweptOne(st, i, limit, servers);
        NextIs(q, i);
        if b.rcvtime < limit {
          var next := b.next;
          if b.server + 1 < servers {
            ghost var was := st;
            b.server := b.server + 1;
            st := Resent(st, b.name);
            ResentPlaces(was, b.name);
            ResentTied(q, i, was);
          } else {
            QueuedDistinct(q);
            DroppedTied(q, free, i, st);
            Unlink(b, q, i);
            PushFree(b, free);
            q, free, st := Rest(q, i), [b] + free, Dropped(st, i);
            b := next;
          }
        } else {
          b, i := b.next, i + 1;
        }
      }
      SweptAll(st, limit, servers);
    }
  }

  // ------------------------------------------------- buffers and what they stand for

  ghost predicate Named(s: seq<Buffer>, names: seq<Buf>) {
    |s| == |names| && forall j {:trigger s[j]} {:trigger names[j]} | 0 <= j < |s| :: s[j].name == names[j]
  }

  /** The buffers of the queue hold what the records of their names say. */
  ghost predicate Tied(q: seq<Buffer>, names: seq<Buf>, info: map<Buf, Info>)
    reads (set c | c in q)`refId, (set c | c in q)`server, (set c | c in q)`rcvtime
  {
    Named(q, names) && forall c | c in q :: Matches(c, info)
  }

  ghost predicate Matches(c: Buffer, info: map<Buf, Info>)
    reads c`refId, c`server, c`rcvtime
  {
    c.name in info && info[c.name].refId == c.refId && info[c.name].server == c.server
    && info[c.name].time == c.rcvtime
  }

  lemma TiedInInfo(q: seq<Buffer>, names: seq<Buf>, info: map<Buf, Info>)
    requires Tied(q, names, info)
    ensures forall n | n in names :: n in info
  {
    forall n | n in names ensures n in info {
      var j :| 0 <= j < |names| && names[j] == n;
      assert q[j].name == n && Matches(q[j], info);
    }
  }

  /** A buffer is not in the queue and on the free list. */
  lemma Disjoint(q: seq<Buffer>, free: seq<Buffer>, st: State)
    requires EachInOnePlace(st) && Named(q, st.queue) && Named(free, st.free)
    ensures forall c | c in free :: c !in q
  {
    forall c | c in q ensures c.name in st.queue {
      var i :| 0 <= i < |q| && q[i] == c;
      assert st.queue[i] == c.name;
    }
    forall c | c in free ensures c.name !in st.queue {
      var j :| 0 <= j < |free| && free[j] == c;
      assert st.free[j] == c.name;
      assert Places(st, c.name) <= 1 && In(st.free, c.name) >= 1;
    }
  }

  lemma SweptOne(st: State, i: nat, limit: int, servers: nat)
    requires i < |st.queue| && forall n | n in st.queue :: n in st.info
    ensures var n := st.queue[i];
      Swept(st, i, limit, servers) ==
        if limit <= st.info[n].time then Swept(st, i + 1, limit, servers)
        else if st.info[n].server + 1 < servers then Swept(Resent(st, n), i, limit, servers)
        else Swept(Dropped(st, i), i, limit, servers)
    ensures Resent(st, st.queue[i]).queue == st.queue && Resent(st, st.queue[i]).free == st.free
    ensures forall n | n in st.queue :: n in Resent(st, st.queue[i]).info
  {
  }

  lemma SweptAll(st: State, limit: int, servers: nat)
    requires forall n | n in st.queue :: n in st.info
    ensures Swept(st, |st.queue|, limit, servers) == st
  {
  }

  /** Places of the queue have different names. */
  lemma NamesDiffer(st: State, i: nat, j: nat)
    requires EachInOnePlace(st) && i < j < |st.queue|
    ensures st.queue[i] != st.queue[j]
  {
    var s, n := st.queue, st.queue[i];
    assert s == s[..j] + s[j..];
    assert s[..j][i] == n && s[j..][0] == s[j];
    assert In(s, n) == In(s[..j], n) + In(s[j..], n) && In(s[..j], n) >= 1;
    assert Places(st, n) <= 1;
  }

  lemma ResentTied(q: seq<Buffer>, i: nat, st: State)
    requires EachInOnePlace(st) && Named(q, st.queue) && i < |q| && q[i].name in st.info
    requires forall c | c in q && c != q[i] :: Matches(c, st.info)
    requires var r := st.info[q[i].name];
      q[i].refId == r.refId && q[i].rcvtime == r.time && q[i].server == r.server + 1
    ensures Tied(q, st.queue, Resent(st, q[i].name).info)
  {
    hide EachInOnePlace;
    forall c | c in q ensures Matches(c, Resent(st, q[i].name).info) {
      if c != q[i] {
        var j :| 0 <= j < |q| && q[j] == c;
        if i < j { NamesDiffer(st, i, j); } else { NamesDiffer(st, j, i); }
        assert st.queue[i] == q[i].name && st.queue[j] == c.name;
      }
    }
  }

  lemma DroppedTied(q: seq<Buffer>, free: seq<Buffer>, i: nat, st: State)
    requires EachInOnePlace(st) && i < |q| && Distinct(q) && Named(free, st.free)
    requires Tied(q, st.queue, st.info) && forall c | c in free :: c !in q
    ensures var st' := Dropped(st, i);
      && EachInOnePlace(st') && (forall n | n in st'.queue :: n in st'.info)
      && Tied(Rest(q, i), st'.queue, st'.info) && Named([q[i]] + free, st'.free)
    ensures forall c | c in [q[i]] + free :: c !in Rest(q, i)
    ensures |Rest(q, i)| == |q| - 1 && forall c | c in Rest(q, i) :: c in q
    ensures Successor(q, i) == if i < |q| - 1 then Rest(q, i)[i] else null
  {
    hide EachInOnePlace;
    DroppedPlaces(st, i);
    RestDistinct(q, i);
    assert q[i].name == st.queue[i];
    NamedRest(q, st.queue, i);
  }

  lemma NamedRest(q: seq<Buffer>, names: seq<Buf>, i: nat)
    requires Named(q, names) && i < |q|
    ensures Named(Rest(q, i), Without(names, i))
  {
    RestAt(q, i);
    var r, w := Rest(q, i), Without(names, i);
    forall j | 0 <= j < |r| ensures r[j].name == w[j] {
      assert w[j] == if j < i then names[j] else names[j + 1];
      assert r[j] == if j < i then q[j] else q[j + 1];
      if j < i { assert q[j].name == names[j]; } else { assert q[j + 1].name == names[j + 1]; }
    }
  }

  lemma RestAt(q: seq<Buffer>, i: nat)
    requires i < |q|
    ensures |Rest(q, i)| == |q| - 1
    ensures forall k | 0 <= k < |q| - 1 :: Rest(q, i)[k] == if k < i then q[k] else q[k + 1]
  {
  }

  /** A link left pointing back into the queue makes a ring of it. */
  lemma StaleLink(b: Buffer, head: Buffer?, q: seq<Buffer>, i: nat)
    requires Distinct(q) && i < |q| - 1 && q[i] == b && b.next == q[i + 1]
    requires head == First(Longer(Rest(q, i), b))
    requires forall k | 0 <= k < |q| - 1 :: Rest(q, i)[k].next == Successor(Longer(Rest(q, i), b), k)
    ensures NeverEnds(head, q)
  {
    hide Rest, Longer, NeverEnds;
    RestDistinct(q, i);
    var ring := Longer(Rest(q, i), b);
    forall c | c in q ensures c.next != null && c.next in q {
      if c != b {
        var k :| 0 <= k < |Rest(q, i)| && Rest(q, i)[k] == c;
        assert c.next == ring[k + 1];
        if k + 1 < |Rest(q, i)| { assert Rest(q, i)[k + 1] in Rest(q, i); }
      }
    }
    assert head == Rest(q, i)[0] && Rest(q, i)[0] in Rest(q, i);
    RoundForEver(head, q);
  }

  /** Where `n` steps along `next` lead to. */
  ghost function Walk(p: Buffer?, n: nat, all: seq<Buffer>): Buffer?
    reads (set b | b in all)`next
  {
    if n == 0 || p == null || p !in all then p else Walk(p.next, n - 1, all)
  }

  /** A search that does not find what it is for runs for ever. */
  ghost predicate NeverEnds(p: Buffer?, all: seq<Buffer>)
    reads (set b | b in all)`next
  {
    forall n: nat :: Walk(p, n, all) != null && Walk(p, n, all) in all
  }

  lemma {:induction false} StaysInside(p: Buffer?, n: nat, all: seq<Buffer>)
    requires p != null && p in all && forall b | b in all :: b.next != null && b.next in all
    ensures Walk(p, n, all) != null && Walk(p, n, all) in all
  {
    if n != 0 { StaysInside(p.next, n - 1, all); }
  }

  lemma RoundForEver(p: Buffer?, all: seq<Buffer>)
    requires p != null && p in all && forall b | b in all :: b.next != null && b.next in all
    ensures NeverEnds(p, all)
  {
    forall n: nat ensures Walk(p, n, all) != null && Walk(p, n, all) in all { StaysInside(p, n, all); }
  }
}
