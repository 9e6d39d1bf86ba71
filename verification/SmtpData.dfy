/**
 The receive loop of SMTP DATA: mail bytes arrive in arbitrary pieces, go through a small
 buffer into the spool file, and end with a dot on a line of its own.
 */
module SmtpData {
  import opened Common

  const CR: byte := 13
  const LF: byte := 10
  const DOT: byte := 46

  /** CRLF.CRLF, section 4.1.1.4 of RFC 5321. */
  const TERMINATOR: seq<byte> := [CR, LF, DOT, CR, LF]

  /** What comes of the command: the spooled bytes and what was left in the socket, or a lost client. */
  datatype Outcome = Spooled(data: seq<byte>, unread: seq<byte>) | Dropped

  /** One round of the loop: bytes for the file, bytes kept in the buffer, end of mail seen. */
  datatype Round = Round(out: seq<byte>, carry: seq<byte>, eom: bool)

  /** Position of the last carriage return, or -1. */
  function LastCR(s: seq<byte>): (p: int)
    ensures -1 <= p < |s|
    ensures 0 <= p ==> s[p] == CR
    ensures forall i | p < i < |s| :: s[i] != CR
  {
    if s == [] then -1
    else if s[|s| - 1] == CR then |s| - 1
    else LastCR(s[..|s| - 1])
  }

  /** CRLF and a dot stand right before position `p`. */
  predicate DotLineAt(s: seq<byte>, p: nat) {
    3 <= p <= |s| && s[p - 1] == DOT && s[p - 2] == LF && s[p - 3] == CR
  }

  /** What the loop makes of a buffer with these bytes in it. */
  function Absorb(buf: seq<byte>): (r: Round)
    ensures r.out + r.carry == buf
  {
    var p := LastCR(buf);
    if p < 3 || p == |buf| - 1 then Round([], buf, false)
    else if DotLineAt(buf, p) then
      Round(buf[..p - 3], buf[p - 3..], true)
    else Round(buf[..p], buf[p..], false)
  }

  function Min(a: nat, b: nat): nat {
    if a < b then a else b
  }

  /** How many bytes recv gives: what it has, what there is room for, and what is left of the stream. */
  function Received(size: nat, room: nat, left: nat): nat {
    Min(size, Min(room, left))
  }

  /**
   The loop, from the state in which `spooled` is in the file, `carry` in the buffer and
   `rest` still to come.  `sizes` says how many bytes each recv has to offer; running out of
   them is a client gone silent.
   */
  function Feed(size: nat, spooled: seq<byte>, carry: seq<byte>, rest: seq<byte>, sizes: seq<nat>): (res: Outcome)
    requires |carry| <= size
    decreases |sizes|
  {
    if sizes == [] then Dropped
    else
      var n := Received(sizes[0], size - |carry|, |rest|);
      if n == 0 then Dropped
      else
        var r := Absorb(carry + rest[..n]);
        if r.eom then Spooled(spooled + r.out, rest[n..])
        else Feed(size, spooled + r.out, r.carry, rest[n..], sizes[1..])
  }

  /** The loop as it runs, on its buffer. */
  method Receive(buffer: array<byte>, stream: seq<byte>, sizes: seq<nat>) returns (res: Outcome)
    modifies buffer
    ensures res == Feed(buffer.Length, [], [], stream, sizes)
  {
    hide Absorb, Received, LastCR;
    var start, spool, rest := 0, [], stream;
    var k := 0;
    while k < |sizes|
      invariant 0 <= k <= |sizes| && 0 <= start <= buffer.Length
      invariant Feed(buffer.Length, [], [], stream, sizes) ==
        Feed(buffer.Length, spool, buffer[..start], rest, sizes[k..])
    {
      var n := Received(sizes[k], buffer.Length - start, |rest|);
      if n == 0 { return Dropped; }
      ReceivedFits(sizes[k], buffer.Length - start, |rest|);
      var eom, out := Turn(buffer, start, rest[..n]);
      if eom { return Spooled(spool + out, rest[n..]); }
      spool, rest := spool + out, rest[n..];
      start := start + n - |out|;
      assert sizes[k..][1..] == sizes[k + 1..];
      k := k + 1;
    }
    return Dropped;
  }

  /** One round: take the bytes in, write what can be written, keep the rest in front. */
  method Turn(buffer: array<byte>, start: nat, bytes: seq<byte>) returns (eom: bool, out: seq<byte>)
    requires start + |bytes| <= buffer.Length && bytes != []
    modifies buffer
    ensures var r := Absorb(old(buffer[..start]) + bytes);
      && eom == r.eom && out == r.out
      && (!eom ==> |out| <= start + |bytes| && buffer[..start + |bytes| - |out|] == r.carry)
  {
    hide Absorb;
    var result := start + |bytes|;
    Take(buffer, start, bytes);
    var rpos;
    eom, rpos := Scan(buffer, result);
    out := buffer[..rpos];
    if !eom && rpos != 0 { Shift(buffer, rpos, result); }
  }

  lemma ReceivedFits(size: nat, room: nat, left: nat)
    ensures Received(size, room, left) <= room && Received(size, room, left) <= left
  {
  }

  /** recv: more bytes after the `start` bytes already there. */
  method Take(buffer: array<byte>, start: nat, bytes: seq<byte>)
    requires start + |bytes| <= buffer.Length
    modifies buffer
    ensures buffer[..start + |bytes|] == old(buffer[..start]) + bytes
  {
    forall i | 0 <= i < |bytes| { buffer[start + i] := bytes[i]; }
    assert buffer[..start] == old(buffer[..start]);
    assert buffer[start..start + |bytes|] == bytes;
  }

  /** Look for the last carriage return, and for the end of mail before it. */
  method Scan(buffer: array<byte>, result: nat) returns (eom: bool, rpos: nat)
    requires 0 < result <= buffer.Length
    ensures rpos <= result
    ensures Absorb(buffer[..result]) == Round(buffer[..rpos], buffer[rpos..result], eom)
  {
    hide LastCR;
    var p := FindCR(buffer, result);
    ghost var buf := buffer[..result];
    if p < 3 || p == result - 1 {
      eom, rpos := false, 0;
    } else if buffer[p - 1] == DOT && buffer[p - 2] == LF && buffer[p - 3] == CR {
      eom, rpos := true, p - 3;
    } else {
      eom, rpos := false, p;
    }
    assert buf[..rpos] == buffer[..rpos] && buf[rpos..] == buffer[rpos..result];
  }

  method FindCR(buffer: array<byte>, result: nat) returns (p: int)
    requires result <= buffer.Length
    ensures p == LastCR(buffer[..result])
  {
    p := result - 1;
    while p >= 0 && buffer[p] != CR
      invariant -1 <= p < result
      invariant forall i | p < i < result :: buffer[i] != CR
    {
      p := p - 1;
    }
    LastCRIs(buffer[..result], p);
  }

  /** Move the bytes from `from` up to `to` to the front, lowest first. */
  method Shift(buffer: array<byte>, from: nat, to: nat)
    requires from <= to <= buffer.Length
    modifies buffer
    ensures buffer[..to - from] == old(buffer[from..to])
  {
    for i := 0 to to - from
      invariant buffer[..i] == old(buffer[from..from + i])
      invariant forall j | i <= j < buffer.Length :: buffer[j] == old(buffer[j])
    {
      buffer[i] := buffer[from + i];
    }
  }

  lemma LastCRIs(s: seq<byte>, p: int)
    requires -1 <= p < |s| && (0 <= p ==> s[p] == CR)
    requires forall i | p < i < |s| :: s[i] != CR
    ensures LastCR(s) == p
  {
  }

  // ------------------------------------------------------ when the loop stops

  /**
   The bytes `s` received so far show the end of mail: CRLF and a dot before the last
   carriage return, which something follows.
   */
  predicate EndShown(s: seq<byte>) {
    var p := LastCR(s);
    3 <= p < |s| - 1 && DotLineAt(s, p)
  }

  /** A place where the loop can have cut the stream: at a carriage return that ends no mail. */
  predicate Cut(s: seq<byte>, f: nat) {
    f == 0 || (3 <= f < |s| && s[f] == CR && !DotLineAt(s, f))
  }

  lemma LastCRAfter(s: seq<byte>, f: nat)
    requires f <= |s| && Cut(s, f)
    ensures LastCR(s) == if LastCR(s[f..]) < 0 then -1 else f + LastCR(s[f..])
  {
    hide LastCR;
    var q := LastCR(s[f..]);
    if 0 <= q {
      forall i | f + q < i < |s| ensures s[i] != CR { assert s[i] == s[f..][i - f]; }
      LastCRIs(s, f + q);
    } else {
      forall i | f <= i < |s| ensures s[i] != CR { assert s[f..][i - f] == s[i]; }
      LastCRIs(s, -1);
    }
  }

  /**
   The loop looks at its buffer alone, and still sees the end of mail exactly when all the
   bytes received so far show it; and it cuts where it can be resumed.
   */
  lemma AbsorbSees(s: seq<byte>, f: nat)
    requires f <= |s| && Cut(s, f)
    ensures var r := Absorb(s[f..]);
      && (r.eom <==> EndShown(s))
      && (r.eom ==> f + |r.out| == LastCR(s) - 3)
      && (!r.eom ==> f + |r.out| <= |s| && Cut(s, f + |r.out|))
  {
    hide Absorb, LastCR;
    var q := LastCR(s[f..]);
    LastCRAfter(s, f);
    AbsorbIs(s[f..]);
    if 3 <= q { DotLineShift(s, f, q); }
    if 0 < f { assert s[f..][0] == CR; }
  }

  lemma AbsorbIs(buf: seq<byte>)
    ensures var r, p := Absorb(buf), LastCR(buf);
      && (r.eom <==> EndShown(buf))
      && |r.out| == if r.eom then p - 3 else if 3 <= p < |buf| - 1 then p else 0
  {
    hide LastCR;
  }

  lemma DotLineShift(s: seq<byte>, f: nat, q: nat)
    requires f <= |s| && 3 <= q <= |s| - f
    ensures DotLineAt(s[f..], q) <==> DotLineAt(s, f + q)
  {
    var buf := s[f..];
    assert buf[q - 1] == s[f + q - 1] && buf[q - 2] == s[f + q - 2] && buf[q - 3] == s[f + q - 3];
  }

  /** Cuts stay cuts as more bytes come in. */
  lemma CutGrows(s: seq<byte>, t: seq<byte>, f: nat)
    requires f <= |s| <= |t| && s == t[..|s|] && Cut(s, f)
    ensures Cut(t, f)
  {
    if f != 0 {
      assert forall i | f - 3 <= i <= f :: t[i] == t[..|s|][i];
    }
  }

  // ------------------------------------------------ every stream, every splitting

  /** The first `q` bytes end the mail; it is `data`, and `unread` is what comes after them. */
  predicate Ends(s: seq<byte>, q: nat, data: seq<byte>, unread: seq<byte>) {
    q <= |s| && EndShown(s[..q]) && unread == s[q..] && data == s[..LastCR(s[..q]) - 3]
  }

  /** A read of the loop: bytes in the file before it, and bytes received in all after it. */
  datatype Reading = Reading(file: nat, got: nat)

  /** How far the file goes after a read: up to the last CR, if enough stands before and something after it. */
  function NextCut(s: seq<byte>, f: nat, q: nat): (f': nat)
    requires f <= q <= |s|
    ensures f <= f' <= q
  {
    var p := LastCR(s[f..q]);
    if p < 3 || p == q - f - 1 then f else f + p
  }

  /** All reads there would be if the loop never saw an end; it says nothing of ends of mail. */
  function Readings(size: nat, s: seq<byte>, f: nat, at: nat, sizes: seq<nat>): (marks: seq<Reading>)
    requires f <= at <= |s| && at - f <= size
    ensures forall m | m in marks :: m.file <= m.got && at < m.got <= |s|
    decreases |sizes|
  {
    if sizes == [] then []
    else
      var n := Received(sizes[0], size - (at - f), |s| - at);
      if n == 0 then []
      else [Reading(f, at + n)] + Readings(size, s, NextCut(s, f, at + n), at + n, sizes[1..])
  }

  /** The first read after which the bytes received show an end, or the number of reads. */
  function FirstShown(s: seq<byte>, marks: seq<Reading>): (i: nat)
    requires forall m | m in marks :: m.got <= |s|
    ensures i <= |marks|
    ensures i < |marks| ==> EndShown(s[..marks[i].got])
    ensures forall j | 0 <= j < i :: !EndShown(s[..marks[j].got])
  {
    if marks == [] || EndShown(s[..marks[0].got]) then 0 else 1 + FirstShown(s, marks[1..])
  }

  /** What the loop has to answer: the mail is cut before its CRLF-dot at the first read that shows it. */
  function Taken(s: seq<byte>, marks: seq<Reading>): Outcome
    requires forall m | m in marks :: m.got <= |s|
  {
    var i := FirstShown(s, marks);
    if i == |marks| then Dropped
    else Spooled(s[..LastCR(s[..marks[i].got]) - 3], s[marks[i].got..])
  }

  /** One round, from `at` to `q` bytes received, with the file at `f`. */
  lemma RoundOf(s: seq<byte>, f: nat, at: nat, q: nat)
    requires f <= at <= q <= |s| && Cut(s[..at], f)
    ensures s[f..at] + s[at..][..q - at] == s[f..q] && s[at..][q - at..] == s[q..]
    ensures var r := Absorb(s[f..q]);
      && (r.eom <==> EndShown(s[..q]))
      && (r.eom ==> Ends(s, q, s[..f] + r.out, s[q..]))
      && (!r.eom ==>
            && f + |r.out| <= q && Cut(s[..q], f + |r.out|) && f + |r.out| == NextCut(s, f, q)
            && s[..f] + r.out == s[..f + |r.out|] && r.carry == s[f + |r.out|..q])
  {
    hide Absorb, LastCR, EndShown, Cut, NextCut;
    var t := s[..q];
    assert t[..at] == s[..at] && t[f..] == s[f..q];
    CutGrows(s[..at], t, f);
    AbsorbSees(t, f);
    CutIs(s, f, q);
    AbsorbSplits(s, f, q);
  }

  lemma CutIs(s: seq<byte>, f: nat, q: nat)
    requires f <= q <= |s|
    ensures !Absorb(s[f..q]).eom ==> f + |Absorb(s[f..q]).out| == NextCut(s, f, q)
  {
    hide Absorb, LastCR, EndShown;
    AbsorbIs(s[f..q]);
  }

  lemma AbsorbSplits(s: seq<byte>, f: nat, q: nat)
    requires f <= q <= |s|
    ensures var r := Absorb(s[f..q]);
      && f + |r.out| <= q && s[..f] + r.out == s[..f + |r.out|] && r.carry == s[f + |r.out|..q]
  {
    var r := Absorb(s[f..q]);
    assert r.out == (r.out + r.carry)[..|r.out|] == s[f..q][..|r.out|];
    assert r.carry == (r.out + r.carry)[|r.out|..] == s[f..q][|r.out|..];
  }

  /**
   For every stream and every splitting: the loop takes the mail if and only if some read
   shows its end, at the first that does, and cuts it there; otherwise the client is lost.
   */
  lemma {:induction false} FeedStops(size: nat, s: seq<byte>, f: nat, at: nat, sizes: seq<nat>)
    requires f <= at <= |s| && at - f <= size && Cut(s[..at], f)
    ensures Feed(size, s[..f], s[f..at], s[at..], sizes) == Taken(s, Readings(size, s, f, at, sizes))
    decreases |sizes|
  {
    hide Absorb, EndShown, Cut, NextCut, LastCR, Received, Taken, Ends, FirstShown;
    if sizes == [] {
      TakenNever(s);
    } else {
      ReceivedFits(sizes[0], size - (at - f), |s| - at);
      var n := Received(sizes[0], size - (at - f), |s| - at);
      if n == 0 {
        TakenNever(s);
      } else {
        var q := at + n;
        RoundOf(s, f, at, q);
        var rest := Readings(size, s, NextCut(s, f, q), q, sizes[1..]);
        TakenStep(s, Reading(f, q), rest);
        if Absorb(s[f..q]).eom {
          EndsAt(s, q, s[..f] + Absorb(s[f..q]).out);
        } else {
          FeedStops(size, s, NextCut(s, f, q), q, sizes[1..]);
        }
      }
    }
  }

  lemma TakenNever(s: seq<byte>)
    ensures Taken(s, []) == Dropped
  {
  }

  lemma TakenStep(s: seq<byte>, m: Reading, rest: seq<Reading>)
    requires m.got <= |s| && forall r | r in rest :: r.got <= |s|
    ensures Taken(s, [m] + rest) ==
      if EndShown(s[..m.got]) then Spooled(s[..LastCR(s[..m.got]) - 3], s[m.got..]) else Taken(s, rest)
  {
    hide LastCR;
    assert ([m] + rest)[1..] == rest;
  }

  lemma EndsAt(s: seq<byte>, q: nat, data: seq<byte>)
    requires q <= |s| && Ends(s, q, data, s[q..])
    ensures EndShown(s[..q]) && data == s[..LastCR(s[..q]) - 3]
  {
  }

  // ------------------------------------------------------------- proper mails

  predicate TerminatorAt(s: seq<byte>, i: nat) {
    i + 5 <= |s| && s[i] == CR && s[i + 1] == LF && s[i + 2] == DOT && s[i + 3] == CR && s[i + 4] == LF
  }

  /** A stream as a client sends one mail: CRs only in CRLF, and CRLF.CRLF at its end and only there. */
  ghost predicate ProperMail(s: seq<byte>) {
    && (forall i | 0 <= i < |s| && s[i] == CR :: i + 1 < |s| && s[i + 1] == LF)
    && 5 <= |s| && TerminatorAt(s, |s| - 5)
    && (forall i: nat | i < |s| - 5 :: !TerminatorAt(s, i))
  }

  /** Of all prefixes of a proper mail only the whole of it shows the end. */
  lemma ProperEndsOnce(s: seq<byte>, q: nat)
    requires ProperMail(s) && q <= |s|
    ensures EndShown(s[..q]) <==> q == |s|
    ensures q == |s| ==> LastCR(s[..q]) - 3 == |s| - 5
  {
    hide LastCR;
    var t := s[..q];
    if q == |s| {
      assert t == s;
      LastCRIs(s, |s| - 2);
    } else if EndShown(t) {
      ShownIsTerminator(s, q);
    }
  }

  lemma ShownIsTerminator(s: seq<byte>, q: nat)
    requires forall i | 0 <= i < |s| && s[i] == CR :: i + 1 < |s| && s[i + 1] == LF
    requires q <= |s| && EndShown(s[..q])
    ensures TerminatorAt(s, LastCR(s[..q]) - 3) && LastCR(s[..q]) + 2 <= q
  {
    hide LastCR;
    var t := s[..q];
    var p := LastCR(t);
    assert forall i | p - 3 <= i <= p + 1 :: s[i] == t[i];
  }

  /** Some read brings the last byte. */
  predicate AllRead(s: seq<byte>, marks: seq<Reading>) {
    exists i :: 0 <= i < |marks| && marks[i].got == |s|
  }

  /** After a read the buffer is full, and its last CR is too near the front or at the very end to flush. */
  predicate Stuck(size: nat, s: seq<byte>, m: Reading)
    requires m.file <= m.got <= |s|
  {
    var p := LastCR(s[m.file..m.got]);
    m.got - m.file == size && (p < 3 || p == size - 1)
  }

  ghost predicate NeverStuck(size: nat, s: seq<byte>, marks: seq<Reading>)
    requires forall m | m in marks :: m.file <= m.got <= |s|
  {
    forall i | 0 <= i < |marks| && marks[i].got < |s| :: !Stuck(size, s, marks[i])
  }

  /** The client keeps sending: every read has something to offer, and there are enough of them. */
  predicate Generous(s: seq<byte>, sizes: seq<nat>) {
    |s| <= |sizes| && forall i | 0 <= i < |sizes| :: 1 <= sizes[i]
  }

  /** Reads that bring something, and enough of them, bring everything unless the buffer gets stuck. */
  lemma {:induction false} ReadsToTheEnd(size: nat, s: seq<byte>, f: nat, at: nat, sizes: seq<nat>)
    requires f <= at < |s| && at - f < size
    requires |s| - at <= |sizes| && forall i | 0 <= i < |sizes| :: 1 <= sizes[i]
    ensures AllRead(s, Readings(size, s, f, at, sizes)) <==> NeverStuck(size, s, Readings(size, s, f, at, sizes))
    decreases |sizes|
  {
    hide NextCut, Stuck, Readings, AllRead, NeverStuck, Received;
    FirstReading(size, s, f, at, sizes);
    var q := at + Received(sizes[0], size - (at - f), |s| - at);
    var f' := NextCut(s, f, q);
    var rest := Readings(size, s, f', q, sizes[1..]);
    OneMore(size, s, Reading(f, q), rest);
    StuckOrNot(size, s, f, q);
    if q == |s| || Stuck(size, s, Reading(f, q)) {
      NothingLeft(size, s, f', q, sizes[1..]);
      NoReadings(size, s);
    } else {
      ReadsToTheEnd(size, s, f', q, sizes[1..]);
    }
  }

  lemma OneMore(size: nat, s: seq<byte>, m: Reading, rest: seq<Reading>)
    requires m.file <= m.got <= |s| && forall r | r in rest :: r.file <= r.got <= |s|
    ensures AllRead(s, [m] + rest) <==> m.got == |s| || AllRead(s, rest)
    ensures NeverStuck(size, s, [m] + rest) <==>
      (m.got < |s| ==> !Stuck(size, s, m)) && NeverStuck(size, s, rest)
  {
    hide Stuck;
    var marks := [m] + rest;
    assert marks[0] == m && forall i | 0 <= i < |rest| :: rest[i] == marks[i + 1];
    if AllRead(s, rest) {
      var i :| 0 <= i < |rest| && rest[i].got == |s|;
      assert marks[i + 1].got == |s|;
    }
  }

  lemma NoReadings(size: nat, s: seq<byte>)
    ensures !AllRead(s, []) && NeverStuck(size, s, [])
  {
  }

  lemma FirstReading(size: nat, s: seq<byte>, f: nat, at: nat, sizes: seq<nat>)
    requires f <= at < |s| && at - f < size && sizes != [] && 1 <= sizes[0]
    ensures var q := at + Received(sizes[0], size - (at - f), |s| - at);
      && at < q <= |s| && q - f <= size
      && Readings(size, s, f, at, sizes) == [Reading(f, q)] + Readings(size, s, NextCut(s, f, q), q, sizes[1..])
  {
    hide NextCut;
  }

  /** With no room in the buffer, or nothing to come, there is no read. */
  lemma NothingLeft(size: nat, s: seq<byte>, f: nat, at: nat, sizes: seq<nat>)
    requires f <= at <= |s| && at - f <= size && (at == |s| || at - f == size)
    ensures Readings(size, s, f, at, sizes) == []
  {
    hide NextCut;
  }

  lemma StuckOrNot(size: nat, s: seq<byte>, f: nat, q: nat)
    requires f <= q <= |s| && q - f <= size
    ensures Stuck(size, s, Reading(f, q)) <==> q - NextCut(s, f, q) == size
  {
    hide LastCR;
  }

  /**
   However a proper mail is split, the loop spools all of it but the terminator and stops on
   its last byte, if and only if that byte is read; and it is, from a client that keeps
   sending, if and only if no read leaves the buffer full with nothing in it to flush.
   */
  lemma ChunkIndependent(size: nat, s: seq<byte>, sizes: seq<nat>)
    requires ProperMail(s)
    ensures var marks := Readings(size, s, 0, 0, sizes);
      && Feed(size, [], [], s, sizes) == (if AllRead(s, marks) then Spooled(s[..|s| - 5], []) else Dropped)
      && (1 <= size && Generous(s, sizes) ==> (AllRead(s, marks) <==> NeverStuck(size, s, marks)))
  {
    hide EndShown, LastCR, ProperMail;
    var marks := Readings(size, s, 0, 0, sizes);
    assert s[..0] == [] && s[0..0] == [] && s[0..] == s;
    NothingCut();
    FeedStops(size, s, 0, 0, sizes);
    forall i | 0 <= i < |marks| ensures EndShown(s[..marks[i].got]) <==> marks[i].got == |s| {
      assert marks[i] in marks;
      ProperEndsOnce(s, marks[i].got);
    }
    ProperEndsOnce(s, |s|);
    MailNotEmpty(s);
    if 1 <= size && Generous(s, sizes) {
      ReadsToTheEnd(size, s, 0, 0, sizes);
    }
  }

  lemma NothingCut()
    ensures Cut([], 0)
  {
  }

  lemma MailNotEmpty(s: seq<byte>)
    requires ProperMail(s)
    ensures 5 <= |s|
  {
  }

  /** The terminator sent after the spooled bytes gives the client's stream back. */
  lemma SpooledRestores(s: seq<byte>)
    requires ProperMail(s)
    ensures s[..|s| - 5] + TERMINATOR == s
  {
    assert s[|s| - 5..] == TERMINATOR;
  }

  // --------------------------------------------------------- what it does not do

  /** A first read that fills the buffer and ends in a CR leaves it stuck: the client is dropped. */
  lemma FullBufferDrops(s: seq<byte>, size: nat, sizes: seq<nat>)
    requires 1 <= size <= |s| && s[size - 1] == CR
    requires sizes != [] && size <= sizes[0]
    ensures Feed(size, [], [], s, sizes) == Dropped
  {
    assert [] + s[..size] == s[..size];
    LastCRIs(s[..size], size - 1);
  }

  /**
   A dot on the very first line is not seen, though the CRLF of the DATA command stands
   before it: an empty mail, sent as a dot and CRLF alone, never ends.
   */
  lemma EmptyMailNeverEnds(size: nat, sizes: seq<nat>)
    ensures Feed(size, [], [], [DOT, CR, LF], sizes) == Dropped
  {
    var s := [DOT, CR, LF];
    assert s[..0] == [] && s[0..0] == [] && s[0..] == s;
    FeedStops(size, s, 0, 0, sizes);
    forall q: nat | q <= |s| ensures !EndShown(s[..q]) {
    }
    assert forall m | m in Readings(size, s, 0, 0, sizes) :: !EndShown(s[..m.got]);
  }

  /**
   Lines behind the terminator hide it if one read brings all of them: the mail is lost,
   unless a dot line stands before their last CR as well.
   */
  lemma PipelinedCommandHidesEnd(size: nat, mail: seq<byte>, more: seq<byte>, sizes: seq<nat>)
    requires 2 <= |more| && more[|more| - 2] == CR && more[|more| - 1] == LF
    requires var s := mail + TERMINATOR + more; |s| <= size && sizes != [] && |s| <= sizes[0]
    ensures var s, p := mail + TERMINATOR + more, |mail| + 5 + |more| - 2;
      Feed(size, [], [], s, sizes) == if DotLineAt(s, p) then Spooled(s[..p - 3], []) else Dropped
  {
    hide LastCR, EndShown, DotLineAt, NextCut, Taken;
    var s := mail + TERMINATOR + more;
    assert s[..0] == [] && s[0..0] == [] && s[0..] == s && s[..|s|] == s;
    NothingCut();
    FeedStops(size, s, 0, 0, sizes);
    FirstReading(size, s, 0, 0, sizes);
    NothingLeft(size, s, NextCut(s, 0, |s|), |s|, sizes[1..]);
    assert Readings(size, s, 0, 0, sizes) == [Reading(0, |s|)];
    assert |s| == |mail| + 5 + |more| && s[|mail| + 5..] == more;
    OneReading(s, |s| - 2);
  }

  lemma OneReading(s: seq<byte>, p: nat)
    requires 3 <= p == |s| - 2 && s[p] == CR && s[p + 1] == LF
    ensures Taken(s, [Reading(0, |s|)]) == if DotLineAt(s, p) then Spooled(s[..p - 3], []) else Dropped
  {
    hide LastCR, Taken;
    LastCRIs(s, p);
    var m := Reading(0, |s|);
    assert s[..m.got] == s && s[m.got..] == [];
    assert EndShown(s) <==> DotLineAt(s, p);
    TakenNever(s);
    TakenStep(s, m, []);
    assert [m] + [] == [m];
  }
}
